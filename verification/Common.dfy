/** Small vocabulary shared by the models: optional values and flattening of nested sequences. */
module Common {

  datatype Option<+T> = None | Some(value: T)

  function Last<T>(s: seq<T>): T
    requires s != []
  {
    s[|s| - 1]
  }

  function Front<T>(s: seq<T>): seq<T>
    requires s != []
  {
    s[..|s| - 1]
  }

  lemma {:induction false} Snoc<T>(s: seq<T>)
    requires s != []
    ensures s == Front(s) + [Last(s)] && multiset(s) == multiset(Front(s)) + multiset{Last(s)}
  {
    assert s == Front(s) + [Last(s)];
  }

  lemma {:induction false} RemoveAt<T>(s: seq<T>, k: nat)
    requires k < |s|
    ensures multiset(s) == multiset(s[..k] + s[k + 1..]) + multiset{s[k]}
  {
    assert s == s[..k] + [s[k]] + s[k + 1..];
  }

  /** The first element of a sequence can be taken out of any sequence with the same elements. */
  lemma {:induction false} TakeFirstOut<T>(a: seq<T>, b: seq<T>) returns (k: nat)
    requires a != [] && multiset(a) == multiset(b)
    ensures k < |b| && b[k] == a[0] && multiset(a[1..]) == multiset(b[..k] + b[k + 1..])
  {
    assert a[0] in multiset(b);
    k :| 0 <= k < |b| && b[k] == a[0];
    RemoveAt(b, k);
    assert a == [a[0]] + a[1..];
    assert multiset(a[1..]) == multiset(a) - multiset{a[0]};
    assert multiset(b[..k] + b[k + 1..]) == multiset(b) - multiset{b[k]};
  }

  lemma {:induction false} SliceSlice<T>(s: seq<T>, i: nat, j: nat, k: nat)
    requires i <= |s| && j <= k <= |s| - i
    ensures s[i..][j..k] == s[i + j..i + k] && s[i..][j..] == s[i + j..]
  {
  }

  lemma {:induction false} SliceJoin<T>(s: seq<T>, i: nat, j: nat, k: nat)
    requires i <= j <= k <= |s|
    ensures s[i..j] + s[j..k] == s[i..k]
  {
  }

  /** The pieces laid end to end. */
  function Concat<T>(pieces: seq<seq<T>>): seq<T>
  {
    if pieces == [] then [] else pieces[0] + Concat(pieces[1..])
  }

  lemma {:induction false} ConcatNone<T>()
    ensures Concat<T>([]) == []
  {
  }

  lemma {:induction false} ConcatAppend<T>(a: seq<seq<T>>, b: seq<seq<T>>)
    ensures Concat(a + b) == Concat(a) + Concat(b)
  {
    if a == [] {
      assert a + b == b;
    } else {
      assert (a + b)[1..] == a[1..] + b;
      ConcatAppend(a[1..], b);
    }
  }

  /** Appending one piece appends its elements. */
  lemma {:induction false} ConcatSnoc<T>(a: seq<seq<T>>, p: seq<T>)
    ensures Concat(a + [p]) == Concat(a) + p
  {
    ConcatAppend(a, [p]);
    assert Concat([p]) == p + Concat<T>([]);
  }

  lemma {:induction false} ConcatCut<T>(a: seq<seq<T>>, k: nat)
    requires k <= |a|
    ensures Concat(a) == Concat(a[..k]) + Concat(a[k..])
  {
    assert a == a[..k] + a[k..];
    ConcatAppend(a[..k], a[k..]);
  }

  /** Piece `k` starts right after all the pieces before it. */
  lemma {:induction false} ConcatSplit<T>(a: seq<seq<T>>, k: nat)
    requires k < |a|
    ensures Concat(a) == Concat(a[..k]) + a[k] + Concat(a[k + 1..])
  {
    assert a == a[..k] + [a[k]] + a[k + 1..];
    ConcatAppend(a[..k] + [a[k]], a[k + 1..]);
    ConcatSnoc(a[..k], a[k]);
  }
}
