/**
 * Ordinary bracket matching over round, square and curly brackets, stated twice: as a grammar
 * of balanced text (`Balanced`, `Pair`), and as the stack machine `Track` that finds partners.
 * The lemmas show that the two agree and that both read the same from either end.
 */
module BracketGrammar {
  import opened Common

  predicate IsOpen(c: char) {
    c == '(' || c == '[' || c == '{'
  }

  predicate IsClose(c: char) {
    c == ')' || c == ']' || c == '}'
  }

  /** The other bracket of the same kind; any other character stands for itself. */
  function Partner(c: char): (p: char)
    ensures IsOpen(c) <==> IsClose(p)
    ensures IsClose(c) <==> IsOpen(p)
  {
    if c == '(' then ')' else if c == ')' then '('
    else if c == '[' then ']' else if c == ']' then '['
    else if c == '{' then '}' else if c == '}' then '{'
    else c
  }

  // ----- the grammar

  /** How balanced text is made: ordinary characters, and brackets wrapped around balanced text. */
  datatype Nest = Done | Plain(c: char, rest: Nest) | Wrapped(open: char, inner: Nest, rest: Nest)

  predicate Proper(t: Nest) {
    match t
    case Done => true
    case Plain(c, rest) => !IsOpen(c) && !IsClose(c) && Proper(rest)
    case Wrapped(open, inner, rest) => IsOpen(open) && Proper(inner) && Proper(rest)
  }

  /** The text that `t` describes, followed by `after`. */
  function Text(t: Nest, after: string): string {
    match t
    case Done => after
    case Plain(c, rest) => [c] + Text(rest, after)
    case Wrapped(open, inner, rest) => [open] + Text(inner, [Partner(open)] + Text(rest, after))
  }

  function Size(t: Nest): nat {
    match t
    case Done => 0
    case Plain(c, rest) => 1 + Size(rest)
    case Wrapped(open, inner, rest) => 2 + Size(inner) + Size(rest)
  }

  ghost predicate Balanced(s: string) {
    exists t :: Proper(t) && Text(t, []) == s
  }

  /** The bracket at `i` and the bracket at `j` are partners. */
  ghost predicate Pair(s: string, i: nat, j: nat) {
    i < j < |s| && IsOpen(s[i]) && s[j] == Partner(s[i]) && Balanced(s[i + 1..j])
  }

  lemma {:induction false} TextAppend(t: Nest, a: string, b: string)
    ensures Text(t, a + b) == Text(t, a) + b
  {
    match t
    case Done =>
    case Plain(c, rest) =>
      TextAppend(rest, a, b);
    case Wrapped(open, inner, rest) =>
      TextAppend(rest, a, b);
      TextAppend(inner, [Partner(open)] + Text(rest, a), b);
      assert [Partner(open)] + (Text(rest, a) + b) == [Partner(open)] + Text(rest, a) + b;
  }

  lemma {:induction false} TextSize(t: Nest, after: string)
    ensures |Text(t, after)| == Size(t) + |after| && Text(t, after) == Text(t, []) + after
  {
    assert [] + after == after;
    TextAppend(t, [], after);
    match t
    case Done =>
    case Plain(c, rest) =>
      TextSize(rest, after);
    case Wrapped(open, inner, rest) =>
      TextSize(rest, after);
      TextSize(inner, [Partner(open)] + Text(rest, after));
  }

  // ----- the stack machine

  /** Closed after `len` characters, broken by a wrong closer, or still open with a stack of openers. */
  datatype Outcome = Closed(len: nat) | Broken | Pending(stack: string)

  function Shift(k: nat, o: Outcome): Outcome {
    if o.Closed? then Closed(o.len + k) else o
  }

  /** Follow `s` with the openers `stack` pending (innermost last) until the stack empties. */
  function Track(s: string, stack: string): Outcome {
    if s == [] then Pending(stack)
    else if IsOpen(s[0]) then Shift(1, Track(s[1..], stack + [s[0]]))
    else if !IsClose(s[0]) then Shift(1, Track(s[1..], stack))
    else if stack == [] || Last(stack) != Partner(s[0]) then Broken
    else if |stack| == 1 then Closed(1)
    else Shift(1, Track(s[1..], Front(stack)))
  }

  lemma {:induction false} TrackConcat(a: string, b: string, stack: string)
    ensures Track(a + b, stack) ==
            match Track(a, stack) case Pending(rest) => Shift(|a|, Track(b, rest)) case o => o
  {
    if a == [] {
      assert a + b == b;
    } else {
      assert (a + b)[1..] == a[1..] + b;
      if IsOpen(a[0]) {
        TrackConcat(a[1..], b, stack + [a[0]]);
      } else if !IsClose(a[0]) {
        TrackConcat(a[1..], b, stack);
      } else if |stack| > 1 {
        TrackConcat(a[1..], b, Front(stack));
      }
    }
  }

  lemma {:induction false} TrackCons(c: char, rest: string, stack: string)
    ensures Track([c] + rest, stack) ==
            if IsOpen(c) then Shift(1, Track(rest, stack + [c]))
            else if !IsClose(c) then Shift(1, Track(rest, stack))
            else if stack == [] || Last(stack) != Partner(c) then Broken
            else if |stack| == 1 then Closed(1)
            else Shift(1, Track(rest, Front(stack)))
  {
    assert ([c] + rest)[1..] == rest;
  }

  /** Balanced text leaves the pending openers alone. */
  lemma {:induction false} TrackBalanced(t: Nest, after: string, stack: string)
    requires Proper(t) && stack != []
    ensures Track(Text(t, after), stack) == Shift(Size(t), Track(after, stack))
    decreases t
  {
    match t
    case Done =>
    case Plain(c, rest) =>
      TrackCons(c, Text(rest, after), stack);
      TrackBalanced(rest, after, stack);
    case Wrapped(open, inner, rest) =>
      var tail := Text(rest, after);
      TrackCons(open, Text(inner, [Partner(open)] + tail), stack);
      TrackBalanced(inner, [Partner(open)] + tail, stack + [open]);
      TrackCons(Partner(open), tail, stack + [open]);
      assert Front(stack + [open]) == stack;
      TrackBalanced(rest, after, stack);
  }

  lemma {:induction false} ClosedNeedsText(s: string, stack: string)
    requires Track(s, stack).Closed?
    ensures s != []
  {
  }

  /** When tracking closes everything, the innermost pending opener is closed first, after balanced text. */
  lemma {:induction false} InnermostCloses(s: string, stack: string) returns (t: Nest, after: string)
    requires stack != [] && Track(s, stack).Closed?
    ensures Proper(t) && s == Text(t, [Partner(Last(stack))] + after)
    ensures Track(s, stack) ==
            if |stack| == 1 then Closed(Size(t) + 1) else Shift(Size(t) + 1, Track(after, Front(stack)))
    decreases |s|
  {
    hide Track;
    ClosedNeedsText(s, stack);
    var c, rest := s[0], s[1..];
    assert s == [c] + rest;
    TrackCons(c, rest, stack);
    if IsClose(c) {
      t, after := Done, rest;
    } else if IsOpen(c) {
      var inner, next := InnermostCloses(rest, stack + [c]);
      NestedNext(rest, stack, c, inner, next);
      var others;
      others, after := InnermostCloses(next, stack);
      t := Wrapped(c, inner, others);
    } else {
      var others;
      others, after := InnermostCloses(rest, stack);
      t := Plain(c, others);
    }
  }

  /** Once a nested pair is closed, tracking goes on behind it with the openers from before it. */
  lemma {:induction false} NestedNext(rest: string, stack: string, c: char, inner: Nest, next: string)
    requires stack != [] && Track(rest, stack + [c]).Closed?
    requires rest == Text(inner, [Partner(c)] + next)
    requires Track(rest, stack + [c]) == Shift(Size(inner) + 1, Track(next, Front(stack + [c])))
    ensures Track(next, stack).Closed? && |next| < |rest|
    ensures Track(rest, stack + [c]) == Shift(Size(inner) + 1, Track(next, stack))
  {
    assert Front(stack + [c]) == stack;
    TextSize(inner, [Partner(c)] + next);
  }

  /** Balanced text between an opener and its closer makes tracking stop right there. */
  lemma {:induction false} PairIsTracked(s: string, i: nat, j: nat)
    requires Pair(s, i, j)
    ensures Track(s[i..], []) == Closed(j - i + 1)
  {
    var t :| Proper(t) && Text(t, []) == s[i + 1..j];
    var after := s[j + 1..];
    var tail := [s[j]] + after;
    TextSize(t, []);
    TextSize(t, tail);
    assert s[i..] == [s[i]] + (s[i + 1..j] + tail);
    TrackCons(s[i], s[i + 1..j] + tail, []);
    assert [] + [s[i]] == [s[i]];
    TrackBalanced(t, tail, [s[i]]);
    TrackCons(s[j], after, [s[i]]);
  }

  lemma {:induction false} TrackedIsPair(s: string, i: nat, n: nat)
    requires i < |s| && IsOpen(s[i]) && Track(s[i..], []) == Closed(n)
    ensures n >= 2 && Pair(s, i, i + n - 1)
  {
    var rest := s[i + 1..];
    assert s[i..] == [s[i]] + rest;
    TrackCons(s[i], rest, []);
    assert [] + [s[i]] == [s[i]];
    var t, after := InnermostCloses(rest, [s[i]]);
    var tail := [Partner(s[i])] + after;
    TextSize(t, tail);
    TextSize(t, []);
    assert rest[Size(t)] == tail[0];
    assert s[i + 1..i + n - 1] == rest[..Size(t)] == Text(t, []);
  }

  /** Tracking from an opener finds exactly its partner. */
  lemma {:induction false} TrackFindsPair(s: string, i: nat, j: nat)
    requires i < |s| && IsOpen(s[i])
    ensures i <= j && Track(s[i..], []) == Closed(j - i + 1) <==> Pair(s, i, j)
  {
    if Pair(s, i, j) {
      PairIsTracked(s, i, j);
    }
    if i <= j && Track(s[i..], []) == Closed(j - i + 1) {
      TrackedIsPair(s, i, j - i + 1);
    }
  }

  lemma {:induction false} PartnerIsUnique(s: string, i: nat, j: nat, j': nat)
    requires Pair(s, i, j) && Pair(s, i, j')
    ensures j == j'
  {
    TrackFindsPair(s, i, j);
    TrackFindsPair(s, i, j');
  }

  // ----- reading from the other end

  /** The text read backwards with every bracket turned round. */
  function Mirror(s: string): (m: string)
    ensures |m| == |s|
  {
    if s == [] then [] else Mirror(s[1..]) + [Partner(s[0])]
  }

  lemma {:induction false} MirrorConcat(a: string, b: string)
    ensures Mirror(a + b) == Mirror(b) + Mirror(a)
  {
    if a == [] {
      assert a + b == b;
    } else {
      MirrorConcat(a[1..], b);
      assert (a + b)[1..] == a[1..] + b;
    }
  }

  /** Reading backwards puts the last character first. */
  lemma {:induction false} MirrorSnoc(s: string, c: char)
    ensures Mirror(s + [c]) == [Partner(c)] + Mirror(s)
  {
    MirrorConcat(s, [c]);
    assert [c][1..] == [];
  }

  lemma {:induction false} MirrorTwice(s: string)
    ensures Mirror(Mirror(s)) == s
  {
    if s == [] {
    } else {
      MirrorSnoc(Mirror(s[1..]), Partner(s[0]));
      MirrorTwice(s[1..]);
    }
  }

  /** The mirrored derivation, put in front of `acc`. */
  function MirrorNest(t: Nest, acc: Nest): Nest {
    match t
    case Done => acc
    case Plain(c, rest) => MirrorNest(rest, Plain(c, acc))
    case Wrapped(open, inner, rest) => MirrorNest(rest, Wrapped(open, MirrorNest(inner, Done), acc))
  }

  lemma {:induction false} MirrorNestProper(t: Nest, acc: Nest)
    requires Proper(t) && Proper(acc)
    ensures Proper(MirrorNest(t, acc))
    decreases t
  {
    match t
    case Done =>
    case Plain(c, rest) =>
      MirrorNestProper(rest, Plain(c, acc));
    case Wrapped(open, inner, rest) =>
      MirrorNestProper(inner, Done);
      MirrorNestProper(rest, Wrapped(open, MirrorNest(inner, Done), acc));
  }

  lemma {:induction false} MirrorCons(c: char, s: string)
    ensures Mirror([c] + s) == Mirror(s) + [Partner(c)]
  {
    assert ([c] + s)[1..] == s;
  }

  lemma {:induction false} MirrorNestText(t: Nest, acc: Nest, after: string)
    requires Proper(t)
    ensures Text(MirrorNest(t, acc), after) == Mirror(Text(t, [])) + Text(acc, after)
    decreases t
  {
    match t
    case Done =>
    case Plain(c, rest) =>
      MirrorNestText(rest, Plain(c, acc), after);
      MirrorCons(c, Text(rest, []));
    case Wrapped(open, inner, rest) =>
      var wrapped := Wrapped(open, MirrorNest(inner, Done), acc);
      MirrorNestText(rest, wrapped, after);
      MirrorNestText(inner, Done, [Partner(open)] + Text(acc, after));
      MirrorWrapped(open, inner, rest);
      Regroup(Mirror(Text(rest, [])), [open], Mirror(Text(inner, [])), [Partner(open)], Text(acc, after));
  }

  lemma {:induction false} Regroup(a: string, b: string, c: string, d: string, e: string)
    ensures a + (b + (c + (d + e))) == (a + (b + c + d)) + e
  {
  }

  lemma {:induction false} MirrorWrapped(open: char, inner: Nest, rest: Nest)
    requires IsOpen(open)
    ensures Mirror(Text(Wrapped(open, inner, rest), [])) ==
            Mirror(Text(rest, [])) + ([open] + Mirror(Text(inner, [])) + [Partner(open)])
  {
    var close, a, b := Partner(open), Text(inner, []), Text(rest, []);
    TextSize(inner, [close] + b);
    MirrorCons(open, a + ([close] + b));
    MirrorConcat(a, [close] + b);
    MirrorCons(close, b);
  }

  lemma {:induction false} MirrorBalanced(s: string)
    requires Balanced(s)
    ensures Balanced(Mirror(s))
  {
    var t :| Proper(t) && Text(t, []) == s;
    MirrorNestProper(t, Done);
    MirrorNestText(t, Done, []);
    assert Mirror(s) + [] == Mirror(s);
  }

  lemma {:induction false} MirrorMiddle(a: string, b: string, c: string)
    ensures Mirror(a + b + c)[|c|..|c| + |b|] == Mirror(b)
  {
    MirrorConcat(a + b, c);
    MirrorConcat(a, b);
  }

  /** A slice of the mirrored text is the mirrored slice. */
  lemma {:induction false} MirrorSlice(s: string, lo: nat, hi: nat)
    requires lo <= hi <= |s|
    ensures Mirror(s)[|s| - hi..|s| - lo] == Mirror(s[lo..hi])
  {
    assert s == s[..lo] + s[lo..hi] + s[hi..];
    MirrorMiddle(s[..lo], s[lo..hi], s[hi..]);
  }

  lemma {:induction false} MirrorAt(s: string, k: nat)
    requires k < |s|
    ensures Mirror(s)[|s| - 1 - k] == Partner(s[k])
  {
    MirrorSlice(s, k, k + 1);
    assert s[k..k + 1] == [s[k]] && [s[k]][1..] == [];
    assert Mirror(s)[|s| - 1 - k] == Mirror(s)[|s| - (k + 1)..|s| - k][0];
  }

  /** Partners stay partners when the text is read from the other end. */
  lemma {:induction false} MirrorPair(s: string, i: nat, j: nat)
    requires i < |s| && j < |s|
    ensures Pair(s, i, j) <==> Pair(Mirror(s), |s| - 1 - j, |s| - 1 - i)
  {
    if i < j {
      MirrorAt(s, i);
      MirrorAt(s, j);
      var inner := s[i + 1..j];
      MirrorSlice(s, i + 1, j);
      MirrorTwice(inner);
      if Balanced(inner) {
        MirrorBalanced(inner);
      } else if Balanced(Mirror(inner)) {
        MirrorBalanced(Mirror(inner));
      }
    }
  }

  lemma {:induction false} OpenerIsUnique(s: string, i: nat, i': nat, j: nat)
    requires Pair(s, i, j) && Pair(s, i', j)
    ensures i == i'
  {
    MirrorPair(s, i, j);
    MirrorPair(s, i', j);
    PartnerIsUnique(Mirror(s), |s| - 1 - j, |s| - 1 - i, |s| - 1 - i');
  }

  /** Tracking the mirrored text up to a closer finds exactly its opener. */
  lemma {:induction false} TrackFindsOpener(s: string, i: nat, j: nat)
    requires i < |s| && j < |s| && IsClose(s[j])
    ensures i <= j && Track(Mirror(s[..j + 1]), []) == Closed(j - i + 1) <==> Pair(s, i, j)
  {
    hide Track; hide Pair; hide Mirror;
    var m := Mirror(s);
    MirrorSlice(s, 0, j + 1);
    assert s[0..j + 1] == s[..j + 1] && m[|s| - 1 - j..|s|] == m[|s| - 1 - j..];
    MirrorAt(s, j);
    MirrorPair(s, i, j);
    TrackFindsPair(m, |s| - 1 - j, |s| - 1 - i);
  }

  // ----- brackets without a partner

  /** The bracket at `i` has no partner after it. */
  ghost predicate NeverCloses(s: string, i: nat) {
    forall j: nat :: !Pair(s, i, j)
  }

  /** The bracket at `j` has no partner before it. */
  ghost predicate NeverOpens(s: string, j: nat) {
    forall i: nat :: !Pair(s, i, j)
  }

  /** An opener goes unmatched exactly when tracking meets a wrong closer or runs out of text. */
  lemma {:induction false} TrackGivesUp(s: string, i: nat)
    requires i < |s| && IsOpen(s[i])
    ensures NeverCloses(s, i) <==> !Track(s[i..], []).Closed?
  {
    forall j: nat ensures i <= j && Track(s[i..], []) == Closed(j - i + 1) <==> Pair(s, i, j) {
      TrackFindsPair(s, i, j);
    }
    if Track(s[i..], []).Closed? {
      TrackedIsPair(s, i, Track(s[i..], []).len);
    }
  }

  lemma {:induction false} TrackGivesUpBack(s: string, j: nat)
    requires j < |s| && IsClose(s[j])
    ensures !Track(Mirror(s[..j + 1]), []).Closed? ==> NeverOpens(s, j)
  {
    forall i: nat | i < |s| ensures i <= j && Track(Mirror(s[..j + 1]), []) == Closed(j - i + 1) <==> Pair(s, i, j) {
      TrackFindsOpener(s, i, j);
    }
  }

  // ----- the brackets spelled out

  /** The opening and the closing bracket of one kind. */
  predicate OfAKind(open: char, close: char) {
    (open == '(' && close == ')') || (open == '[' && close == ']') || (open == '{' && close == '}')
  }

  lemma {:induction false} PartnerIs(open: char, close: char)
    ensures IsOpen(open) && close == Partner(open) <==> OfAKind(open, close)
  {
  }

  /** Partners are two brackets of a kind around balanced text. */
  lemma {:induction false} PairIs(s: string, i: nat, j: nat)
    ensures Pair(s, i, j) <==> i < j < |s| && OfAKind(s[i], s[j]) && Balanced(s[i + 1..j])
  {
    hide Balanced;
    if i < j < |s| {
      PartnerIs(s[i], s[j]);
    }
  }

  /** The text between brackets of a kind that start and end a text, and what follows. */
  ghost predicate StartsWrapped(s: string, j: nat) {
    0 < j < |s| && OfAKind(s[0], s[j]) && Balanced(s[1..j]) && Balanced(s[j + 1..])
  }

  /**
   * Text is balanced exactly if it is empty, or balanced text behind a character that is no bracket,
   * or balanced text in brackets of a kind followed by balanced text.
   */
  lemma {:induction false} BalancedIs(s: string)
    ensures Balanced(s) <==>
            s == "" || (s[0] !in "()[]{}" && Balanced(s[1..])) || exists j :: StartsWrapped(s, j)
  {
    if Balanced(s) {
      var t :| Proper(t) && Text(t, []) == s;
      BalancedSplits(t, s);
    }
    if s != "" && s[0] !in "()[]{}" && Balanced(s[1..]) {
      var rest :| Proper(rest) && Text(rest, []) == s[1..];
      assert Proper(Plain(s[0], rest)) && Text(Plain(s[0], rest), []) == s;
    }
    if exists j :: StartsWrapped(s, j) {
      var j :| StartsWrapped(s, j);
      WrappedIsBalanced(s, j);
    }
    assert Proper(Done) && Text(Done, []) == "";
  }

  lemma {:induction false} WrappedText(open: char, inner: Nest, rest: Nest)
    ensures Text(Wrapped(open, inner, rest), []) ==
            [open] + (Text(inner, []) + ([Partner(open)] + Text(rest, [])))
    ensures |Text(inner, [])| == Size(inner)
  {
    TextSize(inner, [Partner(open)] + Text(rest, []));
    TextSize(inner, []);
  }

  lemma {:induction false} CutWrapped(open: char, a: string, close: char, b: string)
    ensures var s, j := [open] + (a + ([close] + b)), |a| + 1;
            s[0] == open && s[1..j] == a && s[j] == close && s[j + 1..] == b
  {
  }

  lemma {:induction false} BalancedSplits(t: Nest, s: string)
    requires Proper(t) && Text(t, []) == s
    ensures s == "" || (s[0] !in "()[]{}" && Balanced(s[1..])) || exists j :: StartsWrapped(s, j)
  {
    match t
    case Done =>
    case Plain(c, rest) =>
      assert s[1..] == Text(rest, []);
    case Wrapped(open, inner, rest) =>
      hide Text;
      WrappedText(open, inner, rest);
      CutWrapped(open, Text(inner, []), Partner(open), Text(rest, []));
      PartnerIs(open, Partner(open));
      assert StartsWrapped(s, 1 + Size(inner));
  }

  lemma {:induction false} WrappedIsBalanced(s: string, j: nat)
    requires StartsWrapped(s, j)
    ensures Balanced(s)
  {
    hide Text;
    var inner :| Proper(inner) && Text(inner, []) == s[1..j];
    var rest :| Proper(rest) && Text(rest, []) == s[j + 1..];
    PartnerIs(s[0], s[j]);
    WrappedText(s[0], inner, rest);
    var t := Wrapped(s[0], inner, rest);
    assert Text(t, []) == s by {
      assert [s[0]] + (s[1..j] + ([s[j]] + s[j + 1..])) == s;
    }
    assert Proper(t);
  }

  /** Balanced text in round, square or curly brackets makes those brackets partners, wherever it stands. */
  lemma {:induction false} BracketsAreKept(before: string, s: string, after: string)
    requires Balanced(s)
    ensures Pair(before + ("(" + (s + (")" + after))), |before|, |before| + |s| + 1)
    ensures Pair(before + ("[" + (s + ("]" + after))), |before|, |before| + |s| + 1)
    ensures Pair(before + ("{" + (s + ("}" + after))), |before|, |before| + |s| + 1)
  {
    WrapMakesPair(before, '(', s, ')', after);
    WrapMakesPair(before, '[', s, ']', after);
    WrapMakesPair(before, '{', s, '}', after);
  }

  lemma {:induction false} WrapMakesPair(before: string, open: char, s: string, close: char, after: string)
    requires Balanced(s) && OfAKind(open, close)
    ensures Pair(before + ([open] + (s + ([close] + after))), |before|, |before| + |s| + 1)
  {
    hide Balanced;
    var text := before + ([open] + (s + ([close] + after)));
    var i, j := |before|, |before| + |s| + 1;
    assert text[i] == open && text[j] == close && text[i + 1..j] == s;
    PartnerIs(open, close);
  }
}
