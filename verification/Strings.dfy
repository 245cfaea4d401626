/** str.split and str.join on a single-character separator, and str.strip of one character. */
module Strings {
  import opened Common

  predicate Without(s: string, c: char) {
    forall k :: 0 <= k < |s| ==> s[k] != c
  }

  predicate AllWithout(parts: seq<string>, c: char) {
    forall k :: 0 <= k < |parts| ==> Without(parts[k], c)
  }

  function Split(s: string, c: char): (parts: seq<string>)
    ensures |parts| >= 1
  {
    if s == [] then [""]
    else
      var rest := Split(s[1..], c);
      if s[0] == c then [""] + rest else [[s[0]] + rest[0]] + rest[1..]
  }

  function Join(parts: seq<string>, c: char): string {
    if parts == [] then "" else if |parts| == 1 then parts[0] else parts[0] + [c] + Join(parts[1..], c)
  }

  function StripLeading(s: string, c: char): string {
    if s != [] && s[0] == c then StripLeading(s[1..], c) else s
  }

  function StripTrailing(s: string, c: char): string {
    if s != [] && Last(s) == c then StripTrailing(Front(s), c) else s
  }

  function StripBoth(s: string, c: char): string {
    StripTrailing(StripLeading(s, c), c)
  }

  /** Splitting off one separator-free part. */
  lemma {:induction false} SplitFirst(a: string, rest: string, c: char)
    requires Without(a, c)
    ensures Split(a + ([c] + rest), c) == [a] + Split(rest, c)
    ensures Split(a, c) == [a]
  {
    if a == [] {
      assert a + ([c] + rest) == [c] + rest && ([c] + rest)[1..] == rest;
    } else {
      assert (a + ([c] + rest))[1..] == a[1..] + ([c] + rest);
      SplitFirst(a[1..], rest, c);
      assert a == [a[0]] + a[1..];
    }
  }

  /** Splitting undoes joining. */
  lemma {:induction false} SplitJoin(parts: seq<string>, c: char)
    requires parts != [] && AllWithout(parts, c)
    ensures Split(Join(parts, c), c) == parts
  {
    assert Without(parts[0], c);
    if |parts| == 1 {
      SplitFirst(parts[0], "", c);
    } else {
      SplitJoin(parts[1..], c);
      SplitFirst(parts[0], Join(parts[1..], c), c);
      assert parts[0] + [c] + Join(parts[1..], c) == parts[0] + ([c] + Join(parts[1..], c));
      assert [parts[0]] + parts[1..] == parts;
    }
  }

  /** Joined parts begin with the first and end with the last of them. */
  lemma {:induction false} JoinEnds(parts: seq<string>, c: char)
    requires parts != [] && parts[0] != "" && Last(parts) != ""
    ensures Join(parts, c) != "" && Join(parts, c)[0] == parts[0][0]
    ensures Last(Join(parts, c)) == Last(Last(parts))
    decreases |parts|
  {
    if |parts| > 1 {
      if |parts| > 2 || parts[1] != "" {
        JoinLast(parts[1..], c);
      }
      assert Join(parts, c) == parts[0] + [c] + Join(parts[1..], c);
    }
  }

  lemma {:induction false} JoinLast(parts: seq<string>, c: char)
    requires parts != [] && Last(parts) != ""
    ensures Join(parts, c) != "" && Last(Join(parts, c)) == Last(Last(parts))
  {
    if |parts| <= 1 {
    } else {
      JoinLast(parts[1..], c);
    }
  }

  /** The parts hold no separator. */
  lemma {:induction false} SplitWithout(s: string, c: char)
    ensures AllWithout(Split(s, c), c)
  {
    if s == [] {
    } else {
      SplitWithout(s[1..], c);
      assert Without(Split(s[1..], c)[0], c);
    }
  }

  /** A text that neither begins nor ends with the separator has a first and a last part. */
  lemma {:induction false} SplitEnds(s: string, c: char)
    requires s != "" && Last(s) != c
    ensures Last(Split(s, c)) != "" && (s[0] != c ==> Split(s, c)[0] != "")
  {
    if |s| == 1 {
      assert Split(s[1..], c) == [""];
    } else {
      SplitEnds(s[1..], c);
      var rest := Split(s[1..], c);
      assert Last([""] + rest) == Last(rest);
      assert |rest| > 1 ==> Last([[s[0]] + rest[0]] + rest[1..]) == Last(rest);
    }
  }

  lemma {:induction false} StrippedEnds(s: string, c: char)
    ensures StripBoth(s, c) == "" || (StripBoth(s, c)[0] != c && Last(StripBoth(s, c)) != c)
  {
    StripLeadingStart(s, c);
    StripTrailingEnd(StripLeading(s, c), c);
  }

  lemma {:induction false} StripLeadingStart(s: string, c: char)
    ensures StripLeading(s, c) == "" || StripLeading(s, c)[0] != c
  {
    if s == [] || s[0] != c {
    } else {
      StripLeadingStart(s[1..], c);
    }
  }

  lemma {:induction false} StripTrailingEnd(s: string, c: char)
    ensures StripTrailing(s, c) <= s
    ensures StripTrailing(s, c) == "" || Last(StripTrailing(s, c)) != c
  {
    if s == [] || Last(s) != c {
    } else {
      StripTrailingEnd(Front(s), c);
    }
  }

  /** One more stripped character at either end makes no difference. */
  lemma {:induction false} StripMore(s: string, c: char)
    ensures StripBoth([c] + s, c) == StripBoth(s, c) == StripBoth(s + [c], c)
  {
    assert StripLeading([c] + s, c) == StripLeading(s, c) by {
      assert ([c] + s)[1..] == s;
    }
    hide StripLeading;
    StripLeadingSnoc(s, c);
    var t := StripLeading(s, c);
    assert StripTrailing(t + [c], c) == StripTrailing(t, c) by {
      assert Front(t + [c]) == t && Last(t + [c]) == c;
    }
  }

  lemma {:induction false} StripLeadingSnoc(s: string, c: char)
    ensures StripLeading(s + [c], c) == if StripLeading(s, c) == "" then "" else StripLeading(s, c) + [c]
  {
    if s == [] {
      assert s + [c] == [c] && [c][1..] == [];
    } else {
      assert (s + [c])[1..] == s[1..] + [c];
      if s[0] == c {
        StripLeadingSnoc(s[1..], c);
      }
    }
  }

  /** A blank last part leaves just its separator. */
  lemma {:induction false} JoinBlankLast(parts: seq<string>, c: char)
    requires |parts| > 1 && Last(parts) == ""
    ensures Join(parts, c) == Join(Front(parts), c) + [c]
  {
    if |parts| == 2 {
      assert Join(parts[1..], c) == "";
      assert parts[0] + [c] + "" == Join(Front(parts), c) + [c];
    } else {
      assert Front(parts)[1..] == Front(parts[1..]);
      JoinBlankLast(parts[1..], c);
    }
  }

  lemma {:induction false} JoinSnoc(parts: seq<string>, last: string, c: char)
    requires parts != []
    ensures Join(parts + [last], c) == Join(parts, c) + [c] + last
  {
    if |parts| == 1 {
      assert (parts + [last])[1..] == [last];
    } else {
      assert (parts + [last])[1..] == parts[1..] + [last];
      JoinSnoc(parts[1..], last, c);
      assert parts[0] + [c] + (Join(parts[1..], c) + [c] + last) == parts[0] + [c] + Join(parts[1..], c) + [c] + last;
    }
  }
}
