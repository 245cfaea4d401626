/**
 * The checker of assertion codes: a scan that reports duplicated, excessive and zero codes, and
 * what an empty report means.
 */
module ErrorCodes {
  import opened Common
  import opened Numerals

  const MAXIMUM_CODE := 51999

  /** Where an assertion is, and its code as written (a string of decimal digits). */
  datatype Location = Location(sourceFile: string, byteOffset: nat, lines: string, code: string)

  function IntOf(loc: Location): nat {
    Value(loc.code, 10)
  }

  // ----- scanning

  /** The locations with the given code, in scan order. */
  function With(locs: seq<Location>, code: string): seq<Location> {
    if locs == [] then []
    else With(Front(locs), code) + (if Last(locs).code == code then [Last(locs)] else [])
  }

  lemma {:induction false} WithMembers(locs: seq<Location>, code: string, loc: Location)
    ensures loc in With(locs, code) <==> loc in locs && loc.code == code
  {
    if locs == [] {
    } else {
      WithMembers(Front(locs), code, loc);
      Snoc(locs);
    }
  }

  lemma {:induction false} WithSnoc(locs: seq<Location>, loc: Location, code: string)
    ensures With(locs + [loc], code) == With(locs, code) + (if loc.code == code then [loc] else [])
  {
    assert Front(locs + [loc]) == locs;
  }

  /** The first location of every code. */
  ghost predicate SeenOf(locs: seq<Location>, seen: map<string, Location>) {
    (forall c :: c in seen <==> With(locs, c) != []) && (forall c :: c in seen ==> seen[c] == With(locs, c)[0])
  }

  /** For every repeated code, all its locations in scan order. */
  ghost predicate DupsOf(locs: seq<Location>, dups: map<string, seq<Location>>) {
    (forall c :: c in dups <==> |With(locs, c)| >= 2) && (forall c :: c in dups ==> dups[c] == With(locs, c))
  }

  predicate Repeated(locs: seq<Location>, loc: Location) {
    |With(locs, loc.code)| >= 2
  }

  /** Exactly the locations with a repeated or excessive code. */
  ghost predicate ErrorsOf(locs: seq<Location>, errors: seq<Location>) {
    forall l :: l in errors <==> l in locs && (Repeated(locs, l) || IntOf(l) > MAXIMUM_CODE)
  }

  lemma {:induction false} SeenStep(locs: seq<Location>, seen: map<string, Location>, loc: Location)
    requires SeenOf(locs, seen)
    ensures SeenOf(locs + [loc], if loc.code in seen then seen else seen[loc.code := loc])
  {
    hide With;
    forall c ensures With(locs + [loc], c) == With(locs, c) + (if loc.code == c then [loc] else []) {
      WithSnoc(locs, loc, c);
    }
  }

  lemma {:induction false} DupsStep(
    locs: seq<Location>, seen: map<string, Location>, dups: map<string, seq<Location>>, loc: Location)
    requires SeenOf(locs, seen) && DupsOf(locs, dups)
    ensures DupsOf(locs + [loc],
                   if loc.code !in seen then dups
                   else dups[loc.code := (if loc.code in dups then dups[loc.code] else [seen[loc.code]]) + [loc]])
  {
    hide With;
    forall c ensures With(locs + [loc], c) == With(locs, c) + (if loc.code == c then [loc] else []) {
      WithSnoc(locs, loc, c);
    }
  }

  lemma {:induction false} ErrorsStep(
    locs: seq<Location>, seen: map<string, Location>, dups: map<string, seq<Location>>, errors: seq<Location>,
    loc: Location)
    requires SeenOf(locs, seen) && DupsOf(locs, dups) && ErrorsOf(locs, errors)
    ensures ErrorsOf(locs + [loc],
                     if loc.code !in seen then (if IntOf(loc) > MAXIMUM_CODE then errors + [loc] else errors)
                     else errors + (if loc.code in dups then [] else [seen[loc.code]]) + [loc])
  {
    hide With; hide IntOf;
    var old' := With(locs, loc.code);
    forall l ensures l in old' <==> l in locs && l.code == loc.code {
      WithMembers(locs, loc.code, l);
    }
    forall l: Location
      ensures With(locs + [loc], l.code) == With(locs, l.code) + (if l.code == loc.code then [loc] else [])
    {
      WithSnoc(locs, loc, l.code);
    }
  }

  class CodeScan {
    var codes: seq<Location>
    var seen: map<string, Location>
    var errors: seq<Location>
    var dups: map<string, seq<Location>>
    ghost var scanned: seq<Location>

    constructor (codes: seq<Location>)
      ensures Valid() && scanned == [] && this.codes == codes
    {
      this.codes, seen, errors, dups, scanned := codes, map[], [], map[], [];
    }

    /** What the maps and lists say about the locations scanned so far. */
    ghost predicate Valid()
      reads this
    {
      SeenOf(scanned, seen) && DupsOf(scanned, dups) && ErrorsOf(scanned, errors)
    }

    method CheckDups(loc: Location)
      requires Valid()
      modifies this
      ensures Valid() && scanned == old(scanned) + [loc] && codes == old(codes) + [loc]
    {
      hide SeenOf; hide DupsOf; hide ErrorsOf; hide IntOf;
      SeenStep(scanned, seen, loc);
      DupsStep(scanned, seen, dups, loc);
      ErrorsStep(scanned, seen, dups, errors, loc);
      codes := codes + [loc];
      if loc.code !in seen {
        seen := seen[loc.code := loc];
        if IntOf(loc) > MAXIMUM_CODE {
          errors := errors + [loc];
        }
      } else {
        if loc.code !in dups {
          dups := dups[loc.code := [seen[loc.code]]];
          errors := errors + [seen[loc.code]];
        } else {
          assert errors + [] == errors;
        }
        dups := dups[loc.code := dups[loc.code] + [loc]];
        assert dups == old(dups)[
          loc.code := (if loc.code in old(dups) then old(dups)[loc.code] else [seen[loc.code]]) + [loc]];
        errors := errors + [loc];
      }
      scanned := scanned + [loc];
    }
  }

  /** The error list: exactly the locations whose code is repeated, excessive or the zero code. */
  ghost predicate AllErrors(locs: seq<Location>, errors: seq<Location>) {
    forall l :: l in errors <==> l in locs && (Repeated(locs, l) || IntOf(l) > MAXIMUM_CODE || l.code == "0")
  }

  method ReadErrorCodes(locs: seq<Location>, codes0: seq<Location>)
    returns (codes: seq<Location>, errors: seq<Location>, dups: map<string, seq<Location>>)
    ensures codes == codes0 + locs && AllErrors(locs, errors) && DupsOf(locs, dups)
  {
    var scan := new CodeScan(codes0);
    for i := 0 to |locs|
      invariant fresh(scan) && scan.Valid() && scan.scanned == locs[..i] && scan.codes == codes0 + locs[..i]
    {
      scan.CheckDups(locs[i]);
      assert locs[..i + 1] == locs[..i] + [locs[i]];
    }
    assert locs[..|locs|] == locs;
    codes, errors, dups := scan.codes, scan.errors, scan.dups;
    if "0" in scan.seen {
      ZeroErrors(locs, scan.seen, errors);
      errors := errors + [scan.seen["0"]];
    } else {
      forall l | l in locs ensures l.code != "0" {
        WithMembers(locs, "0", l);
      }
    }
  }

  /** A lone zero code is the one that was seen first; repeated ones are reported already. */
  lemma {:induction false} ZeroErrors(locs: seq<Location>, seen: map<string, Location>, errors: seq<Location>)
    requires SeenOf(locs, seen) && ErrorsOf(locs, errors) && "0" in seen
    ensures AllErrors(locs, errors + [seen["0"]])
  {
    hide With; hide IntOf;
    var zeros := With(locs, "0");
    assert zeros[0] in zeros;
    forall l ensures l in zeros <==> l in locs && l.code == "0" {
      WithMembers(locs, "0", l);
    }
  }

  // ----- what an empty error list means

  predicate DistinctCodes(locs: seq<Location>) {
    forall i, j :: 0 <= i < j < |locs| ==> locs[i].code != locs[j].code
  }

  lemma {:induction false} RepeatedCodes(locs: seq<Location>, i: nat, j: nat)
    requires i < j < |locs| && locs[i].code == locs[j].code
    ensures Repeated(locs, locs[i])
  {
    var c := locs[i].code;
    Snoc(locs);
    if j < |locs| - 1 {
      RepeatedCodes(Front(locs), i, j);
    } else {
      WithMembers(Front(locs), c, locs[i]);
    }
  }

  lemma {:induction false} DistinctNotRepeated(locs: seq<Location>, c: string)
    requires DistinctCodes(locs)
    ensures |With(locs, c)| <= 1
  {
    if locs == [] {
    } else {
      DistinctNotRepeated(Front(locs), c);
      var before := With(Front(locs), c);
      if Last(locs).code == c && before != [] {
        WithMembers(Front(locs), c, before[0]);
      }
    }
  }

  /** No errors exactly when the codes are pairwise different, none exceeds the maximum and none is "0". */
  lemma {:induction false} NoErrorsIff(locs: seq<Location>, errors: seq<Location>)
    requires AllErrors(locs, errors)
    ensures errors == [] <==>
            DistinctCodes(locs) && forall l :: l in locs ==> IntOf(l) <= MAXIMUM_CODE && l.code != "0"
  {
    hide With; hide IntOf;
    if errors == [] {
      forall i, j | 0 <= i < j < |locs| ensures locs[i].code != locs[j].code {
        assert locs[i] in locs && locs[i] !in errors;
        if locs[i].code == locs[j].code {
          RepeatedCodes(locs, i, j);
        }
      }
      forall l | l in locs ensures IntOf(l) <= MAXIMUM_CODE && l.code != "0" {
        assert l !in errors;
      }
    } else if DistinctCodes(locs) {
      var l := errors[0];
      assert l in errors;
      DistinctNotRepeated(locs, l.code);
    }
  }

  /** A numeral without leading zeros. */
  predicate Canonical(code: string) {
    AllDigits(code, 10) && (|code| > 1 ==> code[0] != '0')
  }

  lemma {:induction false} CanonicalIsPrinted(code: string)
    requires Canonical(code)
    ensures Print(Value(code, 10), 10) == code
  {
    if |code| == 1 {
      assert code == [code[0]] && Front(code) == [];
    } else {
      CanonicalIsPrinted(Front(code));
      CanonicalStep(code);
    }
  }

  lemma {:induction false} CanonicalStep(code: string)
    requires Canonical(code) && |code| > 1 && Print(Value(Front(code), 10), 10) == Front(code)
    ensures Print(Value(code, 10), 10) == code
  {
    hide Print;
    var v, d := Value(Front(code), 10), DigitValue(Last(code));
    assert IsDigit(code[|code| - 1], 10) && DigitChar(d) == Last(code);
    PrintedStart(v);
    assert Front(code)[0] == code[0];
    PrintedStep(v, d);
    Snoc(code);
  }

  lemma {:induction false} PrintedStart(v: nat)
    ensures Print(v, 10)[0] == '0' <==> v == 0
  {
    PrintDigits(v, 10);
  }

  lemma {:induction false} PrintedStep(v: nat, d: nat)
    requires v > 0 && d < 10
    ensures Print(v * 10 + d, 10) == Print(v, 10) + [DigitChar(d)]
  {
    assert (v * 10 + d) / 10 == v && (v * 10 + d) % 10 == d;
  }

  /** If each code is the numeral of a number: no errors exactly when these are distinct, positive and at most 51999. */
  lemma {:induction false} NoErrorsIffCanonical(locs: seq<Location>, errors: seq<Location>, numbers: seq<nat>)
    requires AllErrors(locs, errors) && |numbers| == |locs|
    requires forall i :: 0 <= i < |locs| ==> locs[i].code == Print(numbers[i], 10)
    ensures errors == [] <==>
            (forall i, j :: 0 <= i < j < |locs| ==> numbers[i] != numbers[j])
            && forall i :: 0 <= i < |locs| ==> 0 < numbers[i] <= 51999
  {
    hide With; hide Print; hide Value; hide AllErrors;
    NoErrorsIff(locs, errors);
    forall i | 0 <= i < |locs| ensures IntOf(locs[i]) == numbers[i] && (numbers[i] == 0 <==> locs[i].code == "0") {
      PrintDigits(numbers[i], 10);
      PrintedZero();
    }
    assert forall i :: 0 <= i < |locs| ==> locs[i] in locs;
  }

  lemma {:induction false} PrintedZero()
    ensures Print(0, 10) == "0" && Value("0", 10) == 0
  {
    assert Front("0") == [];
  }

  // ----- codes by the numbers they spell

  /** The code is the decimal numeral of `n`, perhaps with zeros in front. */
  predicate Spells(code: string, n: nat) {
    code == ZFill(Print(n, 10), |code|)
  }

  lemma {:induction false} SpelledNumber(l: Location, n: nat)
    requires AllDigits(l.code, 10)
    ensures IntOf(l) == n <==> Spells(l.code, n)
  {
    hide Value; hide Print; hide ZFill;
    if Spells(l.code, n) {
      PrintDigits(n, 10);
      ZFillValue(Print(n, 10), |l.code|, 10);
    }
    if IntOf(l) == n {
      DigitsSpell(l.code);
    }
  }

  /** Every string of digits spells its value. */
  lemma {:induction false} DigitsSpell(code: string)
    requires AllDigits(code, 10)
    ensures Spells(code, Value(code, 10))
  {
    if |code| == 1 || code[0] != '0' {
      CanonicalIsPrinted(code);
    } else {
      var rest := code[1..];
      DigitsSpell(rest);
      assert code == ['0'] + rest;
      ValueOfPadded(rest, 10);
      PaddedOnce(Print(Value(rest, 10), 10), |rest|);
    }
  }

  lemma {:induction false} PaddedOnce(s: string, width: nat)
    requires |ZFill(s, width)| == width
    ensures ZFill(s, width + 1) == ['0'] + ZFill(s, width)
    decreases width - |s|
  {
    if |s| >= width {
    } else {
      PaddedOnce(['0'] + s, width);
    }
  }

  /** A code is repeated exactly if two locations have it. */
  lemma {:induction false} RepeatedIs(locs: seq<Location>, l: Location)
    ensures Repeated(locs, l) <==>
            exists i, j :: 0 <= i < j < |locs| && locs[i].code == l.code && locs[j].code == l.code
  {
    if exists i, j :: 0 <= i < j < |locs| && locs[i].code == l.code && locs[j].code == l.code {
      var i, j :| 0 <= i < j < |locs| && locs[i].code == l.code && locs[j].code == l.code;
      RepeatedCodes(locs, i, j);
    }
    if Repeated(locs, l) {
      var i, j := TwoWith(locs, l.code);
    }
  }

  lemma {:induction false} TwoWith(locs: seq<Location>, code: string) returns (i: nat, j: nat)
    requires |With(locs, code)| >= 2
    ensures i < j < |locs| && locs[i].code == code && locs[j].code == code
  {
    if Last(locs).code == code {
      j := |locs| - 1;
      var before := With(Front(locs), code);
      WithMembers(Front(locs), code, before[0]);
      i :| 0 <= i < |Front(locs)| && Front(locs)[i] == before[0];
    } else {
      i, j := TwoWith(Front(locs), code);
    }
  }

  /** With is what the locations of a code are, in scan order. */
  lemma {:induction false} WithFilters(a: seq<Location>, l: Location, b: seq<Location>, code: string)
    ensures With([l], code) == (if l.code == code then [l] else [])
    ensures With(a + b, code) == With(a, code) + With(b, code)
  {
    WithSnoc([], l, code);
    assert [] + [l] == [l];
    if b == [] {
      assert a + b == a;
    } else {
      assert Front(a + b) == a + Front(b);
      WithFilters(a, l, Front(b), code);
    }
  }

  /** The reported locations: codes that occur twice, that spell more than 51999, or that are "0". */
  lemma {:induction false} ReportedIs(locs: seq<Location>, errors: seq<Location>, l: Location, n: nat)
    requires AllErrors(locs, errors) && AllDigits(l.code, 10) && Spells(l.code, n)
    ensures l in errors <==>
            l in locs &&
            (n > 51999 || l.code == "0" ||
             exists i, j :: 0 <= i < j < |locs| && locs[i].code == l.code && locs[j].code == l.code)
  {
    hide Repeated; hide IntOf; hide Spells;
    SpelledNumber(l, n);
    RepeatedIs(locs, l);
  }
}
