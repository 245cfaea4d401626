/**
 * Splitting a resmoke suite: a greedy, order-preserving packer with a runtime limit, an optional
 * limit on the number of tests and an optional cap on the number of suites, past which the
 * remaining tests are dealt out round-robin.
 *
 * Runtimes are reals. `None` and 0 both mean "no limit" for the two optional limits.
 */
module SuiteSplit {
  import opened Common

  datatype TestRuntime = TestRuntime(name: string, runtime: real)

  type Group = seq<TestRuntime>

  datatype Limits = Limits(maxTime: real, maxTests: Option<int>)

  predicate Given(limit: Option<int>) {
    limit.Some? && limit.value != 0
  }

  // ----- what a suite records about its tests

  function Names(g: Group): (names: seq<string>)
    ensures |names| == |g|
  {
    if g == [] then [] else Names(Front(g)) + [Last(g).name]
  }

  function Total(g: Group): real {
    if g == [] then 0.0 else Total(Front(g)) + Last(g).runtime
  }

  function Longest(g: Group): real {
    if g == [] then 0.0
    else if Last(g).runtime > Longest(Front(g)) then Last(g).runtime else Longest(Front(g))
  }

  function WithRuntime(g: Group): nat {
    if g == [] then 0 else WithRuntime(Front(g)) + (if Last(g).runtime != 0.0 then 1 else 0)
  }

  class Suite {
    var tests: seq<string>
    var totalRuntime: real
    var maxRuntime: real
    var testsWithRuntimeInfo: nat
    const sourceName: string
    const index: nat

    constructor (sourceName: string, index: nat)
      ensures Holds([])
      ensures this.sourceName == sourceName && this.index == index
    {
      tests, totalRuntime, maxRuntime, testsWithRuntimeInfo := [], 0.0, 0.0, 0;
      this.sourceName, this.index := sourceName, index;
    }

    /** The suite's running figures are those recomputed from its tests. */
    ghost predicate Holds(g: Group)
      reads this
    {
      tests == Names(g) && totalRuntime == Total(g) && maxRuntime == Longest(g)
      && testsWithRuntimeInfo == WithRuntime(g)
    }

    method AddTest(test: TestRuntime, ghost g: Group)
      requires Holds(g)
      modifies this
      ensures Holds(g + [test])
    {
      assert Front(g + [test]) == g;
      tests := tests + [test.name];
      totalRuntime := totalRuntime + test.runtime;
      if test.runtime != 0.0 {
        testsWithRuntimeInfo := testsWithRuntimeInfo + 1;
      }
      if test.runtime > maxRuntime {
        maxRuntime := test.runtime;
      }
    }
  }

  // ----- the greedy split

  predicate NewSuiteNeeded(suiteRuntime: real, suiteCount: nat, runtime: real, limits: Limits) {
    suiteRuntime + runtime > limits.maxTime
    || (Given(limits.maxTests) && suiteCount + 1 > limits.maxTests.value)
  }

  /** Both limits are met. */
  predicate Fits(g: Group, limits: Limits) {
    Total(g) <= limits.maxTime && (Given(limits.maxTests) ==> |g| <= limits.maxTests.value)
  }

  /** A single test may always have a suite of its own. */
  predicate Allowed(g: Group, limits: Limits) {
    |g| <= 1 || Fits(g, limits)
  }

  /** The suites made from `tests` when `current` is being filled. */
  function Greedy(current: Group, tests: Group, limits: Limits): seq<Group>
    decreases tests
  {
    if tests == [] then (if current == [] then [] else [current])
    else if current != [] && NewSuiteNeeded(Total(current), |current|, tests[0].runtime, limits) then
      [current] + Greedy([tests[0]], tests[1..], limits)
    else Greedy(current + [tests[0]], tests[1..], limits)
  }

  /** Every n-th remaining test, starting with number j. */
  function Extras(rest: Group, j: nat, n: nat): Group
    requires n > 0
  {
    if rest == [] then []
    else Extras(Front(rest), j, n) + (if (|rest| - 1) % n == j then [Last(rest)] else [])
  }

  function Spread(groups: seq<Group>, rest: Group): (dealt: seq<Group>)
    requires groups != []
    ensures |dealt| == |groups|
    ensures forall j :: 0 <= j < |groups| ==> dealt[j] == groups[j] + Extras(rest, j, |groups|)
  {
    seq(|groups|, j requires 0 <= j < |groups| => groups[j] + Extras(rest, j, |groups|))
  }

  /** The cap in force: a cap below one still lets one suite be made. */
  function Cap(maxSuites: Option<int>): nat
    requires Given(maxSuites)
  {
    if maxSuites.value < 1 then 1 else maxSuites.value
  }

  /** The greedy split would need more suites than the cap allows. */
  predicate CapHit(tests: Group, limits: Limits, maxSuites: Option<int>) {
    Given(maxSuites) && |Greedy([], tests, limits)| > Cap(maxSuites)
  }

  /** The whole split: greedy, and past the cap the rest is dealt round-robin. */
  function Split(tests: Group, limits: Limits, maxSuites: Option<int>): seq<Group> {
    var all := Greedy([], tests, limits);
    if CapHit(tests, limits, maxSuites) then Spread(all[..Cap(maxSuites)], Concat(all[Cap(maxSuites)..]))
    else all
  }

  // ----- the imperative code

  ghost predicate AllHold(suites: seq<Suite>, groups: seq<Group>)
    reads suites
  {
    |suites| == |groups| && forall i :: 0 <= i < |suites| ==> suites[i].Holds(groups[i])
  }

  /** Consecutive indices, so in particular the suites are different objects. */
  ghost predicate Numbered(suites: seq<Suite>, suiteName: string, first: nat) {
    forall i :: 0 <= i < |suites| ==> suites[i].sourceName == suiteName && suites[i].index == first + i
  }

  method DivideRemainingTestsAmongSuites(
    rest: Group, suites: seq<Suite>, ghost suiteName: string, ghost first: nat, ghost groups: seq<Group>)
    requires suites != [] && Numbered(suites, suiteName, first) && AllHold(suites, groups)
    modifies suites
    ensures AllHold(suites, Spread(groups, rest))
  {
    hide Total; hide Names; hide Longest; hide WithRuntime;
    var n := |suites|;
    var suiteIdx := 0;
    assert forall j :: 0 <= j < n ==> Spread(groups, [])[j] == groups[j];
    for k := 0 to |rest|
      invariant 0 <= suiteIdx < n && suiteIdx == k % n
      invariant AllHold(suites, Spread(groups, rest[..k]))
    {
      ghost var before := Spread(groups, rest[..k]);
      assert Front(rest[..k + 1]) == rest[..k];
      suites[suiteIdx].AddTest(rest[k], before[suiteIdx]);
      SpreadOne(groups, rest[..k + 1]);
      NextIndex(k, n);
      suiteIdx := suiteIdx + 1;
      if suiteIdx >= n {
        suiteIdx := 0;
      }
    }
    assert rest[..|rest|] == rest;
  }

  /** Stepping a round-robin index is counting modulo n. */
  lemma {:induction false} NextIndex(k: nat, n: nat)
    requires n > 0
    ensures (k + 1) % n == if k % n + 1 == n then 0 else k % n + 1
    ensures (k + 1) / n == if k % n + 1 == n then k / n + 1 else k / n
  {
    var q, m := k / n, k % n;
    assert k == q * n + m;
    if m + 1 == n {
      assert k + 1 == (q + 1) * n + 0;
      DivModUnique(k + 1, n, q + 1, 0);
    } else {
      DivModUnique(k + 1, n, q, m + 1);
    }
  }

  lemma {:induction false} DivModUnique(a: nat, n: nat, q: nat, m: nat)
    requires n > 0 && a == q * n + m && m < n
    ensures a / n == q && a % n == m
  {
    assert a == (a / n) * n + a % n;
    if a / n > q {
      Multiples(q + 1, a / n, n);
      assert false;
    } else if a / n < q {
      Multiples(a / n + 1, q, n);
      assert false;
    }
  }

  lemma {:induction false} Multiples(a: nat, b: nat, n: nat)
    requires a <= b
    ensures a * n <= b * n
  {
  }

  /** The finished suites hold `done`, and the suite being filled, numbered next, holds `filling`. */
  ghost predicate Packing(suites: seq<Suite>, current: Suite, done: seq<Group>, filling: Group,
                          suiteName: string, first: nat)
    reads suites, current
  {
    AllHold(suites, done) && Numbered(suites, suiteName, first)
    && current.Holds(filling) && current.sourceName == suiteName && current.index == first + |suites|
  }

  lemma {:induction false} HoldsFigures(suite: Suite, g: Group)
    requires suite.Holds(g)
    ensures suite.totalRuntime == Total(g) && |suite.tests| == |g|
  {
  }

  /** How the greedy split treats its next test. */
  lemma {:induction false} GreedyStep(filling: Group, test: TestRuntime, rest: Group, limits: Limits)
    ensures Greedy(filling, [test] + rest, limits) ==
            if filling != [] && NewSuiteNeeded(Total(filling), |filling|, test.runtime, limits)
            then [filling] + Greedy([test], rest, limits)
            else Greedy(filling + [test], rest, limits)
    ensures Greedy([], [test] + rest, limits) == Greedy([test], rest, limits)
  {
    assert ([test] + rest)[1..] == rest && [] + [test] == [test];
  }

  /** The suites done, the one being filled and the tests to come make up the whole greedy split. */
  ghost predicate Packed(all: seq<Group>, done: seq<Group>, filling: Group, rest: Group, limits: Limits) {
    all == done + Greedy(filling, rest, limits)
  }

  lemma {:induction false} CloseSuite(all: seq<Group>, done: seq<Group>, filling: Group, rest: Group, limits: Limits)
    requires Packed(all, done, filling, rest, limits) && filling != [] && rest != []
    requires NewSuiteNeeded(Total(filling), |filling|, rest[0].runtime, limits)
    ensures Packed(all, done + [filling], [], rest, limits)
  {
    hide Greedy;
    assert rest == [rest[0]] + rest[1..];
    GreedyStep(filling, rest[0], rest[1..], limits);
  }

  lemma {:induction false} AddNext(all: seq<Group>, done: seq<Group>, filling: Group, rest: Group, limits: Limits)
    requires Packed(all, done, filling, rest, limits) && rest != []
    requires filling == [] || !NewSuiteNeeded(Total(filling), |filling|, rest[0].runtime, limits)
    ensures Packed(all, done, filling + [rest[0]], rest[1..], limits)
  {
    hide Greedy;
    assert rest == [rest[0]] + rest[1..];
    GreedyStep(filling, rest[0], rest[1..], limits);
  }

  lemma {:induction false} StartPacking(tests: Group, limits: Limits)
    ensures Packed(Greedy([], tests, limits), [], [], tests, limits)
  {
    hide Greedy;
    assert [] + Greedy([], tests, limits) == Greedy([], tests, limits);
  }

  method DivideTestsIntoSuites(
    suiteName: string, tests: Group, limits: Limits, maxSuites: Option<int>, firstIndex: nat)
    returns (suites: seq<Suite>, nextIndex: nat)
    ensures forall i :: 0 <= i < |suites| ==> fresh(suites[i])
    ensures Numbered(suites, suiteName, firstIndex) && firstIndex + |suites| <= nextIndex
    ensures AllHold(suites, Split(tests, limits, maxSuites))
    ensures maxSuites.Some? && maxSuites.value >= 1 ==> |suites| <= maxSuites.value
  {
    hide Greedy; hide Total; hide Names; hide Longest; hide WithRuntime; hide Split; hide Extras; hide Concat;
    hide CapHit; hide NewSuiteNeeded; hide Spread; hide Suite.Holds; hide Packed;
    suites := [];
    var current := new Suite(suiteName, firstIndex);
    nextIndex := firstIndex + 1;
    var lastTestProcessed := |tests|;
    ghost var all := Greedy([], tests, limits);
    ghost var done: seq<Group>, filling: Group := [], [];
    StartPacking(tests, limits);
    assert tests[0..] == tests;
    var idx := 0;
    while idx < |tests|
      invariant 0 <= idx <= |tests| && lastTestProcessed == |tests|
      invariant fresh(current) && forall i :: 0 <= i < |suites| ==> fresh(suites[i])
      invariant Packing(suites, current, done, filling, suiteName, firstIndex)
      invariant nextIndex == firstIndex + |suites| + 1
      invariant Packed(all, done, filling, tests[idx..], limits)
      invariant Given(maxSuites) ==> |suites| < Cap(maxSuites)
    {
      var test := tests[idx];
      HoldsFigures(current, filling);
      if NewSuiteNeeded(current.totalRuntime, |current.tests|, test.runtime, limits) {
        if |current.tests| > 0 {
          CloseSuite(all, done, filling, tests[idx..], limits);
          suites, done := suites + [current], done + [filling];
          current := new Suite(suiteName, nextIndex);
          nextIndex, filling := nextIndex + 1, [];
          if Given(maxSuites) && |suites| >= maxSuites.value {
            lastTestProcessed := idx;
            break;
          }
        }
      }
      AddNext(all, done, filling, tests[idx..], limits);
      SliceSlice(tests, idx, 1, 1);
      current.AddTest(test, filling);
      filling := filling + [test];
      idx := idx + 1;
    }
    HoldsFigures(current, filling);
    if |current.tests| > 0 {
      suites, done := suites + [current], done + [filling];
    }
    if Given(maxSuites) && lastTestProcessed < |tests| {
      SplitAtCap(tests, limits, maxSuites, done, tests[lastTestProcessed..]);
      DivideRemainingTestsAmongSuites(tests[lastTestProcessed..], suites, suiteName, firstIndex, done);
    } else {
      assert tests[idx..] == [];
      SplitBelowCap(tests, limits, maxSuites, done, filling);
    }
    SplitConserves(tests, limits, maxSuites);
  }

  // ----- conservation and limits

  lemma {:induction false} GreedyConserves(current: Group, tests: Group, limits: Limits)
    ensures Concat(Greedy(current, tests, limits)) == current + tests
    ensures forall g :: g in Greedy(current, tests, limits) ==> g != []
    ensures Greedy(current, tests, limits) == [] <==> current + tests == []
    decreases tests
  {
    if tests == [] {
      assert Concat([current]) == current + Concat<TestRuntime>([]);
    } else if current != [] && NewSuiteNeeded(Total(current), |current|, tests[0].runtime, limits) {
      GreedyConserves([tests[0]], tests[1..], limits);
      var later := Greedy([tests[0]], tests[1..], limits);
      assert ([current] + later)[1..] == later;
      assert tests == [tests[0]] + tests[1..];
    } else {
      GreedyConserves(current + [tests[0]], tests[1..], limits);
      assert current + tests == current + [tests[0]] + tests[1..];
    }
  }

  /** Past the cap, exactly the tests not yet placed are dealt out. */
  lemma {:induction false} SplitAtCap(
    tests: Group, limits: Limits, maxSuites: Option<int>, done: seq<Group>, rest: Group)
    requires Given(maxSuites) && |done| == Cap(maxSuites) && rest != []
    requires Packed(Greedy([], tests, limits), done, [], rest, limits)
    ensures Split(tests, limits, maxSuites) == Spread(done, rest)
  {
    var all := Greedy([], tests, limits);
    GreedyConserves([], rest, limits);
    assert [] + rest == rest;
    assert all[..|done|] == done && all[|done|..] == Greedy([], rest, limits);
  }

  /** If the tests run out before the cap is hit, the split is the greedy one. */
  lemma {:induction false} SplitBelowCap(
    tests: Group, limits: Limits, maxSuites: Option<int>, done: seq<Group>, last: Group)
    requires last == [] ==> Packed(Greedy([], tests, limits), done, [], [], limits)
    requires last != [] ==>
               done != [] && Last(done) == last && Packed(Greedy([], tests, limits), Front(done), last, [], limits)
    requires Given(maxSuites) ==> |done| <= Cap(maxSuites)
    ensures Split(tests, limits, maxSuites) == done
  {
  }

  lemma {:induction false} GreedyMeetsLimits(current: Group, tests: Group, limits: Limits)
    requires Allowed(current, limits)
    ensures forall g :: g in Greedy(current, tests, limits) ==> Allowed(g, limits)
    decreases tests
  {
    if tests == [] {
    } else {
      if current != [] && NewSuiteNeeded(Total(current), |current|, tests[0].runtime, limits) {
        GreedyMeetsLimits([tests[0]], tests[1..], limits);
      } else {
        assert Front(current + [tests[0]]) == current;
        GreedyMeetsLimits(current + [tests[0]], tests[1..], limits);
      }
    }
  }

  /** Unless the cap is hit, every suite meets both limits or is a single test. */
  lemma {:induction false} SplitMeetsLimits(tests: Group, limits: Limits, maxSuites: Option<int>)
    requires maxSuites.None? || maxSuites.value == 0 || |Greedy([], tests, limits)| <= maxSuites.value
    ensures forall g :: g in Split(tests, limits, maxSuites) ==>
              |g| <= 1 ||
              (Total(g) <= limits.maxTime
               && (limits.maxTests.None? || limits.maxTests.value == 0 || |g| <= limits.maxTests.value))
  {
    GreedyMeetsLimits([], tests, limits);
  }

  lemma {:induction false} ExtrasCount(rest: Group, j: nat, n: nat)
    requires j < n
    ensures |Extras(rest, j, n)| == |rest| / n + (if j < |rest| % n then 1 else 0)
  {
    if rest == [] {
      DivModUnique(0, n, 0, 0);
    } else {
      ExtrasCount(Front(rest), j, n);
      NextIndex(|rest| - 1, n);
    }
  }

  lemma {:induction false} ConcatGrow(groups: seq<Group>, m: nat, t: TestRuntime)
    requires m < |groups|
    ensures multiset(Concat(groups[m := groups[m] + [t]])) == multiset(Concat(groups)) + multiset{t}
  {
    var grown := groups[m := groups[m] + [t]];
    ConcatSplit(groups, m);
    ConcatSplit(grown, m);
    assert grown[..m] == groups[..m] && grown[m + 1..] == groups[m + 1..];
  }

  lemma {:induction false} SpreadOne(groups: seq<Group>, rest: Group)
    requires groups != [] && rest != []
    ensures var before, m := Spread(groups, Front(rest)), (|rest| - 1) % |groups|;
            Spread(groups, rest) == before[m := before[m] + [Last(rest)]]
  {
    var before, m := Spread(groups, Front(rest)), (|rest| - 1) % |groups|;
    forall j | 0 <= j < |groups|
      ensures Spread(groups, rest)[j] == before[m := before[m] + [Last(rest)]][j]
    {
    }
  }

  lemma {:induction false} SpreadConserves(groups: seq<Group>, rest: Group)
    requires groups != []
    ensures multiset(Concat(Spread(groups, rest))) == multiset(Concat(groups)) + multiset(rest)
    decreases |rest|
  {
    if rest == [] {
      assert forall j :: 0 <= j < |groups| ==> Spread(groups, rest)[j] == groups[j];
      assert Spread(groups, rest) == groups;
    } else {
      SpreadConserves(groups, Front(rest));
      SpreadOne(groups, rest);
      ConcatGrow(Spread(groups, Front(rest)), (|rest| - 1) % |groups|, Last(rest));
      Snoc(rest);
    }
  }

  lemma {:induction false} SpreadKeepsNonEmpty(groups: seq<Group>, rest: Group)
    requires groups != [] && forall g :: g in groups ==> g != []
    ensures forall g :: g in Spread(groups, rest) ==> g != []
  {
    forall g | g in Spread(groups, rest) ensures g != [] {
      var j :| 0 <= j < |groups| && Spread(groups, rest)[j] == g;
      assert groups[j] in groups;
    }
  }

  /** Each test occurrence lands in exactly one non-empty suite, whatever the limits and the cap. */
  lemma {:induction false} SplitConserves(tests: Group, limits: Limits, maxSuites: Option<int>)
    ensures multiset(Concat(Split(tests, limits, maxSuites))) == multiset(tests)
    ensures forall g :: g in Split(tests, limits, maxSuites) ==> g != []
    ensures maxSuites.Some? && maxSuites.value >= 1 ==> |Split(tests, limits, maxSuites)| <= maxSuites.value
    ensures maxSuites.Some? && maxSuites.value < 0 ==> |Split(tests, limits, maxSuites)| <= 1
  {
    var all := Greedy([], tests, limits);
    GreedyConserves([], tests, limits);
    assert [] + tests == tests;
    if CapHit(tests, limits, maxSuites) {
      var c := Cap(maxSuites);
      SpreadConserves(all[..c], Concat(all[c..]));
      assert forall g :: g in all[..c] ==> g in all;
      SpreadKeepsNonEmpty(all[..c], Concat(all[c..]));
      ConcatCut(all, c);
    }
  }

  /** A cap of `n` is met, and reached when greedy packing needs more; zero means no cap, below zero means one. */
  lemma {:induction false} SplitWithinCap(tests: Group, limits: Limits, n: int)
    ensures n >= 1 ==> |Split(tests, limits, Some(n))| <= n
    ensures n >= 1 && |Greedy([], tests, limits)| > n ==> |Split(tests, limits, Some(n))| == n
    ensures |Greedy([], tests, limits)| <= n || n == 0 ==> Split(tests, limits, Some(n)) == Greedy([], tests, limits)
    ensures n < 0 ==> Split(tests, limits, Some(n)) == Split(tests, limits, Some(1))
    ensures Split(tests, limits, None) == Greedy([], tests, limits)
  {
    hide Greedy;
  }

  /** Past a cap of `n`, the tests dealt on top of the greedy suites differ by at most one. */
  lemma {:induction false} OverflowIsEven(tests: Group, limits: Limits, n: nat, i: nat, j: nat)
    requires |Greedy([], tests, limits)| > n && i < j < n
    ensures var all, s := Greedy([], tests, limits), Split(tests, limits, Some(n));
            |s| == n && all[i] <= s[i] && all[j] <= s[j] &&
            0 <= (|s[i]| - |all[i]|) - (|s[j]| - |all[j]|) <= 1
  {
    var rest := Concat(Greedy([], tests, limits)[n..]);
    ExtrasCount(rest, i, n);
    ExtrasCount(rest, j, n);
  }

  /** The remaining test number k goes to suite k % n, behind the k / n that suite got before. */
  lemma {:induction false} OverflowGoesRound(rest: Group, n: nat, k: nat)
    requires n > 0 && k < |rest|
    ensures k / n < |Extras(rest, k % n, n)| && Extras(rest, k % n, n)[k / n] == rest[k]
  {
    if k == |rest| - 1 {
      ExtrasCount(Front(rest), k % n, n);
    } else {
      OverflowGoesRound(Front(rest), n, k);
    }
  }

  // ----- what the figures and the limits are

  /** The figures of a suite, each by what it says about the tests. */
  lemma {:induction false} FiguresAre(a: Group, t: TestRuntime, b: Group)
    ensures Total([t]) == t.runtime && Total(a + b) == Total(a) + Total(b)
    ensures WithRuntime([t]) == (if t.runtime == 0.0 then 0 else 1)
    ensures WithRuntime(a + b) == WithRuntime(a) + WithRuntime(b)
    ensures (forall u :: u in a ==> u.runtime <= Longest(a))
            && (Longest(a) == 0.0 || exists u :: u in a && u.runtime == Longest(a)) && Longest(a) >= 0.0
    ensures forall i :: 0 <= i < |a| ==> Names(a)[i] == a[i].name
  {
    assert Front([t]) == [];
    TotalConcat(a, b);
    WithRuntimeConcat(a, b);
    LongestIs(a);
    NamesAre(a);
  }

  lemma {:induction false} WithRuntimeConcat(a: Group, b: Group)
    ensures WithRuntime(a + b) == WithRuntime(a) + WithRuntime(b)
  {
    if b == [] {
      assert a + b == a;
    } else {
      assert Front(a + b) == a + Front(b);
      WithRuntimeConcat(a, Front(b));
    }
  }

  lemma {:induction false} LongestIs(g: Group)
    ensures (forall u :: u in g ==> u.runtime <= Longest(g)) && Longest(g) >= 0.0
    ensures Longest(g) == 0.0 || exists u :: u in g && u.runtime == Longest(g)
  {
    if g == [] {
    } else {
      LongestIs(Front(g));
      Snoc(g);
      assert Last(g) in g && forall u :: u in Front(g) ==> u in g;
    }
  }

  lemma {:induction false} NamesAre(g: Group)
    ensures forall i :: 0 <= i < |g| ==> Names(g)[i] == g[i].name
  {
    if g == [] {
    } else {
      NamesAre(Front(g));
    }
  }

  /** A suite is allowed if it is a single test, or within the time and within the number of tests if one is given. */
  lemma {:induction false} LimitsAre(g: Group, maxTime: real, n: int)
    ensures Allowed(g, Limits(maxTime, Some(n))) <==> |g| <= 1 || (Total(g) <= maxTime && (n == 0 || |g| <= n))
    ensures Allowed(g, Limits(maxTime, None)) <==> |g| <= 1 || Total(g) <= maxTime
  {
  }

  // ----- optimality

  predicate NonNegative(tests: Group) {
    forall t :: t in tests ==> t.runtime >= 0.0
  }

  lemma {:induction false} TotalNonNegative(g: Group)
    requires NonNegative(g)
    ensures Total(g) >= 0.0
  {
    if g == [] {
    } else {
      TotalNonNegative(Front(g));
    }
  }

  lemma {:induction false} TotalConcat(a: Group, b: Group)
    ensures Total(a + b) == Total(a) + Total(b)
  {
    if b == [] {
      assert a + b == a;
    } else {
      assert Front(a + b) == a + Front(b);
      TotalConcat(a, Front(b));
    }
  }

  /** Any stretch of an allowed group is allowed. */
  lemma {:induction false} StretchAllowed(a: Group, b: Group, c: Group, limits: Limits)
    requires NonNegative(a + b + c) && Allowed(a + b + c, limits)
    ensures Allowed(b, limits)
  {
    TotalConcat(a + b, c);
    TotalConcat(a, b);
    assert forall t :: t in a || t in c ==> t in a + b + c;
    TotalNonNegative(a);
    TotalNonNegative(c);
  }

  /** An order-preserving split into consecutive parts, each within the limits or a single test. */
  ghost predicate LegalSplit(parts: seq<Group>, tests: Group, limits: Limits) {
    Concat(parts) == tests && forall p :: p in parts ==> Allowed(p, limits)
  }

  /** The suite that `current` grows into. */
  function Fill(current: Group, tests: Group, limits: Limits): Group
    decreases tests
  {
    if tests == [] || (current != [] && NewSuiteNeeded(Total(current), |current|, tests[0].runtime, limits)) then
      current
    else Fill(current + [tests[0]], tests[1..], limits)
  }

  lemma {:induction false} FillIsStretch(current: Group, tests: Group, limits: Limits)
    ensures current <= Fill(current, tests, limits) <= current + tests
    ensures tests != [] ==> Fill(current, tests, limits) != []
    decreases tests
  {
    if tests == [] || (current != [] && NewSuiteNeeded(Total(current), |current|, tests[0].runtime, limits)) {
    } else {
      FillIsStretch(current + [tests[0]], tests[1..], limits);
      assert current + [tests[0]] + tests[1..] == current + tests;
    }
  }

  lemma {:induction false} FillStep(filling: Group, test: TestRuntime, rest: Group, limits: Limits)
    ensures Fill(filling, [test] + rest, limits) ==
            if filling != [] && NewSuiteNeeded(Total(filling), |filling|, test.runtime, limits) then filling
            else Fill(filling + [test], rest, limits)
  {
    assert ([test] + rest)[1..] == rest;
  }

  lemma {:induction false} FillNothing(current: Group, limits: Limits)
    requires current != []
    ensures Fill(current, [], limits) == current && Greedy(current, [], limits) == [current] + Greedy([], [], limits)
  {
  }

  /** Greedy fills one suite and starts afresh with the next test. */
  lemma {:induction false} GreedyFillsFirst(current: Group, tests: Group, limits: Limits)
    requires current + tests != []
    ensures |current| <= |Fill(current, tests, limits)| <= |current| + |tests|
    ensures Greedy(current, tests, limits) ==
            [Fill(current, tests, limits)] +
            Greedy([], tests[|Fill(current, tests, limits)| - |current|..], limits)
    decreases tests
  {
    hide *;
    if tests == [] {
      FillNothing(current, limits);
    } else {
      var test, rest := tests[0], tests[1..];
      assert tests == [test] + rest && tests[0..] == tests;
      GreedyStep(current, test, rest, limits);
      FillStep(current, test, rest, limits);
      if current == [] || !NewSuiteNeeded(Total(current), |current|, test.runtime, limits) {
        GreedyFillsFirst(current + [test], rest, limits);
        var n := |Fill(current + [test], rest, limits)| - |current| - 1;
        SliceSlice(tests, 1, n, n);
      }
    }
  }

  /** A greedy suite is full: the next test did not fit. */
  lemma {:induction false} FillIsFull(current: Group, tests: Group, limits: Limits)
    ensures var n := |Fill(current, tests, limits)|;
            |current| <= n <= |current| + |tests| &&
            (n < |current| + |tests| ==> !Fits((current + tests)[..n + 1], limits))
    decreases tests
  {
    if tests == [] {
    } else if current != [] && NewSuiteNeeded(Total(current), |current|, tests[0].runtime, limits) {
      assert (current + tests)[..|current| + 1] == current + [tests[0]];
      assert Front(current + [tests[0]]) == current;
    } else {
      FillIsFull(current + [tests[0]], tests[1..], limits);
      assert current + [tests[0]] + tests[1..] == current + tests;
    }
  }

  lemma {:induction false} CommonFront<T>(a: seq<T>, b: seq<T>, c: seq<T>, d: seq<T>)
    requires a + b == c + d && |a| <= |c|
    ensures b == c[|a|..] + d
  {
    assert b == (a + b)[|a|..];
  }

  /** The first suite made from a non-empty list, and what is made of the rest. */
  lemma {:induction false} FirstSuite(tests: Group, limits: Limits)
    requires tests != []
    ensures var all := Greedy([], tests, limits);
            all != [] && all[0] != [] && all[0] <= tests
            && all[1..] == Greedy([], tests[|all[0]|..], limits)
            && (|all[0]| < |tests| ==> !Fits(tests[..|all[0]| + 1], limits))
  {
    hide Greedy; hide Total; hide Fill;
    assert [] + tests == tests;
    FillIsStretch([], tests, limits);
    GreedyFillsFirst([], tests, limits);
    FillIsFull([], tests, limits);
  }

  /** Dropping tests from the front of a legal split leaves a legal split with no more parts. */
  lemma {:induction false} DropFront(parts: seq<Group>, skip: Group, tests: Group, limits: Limits)
    returns (parts': seq<Group>)
    requires LegalSplit(parts, skip + tests, limits) && NonNegative(skip + tests)
    ensures LegalSplit(parts', tests, limits) && |parts'| <= |parts|
    ensures parts' != [] ==> parts'[0] != []
    decreases |parts|
  {
    if tests == [] {
      return [];
    }
    var first, later := parts[0], parts[1..];
    assert forall t :: t in first || t in Concat(later) ==> t in skip + tests;
    assert forall t :: t in tests ==> t in skip + tests;
    if |first| <= |skip| {
      CommonFront(first, Concat(later), skip, tests);
      parts' := DropFront(later, skip[|first|..], tests, limits);
    } else {
      parts' := TrimFirst(parts, skip, tests, limits);
    }
  }

  lemma {:induction false} TrimFirst(parts: seq<Group>, skip: Group, tests: Group, limits: Limits)
    returns (parts': seq<Group>)
    requires LegalSplit(parts, skip + tests, limits) && NonNegative(skip + tests)
    requires parts != [] && |skip| < |parts[0]|
    ensures LegalSplit(parts', tests, limits) && |parts'| == |parts|
    ensures parts'[0] != []
  {
    var first, later := parts[0], parts[1..];
    var kept := first[|skip|..];
    CommonFront(skip, tests, first, Concat(later));
    assert first == skip + kept + [] by {
      assert first == (skip + tests)[..|first|];
    }
    assert forall t :: t in first ==> t in skip + tests;
    StretchAllowed(skip, kept, [], limits);
    parts' := [kept] + later;
    assert parts'[1..] == later;
  }

  /** A legal part of the tests from the start does not reach past where one more test is too many. */
  lemma {:induction false} NoLongerThanFirst(part: Group, tests: Group, n: nat, limits: Limits)
    requires part <= tests && NonNegative(tests) && Allowed(part, limits)
    requires n < |tests| ==> !Allowed(tests[..n + 1], limits)
    ensures |part| <= n || n == |tests|
  {
    if n < |part| {
      assert part == [] + tests[..n + 1] + part[n + 1..];
      StretchAllowed([], tests[..n + 1], part[n + 1..], limits);
    }
  }

  /** Without its first part, a legal split is one of the tests behind that part. */
  lemma {:induction false} AfterFirstPart(parts: seq<Group>, tests: Group, n: nat, limits: Limits)
    requires parts != [] && LegalSplit(parts, tests, limits) && NonNegative(tests) && |parts[0]| <= n <= |tests|
    ensures var behind := tests[|parts[0]|..n] + tests[n..];
            LegalSplit(parts[1..], behind, limits) && NonNegative(behind)
  {
    var part, others := parts[0], parts[1..];
    assert (part + Concat(others))[|part|..] == Concat(others);
    var behind := tests[|part|..n] + tests[n..];
    assert behind == tests[|part|..];
    assert forall t :: t in behind ==> t in tests;
  }

  /** Greedy needs no more suites than any legal split, even one of more tests. */
  lemma {:induction false} GreedyStaysAhead(parts: seq<Group>, skip: Group, tests: Group, limits: Limits)
    requires LegalSplit(parts, skip + tests, limits) && NonNegative(skip + tests)
    ensures |Greedy([], tests, limits)| <= |parts|
    decreases |tests|
  {
    if tests == [] {
      return;
    }
    hide Greedy; hide Total;
    var legal := DropFront(parts, skip, tests, limits);
    var part, others := legal[0], legal[1..];
    FirstSuite(tests, limits);
    var all := Greedy([], tests, limits);
    var n := |all[0]|;
    assert forall t :: t in tests ==> t in skip + tests;
    assert part == tests[..|part|];
    NoLongerThanFirst(part, tests, n, limits);
    AfterFirstPart(legal, tests, n, limits);
    GreedyStaysAhead(others, tests[|part|..n], tests[n..], limits);
    assert |all| == 1 + |all[1..]|;
  }

  /**
   * No order-preserving split within the limits uses fewer suites. The cap is hit only if every such
   * split exceeds it, and otherwise the split is such a split itself.
   */
  lemma {:induction false} SplitIsOptimal(parts: seq<Group>, tests: Group, limits: Limits, maxSuites: Option<int>)
    requires NonNegative(tests) && LegalSplit(parts, tests, limits)
    ensures |Split(tests, limits, maxSuites)| <= |parts|
    ensures maxSuites.Some? && 1 <= maxSuites.value < |Greedy([], tests, limits)| ==> |parts| > maxSuites.value
    ensures maxSuites.None? || maxSuites.value == 0 || |Greedy([], tests, limits)| <= maxSuites.value ==>
              LegalSplit(Split(tests, limits, maxSuites), tests, limits)
  {
    assert [] + tests == tests;
    GreedyConserves([], tests, limits);
    GreedyMeetsLimits([], tests, limits);
    GreedyStaysAhead(parts, [], tests, limits);
  }

  /** A full suite and the suite after it together exceed the time limit. */
  lemma {:induction false} FullThenNext(full: Group, second: Group, limits: Limits)
    requires second != [] && NonNegative(second) && !Given(limits.maxTests) && !Fits(full + [second[0]], limits)
    ensures Total(full) + Total(second) > limits.maxTime
  {
    assert second == [second[0]] + second[1..];
    TotalConcat([second[0]], second[1..]);
    TotalNonNegative(second[1..]);
    TotalConcat(full, [second[0]]);
  }

  lemma {:induction false} GreedyOfNothing(limits: Limits)
    ensures Greedy([], [], limits) == []
  {
  }

  lemma {:induction false} FirstTwoExceedLimit(tests: Group, limits: Limits)
    requires NonNegative(tests) && !Given(limits.maxTests) && 1 < |Greedy([], tests, limits)|
    ensures Total(Greedy([], tests, limits)[0]) + Total(Greedy([], tests, limits)[1]) > limits.maxTime
  {
    hide Greedy; hide Total;
    GreedyOfNothing(limits);
    FirstSuite(tests, limits);
    var full := Greedy([], tests, limits)[0];
    var later := tests[|full|..];
    FirstSuite(later, limits);
    var second := Greedy([], later, limits)[0];
    assert forall t :: t in second ==> t in later && t in tests;
    assert tests[..|full| + 1] == full + [second[0]];
    FullThenNext(full, second, limits);
  }

  lemma {:induction false} GreedyNeighbours(tests: Group, limits: Limits, i: nat)
    requires NonNegative(tests) && !Given(limits.maxTests) && i + 1 < |Greedy([], tests, limits)|
    ensures Total(Greedy([], tests, limits)[i]) + Total(Greedy([], tests, limits)[i + 1]) > limits.maxTime
    decreases |tests|
  {
    hide Greedy; hide Total;
    GreedyOfNothing(limits);
    if i == 0 {
      FirstTwoExceedLimit(tests, limits);
    } else {
      FirstSuite(tests, limits);
      var later := tests[|Greedy([], tests, limits)[0]|..];
      assert forall t :: t in later ==> t in tests;
      GreedyNeighbours(later, limits, i - 1);
    }
  }

  lemma {:induction false} ExtrasAreTests(rest: Group, j: nat, n: nat)
    requires n > 0
    ensures forall t :: t in Extras(rest, j, n) ==> t in rest
  {
    if rest == [] {
      assert Extras(rest, j, n) == [];
    } else {
      ExtrasAreTests(Front(rest), j, n);
    }
  }

  /** What is dealt on top of a suite only adds to its runtime. */
  lemma {:induction false} SplitKeepsTotals(tests: Group, limits: Limits, maxSuites: Option<int>, i: nat)
    requires NonNegative(tests) && i < |Split(tests, limits, maxSuites)|
    ensures i < |Greedy([], tests, limits)|
    ensures Total(Split(tests, limits, maxSuites)[i]) >= Total(Greedy([], tests, limits)[i])
  {
    hide Greedy; hide Total; hide Extras;
    var all := Greedy([], tests, limits);
    if CapHit(tests, limits, maxSuites) {
      var c := Cap(maxSuites);
      var rest := Concat(all[c..]);
      GreedyConserves([], tests, limits);
      ConcatCut(all, c);
      ExtrasAreTests(rest, i, c);
      assert forall t :: t in rest ==> t in Concat(all);
      TotalNonNegative(Extras(rest, i, c));
      TotalConcat(all[i], Extras(rest, i, c));
    }
  }

  /** With no limit on the number of tests, two neighbouring suites together exceed the time limit. */
  lemma {:induction false} NeighboursExceedLimit(tests: Group, limits: Limits, maxSuites: Option<int>, i: nat)
    requires NonNegative(tests) && !Given(limits.maxTests) && i + 1 < |Split(tests, limits, maxSuites)|
    ensures var s := Split(tests, limits, maxSuites); Total(s[i]) + Total(s[i + 1]) > limits.maxTime
  {
    hide Greedy; hide Total; hide Split;
    SplitKeepsTotals(tests, limits, maxSuites, i);
    SplitKeepsTotals(tests, limits, maxSuites, i + 1);
    GreedyNeighbours(tests, limits, i);
  }
}
