/**
 * The router's index: static routes in nested dictionaries, dynamic routes in a list per method
 * and compiled into blocks of at most 99 combined patterns. Matching through the index is proved
 * to equal a plain scan of everything that was ever added.
 *
 * `matches(pattern, path)` stands for the regular expressions. A combined pattern answers with
 * its lowest alternative that matches. `T` is a route's target with its argument extractor.
 */
module Router {
  import opened Common

  type Matcher = (string, string) -> bool

  const MAX_GROUPS_PER_PATTERN := 99

  /** A rule as parsed: its path if it has no wildcards, and its flattened pattern. */
  datatype Rule = Rule(isStatic: bool, path: string, pattern: string)

  datatype Added<T> = Added(verb: string, rule: Rule, target: T)

  datatype Route<T> = Route(pattern: string, target: T)

  // ----- the plain scan

  predicate AddsStatic<T>(strict: bool, a: Added<T>, m: string, path: string) {
    a.verb == m && a.rule.isStatic && !strict && a.rule.path == path
  }

  predicate AddsDynamic<T>(strict: bool, a: Added<T>, m: string) {
    a.verb == m && !(a.rule.isStatic && !strict)
  }

  /** The latest target of a static route. */
  function StaticHit<T>(strict: bool, log: seq<Added<T>>, m: string, path: string): Option<T> {
    if log == [] then None
    else if AddsStatic(strict, Last(log), m, path) then Some(Last(log).target)
    else StaticHit(strict, Front(log), m, path)
  }

  /** The earliest-registered dynamic pattern that matches. */
  function FirstPattern<T>(strict: bool, log: seq<Added<T>>, m: string, matches: Matcher, path: string): Option<string>
  {
    if log == [] then None
    else if AddsDynamic(strict, log[0], m) && matches(log[0].rule.pattern, path) then Some(log[0].rule.pattern)
    else FirstPattern(strict, log[1..], m, matches, path)
  }

  /** The latest target given to a dynamic pattern. */
  function LatestTarget<T>(strict: bool, log: seq<Added<T>>, m: string, pattern: string): Option<T> {
    if log == [] then None
    else if AddsDynamic(strict, Last(log), m) && Last(log).rule.pattern == pattern then Some(Last(log).target)
    else LatestTarget(strict, Front(log), m, pattern)
  }

  function DynamicHit<T>(strict: bool, log: seq<Added<T>>, m: string, matches: Matcher, path: string): Option<T> {
    match FirstPattern(strict, log, m, matches, path)
    case None => None
    case Some(pattern) => LatestTarget(strict, log, m, pattern)
  }

  /** Static before dynamic. */
  function Hit<T>(strict: bool, log: seq<Added<T>>, m: string, matches: Matcher, path: string): Option<T> {
    var s := StaticHit(strict, log, m, path);
    if s.Some? then s else DynamicHit(strict, log, m, matches, path)
  }

  function FirstHit<T>(
    strict: bool, log: seq<Added<T>>, methods: seq<string>, matches: Matcher, path: string): Option<T>
  {
    if methods == [] then None
    else
      var h := Hit(strict, log, methods[0], matches, path);
      if h.Some? then h else FirstHit(strict, log, methods[1..], matches, path)
  }

  function TriedMethods(verb: string): seq<string> {
    if verb == "HEAD" then ["PROXY", verb, "GET", "ANY"] else ["PROXY", verb, "ANY"]
  }

  datatype Answer<T> = Matched(target: T) | MethodNotAllowed | NotFound

  ghost predicate OtherMethodMatches<T>(
    strict: bool, log: seq<Added<T>>, methods: seq<string>, matches: Matcher, path: string)
  {
    exists m :: m !in methods && Hit(strict, log, m, matches, path).Some?
  }

  ghost function Lookup<T>(strict: bool, log: seq<Added<T>>, matches: Matcher, verb: string, path: string): Answer<T> {
    var methods := TriedMethods(verb);
    var h := FirstHit(strict, log, methods, matches, path);
    if h.Some? then Matched(h.value)
    else if OtherMethodMatches(strict, log, methods, matches, path) then MethodNotAllowed
    else NotFound
  }

  // ----- the table of dynamic routes

  function Put<T>(routes: seq<Route<T>>, r: Route<T>): seq<Route<T>> {
    if routes == [] then [r]
    else if routes[0].pattern == r.pattern then [r] + routes[1..]
    else [routes[0]] + Put(routes[1..], r)
  }

  /** The routes of a method: every pattern once, where it was first added, with its latest target. */
  function Table<T>(strict: bool, log: seq<Added<T>>, m: string): seq<Route<T>> {
    if log == [] then []
    else
      var before := Table(strict, Front(log), m);
      if AddsDynamic(strict, Last(log), m) then Put(before, Route(Last(log).rule.pattern, Last(log).target)) else before
  }

  /** The target of the first route whose pattern matches. */
  function Scan<T>(routes: seq<Route<T>>, matches: Matcher, path: string): Option<T> {
    if routes == [] then None
    else if matches(routes[0].pattern, path) then Some(routes[0].target)
    else Scan(routes[1..], matches, path)
  }

  /** The first pattern that matches. */
  function ScanPattern<T>(routes: seq<Route<T>>, matches: Matcher, path: string): Option<string> {
    if routes == [] then None
    else if matches(routes[0].pattern, path) then Some(routes[0].pattern)
    else ScanPattern(routes[1..], matches, path)
  }

  lemma {:induction false} PutScan<T>(routes: seq<Route<T>>, r: Route<T>, matches: Matcher, path: string)
    ensures ScanPattern(Put(routes, r), matches, path) ==
            if ScanPattern(routes, matches, path).Some? then ScanPattern(routes, matches, path)
            else if matches(r.pattern, path) then Some(r.pattern) else None
    ensures Scan(Put(routes, r), matches, path) ==
            match ScanPattern(Put(routes, r), matches, path)
            case None => None
            case Some(p) => if p == r.pattern then Some(r.target) else Scan(routes, matches, path)
  {
    if routes == [] {
    } else {
      var rest := routes[1..];
      PutScan(rest, r, matches, path);
      ScanAgrees(rest, matches, path);
      if routes[0].pattern == r.pattern {
        assert ([r] + rest)[1..] == rest;
      } else {
        assert ([routes[0]] + Put(rest, r))[1..] == Put(rest, r);
      }
    }
  }

  lemma {:induction false} FirstPatternSnoc<T>(
    strict: bool, log: seq<Added<T>>, m: string, matches: Matcher, path: string)
    requires log != []
    ensures FirstPattern(strict, log, m, matches, path) ==
            var before := FirstPattern(strict, Front(log), m, matches, path);
            if before.Some? then before
            else if AddsDynamic(strict, Last(log), m) && matches(Last(log).rule.pattern, path)
            then Some(Last(log).rule.pattern) else None
  {
    if |log| == 1 {
      assert Front(log) == [] && log[1..] == [];
    } else {
      assert Front(log)[0] == log[0] && Front(log)[1..] == Front(log[1..]) && Last(log[1..]) == Last(log);
      FirstPatternSnoc(strict, log[1..], m, matches, path);
    }
  }

  /** Scanning the table finds the earliest-registered matching pattern, with its latest target. */
  lemma {:induction false} TableScan<T>(strict: bool, log: seq<Added<T>>, m: string, matches: Matcher, path: string)
    ensures ScanPattern(Table(strict, log, m), matches, path) == FirstPattern(strict, log, m, matches, path)
    ensures Scan(Table(strict, log, m), matches, path) == DynamicHit(strict, log, m, matches, path)
  {
    if log == [] {
    } else {
      TableScan(strict, Front(log), m, matches, path);
      FirstPatternSnoc(strict, log, m, matches, path);
      var before := Table(strict, Front(log), m);
      ScanAgrees(before, matches, path);
      if AddsDynamic(strict, Last(log), m) {
        PutScan(before, Route(Last(log).rule.pattern, Last(log).target), matches, path);
      }
    }
  }

  lemma {:induction false} ScanAgrees<T>(routes: seq<Route<T>>, matches: Matcher, path: string)
    ensures Scan(routes, matches, path).Some? <==> ScanPattern(routes, matches, path).Some?
    ensures ScanPattern(routes, matches, path).Some? ==> matches(ScanPattern(routes, matches, path).value, path)
  {
    if routes == [] {
    } else {
      ScanAgrees(routes[1..], matches, path);
    }
  }

  // ----- compiled blocks

  /** A combined pattern and the targets of its alternatives. */
  datatype Block<T> = Block(patterns: seq<string>, targets: seq<T>)

  function Patterns<T>(routes: seq<Route<T>>): seq<string> {
    seq(|routes|, i requires 0 <= i < |routes| => routes[i].pattern)
  }

  function Targets<T>(routes: seq<Route<T>>): seq<T> {
    seq(|routes|, i requires 0 <= i < |routes| => routes[i].target)
  }

  function Blocks<T>(routes: seq<Route<T>>): seq<Block<T>> {
    if routes == [] then []
    else
      var n := if |routes| < MAX_GROUPS_PER_PATTERN then |routes| else MAX_GROUPS_PER_PATTERN;
      [Block(Patterns(routes[..n]), Targets(routes[..n]))] + Blocks(routes[n..])
  }

  /** The lowest alternative that matches. */
  function Alternative(patterns: seq<string>, matches: Matcher, path: string): (r: Option<nat>)
    ensures r.Some? ==> r.value < |patterns|
  {
    if patterns == [] then None
    else if matches(patterns[0], path) then Some(0)
    else
      match Alternative(patterns[1..], matches, path)
      case None => None
      case Some(i) => Some(i + 1)
  }

  /** The target found by trying the blocks in order. */
  function TryBlocks<T>(blocks: seq<Block<T>>, matches: Matcher, path: string): Option<T>
    requires forall i :: 0 <= i < |blocks| ==> |blocks[i].patterns| == |blocks[i].targets|
  {
    if blocks == [] then None
    else
      var i := Alternative(blocks[0].patterns, matches, path);
      if i.Some? then Some(blocks[0].targets[i.value]) else TryBlocks(blocks[1..], matches, path)
  }

  lemma {:induction false} AlternativeScans<T>(routes: seq<Route<T>>, matches: Matcher, path: string)
    ensures var i := Alternative(Patterns(routes), matches, path);
            Scan(routes, matches, path) == if i.Some? then Some(Targets(routes)[i.value]) else None
  {
    if routes == [] {
    } else {
      assert Patterns(routes)[1..] == Patterns(routes[1..]);
      AlternativeScans(routes[1..], matches, path);
    }
  }

  lemma {:induction false} ScanConcat<T>(a: seq<Route<T>>, b: seq<Route<T>>, matches: Matcher, path: string)
    ensures Scan(a + b, matches, path) ==
            if Scan(a, matches, path).Some? then Scan(a, matches, path) else Scan(b, matches, path)
  {
    if a == [] {
      assert a + b == b;
    } else {
      assert (a + b)[1..] == a[1..] + b;
      ScanConcat(a[1..], b, matches, path);
    }
  }

  lemma {:induction false} BlocksAreEven<T>(routes: seq<Route<T>>)
    ensures forall i :: 0 <= i < |Blocks(routes)| ==> |Blocks(routes)[i].patterns| == |Blocks(routes)[i].targets|
    decreases |routes|
  {
    if routes == [] {
    } else {
      var n := if |routes| < MAX_GROUPS_PER_PATTERN then |routes| else MAX_GROUPS_PER_PATTERN;
      BlocksAreEven(routes[n..]);
    }
  }

  /** Trying blocks of 99 patterns is scanning the routes one by one. */
  lemma {:induction false} BlocksScan<T>(routes: seq<Route<T>>, matches: Matcher, path: string)
    requires forall i :: 0 <= i < |Blocks(routes)| ==> |Blocks(routes)[i].patterns| == |Blocks(routes)[i].targets|
    ensures TryBlocks(Blocks(routes), matches, path) == Scan(routes, matches, path)
    decreases |routes|
  {
    if routes == [] {
    } else {
      var n := if |routes| < MAX_GROUPS_PER_PATTERN then |routes| else MAX_GROUPS_PER_PATTERN;
      BlocksAreEven(routes[n..]);
      BlocksScan(routes[n..], matches, path);
      AlternativeScans(routes[..n], matches, path);
      assert routes == routes[..n] + routes[n..];
      ScanConcat(routes[..n], routes[n..], matches, path);
      assert Blocks(routes)[1..] == Blocks(routes[n..]);
    }
  }

  // ----- the router's dictionaries

  type StaticRoutes<T> = map<string, map<string, T>>
  type DynamicRoutes<T> = map<string, seq<Route<T>>>
  type Groups = map<(string, string), nat>
  type Regexes<T> = map<string, seq<Block<T>>>

  function StaticEntry<T>(routes: StaticRoutes<T>, m: string, path: string): Option<T> {
    if m in routes && path in routes[m] then Some(routes[m][path]) else None
  }

  function RoutesOf<T>(routes: DynamicRoutes<T>, m: string): seq<Route<T>> {
    if m in routes then routes[m] else []
  }

  ghost predicate StaticOk<T>(strict: bool, log: seq<Added<T>>, routes: StaticRoutes<T>) {
    forall m, path :: StaticEntry(routes, m, path) == StaticHit(strict, log, m, path)
  }

  ghost predicate DynamicOk<T>(strict: bool, log: seq<Added<T>>, routes: DynamicRoutes<T>) {
    forall m :: RoutesOf(routes, m) == Table(strict, log, m)
  }

  /** The groups are the positions of the patterns in their method's list. */
  ghost predicate GroupsOk<T>(routes: DynamicRoutes<T>, groups: Groups) {
    (forall m, i :: m in routes && 0 <= i < |routes[m]| ==>
       (routes[m][i].pattern, m) in groups && groups[(routes[m][i].pattern, m)] == i)
    && (forall p, m :: (p, m) in groups ==>
          m in routes && groups[(p, m)] < |routes[m]| && routes[m][groups[(p, m)]].pattern == p)
  }

  ghost predicate RegexesOk<T>(routes: DynamicRoutes<T>, regexes: Regexes<T>) {
    regexes.Keys == routes.Keys && forall m :: m in routes ==> regexes[m] == Blocks(routes[m])
  }

  lemma {:induction false} PutAt<T>(routes: seq<Route<T>>, r: Route<T>, i: nat)
    requires i < |routes| && routes[i].pattern == r.pattern
    requires forall j :: 0 <= j < i ==> routes[j].pattern != r.pattern
    ensures Put(routes, r) == routes[i := r]
  {
    if i <= 0 {
    } else {
      PutAt(routes[1..], r, i - 1);
    }
  }

  lemma {:induction false} PutNew<T>(routes: seq<Route<T>>, r: Route<T>)
    requires forall j :: 0 <= j < |routes| ==> routes[j].pattern != r.pattern
    ensures Put(routes, r) == routes + [r]
  {
    if routes == [] {
    } else {
      PutNew(routes[1..], r);
    }
  }

  lemma {:induction false} StaticStep<T>(
    strict: bool, log: seq<Added<T>>, routes: StaticRoutes<T>, a: Added<T>)
    requires StaticOk(strict, log, routes)
    ensures a.rule.isStatic && !strict ==>
              StaticOk(strict, log + [a],
                       routes[a.verb := (if a.verb in routes then routes[a.verb] else map[])[a.rule.path := a.target]])
    ensures !(a.rule.isStatic && !strict) ==> StaticOk(strict, log + [a], routes)
  {
    forall m, path
      ensures StaticHit(strict, log + [a], m, path) ==
              if AddsStatic(strict, a, m, path) then Some(a.target) else StaticEntry(routes, m, path)
    {
      assert Front(log + [a]) == log && Last(log + [a]) == a;
      assert StaticEntry(routes, m, path) == StaticHit(strict, log, m, path);
    }
    hide StaticHit;
  }

  lemma {:induction false} DynamicStep<T>(
    strict: bool, log: seq<Added<T>>, routes: DynamicRoutes<T>, a: Added<T>)
    requires DynamicOk(strict, log, routes)
    ensures a.rule.isStatic && !strict ==> DynamicOk(strict, log + [a], routes)
    ensures !(a.rule.isStatic && !strict) ==>
              DynamicOk(strict, log + [a],
                        routes[a.verb := Put(RoutesOf(routes, a.verb), Route(a.rule.pattern, a.target))])
  {
    hide Put;
    forall m
      ensures Table(strict, log + [a], m) ==
              if AddsDynamic(strict, a, m) then Put(RoutesOf(routes, m), Route(a.rule.pattern, a.target))
              else RoutesOf(routes, m)
    {
      assert Front(log + [a]) == log && Last(log + [a]) == a;
      assert RoutesOf(routes, m) == Table(strict, log, m);
    }
  }

  class Router<T> {
    const strictOrder: bool
    var staticRoutes: StaticRoutes<T>
    var dynaRoutes: DynamicRoutes<T>
    var groups: Groups
    var dynaRegexes: Regexes<T>
    ghost var log: seq<Added<T>>

    constructor (strict: bool)
      ensures Valid() && log == [] && strictOrder == strict
    {
      strictOrder := strict;
      staticRoutes, dynaRoutes, groups, dynaRegexes, log := map[], map[], map[], map[], [];
    }

    /** The dictionaries are those of everything added so far. */
    ghost predicate Valid()
      reads this
    {
      StaticOk(strictOrder, log, staticRoutes) && DynamicOk(strictOrder, log, dynaRoutes)
      && GroupsOk(dynaRoutes, groups) && RegexesOk(dynaRoutes, dynaRegexes)
    }

    method Add(rule: Rule, verb: string, target: T)
      requires Valid()
      modifies this
      ensures Valid() && log == old(log) + [Added(verb, rule, target)]
    {
      hide StaticOk; hide DynamicOk; hide GroupsOk; hide RegexesOk; hide Put;
      StaticStep(strictOrder, log, staticRoutes, Added(verb, rule, target));
      DynamicStep(strictOrder, log, dynaRoutes, Added(verb, rule, target));
      log := log + [Added(verb, rule, target)];
      if rule.isStatic && !strictOrder {
        if verb !in staticRoutes {
          staticRoutes := staticRoutes[verb := map[]];
        }
        staticRoutes := staticRoutes[verb := staticRoutes[verb][rule.path := target]];
        assert staticRoutes ==
               old(staticRoutes)[
                 verb := (if verb in old(staticRoutes) then old(staticRoutes)[verb] else map[])[rule.path := target]];
        return;
      }
      var route := Route(rule.pattern, target);
      ghost var before := dynaRoutes;
      if (rule.pattern, verb) in groups {
        OldGroup(dynaRoutes, groups, verb, route);
        dynaRoutes := dynaRoutes[verb := dynaRoutes[verb][groups[(rule.pattern, verb)] := route]];
      } else {
        NewGroup(dynaRoutes, groups, verb, route);
        if verb !in dynaRoutes {
          dynaRoutes := dynaRoutes[verb := []];
        }
        dynaRoutes := dynaRoutes[verb := dynaRoutes[verb] + [route]];
        assert dynaRoutes == before[verb := RoutesOf(before, verb) + [route]];
        groups := groups[(rule.pattern, verb) := |dynaRoutes[verb]| - 1];
      }
      Recompiled(before, dynaRegexes, verb, dynaRoutes[verb]);
      assert dynaRoutes == before[verb := dynaRoutes[verb]];
      Compile(verb);
    }

    method Compile(verb: string)
      requires verb in dynaRoutes
      modifies this`dynaRegexes
      ensures dynaRegexes == old(dynaRegexes)[verb := Blocks(dynaRoutes[verb])]
    {
      hide Blocks; hide Patterns; hide Targets;
      var rules := dynaRoutes[verb];
      NoBlocks<T>();
      assert rules[0..] == rules;
      var comborules: seq<Block<T>> := [];
      var x := 0;
      while x < |rules|
        invariant dynaRegexes == old(dynaRegexes)
        invariant 0 <= x && Blocks(rules) == comborules + (if x < |rules| then Blocks(rules[x..]) else [])
        decreases |rules| - x
      {
        var end := if x + MAX_GROUPS_PER_PATTERN < |rules| then x + MAX_GROUPS_PER_PATTERN else |rules|;
        var some := rules[x..end];
        NextBlock(rules, x, end);
        comborules := comborules + [Block(Patterns(some), Targets(some))];
        x := x + MAX_GROUPS_PER_PATTERN;
      }
      assert Blocks(rules) == comborules;
      dynaRegexes := dynaRegexes[verb := comborules];
    }

    /** The target of the first matching route for one method. */
    method MatchMethod(m: string, matches: Matcher, path: string) returns (r: Option<T>)
      requires Valid()
      ensures r == Hit(strictOrder, log, m, matches, path)
    {
      hide Blocks; hide Table; hide StaticHit; hide DynamicHit;
      assert StaticEntry(staticRoutes, m, path) == StaticHit(strictOrder, log, m, path);
      assert RoutesOf(dynaRoutes, m) == Table(strictOrder, log, m);
      TableScan(strictOrder, log, m, matches, path);
      if m in staticRoutes && path in staticRoutes[m] {
        return Some(staticRoutes[m][path]);
      } else if m in dynaRegexes {
        var blocks := dynaRegexes[m];
        BlocksAreEven(dynaRoutes[m]);
        BlocksScan(dynaRoutes[m], matches, path);
        for i := 0 to |blocks|
          invariant TryBlocks(blocks, matches, path) == TryBlocks(blocks[i..], matches, path)
        {
          assert blocks[i..][1..] == blocks[i + 1..];
          var alternative := Alternative(blocks[i].patterns, matches, path);
          if alternative.Some? {
            return Some(blocks[i].targets[alternative.value]);
          }
        }
        return None;
      }
      return None;
    }

    /** `verb` is the upper-cased request method; an empty path stands for the root. */
    method Match(verb: string, pathInfo: string, matches: Matcher) returns (answer: Answer<T>)
      requires Valid()
      ensures answer == Lookup(strictOrder, log, matches, verb, if pathInfo == "" then "/" else pathInfo)
    {
      hide Hit; hide Valid; hide TriedMethods;
      var path := if pathInfo == "" then "/" else pathInfo;
      var methods := TriedMethods(verb);
      ghost var goal := FirstHit(strictOrder, log, methods, matches, path);
      for i := 0 to |methods|
        invariant goal == FirstHit(strictOrder, log, methods[i..], matches, path)
      {
        assert methods[i..][1..] == methods[i + 1..];
        var r := MatchMethod(methods[i], matches, path);
        if r.Some? {
          return Matched(r.value);
        }
      }
      assert methods[|methods|..] == [];
      VerbIsTried(verb);
      var allowed := OtherMethodsAllow(verb, methods, matches, path);
      if allowed {
        return MethodNotAllowed;
      }
      return NotFound;
    }

    /** The first half of the 405 check: untried methods with a static match. */
    method StaticAllowed(verb: string, methods: seq<string>, path: string) returns (allowed: set<string>)
      requires Valid()
      ensures allowed <= {verb}
      ensures allowed == {} <==> forall m :: m !in methods ==> StaticHit(strictOrder, log, m, path).None?
    {
      hide StaticHit; hide DynamicOk; hide GroupsOk; hide RegexesOk;
      allowed := {};
      var left := set m | m in staticRoutes && m !in methods;
      assert forall m :: m !in staticRoutes ==> StaticEntry(staticRoutes, m, path).None?;
      while left != {}
        invariant allowed <= {verb} && forall m :: m in left ==> m in staticRoutes && m !in methods
        invariant allowed != {} ==> exists m :: m !in methods && StaticHit(strictOrder, log, m, path).Some?
        invariant allowed == {} ==>
                    forall m :: m !in methods && m !in left ==> StaticHit(strictOrder, log, m, path).None?
        decreases |left|
      {
        var m :| m in left;
        left := left - {m};
        assert StaticEntry(staticRoutes, m, path) == StaticHit(strictOrder, log, m, path);
        if path in staticRoutes[m] {
          allowed := allowed + {verb};
        }
      }
    }

    /** Whether any method that was not tried has a static or dynamic match: the 405 case. */
    method OtherMethodsAllow(verb: string, methods: seq<string>, matches: Matcher, path: string) returns (some: bool)
      requires Valid() && verb in methods
      ensures some == OtherMethodMatches(strictOrder, log, methods, matches, path)
    {
      hide StaticHit; hide DynamicHit; hide Valid;
      var allowed := StaticAllowed(verb, methods, path);
      var left := set m | m in dynaRegexes && m !in allowed && m !in methods;
      ghost var dynamic := left;
      ghost var static' := allowed;
      while left != {}
        invariant left <= dynamic && static' <= allowed
        invariant allowed != static' ==>
                    exists m :: m in dynamic && DynamicHit(strictOrder, log, m, matches, path).Some?
        invariant allowed == static' ==>
                    forall m :: m in dynamic && m !in left ==> DynamicHit(strictOrder, log, m, matches, path).None?
        decreases |left|
      {
        var m :| m in left;
        left := left - {m};
        var hit := AnyBlockMatches(m, matches, path);
        if hit {
          allowed := allowed + {m};
          assert m in allowed && m !in static';
        }
      }
      some := allowed != {};
      if !some {
        forall m | m !in methods ensures Hit(strictOrder, log, m, matches, path).None? {
          if m !in dynamic {
            NoRoutes(m, matches, path);
          }
        }
      } else if static' != {} {
        var m :| m !in methods && StaticHit(strictOrder, log, m, path).Some?;
        assert Hit(strictOrder, log, m, matches, path).Some?;
      } else {
        var m :| m in dynamic && DynamicHit(strictOrder, log, m, matches, path).Some?;
        assert Hit(strictOrder, log, m, matches, path).Some?;
      }
    }

    method AnyBlockMatches(m: string, matches: Matcher, path: string) returns (hit: bool)
      requires Valid() && m in dynaRegexes
      ensures hit == DynamicHit(strictOrder, log, m, matches, path).Some?
    {
      hide Blocks; hide Table; hide StaticHit; hide DynamicHit;
      assert RoutesOf(dynaRoutes, m) == Table(strictOrder, log, m);
      TableScan(strictOrder, log, m, matches, path);
      var blocks := dynaRegexes[m];
      BlocksAreEven(dynaRoutes[m]);
      BlocksScan(dynaRoutes[m], matches, path);
      hit := false;
      for i := 0 to |blocks|
        invariant TryBlocks(blocks, matches, path).Some? == (hit || TryBlocks(blocks[i..], matches, path).Some?)
      {
        assert blocks[i..][1..] == blocks[i + 1..];
        if Alternative(blocks[i].patterns, matches, path).Some? {
          hit := true;
        }
      }
    }

    lemma {:induction false} NoRoutes(m: string, matches: Matcher, path: string)
      requires Valid() && m !in dynaRegexes
      ensures DynamicHit(strictOrder, log, m, matches, path).None?
    {
      assert RoutesOf(dynaRoutes, m) == Table(strictOrder, log, m);
      TableScan(strictOrder, log, m, matches, path);
    }
  }

  lemma {:induction false} VerbIsTried(verb: string)
    ensures verb in TriedMethods(verb)
  {
    assert TriedMethods(verb)[1] == verb;
  }

  lemma {:induction false} NoBlocks<T>()
    ensures Blocks<T>([]) == []
  {
  }

  lemma {:induction false} NextBlock<T>(rules: seq<Route<T>>, x: nat, end: nat)
    requires x < |rules|
    requires end == if x + MAX_GROUPS_PER_PATTERN < |rules| then x + MAX_GROUPS_PER_PATTERN else |rules|
    ensures Blocks(rules[x..]) ==
            [Block(Patterns(rules[x..end]), Targets(rules[x..end]))]
            + (if x + MAX_GROUPS_PER_PATTERN < |rules| then Blocks(rules[x + MAX_GROUPS_PER_PATTERN..]) else [])
  {
    var rest := rules[x..];
    assert rest[..end - x] == rules[x..end];
    assert rest[end - x..] == rules[end..];
    if end == |rules| {
      assert rules[end..] == [];
    }
  }

  /** Replacing the target of a known pattern in place is putting it into the table. */
  lemma {:induction false} OldGroup<T>(routes: DynamicRoutes<T>, groups: Groups, verb: string, r: Route<T>)
    requires GroupsOk(routes, groups) && (r.pattern, verb) in groups
    ensures verb in routes && groups[(r.pattern, verb)] < |routes[verb]|
    ensures var updated := routes[verb][groups[(r.pattern, verb)] := r];
            updated == Put(RoutesOf(routes, verb), r) && GroupsOk(routes[verb := updated], groups)
  {
    var i := groups[(r.pattern, verb)];
    forall j | 0 <= j < i ensures routes[verb][j].pattern != r.pattern {
      assert groups[(routes[verb][j].pattern, verb)] == j;
    }
    PutAt(routes[verb], r, i);
  }

  /** Appending a new pattern is putting it into the table. */
  lemma {:induction false} NewGroup<T>(routes: DynamicRoutes<T>, groups: Groups, verb: string, r: Route<T>)
    requires GroupsOk(routes, groups) && (r.pattern, verb) !in groups
    ensures var extended := RoutesOf(routes, verb) + [r];
            extended == Put(RoutesOf(routes, verb), r)
            && GroupsOk(routes[verb := extended], groups[(r.pattern, verb) := |extended| - 1])
  {
    var extended := RoutesOf(routes, verb) + [r];
    PutNew(RoutesOf(routes, verb), r);
    hide Put;
    assert forall i :: 0 <= i < |extended| - 1 ==> extended[i] == RoutesOf(routes, verb)[i];
  }

  lemma {:induction false} Recompiled<T>(
    routes: DynamicRoutes<T>, regexes: Regexes<T>, verb: string, rules: seq<Route<T>>)
    requires RegexesOk(routes, regexes)
    ensures RegexesOk(routes[verb := rules], regexes[verb := Blocks(rules)])
  {
    hide Blocks;
  }

  // ----- what a lookup answers

  /** The methods in the order they are tried, a GET route standing in for HEAD, then 405 or 404. */
  lemma {:induction false} LookupIs<T>(strict: bool, log: seq<Added<T>>, matches: Matcher, verb: string, path: string)
    ensures var proxy, own := Hit(strict, log, "PROXY", matches, path), Hit(strict, log, verb, matches, path);
            var get, any := Hit(strict, log, "GET", matches, path), Hit(strict, log, "ANY", matches, path);
            Lookup(strict, log, matches, verb, path) ==
            if proxy.Some? then Matched(proxy.value)
            else if own.Some? then Matched(own.value)
            else if verb == "HEAD" && get.Some? then Matched(get.value)
            else if any.Some? then Matched(any.value)
            else if exists m :: Hit(strict, log, m, matches, path).Some? then MethodNotAllowed
            else NotFound
  {
    hide Hit; hide FirstHit;
    var methods := TriedMethods(verb);
    NoFirstHit(strict, log, methods, matches, path);
    FirstHitCons(strict, log, "ANY", [], matches, path);
    if verb == "HEAD" {
      FirstHitCons(strict, log, "GET", ["ANY"], matches, path);
      FirstHitCons(strict, log, verb, ["GET"] + ["ANY"], matches, path);
      FirstHitCons(strict, log, "PROXY", [verb] + (["GET"] + ["ANY"]), matches, path);
      assert methods == ["PROXY"] + ([verb] + (["GET"] + ["ANY"]));
    } else {
      FirstHitCons(strict, log, verb, ["ANY"], matches, path);
      FirstHitCons(strict, log, "PROXY", [verb] + ["ANY"], matches, path);
      assert methods == ["PROXY"] + ([verb] + ["ANY"]);
    }
  }

  lemma {:induction false} FirstHitCons<T>(
    strict: bool, log: seq<Added<T>>, m: string, rest: seq<string>, matches: Matcher, path: string)
    ensures FirstHit(strict, log, [m] + rest, matches, path) ==
            if Hit(strict, log, m, matches, path).Some? then Hit(strict, log, m, matches, path)
            else FirstHit(strict, log, rest, matches, path)
    ensures FirstHit(strict, log, [], matches, path).None? && [m] + [] == [m]
  {
    hide Hit;
    assert ([m] + rest)[1..] == rest;
  }

  lemma {:induction false} NoFirstHit<T>(
    strict: bool, log: seq<Added<T>>, methods: seq<string>, matches: Matcher, path: string)
    ensures FirstHit(strict, log, methods, matches, path).None? <==>
            forall m :: m in methods ==> Hit(strict, log, m, matches, path).None?
  {
    hide Hit;
    if methods == [] {
    } else {
      NoFirstHit(strict, log, methods[1..], matches, path);
      assert forall m :: m in methods <==> m == methods[0] || m in methods[1..];
    }
  }

  lemma {:induction false} StaticHitIs<T>(log: seq<Added<T>>, m: string, path: string, k: nat)
    requires k < |log| && log[k].verb == m && log[k].rule.isStatic && log[k].rule.path == path
    requires forall j :: k < j < |log| ==> !(log[j].verb == m && log[j].rule.isStatic && log[j].rule.path == path)
    ensures StaticHit(false, log, m, path) == Some(log[k].target)
  {
    if k == |log| - 1 {
    } else {
      assert Front(log)[k] == log[k];
      StaticHitIs(Front(log), m, path, k);
    }
  }

  lemma {:induction false} NoStaticHit<T>(strict: bool, log: seq<Added<T>>, m: string, path: string)
    requires NoStatic(strict, log, m, path)
    ensures StaticHit(strict, log, m, path).None?
  {
    if log == [] {
    } else {
      NoStaticHit(strict, Front(log), m, path);
    }
  }

  /** The rule is one for the dynamic table of the method: it has wildcards, or static rules are not kept apart. */
  predicate Dynamic<T>(strict: bool, a: Added<T>, m: string) {
    a.verb == m && (strict || !a.rule.isStatic)
  }

  lemma {:induction false} FirstPatternIs<T>(
    strict: bool, log: seq<Added<T>>, m: string, matches: Matcher, path: string, i: nat)
    requires i < |log| && Dynamic(strict, log[i], m) && matches(log[i].rule.pattern, path)
    requires forall j :: 0 <= j < i ==> !(Dynamic(strict, log[j], m) && matches(log[j].rule.pattern, path))
    ensures FirstPattern(strict, log, m, matches, path) == Some(log[i].rule.pattern)
  {
    if i == 0 {
    } else {
      FirstPatternIs(strict, log[1..], m, matches, path, i - 1);
    }
  }

  lemma {:induction false} LatestTargetIs<T>(strict: bool, log: seq<Added<T>>, m: string, pattern: string, k: nat)
    requires k < |log| && Dynamic(strict, log[k], m) && log[k].rule.pattern == pattern
    requires forall j :: k < j < |log| ==> !(Dynamic(strict, log[j], m) && log[j].rule.pattern == pattern)
    ensures LatestTarget(strict, log, m, pattern) == Some(log[k].target)
  {
    if k == |log| - 1 {
    } else {
      assert Front(log)[k] == log[k];
      LatestTargetIs(strict, Front(log), m, pattern, k);
    }
  }

  lemma {:induction false} NoDynamicHit<T>(
    strict: bool, log: seq<Added<T>>, m: string, matches: Matcher, path: string)
    requires forall j :: 0 <= j < |log| ==> !(Dynamic(strict, log[j], m) && matches(log[j].rule.pattern, path))
    ensures FirstPattern(strict, log, m, matches, path).None? && DynamicHit(strict, log, m, matches, path).None?
  {
    if log == [] {
    } else {
      NoDynamicHit(strict, log[1..], m, matches, path);
    }
  }

  /** The static target added last for a method and path answers, whatever dynamic routes match. */
  lemma {:induction false} StaticRouteAnswers<T>(
    log: seq<Added<T>>, m: string, matches: Matcher, path: string, k: nat)
    requires k < |log| && log[k].verb == m && log[k].rule.isStatic && log[k].rule.path == path
    requires forall j :: k < j < |log| ==> !(log[j].verb == m && log[j].rule.isStatic && log[j].rule.path == path)
    ensures Hit(false, log, m, matches, path) == Some(log[k].target)
  {
    StaticHitIs(log, m, path, k);
  }

  /** No static route has the method and path, or static rules are not kept apart. */
  ghost predicate NoStatic<T>(strict: bool, log: seq<Added<T>>, m: string, path: string) {
    strict ||
    forall j :: 0 <= j < |log| ==> !(log[j].verb == m && log[j].rule.isStatic && log[j].rule.path == path)
  }

  /** Without one, the pattern added first (i) among the matching ones answers, with its target added last (k). */
  lemma {:induction false} DynamicRouteAnswers<T>(
    strict: bool, log: seq<Added<T>>, m: string, matches: Matcher, path: string, i: nat, k: nat)
    requires NoStatic(strict, log, m, path)
    requires i <= k < |log| && Dynamic(strict, log[i], m) && matches(log[i].rule.pattern, path)
    requires forall j :: 0 <= j < i ==> !(Dynamic(strict, log[j], m) && matches(log[j].rule.pattern, path))
    requires Dynamic(strict, log[k], m) && log[k].rule.pattern == log[i].rule.pattern
    requires forall j :: k < j < |log| ==> !(Dynamic(strict, log[j], m) && log[j].rule.pattern == log[i].rule.pattern)
    ensures Hit(strict, log, m, matches, path) == Some(log[k].target)
  {
    NoStaticHit(strict, log, m, path);
    FirstPatternIs(strict, log, m, matches, path, i);
    LatestTargetIs(strict, log, m, log[i].rule.pattern, k);
  }

  /** With neither, nothing answers. */
  lemma {:induction false} NoRouteAnswers<T>(
    strict: bool, log: seq<Added<T>>, m: string, matches: Matcher, path: string)
    requires NoStatic(strict, log, m, path)
    requires forall j :: 0 <= j < |log| ==> !(Dynamic(strict, log[j], m) && matches(log[j].rule.pattern, path))
    ensures Hit(strict, log, m, matches, path).None?
  {
    NoStaticHit(strict, log, m, path);
    NoDynamicHit(strict, log, m, matches, path);
  }

  /** HEAD on a path with only a GET route answers with that route. */
  lemma {:induction false} HeadUsesGetRoute<T>(path: string, pattern: string, target: T, matches: Matcher)
    ensures Lookup(false, [Added("GET", Rule(true, path, pattern), target)], matches, "HEAD", path) == Matched(target)
  {
    var log := [Added("GET", Rule(true, path, pattern), target)];
    LookupIs(false, log, matches, "HEAD", path);
    StaticRouteAnswers(log, "GET", matches, path, 0);
    assert "GET"[0] != "HEAD"[0] && "GET"[0] != "PROXY"[0];
    NoRouteAnswers(false, log, "HEAD", matches, path);
    NoRouteAnswers(false, log, "PROXY", matches, path);
  }

  /** Every block but the last combines 99 patterns, and the last at most as many. */
  lemma {:induction false} BlocksOf99<T>(routes: seq<Route<T>>, i: nat)
    requires i < |Blocks(routes)|
    ensures |Blocks(routes)[i].patterns| == if i < |Blocks(routes)| - 1 then 99 else |routes| - 99 * i
    ensures 0 < |Blocks(routes)[i].patterns| <= 99
    decreases |routes|
  {
    var n := if |routes| < 99 then |routes| else 99;
    if i == 0 {
      if |routes| <= 99 {
        assert routes[n..] == [];
      }
    } else {
      BlocksOf99(routes[n..], i - 1);
    }
  }
}
