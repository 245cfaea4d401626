/**
 * Shifting path segments between SCRIPT_NAME and PATH_INFO. A shift cuts the common segment list
 * at another place; it keeps every segment exactly when the two segments at the cut are not empty,
 * and exactly then shifting back restores both lists. Only empty segments are ever lost.
 */
module PathShift {
  import opened Common
  import opened Strings

  /** The segment list of a path, as the source computes it. */
  function Segments(path: string): seq<string> {
    var list := Split(StripBoth(path, '/'), '/');
    if list[0] == "" then [] else list
  }

  function Rooted(segments: seq<string>): string {
    "/" + Join(segments, '/')
  }

  predicate EndsInSlash(s: string) {
    s != "" && Last(s) == '/'
  }

  /** The new paths, or the AssertionError when too few segments are left. */
  datatype Shifted = Paths(script: string, path: string) | NothingLeft

  function Shift(script: string, path: string, shift: int): Shifted {
    if shift == 0 then Paths(script, path)
    else
      var pathlist, scriptlist := Segments(path), Segments(script);
      if 0 < shift <= |pathlist| then
        Rebuilt(scriptlist + pathlist[..shift], pathlist[shift..], path)
      else if shift < 0 && -shift <= |scriptlist| then
        var keep := |scriptlist| + shift;
        Rebuilt(scriptlist[..keep], scriptlist[keep..] + pathlist, path)
      else NothingLeft
  }

  function Rebuilt(scriptlist: seq<string>, pathlist: seq<string>, path: string): Shifted {
    Paths(Rooted(scriptlist), Rooted(pathlist) + (if EndsInSlash(path) && pathlist != [] then "/" else ""))
  }

  // ----- segments of rebuilt paths

  predicate SlashFree(segments: seq<string>) {
    AllWithout(segments, '/')
  }

  /** Neither the first nor the last segment is empty. */
  predicate FullEnds(segments: seq<string>) {
    segments == [] || (segments[0] != "" && Last(segments) != "")
  }

  /** The segments without the empty ones at both ends. */
  function Trim(segments: seq<string>): seq<string>
    decreases |segments|
  {
    if FullEnds(segments) then segments
    else if segments[0] == "" then Trim(segments[1..])
    else Trim(Front(segments))
  }

  lemma {:induction false} TrimShortens(segments: seq<string>)
    ensures |Trim(segments)| <= |segments|
    ensures |Trim(segments)| == |segments| <==> FullEnds(segments)
    decreases |segments|
  {
    if FullEnds(segments) {
    } else {
      TrimShortens(if segments[0] == "" then segments[1..] else Front(segments));
    }
  }

  /** Whatever its slashes, a path has slash-free segments with full ends. */
  lemma {:induction false} SegmentsShape(path: string)
    ensures SlashFree(Segments(path)) && FullEnds(Segments(path))
  {
    hide Split; hide StripBoth;
    var stripped := StripBoth(path, '/');
    SplitWithout(stripped, '/');
    StrippedEnds(path, '/');
    if stripped == "" {
      SplitFirst("", "", '/');
    } else {
      SplitEnds(stripped, '/');
    }
  }

  lemma {:induction false} MoreSlashes(path: string)
    ensures Segments("/" + path) == Segments(path) == Segments(path + "/")
  {
    hide Split; hide StripBoth;
    StripMore(path, '/');
  }

  lemma {:induction false} NoSegments()
    ensures Segments("") == []
  {
  }

  lemma {:induction false} JoinedSegments(segments: seq<string>)
    requires SlashFree(segments) && FullEnds(segments)
    ensures Segments(Join(segments, '/')) == segments
  {
    hide Split;
    if segments == [] {
      NoSegments();
    } else {
      JoinEnds(segments, '/');
      var j := Join(segments, '/');
      assert Without(segments[0], '/') && Without(Last(segments), '/');
      assert StripLeading(j, '/') == j && StripTrailing(j, '/') == j;
      SplitJoin(segments, '/');
    }
  }

  /** Laying segments out and splitting again loses exactly the empty ones at both ends. */
  lemma {:induction false} RootedSegments(segments: seq<string>)
    requires SlashFree(segments)
    ensures Segments(Rooted(segments)) == Trim(segments)
    decreases |segments|
  {
    hide Segments;
    var j := Join(segments, '/');
    MoreSlashes(j);
    if FullEnds(segments) {
      JoinedSegments(segments);
    } else if |segments| == 1 {
      assert j == "" && Trim(segments[1..]) == [];
      NoSegments();
    } else if segments[0] == "" {
      assert j == "" + ['/'] + Join(segments[1..], '/') == Rooted(segments[1..]);
      RootedSegments(segments[1..]);
    } else {
      JoinBlankLast(segments, '/');
      assert Rooted(segments) == Rooted(Front(segments)) + "/";
      MoreSlashes(Rooted(Front(segments)));
      RootedSegments(Front(segments));
    }
  }

  lemma {:induction false} RebuiltSegments(scriptlist: seq<string>, pathlist: seq<string>, path: string)
    requires SlashFree(scriptlist) && SlashFree(pathlist)
    ensures var r := Rebuilt(scriptlist, pathlist, path);
            r.Paths? && Segments(r.script) == Trim(scriptlist) && Segments(r.path) == Trim(pathlist)
  {
    hide Segments; hide Rooted; hide Trim; hide SlashFree;
    RootedSegments(scriptlist);
    RootedSegments(pathlist);
    MoreSlashes(Rooted(pathlist));
    assert Rooted(pathlist) + "" == Rooted(pathlist);
  }

  // ----- one shift

  /** All segments of the two paths, in order. */
  function All(script: string, path: string): seq<string> {
    Segments(script) + Segments(path)
  }

  /** The place `k` lies within the list, and the segments on both sides of it are not empty. */
  predicate CleanCut(all: seq<string>, k: int) {
    0 <= k <= |all| && (k == 0 || all[k - 1] != "") && (k == |all| || all[k] != "")
  }

  /**
   * A shift succeeds exactly when enough segments are there. It then cuts the list of all segments
   * at another place, and loses the empty segments at the new cut.
   */
  lemma {:induction false} ShiftMovesBoundary(script: string, path: string, shift: int)
    ensures Shift(script, path, shift).Paths? <==> -|Segments(script)| <= shift <= |Segments(path)|
    ensures var r, all, k := Shift(script, path, shift), All(script, path), |Segments(script)| + shift;
            r.Paths? ==> Segments(r.script) == Trim(all[..k]) && Segments(r.path) == Trim(all[k..])
  {
    hide Segments; hide Rebuilt; hide Trim;
    var s, p := Segments(script), Segments(path);
    var all, k := s + p, |s| + shift;
    SegmentsShape(script);
    SegmentsShape(path);
    if -|s| <= shift <= |p| {
      assert SlashFree(all[..k]) && SlashFree(all[k..]);
      RebuiltSegments(all[..k], all[k..], path);
      if shift > 0 {
        assert all[..k] == s + p[..shift] && all[k..] == p[shift..];
      } else if shift < 0 {
        assert all[..k] == s[..k] && all[k..] == s[k..] + p;
      } else {
        assert all[..k] == s && all[k..] == p;
        assert Trim(s) == s && Trim(p) == p by {
          TrimFull(s);
          TrimFull(p);
        }
      }
    }
  }

  lemma {:induction false} TrimFull(segments: seq<string>)
    requires FullEnds(segments)
    ensures Trim(segments) == segments
  {
  }

  /** Both halves keep their segments exactly when the cut is clean. */
  lemma {:induction false} TrimAtCut(all: seq<string>, k: nat)
    requires k <= |all| && FullEnds(all)
    ensures CleanCut(all, k) ==> Trim(all[..k]) == all[..k] && Trim(all[k..]) == all[k..]
    ensures |Trim(all[..k])| + |Trim(all[k..])| <= |all|
    ensures |Trim(all[..k])| + |Trim(all[k..])| == |all| <==> CleanCut(all, k)
  {
    hide Trim;
    TrimShortens(all[..k]);
    TrimShortens(all[k..]);
    assert CleanCut(all, k) <==> FullEnds(all[..k]) && FullEnds(all[k..]) by {
      assert 0 < k ==> all[..k][0] == all[0] && Last(all[..k]) == all[k - 1];
      assert k < |all| ==> all[k..][0] == all[k] && Last(all[k..]) == Last(all);
    }
    if CleanCut(all, k) {
      TrimFull(all[..k]);
      TrimFull(all[k..]);
    }
  }

  lemma {:induction false} AllFull(script: string, path: string)
    ensures FullEnds(All(script, path))
    ensures CleanCut(All(script, path), |Segments(script)|)
  {
    hide Segments;
    SegmentsShape(script);
    SegmentsShape(path);
    var s, p := Segments(script), Segments(path);
    assert s != [] ==> (s + p)[0] == s[0] && (s + p)[|s| - 1] == Last(s);
    assert p != [] ==> Last(s + p) == Last(p) && (s + p)[|s|] == p[0];
    assert p == [] ==> s + p == s;
  }

  /**
   * For any two paths, a successful shift keeps every segment exactly when neither segment at the
   * new cut is empty; otherwise there are fewer segments than before.
   */
  lemma {:induction false} ShiftConservesIff(script: string, path: string, shift: int)
    requires Shift(script, path, shift).Paths?
    ensures var r, all, k := Shift(script, path, shift), All(script, path), |Segments(script)| + shift;
            (All(r.script, r.path) == all <==> CleanCut(all, k))
            && (|All(r.script, r.path)| < |all| <==> !CleanCut(all, k))
            && (CleanCut(all, k) ==> Segments(r.script) == all[..k] && Segments(r.path) == all[k..])
  {
    hide Segments; hide Shift; hide Trim; hide CleanCut; hide FullEnds;
    var all, k := All(script, path), |Segments(script)| + shift;
    ShiftMovesBoundary(script, path, shift);
    AllFull(script, path);
    TrimAtCut(all, k);
    assert all[..k] + all[k..] == all;
  }

  // ----- runs of shifts

  /** A sequence of shifts, stopping at the first that fails. */
  function Shifts(script: string, path: string, shifts: seq<int>): Shifted
    decreases shifts
  {
    if shifts == [] then Paths(script, path)
    else
      match Shift(script, path, shifts[0])
      case NothingLeft => NothingLeft
      case Paths(s, p) => Shifts(s, p, shifts[1..])
  }

  function Sum(shifts: seq<int>): int {
    if shifts == [] then 0 else shifts[0] + Sum(shifts[1..])
  }

  /** Starting from the boundary `k`, every boundary that the run comes to is a clean cut. */
  predicate CleanCuts(all: seq<string>, k: int, shifts: seq<int>) {
    forall i :: 0 <= i <= |shifts| ==> CleanCut(all, k + Sum(shifts[..i]))
  }

  lemma {:induction false} SumOfPrefix(shifts: seq<int>, i: nat)
    requires shifts != [] && i < |shifts|
    ensures Sum(shifts[..i + 1]) == shifts[0] + Sum(shifts[1..][..i])
  {
    assert shifts[..i + 1][1..] == shifts[1..][..i];
  }

  lemma {:induction false} CleanCutsStep(all: seq<string>, k: int, shifts: seq<int>)
    requires shifts != []
    ensures CleanCuts(all, k, shifts) <==> CleanCut(all, k) && CleanCuts(all, k + shifts[0], shifts[1..])
  {
    hide CleanCut; hide Sum;
    var rest := shifts[1..];
    assert Sum(shifts[..0]) == 0 by {
      EmptySum(shifts[..0]);
    }
    forall i: nat | i < |shifts|
      ensures k + Sum(shifts[..i + 1]) == k + shifts[0] + Sum(rest[..i])
    {
      SumOfPrefix(shifts, i);
    }
    if CleanCuts(all, k, shifts) {
      assert CleanCut(all, k + Sum(shifts[..0]));
      forall i | 0 <= i <= |rest| ensures CleanCut(all, k + shifts[0] + Sum(rest[..i])) {
        assert CleanCut(all, k + Sum(shifts[..i + 1]));
      }
    }
    if CleanCut(all, k) && CleanCuts(all, k + shifts[0], rest) {
      forall i | 0 <= i <= |shifts| ensures CleanCut(all, k + Sum(shifts[..i])) {
        if i > 0 {
          assert CleanCut(all, k + shifts[0] + Sum(rest[..i - 1]));
          assert k + Sum(shifts[..i - 1 + 1]) == k + shifts[0] + Sum(rest[..i - 1]);
        }
      }
    }
  }

  lemma {:induction false} EmptySum(shifts: seq<int>)
    requires shifts == []
    ensures Sum(shifts) == 0
  {
  }

  /** No run of shifts makes segments. */
  lemma {:induction false} ShiftsNeverGain(script: string, path: string, shifts: seq<int>)
    ensures var r := Shifts(script, path, shifts); r.Paths? ==> |All(r.script, r.path)| <= |All(script, path)|
    decreases shifts
  {
    hide Segments; hide Shift; hide CleanCut; hide All;
    if shifts == [] {
    } else {
      var r := Shift(script, path, shifts[0]);
      if r.Paths? {
        ShiftConservesIff(script, path, shifts[0]);
        ShiftsNeverGain(r.script, r.path, shifts[1..]);
      }
    }
  }

  /**
   * For any two paths, a run of shifts succeeds and keeps every segment exactly when each boundary
   * it comes to is a clean cut of the segment list; then only the sum of the shifts matters.
   */
  lemma {:induction false} ShiftsConserve(script: string, path: string, shifts: seq<int>)
    ensures var r, all, k := Shifts(script, path, shifts), All(script, path), |Segments(script)|;
            (r.Paths? && All(r.script, r.path) == all <==> CleanCuts(all, k, shifts))
            && (CleanCuts(all, k, shifts) ==> |Segments(r.script)| == k + Sum(shifts))
    decreases shifts
  {
    hide Segments; hide Shift; hide CleanCut; hide CleanCuts; hide All;
    var all, k := All(script, path), |Segments(script)|;
    AllFull(script, path);
    if shifts == [] {
      NoCuts(all, k, shifts);
    } else {
      CleanCutsStep(all, k, shifts);
      ShiftMovesBoundary(script, path, shifts[0]);
      var r := Shift(script, path, shifts[0]);
      if r.Paths? {
        ShiftConservesIff(script, path, shifts[0]);
        FirstCut(all, k + shifts[0], shifts[1..]);
        ShiftsNeverGain(r.script, r.path, shifts[1..]);
        ShiftsConserve(r.script, r.path, shifts[1..]);
        if CleanCut(all, k + shifts[0]) {
          CutLength(script, path, shifts[0]);
        }
      } else {
        FirstCut(all, k + shifts[0], shifts[1..]);
        OutOfRange(script, path, k + shifts[0]);
      }
    }
  }

  lemma {:induction false} CutLength(script: string, path: string, shift: int)
    requires Shift(script, path, shift).Paths? && CleanCut(All(script, path), |Segments(script)| + shift)
    ensures |Segments(Shift(script, path, shift).script)| == |Segments(script)| + shift
  {
    hide Segments; hide Shift;
    ShiftConservesIff(script, path, shift);
  }

  lemma {:induction false} OutOfRange(script: string, path: string, k: int)
    requires !(0 <= k <= |Segments(script)| + |Segments(path)|)
    ensures !CleanCut(All(script, path), k)
  {
  }

  lemma {:induction false} NoCuts(all: seq<string>, k: int, shifts: seq<int>)
    requires shifts == [] && CleanCut(all, k)
    ensures CleanCuts(all, k, shifts) && Sum(shifts) == 0
  {
    assert forall i :: 0 <= i <= |shifts| ==> shifts[..i] == [];
  }

  lemma {:induction false} FirstCut(all: seq<string>, k: int, shifts: seq<int>)
    ensures CleanCuts(all, k, shifts) ==> CleanCut(all, k)
  {
    hide CleanCut;
    if CleanCuts(all, k, shifts) {
      assert CleanCut(all, k + Sum(shifts[..0]));
    }
  }

  // ----- paths without empty segments

  predicate NoEmpty(segments: seq<string>) {
    forall i :: 0 <= i < |segments| ==> segments[i] != ""
  }

  /**
   * On paths without empty segments a run succeeds exactly when no sum of its first shifts exceeds
   * what either path has, and it never loses a segment.
   */
  lemma {:induction false} CleanPathsConserve(script: string, path: string, shifts: seq<int>)
    requires NoEmpty(All(script, path))
    ensures var r := Shifts(script, path, shifts);
            (r.Paths? <==> forall i :: 0 <= i <= |shifts| ==>
               -|Segments(script)| <= Sum(shifts[..i]) <= |Segments(path)|)
            && (r.Paths? ==> All(r.script, r.path) == All(script, path)
                             && |Segments(r.script)| == |Segments(script)| + Sum(shifts))
  {
    hide Segments; hide Shift; hide Sum; hide Shifts;
    var all, k := All(script, path), |Segments(script)|;
    ShiftsConserve(script, path, shifts);
    forall i | 0 <= i <= |shifts|
      ensures CleanCut(all, k + Sum(shifts[..i])) <==> -k <= Sum(shifts[..i]) <= |Segments(path)|
    {
    }
    if Shifts(script, path, shifts).Paths? {
      CleanRunConserves(script, path, shifts);
    }
  }

  lemma {:induction false} CleanRunConserves(script: string, path: string, shifts: seq<int>)
    requires NoEmpty(All(script, path)) && Shifts(script, path, shifts).Paths?
    ensures var r := Shifts(script, path, shifts); All(r.script, r.path) == All(script, path)
    decreases shifts
  {
    hide Segments; hide Shift;
    if shifts == [] {
    } else {
      var r := Shift(script, path, shifts[0]);
      ShiftMovesBoundary(script, path, shifts[0]);
      ShiftConservesIff(script, path, shifts[0]);
      CleanRunConserves(r.script, r.path, shifts[1..]);
    }
  }

  // ----- what is never lost

  /** The segments that are not empty, in order. */
  function Filled(segments: seq<string>): seq<string> {
    if segments == [] then []
    else (if segments[0] == "" then [] else [segments[0]]) + Filled(segments[1..])
  }

  lemma {:induction false} FilledConcat(a: seq<string>, b: seq<string>)
    ensures Filled(a + b) == Filled(a) + Filled(b)
  {
    if a == [] {
      assert a + b == b;
    } else {
      assert (a + b)[1..] == a[1..] + b;
      FilledConcat(a[1..], b);
    }
  }

  lemma {:induction false} TrimKeepsFilled(segments: seq<string>)
    ensures Filled(Trim(segments)) == Filled(segments)
    decreases |segments|
  {
    if FullEnds(segments) {
    } else {
      if segments[0] == "" {
        TrimKeepsFilled(segments[1..]);
      } else {
        TrimKeepsFilled(Front(segments));
        Snoc(segments);
        FilledConcat(Front(segments), [Last(segments)]);
        assert [Last(segments)][1..] == [];
      }
    }
  }

  /** For any two paths, no run of shifts loses, adds or reorders a segment that is not empty. */
  lemma {:induction false} OnlyEmptySegmentsAreLost(script: string, path: string, shifts: seq<int>)
    requires Shifts(script, path, shifts).Paths?
    ensures var r := Shifts(script, path, shifts); Filled(All(r.script, r.path)) == Filled(All(script, path))
    decreases shifts
  {
    hide Segments; hide Shift; hide Filled; hide Trim;
    if shifts == [] {
    } else {
      var r, k := Shift(script, path, shifts[0]), |Segments(script)| + shifts[0];
      var all := All(script, path);
      ShiftMovesBoundary(script, path, shifts[0]);
      TrimKeepsFilled(all[..k]);
      TrimKeepsFilled(all[k..]);
      FilledConcat(Trim(all[..k]), Trim(all[k..]));
      FilledConcat(all[..k], all[k..]);
      assert all[..k] + all[k..] == all;
      OnlyEmptySegmentsAreLost(r.script, r.path, shifts[1..]);
    }
  }

  // ----- shifting back

  /** Shifting back succeeds and restores both segment lists exactly when the first shift cut cleanly. */
  lemma {:induction false} ShiftBackRestoresSegments(script: string, path: string, n: int)
    requires Shift(script, path, n).Paths?
    ensures var there := Shift(script, path, n);
            var back := Shift(there.script, there.path, -n);
            back.Paths? && Segments(back.script) == Segments(script) && Segments(back.path) == Segments(path) <==>
            CleanCut(All(script, path), |Segments(script)| + n)
  {
    hide Segments; hide Shift; hide CleanCut; hide All; hide Trim;
    var all, k := All(script, path), |Segments(script)| + n;
    var there := Shift(script, path, n);
    var back := Shift(there.script, there.path, -n);
    ShiftConservesIff(script, path, n);
    if CleanCut(all, k) {
      AllFull(script, path);
      AllParts(script, path);
      CutLength(script, path, n);
      assert |all| == |Segments(script)| + |Segments(path)|;
      ShiftMovesBoundary(there.script, there.path, -n);
      ShiftConservesIff(there.script, there.path, -n);
    } else if back.Paths? {
      ShiftConservesIff(there.script, there.path, -n);
      SameParts(script, path, back.script, back.path);
    }
  }

  lemma {:induction false} AllParts(script: string, path: string)
    ensures var all, k := All(script, path), |Segments(script)|;
            k <= |all| && all[..k] == Segments(script) && all[k..] == Segments(path)
  {
  }

  lemma {:induction false} SameParts(script: string, path: string, script': string, path': string)
    requires |All(script', path')| < |All(script, path)|
    ensures !(Segments(script') == Segments(script) && Segments(path') == Segments(path))
  {
  }

  /** An instance of a cut next to an empty segment. */
  lemma {:induction false} EmptySegmentIsLost()
    ensures Segments("/a//b") == ["a", "", "b"] && Shift("/", "/a//b", 1) == Paths("/a", "//b")
    ensures Segments("/a") == ["a"] && Segments("//b") == ["b"] && !CleanCut(All("/", "/a//b"), 1)
  {
    hide Split; hide StripLeading; hide StripTrailing;
    StripExamples();
    SplitFirst("a", "/b", '/');
    SplitFirst("", "b", '/');
    SplitFirst("b", "", '/');
    SplitFirst("", "", '/');
    assert "a//b" == "a" + (['/'] + "/b") && "/b" == "" + (['/'] + "b");
    var l := ["a", "", "b"];
    assert l[..1] == ["a"] && l[1..] == ["", "b"] && [] + ["a"] == ["a"] && ["", "b"][1..] == ["b"];
    assert Join(["", "b"], '/') == "" + ['/'] + "b";
    assert Rooted(["a"]) == "/a" && Rooted(["", "b"]) == "//b";
  }

  lemma {:induction false} StripExamples()
    ensures StripLeading("/a//b", '/') == "a//b" && StripLeading("/", '/') == ""
    ensures StripLeading("/a", '/') == "a" && StripLeading("//b", '/') == "b"
    ensures StripTrailing("a//b", '/') == "a//b" && StripTrailing("", '/') == ""
    ensures StripTrailing("a", '/') == "a" && StripTrailing("b", '/') == "b"
  {
    assert "/a//b"[1..] == "a//b" && "/"[1..] == "" && "/a"[1..] == "a" && "//b"[1..] == "/b" && "/b"[1..] == "b";
  }

  // ----- exact strings

  lemma {:induction false} RootedEnd(segments: seq<string>)
    requires SlashFree(segments) && FullEnds(segments)
    ensures EndsInSlash(Rooted(segments)) <==> segments == []
  {
    if segments != [] {
      JoinEnds(segments, '/');
      var j := Join(segments, '/');
      assert Last("/" + j) == Last(j);
      assert Without(Last(segments), '/');
    }
  }

  lemma {:induction false} RebuiltEnd(scriptlist: seq<string>, pathlist: seq<string>, path: string)
    requires SlashFree(pathlist) && FullEnds(pathlist)
    ensures EndsInSlash(Rebuilt(scriptlist, pathlist, path).path) <==> pathlist == [] || EndsInSlash(path)
  {
    hide Rooted;
    RootedEnd(pathlist);
    if EndsInSlash(path) && pathlist != [] {
      assert Last(Rooted(pathlist) + "/") == '/';
    } else {
      assert Rooted(pathlist) + "" == Rooted(pathlist);
    }
  }

  /** The strings that a shift there and back gives when the first shift cut cleanly. */
  lemma {:induction false} ThereAndBack(script: string, path: string, n: int)
    requires n != 0 && Shift(script, path, n).Paths?
    requires CleanCut(All(script, path), |Segments(script)| + n)
    ensures var there, p := Shift(script, path, n), Segments(path);
            Shift(there.script, there.path, -n) == Paths(Rooted(Segments(script)),
              Rooted(p) + (if p != [] && (n == |p| || EndsInSlash(path)) then "/" else ""))
  {
    hide Segments; hide Rooted; hide CleanCut; hide SlashFree; hide FullEnds; hide EndsInSlash;
    var s, p := Segments(script), Segments(path);
    var all, k := All(script, path), |s| + n;
    var there := Shift(script, path, n);
    ShiftConservesIff(script, path, n);
    ShiftMovesBoundary(script, path, n);
    SegmentsShape(there.path);
    var l := all[k..];
    if n > 0 {
      assert all[..k] == s + p[..n] && l == p[n..];
      assert all[..k][..|s|] == s && all[..k][|s|..] + l == p;
    } else {
      assert all[..k] == s[..k] && l == s[k..] + p;
      assert all[..k] + l[..-n] == s && l[-n..] == p;
    }
    assert there == Rebuilt(all[..k], l, path);
    RebuiltEnd(all[..k], l, path);
    assert Shift(there.script, there.path, -n) == Rebuilt(s, p, there.path);
  }

  /** In either direction, the new paths are the segments around the cut, rooted; the path keeps its last slash. */
  lemma {:induction false} ShiftedSpelling(script: string, path: string, shift: int)
    requires shift != 0 && Shift(script, path, shift).Paths?
    ensures var all, k := All(script, path), |Segments(script)| + shift;
            Shift(script, path, shift) ==
            Paths("/" + Join(all[..k], '/'),
                  "/" + Join(all[k..], '/') + (if path != "" && Last(path) == '/' && k < |all| then "/" else ""))
  {
    hide Segments; hide Join;
    var s, p := Segments(script), Segments(path);
    var all, k := s + p, |s| + shift;
    if shift > 0 {
      assert all[..k] == s + p[..shift] && all[k..] == p[shift..];
    } else {
      assert all[..k] == s[..k] && all[k..] == s[k..] + p;
    }
  }

  /**
   * Shifting to the script and back gives the very same strings exactly when the cut is clean, the
   * script is spelled with one leading slash only, and the path either ends in one slash or was not
   * emptied.
   */
  lemma {:induction false} ForthAndBackExactly(script: string, path: string, n: int)
    requires 0 < n <= |Segments(path)|
    ensures var there := Shift(script, path, n);
            there.Paths? &&
            (Shift(there.script, there.path, -n) == Paths(script, path) <==>
             CleanCut(All(script, path), |Segments(script)| + n) &&
             script == Rooted(Segments(script)) &&
             (path == Rooted(Segments(path)) + "/" || (path == Rooted(Segments(path)) && n < |Segments(path)|)))
  {
    hide Segments; hide Rooted; hide Shift; hide CleanCut;
    var p, there := Segments(path), Shift(script, path, n);
    ShiftMovesBoundary(script, path, n);
    ShiftBackRestoresSegments(script, path, n);
    if CleanCut(All(script, path), |Segments(script)| + n) {
      ThereAndBack(script, path, n);
      SegmentsShape(path);
      var slash := n == |p| || EndsInSlash(path);
      ExactSpelling(p, path, slash);
      RootedEnd(p);
      assert Shift(there.script, there.path, -n) ==
             Paths(Rooted(Segments(script)), Rooted(p) + (if slash then "/" else ""));
    }
  }

  /** Shifting to the path and back gives the same strings exactly for clean cuts and canonical spellings. */
  lemma {:induction false} BackAndForthExactly(script: string, path: string, n: int)
    requires 0 < n <= |Segments(script)|
    ensures var there := Shift(script, path, -n);
            there.Paths? &&
            (Shift(there.script, there.path, n) == Paths(script, path) <==>
             CleanCut(All(script, path), |Segments(script)| - n) &&
             script == Rooted(Segments(script)) &&
             (path == Rooted(Segments(path)) || (path == Rooted(Segments(path)) + "/" && Segments(path) != [])))
  {
    hide Segments; hide Rooted; hide Shift; hide CleanCut;
    var p := Segments(path);
    ShiftMovesBoundary(script, path, -n);
    ShiftBackRestoresSegments(script, path, -n);
    if CleanCut(All(script, path), |Segments(script)| - n) {
      ThereAndBack(script, path, -n);
      SegmentsShape(path);
      RootedEnd(p);
      assert Rooted(p) + "" == Rooted(p);
      assert EndsInSlash(Rooted(p) + "/");
    }
  }

  /** Which spelling of the path the rebuilt one equals. */
  lemma {:induction false} ExactSpelling(p: seq<string>, path: string, slash: bool)
    requires SlashFree(p) && FullEnds(p) && p != [] && (EndsInSlash(path) ==> slash)
    ensures path == Rooted(p) + (if slash then "/" else "") <==>
            path == Rooted(p) + "/" || (path == Rooted(p) && !slash)
  {
    hide Rooted;
    RootedEnd(p);
    assert Rooted(p) + "" == Rooted(p);
    assert EndsInSlash(Rooted(p) + "/");
  }
}
