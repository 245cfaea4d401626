/**
 * Rendering the configs of a split suite: one sub-suite per group of tests plus a "misc" suite
 * for everything else, all derived from one shared source config. A config's meaning is the set
 * of tests that resmoke's selector picks from it.
 *
 * The file system and the glob expansion are given by an `Explorer`; whether a test passes the
 * tag filters is given by `tagged`, since no rewrite touches the tag keys.
 */
module SuiteConfig {
  import opened Common
  import opened Numerals
  import opened SuiteSplit

  type Selector = map<string, seq<string>>

  // ----- what a config selects

  /**
   * Glob expansion and the file system; and, for the kinds of test whose selector falls back to a
   * root file, the paths listed there.
   */
  datatype Explorer = Explorer(
    isGlob: string -> bool, iglob: string -> set<string>, isFile: string -> bool, norm: string -> string,
    rootFile: Option<seq<string>>)

  function Expand(ex: Explorer, paths: seq<string>): set<string> {
    if paths == [] then {}
    else (if ex.isGlob(paths[0]) then ex.iglob(paths[0]) else {ex.norm(paths[0])}) + Expand(ex, paths[1..])
  }

  function Entry(sel: Selector, key: string): seq<string> {
    if key in sel then sel[key] else []
  }

  /** A selector with a root file takes roots as given on the command line: it filters nothing. */
  predicate Unfiltered(ex: Explorer, sel: Selector) {
    ex.rootFile.Some? && Entry(sel, "roots") != []
  }

  function RootPaths(ex: Explorer, sel: Selector): seq<string> {
    if ex.rootFile.Some? && Entry(sel, "roots") == [] then ex.rootFile.value else Entry(sel, "roots")
  }

  function Roots(ex: Explorer, sel: Selector): set<string> {
    Expand(ex, RootPaths(ex, sel))
  }

  /** No root is a missing file and no excluded file is unknown: the selector raises no ValueError. */
  predicate Selectable(ex: Explorer, sel: Selector) {
    (ex.rootFile.Some? || "roots" in sel)
    && (forall p :: p in RootPaths(ex, sel) ==> ex.isGlob(p) || ex.isFile(p))
    && (Unfiltered(ex, sel) ||
        forall p :: p in Entry(sel, "exclude_files") ==> ex.isGlob(p) || ex.norm(p) in Roots(ex, sel))
  }

  /** The tests that the selector returns: included files override the excludes and the tags. */
  function Selected(ex: Explorer, tagged: string -> bool, sel: Selector): set<string> {
    var kept := set t | t in Roots(ex, sel) && t !in Expand(ex, Entry(sel, "exclude_files")) && tagged(t);
    var included := Expand(ex, Entry(sel, "include_files"));
    if Unfiltered(ex, sel) then Roots(ex, sel)
    else if Entry(sel, "include_files") == [] then kept
    else (kept * included) + (Roots(ex, sel) * included)
  }

  /** Excluding more files keeps them out of the selection: nothing overrides the excludes. */
  predicate ExcludesCount(ex: Explorer, sel: Selector) {
    Entry(sel, "include_files") == [] && !Unfiltered(ex, sel)
  }

  // ----- rewriting a config

  /** The nested "selector" dictionary of a config, updated in place. */
  class SelectorDict {
    var entries: Selector

    constructor (entries: Selector)
      ensures this.entries == entries
    {
      this.entries := entries;
    }
  }

  /** A suite config: its selector and everything else. */
  class Config {
    const selector: SelectorDict
    const others: map<string, string>

    constructor (selector: SelectorDict, others: map<string, string>)
      ensures this.selector == selector && this.others == others
    {
      this.selector, this.others := selector, others;
    }
  }

  method DeepCopy(config: Config) returns (copy: Config)
    ensures fresh(copy) && fresh(copy.selector)
    ensures copy.selector.entries == config.selector.entries && copy.others == config.others
  {
    var selector := new SelectorDict(config.selector.entries);
    copy := new Config(selector, config.others);
  }

  /** The selector after an update; an empty list of roots or excludes stands for "not given". */
  function Updated(sel: Selector, roots: seq<string>, excludes: seq<string>): Selector {
    var rooted := if roots != [] then sel["roots" := roots] else sel;
    if excludes != [] then rooted["exclude_files" := Entry(rooted, "exclude_files") + excludes]
    else rooted - {"exclude_files"}
  }

  method UpdateSuiteConfig(config: Config, roots: seq<string>, excludes: seq<string>)
    modifies config.selector
    ensures config.selector.entries == Updated(old(config.selector.entries), roots, excludes)
  {
    var selector := config.selector;
    if roots != [] {
      selector.entries := selector.entries["roots" := roots];
    }
    if excludes != [] {
      if "exclude_files" in selector.entries && selector.entries["exclude_files"] != [] {
        selector.entries := selector.entries["exclude_files" := selector.entries["exclude_files"] + excludes];
      } else {
        assert [] + excludes == excludes;
        selector.entries := selector.entries["exclude_files" := excludes];
      }
    } else {
      if "exclude_files" in selector.entries {
        selector.entries := selector.entries - {"exclude_files"};
      }
    }
  }

  /** What is written to a config file. */
  datatype Rendered = Rendered(selector: Selector, others: map<string, string>)

  method GenerateConfig(source: Config, roots: seq<string>, excludes: seq<string>) returns (r: Rendered)
    ensures r == Rendered(Updated(source.selector.entries, roots, excludes), source.others)
  {
    var copy := DeepCopy(source);
    UpdateSuiteConfig(copy, roots, excludes);
    r := Rendered(copy.selector.entries, copy.others);
  }

  // ----- file names

  function Basename(path: string): string {
    if path != [] && Last(path) != '/' then Basename(Front(path)) + [Last(path)] else []
  }

  /** math.ceil(math.log10(total)) */
  function IndexWidth(total: nat): nat {
    if total <= 1 then 0 else 1 + IndexWidth((total + 9) / 10)
  }

  function TaskName(parent: string, index: nat, total: nat): string {
    parent + "_" + ZFill(Print(index, 10), IndexWidth(total))
  }

  function SuiteFile(source: string, index: nat, total: nat): string {
    Basename(TaskName(source, index, total)) + ".yml"
  }

  function MiscFile(source: string): string {
    Basename(source) + "_misc.yml"
  }

  lemma {:induction false} BasenameSuffix(path: string, suffix: string)
    requires forall k :: 0 <= k < |suffix| ==> suffix[k] != '/'
    ensures Basename(path + suffix) == Basename(path) + suffix
  {
    if suffix == [] {
      assert path + suffix == path;
    } else {
      assert Front(path + suffix) == path + Front(suffix);
      BasenameSuffix(path, Front(suffix));
    }
  }

  lemma {:induction false} SuiteFileShape(source: string, index: nat, total: nat) returns (digits: string)
    ensures SuiteFile(source, index, total) == Basename(source) + "_" + digits + ".yml"
    ensures AllDigits(digits, 10) && Value(digits, 10) == index
  {
    hide Basename; hide Value; hide IndexWidth; hide Print; hide ZFill;
    digits := ZFill(Print(index, 10), IndexWidth(total));
    PrintDigits(index, 10);
    ZFillValue(Print(index, 10), IndexWidth(total), 10);
    assert forall k :: 0 <= k < |"_" + digits| ==> ("_" + digits)[k] != '/';
    BasenameSuffix(source, "_" + digits);
    assert source + "_" + digits == source + ("_" + digits);
    assert Basename(source) + ("_" + digits) + ".yml" == Basename(source) + "_" + digits + ".yml";
  }

  /** Different suites get different files, and none of them is the misc file. */
  lemma {:induction false} FilesAreDistinct(source: string, i: nat, j: nat, total: nat)
    ensures SuiteFile(source, i, total) == SuiteFile(source, j, total) ==> i == j
    ensures SuiteFile(source, i, total) != MiscFile(source)
  {
    hide SuiteFile; hide Basename; hide Value;
    var a := SuiteFileShape(source, i, total);
    var b := SuiteFileShape(source, j, total);
    var n := |Basename(source)| + 1;
    var f, g := SuiteFile(source, i, total), SuiteFile(source, j, total);
    if f == g {
      assert a == f[n..n + |a|] && b == g[n..n + |b|];
    }
    assert f[n] == a[0] && IsDigit(a[0], 10);
    assert MiscFile(source)[n] == 'm';
  }

  // ----- rendering all configs

  ghost predicate Renumbered(suites: seq<Suite>, source: string) {
    forall i :: 0 <= i < |suites| ==>
      suites[i].sourceName == source && forall j :: 0 <= j < i ==> suites[j].index != suites[i].index
  }

  ghost function FileNames(suites: seq<Suite>, source: string, total: nat): (names: seq<string>)
    ensures |names| == |suites|
    ensures forall i :: 0 <= i < |suites| ==> names[i] == SuiteFile(source, suites[i].index, total)
  {
    seq(|suites|, i requires 0 <= i < |suites| => SuiteFile(source, suites[i].index, total))
  }

  ghost function TestsOf(suites: seq<Suite>): (groups: seq<seq<string>>)
    reads suites
    ensures |groups| == |suites| && forall i :: 0 <= i < |suites| ==> groups[i] == suites[i].tests
  {
    if suites == [] then [] else [suites[0].tests] + TestsOf(suites[1..])
  }

  /** One file per group, with the group as roots, and the misc file with all the tests excluded. */
  ghost predicate IsRendering(files: map<string, Rendered>, names: seq<string>, misc: string,
                              groups: seq<seq<string>>, testList: seq<string>, sel: Selector)
  {
    |names| == |groups|
    && files.Keys == (set n | n in names) + {misc} && misc !in names
    && (forall i, j :: 0 <= i < j < |names| ==> names[i] != names[j])
    && (forall i :: 0 <= i < |names| ==> names[i] in files && files[names[i]].selector == Updated(sel, groups[i], []))
    && files[misc].selector == Updated(sel, [], testList)
  }

  lemma {:induction false} NamesAreDistinct(suites: seq<Suite>, source: string, total: nat)
    requires Renumbered(suites, source)
    ensures var names := FileNames(suites, source, total);
            MiscFile(source) !in names && forall i, j :: 0 <= i < j < |names| ==> names[i] != names[j]
  {
    hide SuiteFile; hide MiscFile;
    var names := FileNames(suites, source, total);
    forall i, j | 0 <= i < j < |names| ensures names[i] != names[j] {
      FilesAreDistinct(source, suites[i].index, suites[j].index, total);
    }
    forall i | 0 <= i < |names| ensures names[i] != MiscFile(source) {
      FilesAreDistinct(source, suites[i].index, 0, total);
    }
  }

  /** The files of the first `i` suites. */
  ghost predicate RenderedSoFar(files: map<string, Rendered>, names: seq<string>, groups: seq<seq<string>>, i: nat,
                                sel: Selector, others: map<string, string>)
  {
    i <= |names| == |groups|
    && (forall f :: f in files <==> f in names[..i])
    && (forall k :: 0 <= k < i ==> names[k] in files && files[names[k]].selector == Updated(sel, groups[k], []))
    && forall f :: f in files ==> files[f].others == others
  }

  lemma {:induction false} RenderOne(
    files: map<string, Rendered>, names: seq<string>, groups: seq<seq<string>>, i: nat, sel: Selector, r: Rendered)
    requires RenderedSoFar(files, names, groups, i, sel, r.others) && i < |names|
    requires r.selector == Updated(sel, groups[i], []) && forall j :: 0 <= j < i ==> names[j] != names[i]
    ensures RenderedSoFar(files[names[i] := r], names, groups, i + 1, sel, r.others)
  {
    hide Updated;
    assert names[..i + 1] == names[..i] + [names[i]];
  }

  lemma {:induction false} RenderMisc(
    files: map<string, Rendered>, names: seq<string>, misc: string, groups: seq<seq<string>>, testList: seq<string>,
    sel: Selector, r: Rendered)
    requires RenderedSoFar(files, names, groups, |names|, sel, r.others) && misc !in names
    requires r.selector == Updated(sel, [], testList) && forall i, j :: 0 <= i < j < |names| ==> names[i] != names[j]
    ensures IsRendering(files[misc := r], names, misc, groups, testList, sel)
    ensures var all := files[misc := r]; forall f :: f in all ==> all[f].others == r.others
  {
    hide Updated;
    assert names[..|names|] == names;
  }

  method RenderSuiteFiles(suites: seq<Suite>, suiteName: string, total: nat, testList: seq<string>, source: Config)
    returns (files: map<string, Rendered>)
    requires Renumbered(suites, suiteName)
    ensures IsRendering(files, FileNames(suites, suiteName, total), MiscFile(suiteName), TestsOf(suites), testList,
                        source.selector.entries)
    ensures forall f :: f in files ==> files[f].others == source.others
  {
    hide SuiteFile; hide MiscFile; hide Updated; hide TestsOf; hide FileNames; hide RenderedSoFar; hide IsRendering;
    ghost var names, groups := FileNames(suites, suiteName, total), TestsOf(suites);
    ghost var sel := source.selector.entries;
    NamesAreDistinct(suites, suiteName, total);
    files := map[];
    StartRendering(names, groups, sel, source.others);
    for i := 0 to |suites|
      invariant RenderedSoFar(files, names, groups, i, sel, source.others)
    {
      var r := GenerateConfig(source, suites[i].tests, []);
      RenderOne(files, names, groups, i, sel, r);
      files := files[SuiteFile(suites[i].sourceName, suites[i].index, total) := r];
    }
    var misc := GenerateConfig(source, [], testList);
    RenderMisc(files, names, MiscFile(suiteName), groups, testList, sel, misc);
    files := files[MiscFile(suiteName) := misc];
  }

  lemma {:induction false} StartRendering(
    names: seq<string>, groups: seq<seq<string>>, sel: Selector, others: map<string, string>)
    requires |names| == |groups|
    ensures RenderedSoFar(map[], names, groups, 0, sel, others)
  {
  }

  // ----- every test is selected where it should be

  /** An ordinary path of an existing file, already normalised. */
  predicate PlainFile(ex: Explorer, t: string) {
    !ex.isGlob(t) && ex.isFile(t) && ex.norm(t) == t
  }

  /** The rendered files whose config selects the test. */
  function Hits(files: map<string, Rendered>, ex: Explorer, tagged: string -> bool, t: string): set<string> {
    set f | f in files && t in Selected(ex, tagged, files[f].selector)
  }

  lemma {:induction false} ExpandPlain(ex: Explorer, names: seq<string>)
    requires forall t :: t in names ==> PlainFile(ex, t)
    ensures Expand(ex, names) == set t | t in names
  {
    if names == [] {
    } else {
      assert PlainFile(ex, names[0]);
      ExpandPlain(ex, names[1..]);
      assert forall t :: t in names <==> t == names[0] || t in names[1..];
    }
  }

  lemma {:induction false} ExpandConcat(ex: Explorer, a: seq<string>, b: seq<string>)
    ensures Expand(ex, a + b) == Expand(ex, a) + Expand(ex, b)
  {
    if a == [] {
      assert a + b == b;
    } else {
      assert (a + b)[1..] == a[1..] + b;
      ExpandConcat(ex, a[1..], b);
    }
  }

  /** A sub-suite selects exactly the tests it was given. */
  lemma {:induction false} SubSuiteSelects(ex: Explorer, tagged: string -> bool, sel: Selector, group: seq<string>)
    requires group != []
    requires forall t :: t in group ==> PlainFile(ex, t) && t in Selected(ex, tagged, sel)
    ensures Selectable(ex, Updated(sel, group, []))
    ensures Selected(ex, tagged, Updated(sel, group, [])) == set t | t in group
  {
    ExpandPlain(ex, group);
  }

  /** The misc suite leaves out the listed tests exactly when the source config heeds its excludes. */
  lemma {:induction false} MiscSelects(ex: Explorer, tagged: string -> bool, sel: Selector, list: seq<string>)
    requires list != [] && Selectable(ex, sel)
    requires forall t :: t in list ==> PlainFile(ex, t) && t in Selected(ex, tagged, sel)
    ensures Selectable(ex, Updated(sel, [], list))
    ensures Selected(ex, tagged, Updated(sel, [], list)) ==
            if ExcludesCount(ex, sel) then Selected(ex, tagged, sel) - (set t | t in list)
            else Selected(ex, tagged, sel)
  {
    hide Expand;
    var misc := Updated(sel, [], list);
    assert Entry(misc, "roots") == Entry(sel, "roots") && ("roots" in misc <==> "roots" in sel);
    assert Entry(misc, "include_files") == Entry(sel, "include_files");
    assert Entry(misc, "exclude_files") == Entry(sel, "exclude_files") + list;
    hide Updated; hide Entry;
    ExpandConcat(ex, Entry(sel, "exclude_files"), list);
    ExpandPlain(ex, list);
  }

  lemma {:induction false} OneGroup(groups: seq<seq<string>>, t: string) returns (k: nat)
    requires multiset(Concat(groups))[t] == 1
    ensures k < |groups| && t in groups[k] && forall j :: 0 <= j < |groups| && t in groups[j] ==> j == k
  {
    var rest := groups[1..];
    assert multiset(Concat(groups)) == multiset(groups[0]) + multiset(Concat(rest));
    if t in groups[0] {
      k := 0;
      forall j | 0 < j < |groups| ensures t !in groups[j] {
        NotInGroup(rest, t, j - 1);
      }
    } else {
      k := OneGroup(rest, t);
      k := k + 1;
      assert forall j :: 0 < j < |groups| ==> groups[j] == rest[j - 1];
    }
  }

  lemma {:induction false} NotInGroup(groups: seq<seq<string>>, t: string, j: nat)
    requires multiset(Concat(groups))[t] == 0 && j < |groups|
    ensures t !in groups[j]
  {
    ConcatSplit(groups, j);
    assert t !in multiset(Concat(groups));
    assert forall x :: x in groups[j] ==> x in Concat(groups);
  }

  predicate NoRepeats(s: seq<string>) {
    forall i, j :: 0 <= i < j < |s| ==> s[i] != s[j]
  }

  lemma {:induction false} NoRepeatsCount(s: seq<string>, t: string)
    requires NoRepeats(s) && t in s
    ensures multiset(s)[t] == 1
  {
    Snoc(s);
    if t !in Front(s) {
    } else {
      NoRepeatsCount(Front(s), t);
    }
  }

  lemma {:induction false} GroupMember(groups: seq<seq<string>>, testList: seq<string>, i: nat, t: string)
    requires multiset(Concat(groups)) == multiset(testList) && i < |groups| && t in groups[i]
    ensures t in testList
  {
    ConcatSplit(groups, i);
    assert t in Concat(groups);
    assert t in multiset(Concat(groups));
  }

  /**
   * Every test of the source selection is selected by exactly one rendered config, unless the source
   * config overrides its excludes by include_files or by roots in place of a root file: then every
   * split test is selected twice, by its sub-suite and by misc, which cannot be kept from it.
   */
  lemma {:induction false} SelectedOnce(
    files: map<string, Rendered>, names: seq<string>, misc: string, groups: seq<seq<string>>, testList: seq<string>,
    ex: Explorer, tagged: string -> bool, sel: Selector, t: string)
    requires IsRendering(files, names, misc, groups, testList, sel)
    requires testList != [] && NoRepeats(testList) && Selectable(ex, sel)
    requires multiset(Concat(groups)) == multiset(testList) && forall g :: g in groups ==> g != []
    requires forall n :: n in testList ==> PlainFile(ex, n) && n in Selected(ex, tagged, sel)
    requires t in Selected(ex, tagged, sel)
    ensures |Hits(files, ex, tagged, t)| == if t in testList && !ExcludesCount(ex, sel) then 2 else 1
  {
    hide Selected; hide Updated; hide Concat;
    MiscSelects(ex, tagged, sel, testList);
    forall i | 0 <= i < |groups| ensures names[i] in Hits(files, ex, tagged, t) <==> t in groups[i] {
      forall n | n in groups[i] ensures n in testList {
        GroupMember(groups, testList, i, n);
      }
      assert groups[i] in groups;
      SubSuiteSelects(ex, tagged, sel, groups[i]);
    }
    CountHits(Hits(files, ex, tagged, t), names, misc, groups, testList, t);
  }

  /** Every selected test is selected exactly once if and only if the source config heeds its excludes. */
  lemma {:induction false} SelectedOnceIff(
    files: map<string, Rendered>, names: seq<string>, misc: string, groups: seq<seq<string>>, testList: seq<string>,
    ex: Explorer, tagged: string -> bool, sel: Selector)
    requires IsRendering(files, names, misc, groups, testList, sel)
    requires testList != [] && NoRepeats(testList) && Selectable(ex, sel)
    requires multiset(Concat(groups)) == multiset(testList) && forall g :: g in groups ==> g != []
    requires forall n :: n in testList ==> PlainFile(ex, n) && n in Selected(ex, tagged, sel)
    ensures (forall t :: t in Selected(ex, tagged, sel) ==> |Hits(files, ex, tagged, t)| == 1) <==>
            ExcludesCount(ex, sel)
  {
    hide Selected; hide Hits; hide Concat; hide IsRendering; hide Selectable; hide PlainFile;
    forall t | t in Selected(ex, tagged, sel)
      ensures |Hits(files, ex, tagged, t)| == if t in testList && !ExcludesCount(ex, sel) then 2 else 1
    {
      SelectedOnce(files, names, misc, groups, testList, ex, tagged, sel, t);
    }
    assert testList[0] in testList;
  }

  /** Two configs that both select a test, rendered from one group, both count as hits. */
  lemma {:induction false} BothHit(ex: Explorer, tagged: string -> bool, sel: Selector)
    requires Selected(ex, tagged, Updated(sel, ["a"], [])) == {"a"} == Selected(ex, tagged, Updated(sel, [], ["a"]))
    ensures var files := map["s_0.yml" := Rendered(Updated(sel, ["a"], []), map[]),
                             "s_misc.yml" := Rendered(Updated(sel, [], ["a"]), map[])];
            IsRendering(files, ["s_0.yml"], "s_misc.yml", [["a"]], ["a"], sel)
            && Hits(files, ex, tagged, "a") == {"s_0.yml", "s_misc.yml"}
  {
    hide Selected; hide Updated;
    assert "s_0.yml"[2] != "s_misc.yml"[2];
  }

  /** One included test, split off into a suite of its own, is still selected by misc as well. */
  lemma {:induction false} IncludedTestIsSelectedTwice()
    ensures var ex := Explorer(p => false, p => {}, p => true, p => p, None);
            var sel := map["roots" := ["a"], "include_files" := ["a"]];
            var files := map["s_0.yml" := Rendered(Updated(sel, ["a"], []), map[]),
                             "s_misc.yml" := Rendered(Updated(sel, [], ["a"]), map[])];
            IsRendering(files, ["s_0.yml"], "s_misc.yml", [["a"]], ["a"], sel)
            && Hits(files, ex, t => true, "a") == {"s_0.yml", "s_misc.yml"}
  {
    hide IsRendering; hide Hits;
    var ex := Explorer(p => false, p => {}, p => true, p => p, None);
    var sel := map["roots" := ["a"], "include_files" := ["a"]];
    ExpandPlain(ex, ["a"]);
    BothHit(ex, t => true, sel);
  }

  /** The same for a test kind with a root file when the source config names roots itself. */
  lemma {:induction false} RootTestIsSelectedTwice()
    ensures var ex := Explorer(p => false, p => {}, p => true, p => p, Some([]));
            var sel := map["roots" := ["a"]];
            var files := map["s_0.yml" := Rendered(Updated(sel, ["a"], []), map[]),
                             "s_misc.yml" := Rendered(Updated(sel, [], ["a"]), map[])];
            IsRendering(files, ["s_0.yml"], "s_misc.yml", [["a"]], ["a"], sel)
            && Hits(files, ex, t => true, "a") == {"s_0.yml", "s_misc.yml"}
  {
    hide IsRendering; hide Hits;
    var ex := Explorer(p => false, p => {}, p => true, p => p, Some([]));
    var sel := map["roots" := ["a"]];
    ExpandPlain(ex, ["a"]);
    BothHit(ex, t => true, sel);
  }

  /** A listed test hits the file of its one group; whether it also hits misc makes the difference. */
  lemma {:induction false} CountHits(
    hits: set<string>, names: seq<string>, misc: string, groups: seq<seq<string>>, testList: seq<string>, t: string)
    requires |names| == |groups| && NoRepeats(testList) && multiset(Concat(groups)) == multiset(testList)
    requires misc !in names && hits <= (set n | n in names) + {misc}
    requires forall i :: 0 <= i < |names| ==> (names[i] in hits <==> t in groups[i])
    ensures |hits| == (if t in testList then 1 else 0) + (if misc in hits then 1 else 0)
  {
    hide Concat; hide NoRepeats;
    var subs := hits - {misc};
    if t in testList {
      NoRepeatsCount(testList, t);
      var k := OneGroup(groups, t);
      OnlyHit(subs, names, groups, t, k);
    } else {
      forall i | 0 <= i < |names| ensures t !in groups[i] {
        if t in groups[i] {
          GroupMember(groups, testList, i, t);
        }
      }
      assert subs == {};
    }
    assert hits == subs + (if misc in hits then {misc} else {});
  }

  lemma {:induction false} OnlyHit(subs: set<string>, names: seq<string>, groups: seq<seq<string>>, t: string, k: nat)
    requires |names| == |groups| && k < |groups| && t in groups[k]
    requires forall j :: 0 <= j < |groups| && t in groups[j] ==> j == k
    requires subs <= (set n | n in names) && forall i :: 0 <= i < |names| ==> (names[i] in subs <==> t in groups[i])
    ensures subs == {names[k]}
  {
    assert names[k] in subs;
  }

  /** Splitting keeps the names of the tests, as a bag. */
  lemma {:induction false} NamesOfConcat(groups: seq<Group>, names: seq<seq<string>>)
    requires |names| == |groups| && forall i :: 0 <= i < |groups| ==> names[i] == Names(groups[i])
    ensures Concat(names) == Names(Concat(groups))
  {
    if groups == [] {
    } else {
      NamesOfConcat(groups[1..], names[1..]);
      NamesConcat(groups[0], Concat(groups[1..]));
    }
  }

  lemma {:induction false} NamesConcat(a: Group, b: Group)
    ensures Names(a + b) == Names(a) + Names(b)
  {
    if b == [] {
      assert a + b == a;
    } else {
      assert Front(a + b) == a + Front(b);
      NamesConcat(a, Front(b));
    }
  }

  lemma {:induction false} NamesOfOne(t: TestRuntime)
    ensures Names([t]) == [t.name]
  {
    assert Front([t]) == [];
  }

  lemma {:induction false} NamesRemoveAt(g: Group, k: nat)
    requires k < |g|
    ensures multiset(Names(g)) == multiset(Names(g[..k] + g[k + 1..])) + multiset{g[k].name}
  {
    hide Names;
    var a, b := g[..k], g[k + 1..];
    assert g == a + [g[k]] + b;
    NamesOfOne(g[k]);
    NamesConcat(a + [g[k]], b);
    NamesConcat(a, [g[k]]);
    NamesConcat(a, b);
  }

  lemma {:induction false} NamesPermute(a: Group, b: Group)
    requires multiset(a) == multiset(b)
    ensures multiset(Names(a)) == multiset(Names(b))
    decreases |a|
  {
    hide Names;
    assert |multiset(a)| == |multiset(b)|;
    if a == [] {
      assert a == b;
    } else {
      var k := TakeFirstOut(a, b);
      NamesPermute(a[1..], b[..k] + b[k + 1..]);
      assert a[..0] + a[0 + 1..] == a[1..];
      NamesRemoveAt(a, 0);
      NamesRemoveAt(b, k);
    }
  }

  /** Splitting from statistics and rendering: the shared source config is left as it was. */
  method SplitAndRender(
    suiteName: string, tests: Group, limits: Limits, maxSuites: Option<int>, firstIndex: nat, source: Config,
    ghost ex: Explorer, ghost tagged: string -> bool)
    returns (files: map<string, Rendered>)
    requires tests != [] && NoRepeats(Names(tests)) && Selectable(ex, source.selector.entries)
    requires forall n :: n in Names(tests) ==> PlainFile(ex, n) && n in Selected(ex, tagged, source.selector.entries)
    ensures forall t :: t in Selected(ex, tagged, source.selector.entries) ==>
              |Hits(files, ex, tagged, t)| ==
              if t in Names(tests) && !ExcludesCount(ex, source.selector.entries) then 2 else 1
    ensures forall f :: f in files ==> Selectable(ex, files[f].selector)
  {
    hide Selected; hide Names; hide Split; hide Hits; hide Concat; hide Expand; hide TestsOf; hide FileNames;
    hide IsRendering; hide Total; hide Longest; hide WithRuntime; hide MiscFile;
    ghost var sel := source.selector.entries;
    var suites, nextIndex := DivideTestsIntoSuites(suiteName, tests, limits, maxSuites, firstIndex);
    ghost var groups := Split(tests, limits, maxSuites);
    SplitConserves(tests, limits, maxSuites);
    assert source.selector.entries == sel;
    NamesOfConcat(groups, TestsOf(suites));
    NamesPermute(Concat(groups), tests);
    files := RenderSuiteFiles(suites, suiteName, nextIndex, Names(tests), source);
    forall i | 0 <= i < |suites| ensures TestsOf(suites)[i] != [] {
      assert groups[i] in groups;
      assert TestsOf(suites)[i] == Names(groups[i]);
    }
    ghost var names := FileNames(suites, suiteName, nextIndex);
    forall t | t in Selected(ex, tagged, sel)
      ensures |Hits(files, ex, tagged, t)| == if t in Names(tests) && !ExcludesCount(ex, sel) then 2 else 1
    {
      SelectedOnce(files, names, MiscFile(suiteName), TestsOf(suites), Names(tests), ex, tagged, sel, t);
    }
    RenderedAreSelectable(files, names, MiscFile(suiteName), TestsOf(suites), Names(tests), ex, tagged, sel);
  }

  lemma {:induction false} RenderedAreSelectable(
    files: map<string, Rendered>, names: seq<string>, misc: string, groups: seq<seq<string>>, testList: seq<string>,
    ex: Explorer, tagged: string -> bool, sel: Selector)
    requires IsRendering(files, names, misc, groups, testList, sel)
    requires testList != [] && Selectable(ex, sel)
    requires multiset(Concat(groups)) == multiset(testList) && forall g :: g in groups ==> g != []
    requires forall n :: n in testList ==> PlainFile(ex, n) && n in Selected(ex, tagged, sel)
    ensures forall f :: f in files ==> Selectable(ex, files[f].selector)
  {
    hide Selected; hide Updated; hide Concat;
    MiscSelects(ex, tagged, sel, testList);
    forall i | 0 <= i < |groups| ensures Selectable(ex, files[names[i]].selector) {
      forall n | n in groups[i] ensures n in testList {
        GroupMember(groups, testList, i, n);
      }
      assert groups[i] in groups;
      SubSuiteSelects(ex, tagged, sel, groups[i]);
    }
    forall f | f in files ensures Selectable(ex, files[f].selector) {
      if f != misc {
        var i :| 0 <= i < |names| && names[i] == f;
      }
    }
  }

  // ----- the selector and the names spelled out

  lemma {:induction false} ExpandMembers(ex: Explorer, paths: seq<string>, t: string)
    ensures t in Expand(ex, paths) <==>
            exists p :: p in paths && if ex.isGlob(p) then t in ex.iglob(p) else t == ex.norm(p)
  {
    if paths == [] {
    } else {
      ExpandMembers(ex, paths[1..], t);
      assert forall p :: p in paths <==> p == paths[0] || p in paths[1..];
    }
  }

  /**
   * A test is selected if it is among the roots and, unless roots are taken unfiltered, it is included if
   * there are include_files, and otherwise neither excluded nor rejected by its tags.
   */
  lemma {:induction false} SelectedIs(ex: Explorer, tagged: string -> bool, sel: Selector, t: string)
    ensures t in Selected(ex, tagged, sel) <==>
            var roots, given := Entry(sel, "roots"), ex.rootFile.Some?;
            t in Expand(ex, if given && roots == [] then ex.rootFile.value else roots) &&
            (if given && roots != [] then true
             else if Entry(sel, "include_files") != [] then t in Expand(ex, Entry(sel, "include_files"))
             else t !in Expand(ex, Entry(sel, "exclude_files")) && tagged(t))
  {
  }

  /** A root that is no file, or an excluded file that is not among the roots, makes the selector fail. */
  lemma {:induction false} UnknownFilesAreRefused(ex: Explorer, sel: Selector, p: string)
    requires !ex.isGlob(p)
    ensures p in Entry(sel, "roots") && !ex.isFile(p) ==> !Selectable(ex, sel)
    ensures p in Entry(sel, "exclude_files") && ex.rootFile.None? && ex.norm(p) !in Expand(ex, Entry(sel, "roots")) ==>
              !Selectable(ex, sel)
    ensures ex.rootFile.None? && "roots" !in sel ==> !Selectable(ex, sel)
  {
    hide Expand;
  }

  /** An update touches no entry but the roots and the excludes, and these as asked. */
  lemma {:induction false} UpdatedEntries(sel: Selector, roots: seq<string>, excludes: seq<string>, key: string)
    ensures Entry(Updated(sel, roots, excludes), key) ==
            if key == "roots" && roots != [] then roots
            else if key != "exclude_files" then Entry(sel, key)
            else if excludes == [] then [] else Entry(sel, key) + excludes
    ensures key != "roots" && key != "exclude_files" ==> (key in Updated(sel, roots, excludes) <==> key in sel)
  {
    assert "roots"[0] != "exclude_files"[0];
  }

  function Power(w: nat): nat {
    if w == 0 then 1 else 10 * Power(w - 1)
  }

  /** The width is the least power of ten that is no smaller than the number of suites. */
  lemma {:induction false} IndexWidthIs(total: nat)
    requires total >= 1
    ensures total <= Power(IndexWidth(total))
    ensures IndexWidth(total) > 0 ==> Power(IndexWidth(total) - 1) < total
  {
    if total == 1 {
    } else {
      IndexWidthIs((total + 9) / 10);
    }
  }

  lemma {:induction false} PrintedWidth(n: nat, w: nat)
    requires w > 0 && n < Power(w)
    ensures |Print(n, 10)| <= w
  {
    if n < 10 {
    } else {
      assert w > 1;
      PrintedWidth(n / 10, w - 1);
    }
  }

  lemma {:induction false} ZFillWidth(s: string, width: nat)
    ensures |ZFill(s, width)| == if |s| < width then width else |s|
    decreases width - |s|
  {
    if |s| >= width {
    } else {
      ZFillWidth(['0'] + s, width);
    }
  }

  /** The last component of a path. */
  lemma {:induction false} BasenameIs(dir: string, name: string)
    requires forall k :: 0 <= k < |name| ==> name[k] != '/'
    ensures Basename(dir + "/" + name) == name && Basename(name) == name
  {
    BasenameSuffix(dir + "/", name);
    BasenameSuffix("", name);
    assert "" + name == name && Last(dir + "/") == '/';
  }

  /**
   * Sub-suites are numbered in decimal behind the source's name, with leading zeros up to the width that
   * the number of suites needs; the misc suite carries the suffix "_misc".
   */
  lemma {:induction false} SuiteFileIs(dir: string, name: string, index: nat, total: nat)
    requires index < total && total >= 2 && forall k :: 0 <= k < |name| ==> name[k] != '/'
    ensures var w := IndexWidth(total);
            w > 0 && Power(w - 1) < total <= Power(w)
            && SuiteFile(dir + "/" + name, index, total) == name + "_" + ZFill(Print(index, 10), w) + ".yml"
            && |ZFill(Print(index, 10), w)| == w
    ensures MiscFile(dir + "/" + name) == name + "_misc.yml"
  {
    hide Basename; hide IndexWidth; hide Print; hide ZFill;
    IndexWidthIs(total);
    var w := IndexWidth(total);
    PrintedWidth(index, w);
    ZFillWidth(Print(index, 10), w);
    var digits := ZFill(Print(index, 10), w);
    PrintDigits(index, 10);
    ZFillValue(Print(index, 10), w, 10);
    BasenameIs(dir, name);
    var source := dir + "/" + name;
    assert forall k :: 0 <= k < |"_" + digits| ==> ("_" + digits)[k] != '/';
    BasenameSuffix(source, "_" + digits);
    assert source + "_" + digits == source + ("_" + digits);
    assert name + ("_" + digits) + ".yml" == name + "_" + digits + ".yml";
  }
}
