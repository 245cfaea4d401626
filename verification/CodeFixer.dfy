/**
 * Replacing zero codes in the source files. The locations are edited one by one, from the last
 * offset of a file to its first, and that is proved to equal substituting all of them at once in
 * the original text. The offset assertion holds throughout exactly when the recorded offsets are
 * pairwise different and each points at a '0'. What the files read at every location afterwards
 * follows, and with it when two locations come to share a code.
 */
module CodeFixer {
  import opened Common
  import opened Numerals
  import opened ErrorCodes

  // ----- the next free code

  /** Folding fewer than two codes never turns a code into a number: adding one is a type error. */
  datatype NextCode = Next(code: nat) | NextTypeError

  method GetNextCode(codes: seq<Location>) returns (r: NextCode)
    ensures r.Next? <==> |codes| >= 2
    ensures r.Next? ==> r.code > 0
    ensures r.Next? ==> forall l :: l in codes ==> IntOf(l) < r.code
    ensures r.Next? ==> exists l :: l in codes && IntOf(l) == r.code - 1
    ensures r.Next? && AllSpelled(codes) ==> IsNextOf(codes, r.code)
  {
    hide IntOf; hide AllSpelled; hide IsNextOf;
    if |codes| < 2 {
      return NextTypeError;
    }
    var highest := IntOf(codes[0]);
    ghost var top := codes[0];
    for i := 1 to |codes|
      invariant forall k :: 0 <= k < i ==> IntOf(codes[k]) <= highest
      invariant top in codes && IntOf(top) == highest
    {
      if IntOf(codes[i]) > highest {
        highest, top := IntOf(codes[i]), codes[i];
      }
    }
    if AllSpelled(codes) {
      NextBySpelling(codes, highest + 1);
    }
    return Next(highest + 1);
  }

  predicate AllSpelled(codes: seq<Location>) {
    forall l :: l in codes ==> AllDigits(l.code, 10)
  }

  /** Every number that a code spells is below `next`, and some code spells the number before it. */
  ghost predicate IsNextOf(codes: seq<Location>, next: nat) {
    next > 0 && (forall l, n: nat :: l in codes && Spells(l.code, n) ==> n < next)
    && exists l :: l in codes && Spells(l.code, next - 1)
  }

  lemma {:induction false} NextBySpelling(codes: seq<Location>, next: nat)
    requires AllSpelled(codes) && next > 0 && forall l :: l in codes ==> IntOf(l) < next
    requires exists l :: l in codes && IntOf(l) == next - 1
    ensures IsNextOf(codes, next)
  {
    hide Spells; hide IntOf;
    forall l, n: nat | l in codes && Spells(l.code, n) ensures n < next {
      SpelledNumber(l, n);
    }
    var l :| l in codes && IntOf(l) == next - 1;
    SpelledNumber(l, next - 1);
  }

  // ----- substituting everywhere at once

  function Piece(text: string, edits: map<nat, string>, i: nat): string
    requires i < |text|
  {
    if i in edits then edits[i] else [text[i]]
  }

  function Pieces(text: string, edits: map<nat, string>): (pieces: seq<string>)
    ensures |pieces| == |text| && forall i :: 0 <= i < |text| ==> pieces[i] == Piece(text, edits, i)
  {
    seq(|text|, i requires 0 <= i < |text| => Piece(text, edits, i))
  }

  /** Every edited position replaced by its new text, every other character kept. */
  function Substitute(text: string, edits: map<nat, string>): string {
    Concat(Pieces(text, edits))
  }

  lemma {:induction false} PlainPrefix(text: string, edits: map<nat, string>, o: nat)
    requires o <= |text| && forall k :: k in edits ==> k >= o
    ensures Concat(Pieces(text, edits)[..o]) == text[..o]
  {
    if o <= 0 {
    } else {
      PlainPrefix(text, edits, o - 1);
      var p := Pieces(text, edits);
      assert p[..o] == p[..o - 1] + [p[o - 1]];
      ConcatSnoc(p[..o - 1], p[o - 1]);
    }
  }

  /** With no edit before `o`, the text is untouched up to there. */
  lemma {:induction false} SubstituteAt(text: string, edits: map<nat, string>, o: nat)
    requires o < |text| && forall k :: k in edits ==> k >= o
    ensures Substitute(text, edits) ==
            text[..o] + Piece(text, edits, o) + Concat(Pieces(text, edits)[o + 1..])
  {
    hide Concat;
    PlainPrefix(text, edits, o);
    ConcatSplit(Pieces(text, edits), o);
  }

  /** Adding an edit before all others changes just that character. */
  lemma {:induction false} SubstituteBefore(text: string, edits: map<nat, string>, o: nat, code: string)
    requires o < |text| && forall k :: k in edits ==> k > o
    ensures var t := Substitute(text, edits);
            o < |t| && t[o] == text[o] && Substitute(text, edits[o := code]) == t[..o] + code + t[o + 1..]
  {
    hide Concat;
    SubstituteAt(text, edits, o);
    SubstituteAt(text, edits[o := code], o);
    assert Pieces(text, edits)[o + 1..] == Pieces(text, edits[o := code])[o + 1..];
  }

  /** The new text of the first edit starts where its character was. */
  lemma {:induction false} SubstituteFirst(text: string, edits: map<nat, string>, o: nat)
    requires o < |text| && o in edits && edits[o] != [] && forall k :: k in edits ==> k >= o
    ensures var t := Substitute(text, edits); o < |t| && t[o] == edits[o][0]
  {
    hide Concat;
    SubstituteAt(text, edits, o);
  }

  // ----- the edits made for a list of locations

  /** The i-th location gets the code `next + i`. */
  function Edits(order: seq<Location>, next: nat, file: string): map<nat, string> {
    if order == [] then map[]
    else
      var before := Edits(Front(order), next, file);
      if Last(order).sourceFile == file then before[Last(order).byteOffset := Print(next + |order| - 1, 10)] else before
  }

  predicate At(loc: Location, file: string, o: nat) {
    loc.sourceFile == file && loc.byteOffset == o
  }

  lemma {:induction false} EditsAre(order: seq<Location>, next: nat, file: string, o: nat)
    requires next > 0
    ensures o in Edits(order, next, file) <==> exists j :: 0 <= j < |order| && At(order[j], file, o)
    ensures o in Edits(order, next, file) ==>
              Edits(order, next, file)[o] != [] && Edits(order, next, file)[o][0] != '0'
  {
    hide Print;
    if order == [] {
    } else {
      EditsAre(Front(order), next, file, o);
      PrintDigits(next + |order| - 1, 10);
      if o in Edits(Front(order), next, file) {
        var j :| 0 <= j < |Front(order)| && At(Front(order)[j], file, o);
        assert At(order[j], file, o);
      }
      if exists j :: 0 <= j < |order| && At(order[j], file, o) {
        var j :| 0 <= j < |order| && At(order[j], file, o);
        if j < |order| - 1 {
          assert At(Front(order)[j], file, o);
        }
      }
      if At(Last(order), file, o) {
        assert At(order[|order| - 1], file, o);
      }
    }
  }

  // ----- the editing loop

  /** Python's comparison of strings, character by character. */
  predicate LessText(a: string, b: string) {
    b != [] && (a == [] || a[0] < b[0] || (a[0] == b[0] && LessText(a[1..], b[1..])))
  }

  lemma {:induction false} LessTextTotal(a: string, b: string)
    ensures a == b || LessText(a, b) || LessText(b, a)
  {
    if a == [] || b == [] || a[0] != b[0] {
    } else {
      LessTextTotal(a[1..], b[1..]);
      assert a == [a[0]] + a[1..] && b == [b[0]] + b[1..];
    }
  }

  lemma {:induction false} LessTextStrict(a: string)
    ensures !LessText(a, a)
  {
    if a == [] {
    } else {
      LessTextStrict(a[1..]);
    }
  }

  lemma {:induction false} LessTextTransitive(a: string, b: string, c: string)
    requires LessText(a, b) && LessText(b, c)
    ensures LessText(a, c)
  {
    if a == [] || a[0] < b[0] || b[0] < c[0] {
    } else {
      LessTextTransitive(a[1..], b[1..], c[1..]);
    }
  }

  /** The comparison of locations as tuples. */
  predicate Above(a: Location, b: Location) {
    if a.sourceFile != b.sourceFile then LessText(b.sourceFile, a.sourceFile)
    else if a.byteOffset != b.byteOffset then a.byteOffset > b.byteOffset
    else if a.lines != b.lines then LessText(b.lines, a.lines)
    else LessText(b.code, a.code)
  }

  lemma {:induction false} AboveTotal(a: Location, b: Location)
    ensures a == b || Above(a, b) || Above(b, a)
  {
    hide LessText;
    LessTextTotal(a.sourceFile, b.sourceFile);
    LessTextTotal(a.lines, b.lines);
    LessTextTotal(a.code, b.code);
  }

  lemma {:induction false} AboveTransitive(a: Location, b: Location, c: Location)
    requires Above(a, b) && Above(b, c)
    ensures Above(a, c) && a != c
  {
    hide LessText;
    LessTextLink(a.sourceFile, b.sourceFile, c.sourceFile);
    LessTextLink(a.lines, b.lines, c.lines);
    LessTextLink(a.code, b.code, c.code);
  }

  lemma {:induction false} LessTextLink(a: string, b: string, c: string)
    ensures LessText(b, a) && LessText(c, b) ==> LessText(c, a) && a != c
    ensures !LessText(a, a)
  {
    hide LessText;
    LessTextStrict(a);
    LessTextStrict(b);
    if LessText(b, a) && LessText(c, b) {
      LessTextTransitive(c, b, a);
    }
  }

  /** The first text is a proper prefix of the second or has the smaller character where they first differ. */
  ghost predicate TextBefore(a: string, b: string) {
    exists k: nat :: BeforeAt(a, b, k)
  }

  predicate BeforeAt(a: string, b: string, k: nat) {
    k <= |a| && k < |b| && a[..k] == b[..k] && (k == |a| || a[k] < b[k])
  }

  lemma {:induction false} BeforeAtCons(a: string, b: string, k: nat)
    requires a != [] && b != [] && a[0] == b[0]
    ensures BeforeAt(a[1..], b[1..], k) <==> BeforeAt(a, b, k + 1)
    ensures !BeforeAt(a, b, 0)
  {
    var x, y := a[1..], b[1..];
    if k <= |x| && k <= |y| {
      assert a[..k + 1] == [a[0]] + x[..k] && b[..k + 1] == [b[0]] + y[..k];
      assert x[..k] == a[..k + 1][1..] && y[..k] == b[..k + 1][1..];
    }
  }

  lemma {:induction false} SameStart(a: string, b: string, k: nat)
    requires BeforeAt(a, b, k)
    ensures k > 0 ==> a != [] && b != [] && a[0] == b[0]
  {
    if k > 0 {
      assert a[..k][0] == a[0] && b[..k][0] == b[0];
    }
  }

  lemma {:induction false} LessTextIs(a: string, b: string)
    ensures LessText(a, b) <==> TextBefore(a, b)
  {
    if a == [] || b == [] || a[0] != b[0] {
      if LessText(a, b) {
        assert BeforeAt(a, b, 0);
      }
      if TextBefore(a, b) {
        var k: nat :| BeforeAt(a, b, k);
        SameStart(a, b, k);
      }
    } else {
      hide BeforeAt;
      LessTextIs(a[1..], b[1..]);
      if TextBefore(a[1..], b[1..]) {
        var k: nat :| BeforeAt(a[1..], b[1..], k);
        BeforeAtCons(a, b, k);
      }
      if TextBefore(a, b) {
        var k: nat :| BeforeAt(a, b, k);
        BeforeAtCons(a, b, if k == 0 then 0 else k - 1);
      }
    }
  }

  /** Later files come first, then larger offsets, then later texts of the match and of the code. */
  lemma {:induction false} AboveIs(a: Location, b: Location)
    ensures Above(a, b) <==>
            TextBefore(b.sourceFile, a.sourceFile)
            || (a.sourceFile == b.sourceFile
                && (a.byteOffset > b.byteOffset
                    || (a.byteOffset == b.byteOffset
                        && (TextBefore(b.lines, a.lines) || (a.lines == b.lines && TextBefore(b.code, a.code))))))
  {
    hide LessText; hide TextBefore;
    LessTextIs(b.sourceFile, a.sourceFile);
    LessTextIs(b.lines, a.lines);
    LessTextIs(b.code, a.code);
    LessTextStrict(a.sourceFile);
    LessTextStrict(a.lines);
  }

  predicate Sorted(order: seq<Location>) {
    forall i, j :: 0 <= i < j < |order| ==> Above(order[i], order[j])
  }

  /** Puts a location into a list sorted from the last to the first, unless it is there already. */
  function Insert(loc: Location, order: seq<Location>): seq<Location> {
    if order == [] then [loc]
    else if loc == order[0] then order
    else if Above(loc, order[0]) then [loc] + order
    else [order[0]] + Insert(loc, order[1..])
  }

  lemma {:induction false} InsertMembers(loc: Location, order: seq<Location>, l: Location)
    ensures l in Insert(loc, order) <==> l == loc || l in order
  {
    hide Above;
    if order == [] || loc == order[0] || Above(loc, order[0]) {
    } else {
      InsertMembers(loc, order[1..], l);
      assert order == [order[0]] + order[1..];
    }
  }

  lemma {:induction false} InsertSorted(loc: Location, order: seq<Location>)
    requires Sorted(order)
    ensures Sorted(Insert(loc, order))
  {
    hide Above;
    if order == [] || loc == order[0] {
    } else {
      if Above(loc, order[0]) {
        forall j | 0 < j < |order| ensures Above(loc, order[j]) {
          AboveTransitive(loc, order[0], order[j]);
        }
      } else {
        AboveTotal(loc, order[0]);
        InsertSorted(loc, order[1..]);
        var rest := Insert(loc, order[1..]);
        forall j | 0 <= j < |rest| ensures Above(order[0], rest[j]) {
          assert rest[j] in rest;
          InsertMembers(loc, order[1..], rest[j]);
        }
      }
    }
  }

  /** The locations with a code of value zero, without repetition, sorted and reversed. */
  function EditOrder(errors: seq<Location>): seq<Location> {
    if errors == [] then []
    else
      var rest := EditOrder(errors[1..]);
      if IntOf(errors[0]) == 0 then Insert(errors[0], rest) else rest
  }

  /** Each location with a zero code once, and the offsets of each file from last to first. */
  lemma {:induction false} EditOrderIs(errors: seq<Location>)
    ensures forall l :: l in EditOrder(errors) <==> l in errors && IntOf(l) == 0
    ensures Sorted(EditOrder(errors)) && Descending(EditOrder(errors))
    ensures forall i, j :: 0 <= i < j < |EditOrder(errors)| ==> EditOrder(errors)[i] != EditOrder(errors)[j]
  {
    hide Above; hide Insert; hide IntOf;
    if errors == [] {
    } else {
      EditOrderIs(errors[1..]);
      var rest := EditOrder(errors[1..]);
      InsertSorted(errors[0], rest);
      forall l ensures l in Insert(errors[0], rest) <==> l == errors[0] || l in rest {
        InsertMembers(errors[0], rest, l);
      }
      assert forall l :: l in errors <==> l == errors[0] || l in errors[1..];
    }
    SortedDescends(EditOrder(errors));
  }

  lemma {:induction false} SortedDescends(order: seq<Location>)
    requires Sorted(order)
    ensures Descending(order) && forall i, j :: 0 <= i < j < |order| ==> order[i] != order[j]
  {
    forall i, j | 0 <= i < j < |order| ensures order[i] != order[j] {
      LessTextStrict(order[i].code);
    }
  }

  predicate Descending(order: seq<Location>) {
    forall i, j :: 0 <= i < j < |order| && order[i].sourceFile == order[j].sourceFile ==>
      order[i].byteOffset >= order[j].byteOffset
  }

  /** The location's offset points at a '0' of its file. */
  predicate PointsAtZero(files: map<string, string>, loc: Location) {
    loc.sourceFile in files && loc.byteOffset < |files[loc.sourceFile]|
    && files[loc.sourceFile][loc.byteOffset] == '0'
  }

  /** Every offset points at a '0' and no two locations share one. */
  ghost predicate Editable(files: map<string, string>, order: seq<Location>) {
    (forall i :: 0 <= i < |order| ==> PointsAtZero(files, order[i]))
    && (forall i, j :: 0 <= i < j < |order| && order[i].sourceFile == order[j].sourceFile ==>
          order[i].byteOffset != order[j].byteOffset)
  }

  /** Writing over a file from its start leaves whatever lies behind the new text. */
  function Overwrite(old': string, new': string): string {
    if |new'| >= |old'| then new' else new' + old'[|new'|..]
  }

  datatype FixResult = Fixed | MissingFile | BadOffset | AssertionFailed | NotAttempted

  ghost predicate EditedSoFar(files: map<string, string>, now: map<string, string>, order: seq<Location>, next: nat) {
    now.Keys == files.Keys && forall f :: f in files ==> now[f] == Substitute(files[f], Edits(order, next, f))
  }

  /** How an illegitimate edit fails: its file or its offset is not there, or the assertion does not hold. */
  function Refusal(files: map<string, string>, loc: Location): FixResult {
    if loc.sourceFile !in files then MissingFile
    else if loc.byteOffset >= |files[loc.sourceFile]| then BadOffset
    else AssertionFailed
  }

  /** The edits before the first illegitimate one were made, and no more; `result` says how that one failed. */
  ghost predicate StoppedEarly(
    files: map<string, string>, now: map<string, string>, order: seq<Location>, next: nat, result: FixResult)
  {
    exists k :: 0 <= k < |order| && Editable(files, order[..k]) && !Editable(files, order[..k + 1])
                && EditedSoFar(files, now, order[..k], next) && result == Refusal(files, order[k])
  }

  ghost predicate Taken(order: seq<Location>, file: string, o: nat) {
    exists j :: 0 <= j < |order| && At(order[j], file, o)
  }

  lemma {:induction false} EditableSnoc(files: map<string, string>, order: seq<Location>, loc: Location)
    requires Editable(files, order)
    ensures Editable(files, order + [loc]) <==>
            PointsAtZero(files, loc) && !Taken(order, loc.sourceFile, loc.byteOffset)
  {
    var all := order + [loc];
    assert all[|order|] == loc;
    if Taken(order, loc.sourceFile, loc.byteOffset) {
      var j :| 0 <= j < |order| && At(order[j], loc.sourceFile, loc.byteOffset);
      assert all[j] == order[j];
    } else {
      assert forall j :: 0 <= j < |order| ==> !At(order[j], loc.sourceFile, loc.byteOffset);
    }
  }

  /** The edits made so far in the file of the next location all lie at or behind its offset. */
  lemma {:induction false} EditsBehind(
    files: map<string, string>, order: seq<Location>, loc: Location, next: nat, k: nat)
    requires next > 0 && Editable(files, order) && Descending(order + [loc])
    requires k in Edits(order, next, loc.sourceFile)
    ensures loc.sourceFile in files && loc.byteOffset <= k < |files[loc.sourceFile]|
  {
    EditsAre(order, next, loc.sourceFile, k);
    var j :| 0 <= j < |order| && At(order[j], loc.sourceFile, k);
    assert (order + [loc])[j] == order[j] && (order + [loc])[|order|] == loc;
  }

  lemma {:induction false} NoEdits(text: string)
    ensures Substitute(text, map[]) == text
  {
    PlainPrefix(text, map[], |text|);
    assert Pieces(text, map[])[..|text|] == Pieces(text, map[]);
  }

  /** In the text edited so far, the next offset reads '0' exactly if it did at first and is not taken. */
  lemma {:induction false} NextOffset(
    text: string, edits: map<nat, string>, o: nat, code: string)
    requires forall k :: k in edits ==> o <= k < |text|
    requires o in edits ==> edits[o] != [] && edits[o][0] != '0'
    ensures var t := Substitute(text, edits);
            (o < |t| <==> o < |text|)
            && (o < |t| && t[o] == '0' <==> o < |text| && text[o] == '0' && o !in edits)
            && (o < |t| && t[o] == '0' ==> Substitute(text, edits[o := code]) == t[..o] + code + t[o + 1..])
  {
    hide Substitute;
    if o in edits {
      SubstituteFirst(text, edits, o);
    } else if o < |text| {
      SubstituteBefore(text, edits, o, code);
    } else {
      assert edits == map[];
      NoEdits(text);
    }
  }

  /** If all edits so far were legitimate, the next one is exactly when its character still reads '0'. */
  lemma {:induction false} NextEdit(
    files: map<string, string>, now: map<string, string>, order: seq<Location>, loc: Location, next: nat)
    requires next > 0 && Editable(files, order) && EditedSoFar(files, now, order, next)
    requires Descending(order + [loc])
    ensures PointsAtZero(now, loc) <==> Editable(files, order + [loc])
    ensures !PointsAtZero(now, loc) ==> Refusal(now, loc) == Refusal(files, loc)
    ensures PointsAtZero(now, loc) ==>
              var f, o := loc.sourceFile, loc.byteOffset;
              Substitute(files[f], Edits(order + [loc], next, f)) ==
              now[f][..o] + Print(next + |order|, 10) + now[f][o + 1..]
  {
    hide Substitute; hide Print; hide Editable; hide Descending;
    var f, o := loc.sourceFile, loc.byteOffset;
    EditableSnoc(files, order, loc);
    if f in files {
      var edits := Edits(order, next, f);
      forall k | k in edits ensures o <= k < |files[f]| {
        EditsBehind(files, order, loc, next, k);
      }
      EditsAre(order, next, f, o);
      NextOffset(files[f], edits, o, Print(next + |order|, 10));
      assert Front(order + [loc]) == order;
    }
  }

  method ReplaceBadCodes(files: map<string, string>, errors: seq<Location>, nextCode: nat)
    returns (now: map<string, string>, result: FixResult)
    requires nextCode > 0
    ensures result.Fixed? <==> Editable(files, EditOrder(errors))
    ensures result.Fixed? ==> EditedSoFar(files, now, EditOrder(errors), nextCode)
    ensures !result.Fixed? ==> StoppedEarly(files, now, EditOrder(errors), nextCode, result)
  {
    hide Substitute; hide Print; hide Edits; hide Editable; hide Descending; hide IntOf; hide EditOrder; hide Sorted;
    now := files;
    var order := EditOrder(errors);
    EditOrderIs(errors);
    StartEditing(files, nextCode);
    for k := 0 to |order|
      invariant Editable(files, order[..k]) && EditedSoFar(files, now, order[..k], nextCode)
    {
      var loc := order[k];
      assert order[..k] + [loc] == order[..k + 1];
      DescendingPrefix(order, k + 1);
      NextEdit(files, now, order[..k], loc, nextCode);
      if !PointsAtZero(now, loc) {
        EditablePrefix(files, order, k + 1);
        if loc.sourceFile !in now {
          return now, MissingFile;
        }
        if loc.byteOffset >= |now[loc.sourceFile]| {
          return now, BadOffset;
        }
        return now, AssertionFailed;
      }
      var text := now[loc.sourceFile];
      var written := text[..loc.byteOffset] + Print(nextCode + k, 10) + text[loc.byteOffset + 1..];
      PrintDigits(nextCode + k, 10);
      now := now[loc.sourceFile := Overwrite(text, written)];
      forall f | f in files ensures now[f] == Substitute(files[f], Edits(order[..k + 1], nextCode, f)) {
        if f != loc.sourceFile {
          OtherFile(order[..k], loc, nextCode, f);
        }
      }
    }
    assert order[..|order|] == order;
    result := Fixed;
  }

  lemma {:induction false} StartEditing(files: map<string, string>, next: nat)
    ensures Editable(files, []) && EditedSoFar(files, files, [], next)
  {
    forall f | f in files ensures files[f] == Substitute(files[f], Edits([], next, f)) {
      NoEdits(files[f]);
    }
  }

  lemma {:induction false} DescendingPrefix(order: seq<Location>, k: nat)
    requires k <= |order| && Descending(order)
    ensures Descending(order[..k])
  {
  }

  lemma {:induction false} EditablePrefix(files: map<string, string>, order: seq<Location>, k: nat)
    requires k <= |order|
    ensures Editable(files, order) ==> Editable(files, order[..k])
  {
    if Editable(files, order) {
      assert forall i :: 0 <= i < k ==> order[..k][i] == order[i];
    }
  }

  lemma {:induction false} OtherFile(order: seq<Location>, loc: Location, next: nat, f: string)
    requires loc.sourceFile != f
    ensures Edits(order + [loc], next, f) == Edits(order, next, f)
  {
    assert Front(order + [loc]) == order;
  }

  // ----- the codes put in

  /** The text that the edits put in place of the location's character. */
  function Inserted(order: seq<Location>, next: nat, loc: Location): string {
    var edits := Edits(order, next, loc.sourceFile);
    if loc.byteOffset in edits then edits[loc.byteOffset] else ""
  }

  /** The i-th location gets the i-th new code: no later edit takes its place. */
  lemma {:induction false} InsertedIs(files: map<string, string>, order: seq<Location>, next: nat, i: nat)
    requires Editable(files, order) && i < |order|
    ensures Inserted(order, next, order[i]) == Print(next + i, 10)
  {
    hide Print;
    if i >= |order| - 1 {
    } else {
      EditablePrefix(files, order, |order| - 1);
      InsertedIs(files, Front(order), next, i);
      assert !At(Last(order), order[i].sourceFile, order[i].byteOffset);
    }
  }

  /** The inserted codes are pairwise different numerals above every code that was there. */
  ghost predicate NewCodes(locs: seq<Location>, order: seq<Location>, next: nat) {
    (forall i, j :: 0 <= i < j < |order| ==> Inserted(order, next, order[i]) != Inserted(order, next, order[j]))
    && (forall i :: 0 <= i < |order| ==> Canonical(Inserted(order, next, order[i])))
    && (forall i, l :: 0 <= i < |order| && l in locs ==> Value(Inserted(order, next, order[i]), 10) > IntOf(l))
  }

  lemma {:induction false} InsertedCodesAreNew(
    files: map<string, string>, locs: seq<Location>, order: seq<Location>, next: nat)
    requires Editable(files, order) && next > 0 && forall l :: l in locs ==> IntOf(l) < next
    ensures NewCodes(locs, order, next)
  {
    hide IntOf; hide Print; hide Value; hide Editable; hide Inserted;
    forall i | 0 <= i < |order|
      ensures Inserted(order, next, order[i]) == Print(next + i, 10)
      ensures Canonical(Print(next + i, 10)) && Value(Print(next + i, 10), 10) == next + i
    {
      InsertedIs(files, order, next, i);
      PrintDigits(next + i, 10);
    }
  }

  /** The locations that the fixer edits: those of the code "0", and repeated other spellings of zero. */
  predicate IsZeroError(locs: seq<Location>, l: Location) {
    l in locs && IntOf(l) == 0 && (l.code == "0" || Repeated(locs, l))
  }

  /** The whole fixer: scan, find the next code, replace the zero codes, from the last location to the first. */
  method FixZeroCodes(files: map<string, string>, locs: seq<Location>)
    returns (now: map<string, string>, order: seq<Location>, next: NextCode, result: FixResult)
    ensures next.Next? <==> |locs| >= 2
    ensures next.NextTypeError? ==> now == files && result.NotAttempted?
    ensures next.Next? ==> forall l :: l in locs ==> IntOf(l) < next.code
    ensures next.Next? ==> exists l :: l in locs && IntOf(l) == next.code - 1
    ensures next.Next? && AllSpelled(locs) ==> IsNextOf(locs, next.code)
    ensures (forall l :: l in order <==> IsZeroError(locs, l)) && Sorted(order)
    ensures next.Next? ==> (result.Fixed? <==> Editable(files, order))
    ensures next.Next? && result.Fixed? ==> EditedSoFar(files, now, order, next.code)
    ensures next.Next? && !result.Fixed? ==> StoppedEarly(files, now, order, next.code, result)
    ensures next.Next? && result.Fixed? ==> NewCodes(locs, order, next.code)
    ensures next.Next? && Recorded(files, locs) ==> result.Fixed? && CodesAfter(files, locs, order, next.code)
  {
    hide Substitute; hide Print; hide Edits; hide Editable; hide Descending; hide With; hide Sorted; hide EditOrder;
    hide IntOf;
    var codes, errors, dups := ReadErrorCodes(locs, []);
    assert [] + locs == locs;
    order := EditOrder(errors);
    EditOrderIs(errors);
    ZeroHasNoValue();
    next := GetNextCode(codes);
    if next.NextTypeError? {
      return files, order, next, NotAttempted;
    }
    now, result := ReplaceBadCodes(files, errors, next.code);
    if result.Fixed? {
      InsertedCodesAreNew(files, locs, order, next.code);
    }
    if Recorded(files, locs) {
      RecordedIsEditable(files, locs, order);
      FixedFilesRead(files, locs, order, next.code);
    }
  }

  // ----- what the files read afterwards

  /** Where a position of the original text is in the edited one. */
  function NewOffset(text: string, edits: map<nat, string>, o: nat): nat
    requires o <= |text|
  {
    |Concat(Pieces(text, edits)[..o])|
  }

  lemma {:induction false} SpanAfter(text: string, edits: map<nat, string>, i: nat, j: nat)
    requires i <= j <= |text|
    ensures NewOffset(text, edits, i) <= NewOffset(text, edits, j) <= |Substitute(text, edits)|
    ensures Substitute(text, edits)[NewOffset(text, edits, i)..NewOffset(text, edits, j)] ==
            Concat(Pieces(text, edits)[i..j])
  {
    hide Concat; hide Pieces;
    var p := Pieces(text, edits);
    var a, b, c := Concat(p[..i]), Concat(p[i..j]), Concat(p[j..]);
    ConcatCut(p, j);
    ConcatCut(p[..j], i);
    assert p[..j][..i] == p[..i] && p[..j][i..] == p[i..j];
    assert (a + b + c)[|a|..|a + b|] == b;
  }

  lemma {:induction false} PlainSpan(text: string, edits: map<nat, string>, i: nat, j: nat)
    requires i <= j <= |text| && forall k :: i <= k < j ==> k !in edits
    ensures Concat(Pieces(text, edits)[i..j]) == text[i..j]
  {
    var p := Pieces(text, edits);
    if i == j {
      assert p[i..j] == [];
    } else {
      PlainSpan(text, edits, i, j - 1);
      assert p[i..j] == p[i..j - 1] + [p[j - 1]];
      ConcatSnoc(p[i..j - 1], p[j - 1]);
    }
  }

  /** An edited character at the start of a span is replaced there, and the rest of the span stays. */
  lemma {:induction false} EditedSpan(text: string, edits: map<nat, string>, i: nat, j: nat)
    requires i < j <= |text| && i in edits && forall k :: i < k < j ==> k !in edits
    ensures Concat(Pieces(text, edits)[i..j]) == edits[i] + text[i + 1..j]
  {
    var p := Pieces(text, edits);
    PlainSpan(text, edits, i + 1, j);
    assert p[i..j][0] == edits[i] && p[i..j][1..] == p[i + 1..j];
  }

  predicate Apart(a: Location, b: Location) {
    a.sourceFile != b.sourceFile || a.byteOffset + |a.code| <= b.byteOffset || b.byteOffset + |b.code| <= a.byteOffset
  }

  /** The locations are those of numerals in the files: each code stands at its offset, and no two overlap. */
  ghost predicate Recorded(files: map<string, string>, locs: seq<Location>) {
    (forall l :: l in locs ==> CodeStands(files, l))
    && (forall a, b :: a in locs && b in locs && a != b ==> Apart(a, b))
  }

  predicate CodeStands(files: map<string, string>, l: Location) {
    AllDigits(l.code, 10) && l.sourceFile in files
    && l.byteOffset + |l.code| <= |files[l.sourceFile]|
    && files[l.sourceFile][l.byteOffset..l.byteOffset + |l.code|] == l.code
  }

  /** What stands in the edited file in place of the location's code. */
  function CodeAfter(files: map<string, string>, order: seq<Location>, next: nat, l: Location): string
    requires CodeStands(files, l)
  {
    var text, edits := files[l.sourceFile], Edits(order, next, l.sourceFile);
    var from, to := NewOffset(text, edits, l.byteOffset), NewOffset(text, edits, l.byteOffset + |l.code|);
    SpanAfter(text, edits, l.byteOffset, l.byteOffset + |l.code|);
    Substitute(text, edits)[from..to]
  }

  lemma {:induction false} ZeroDigits(code: string)
    requires AllDigits(code, 10) && Value(code, 10) == 0
    ensures forall k :: 0 <= k < |code| ==> code[k] == '0'
  {
    assert IsDigit(Last(code), 10);
    if |code| == 1 {
    } else {
      ZeroDigits(Front(code));
    }
  }

  /** Recorded zero codes can all be edited. */
  lemma {:induction false} RecordedIsEditable(files: map<string, string>, locs: seq<Location>, order: seq<Location>)
    requires Recorded(files, locs) && Sorted(order) && forall l :: l in order ==> l in locs && IntOf(l) == 0
    ensures Editable(files, order)
  {
    hide Sorted; hide Above;
    SortedDescends(order);
    forall i | 0 <= i < |order| ensures PointsAtZero(files, order[i]) {
      var l := order[i];
      assert l in order && CodeStands(files, l);
      ZeroDigits(l.code);
      assert files[l.sourceFile][l.byteOffset] == files[l.sourceFile][l.byteOffset..l.byteOffset + |l.code|][0];
    }
    forall i, j | 0 <= i < j < |order| && order[i].sourceFile == order[j].sourceFile
      ensures order[i].byteOffset != order[j].byteOffset
    {
      assert order[i] in order && order[j] in order && Apart(order[i], order[j]);
      assert CodeStands(files, order[i]) && CodeStands(files, order[j]);
    }
  }

  /** Within the span of a recorded code, only its own first character can be edited. */
  lemma {:induction false} EditsInSpan(
    files: map<string, string>, locs: seq<Location>, order: seq<Location>, next: nat, l: Location, k: nat)
    requires Recorded(files, locs) && next > 0 && l in locs && forall x :: x in order ==> x in locs
    requires l.byteOffset <= k < l.byteOffset + |l.code|
    ensures k in Edits(order, next, l.sourceFile) <==> l in order && k == l.byteOffset
  {
    hide Edits;
    EditsAre(order, next, l.sourceFile, k);
    if k in Edits(order, next, l.sourceFile) {
      var j :| 0 <= j < |order| && At(order[j], l.sourceFile, k);
      assert order[j] in order && CodeStands(files, order[j]);
      assert order[j] == l || Apart(order[j], l);
    }
    if l in order {
      var j :| 0 <= j < |order| && order[j] == l;
      assert At(order[j], l.sourceFile, l.byteOffset);
    }
  }

  /** An edited code reads its new numeral followed by what was behind its first digit; any other is as it was. */
  lemma {:induction false} CodeAfterIs(
    files: map<string, string>, locs: seq<Location>, order: seq<Location>, next: nat, l: Location)
    requires Recorded(files, locs) && next > 0 && l in locs && forall x :: x in order ==> x in locs
    ensures CodeStands(files, l)
    ensures CodeAfter(files, order, next, l) ==
            if l in order then Inserted(order, next, l) + l.code[1..] else l.code
  {
    hide Edits; hide Substitute; hide Concat; hide NewOffset; hide Pieces;
    var text, edits := files[l.sourceFile], Edits(order, next, l.sourceFile);
    var i, j := l.byteOffset, l.byteOffset + |l.code|;
    forall k | i <= k < j ensures k in edits <==> l in order && k == i {
      EditsInSpan(files, locs, order, next, l, k);
    }
    SpanAfter(text, edits, i, j);
    if l in order {
      EditedSpan(text, edits, i, j);
      assert text[i + 1..j] == text[i..j][1..];
    } else {
      PlainSpan(text, edits, i, j);
    }
  }

  function Power(n: nat): nat {
    if n == 0 then 1 else 10 * Power(n - 1)
  }

  /** A canonical positive numeral followed by zeros is again one. */
  lemma {:induction false} ZerosBehind(s: string, zeros: string)
    requires Canonical(s) && Value(s, 10) > 0 && forall k :: 0 <= k < |zeros| ==> zeros[k] == '0'
    ensures Canonical(s + zeros) && Value(s + zeros, 10) == Value(s, 10) * Power(|zeros|)
    ensures Value(s + zeros, 10) >= Value(s, 10)
  {
    if zeros == [] {
      assert s + zeros == s;
    } else {
      ZerosBehind(s, Front(zeros));
      assert Front(s + zeros) == s + Front(zeros) && Last(s + zeros) == '0';
      ZeroStart(s);
      TenTimes(Value(s, 10), Power(|zeros| - 1));
    }
  }

  lemma {:induction false} TenTimes(v: nat, p: nat)
    ensures v * p * 10 == v * (10 * p)
  {
  }

  lemma {:induction false} ZeroStart(s: string)
    requires Canonical(s) && Value(s, 10) > 0
    ensures s[0] != '0'
  {
    if |s| == 1 {
      assert Front(s) == [];
    }
  }

  lemma {:induction false} PrintedNumber(n: nat)
    requires n > 0
    ensures Canonical(Print(n, 10)) && Value(Print(n, 10), 10) == n
  {
    PrintDigits(n, 10);
  }

  /** The new codes that the files read are the numbers `next + i`, times ten for each further digit. */
  lemma {:induction false} NumberAfter(
    files: map<string, string>, locs: seq<Location>, order: seq<Location>, next: nat, i: nat)
    requires Recorded(files, locs) && next > 0 && i < |order| && Sorted(order)
    requires forall x :: x in order ==> x in locs && IntOf(x) == 0
    ensures CodeStands(files, order[i])
    ensures var code := CodeAfter(files, order, next, order[i]);
            Canonical(code) && Value(code, 10) == (next + i) * Power(|order[i].code| - 1) && Value(code, 10) >= next + i
  {
    hide Edits; hide Print; hide Value; hide Sorted; hide CodeAfter; hide Inserted; hide Power; hide Editable;
    var l := order[i];
    assert l in order;
    CodeAfterIs(files, locs, order, next, l);
    RecordedIsEditable(files, locs, order);
    InsertedIs(files, order, next, i);
    PrintedNumber(next + i);
    ZeroDigits(l.code);
    ZerosBehind(Print(next + i, 10), l.code[1..]);
  }

  ghost predicate UneditedStay(files: map<string, string>, locs: seq<Location>, order: seq<Location>, next: nat)
    requires Recorded(files, locs)
  {
    forall l :: l in locs && l !in order ==> CodeAfter(files, order, next, l) == l.code
  }

  ghost predicate ReadNumberIff(files: map<string, string>, locs: seq<Location>, order: seq<Location>, next: nat)
    requires Recorded(files, locs)
  {
    forall i :: 0 <= i < |order| && order[i] in locs ==>
      (CodeAfter(files, order, next, order[i]) == Print(next + i, 10) <==> order[i].code == "0")
  }

  ghost predicate ReadAboveAll(files: map<string, string>, locs: seq<Location>, order: seq<Location>, next: nat)
    requires Recorded(files, locs)
  {
    forall i, l :: 0 <= i < |order| && order[i] in locs && l in locs ==>
      CodeAfter(files, order, next, order[i]) != l.code
      && Value(CodeAfter(files, order, next, order[i]), 10) > IntOf(l)
  }

  ghost predicate ReadSameIff(files: map<string, string>, locs: seq<Location>, order: seq<Location>, next: nat)
    requires Recorded(files, locs)
  {
    forall i, j :: 0 <= i < j < |order| && order[i] in locs && order[j] in locs ==>
      (CodeAfter(files, order, next, order[i]) == CodeAfter(files, order, next, order[j]) <==>
       (next + i) * Power(|order[i].code| - 1) == (next + j) * Power(|order[j].code| - 1))
  }

  /**
   * What the files read after fixing. A code that was edited reads exactly the new number if and only
   * if it was spelled "0"; it differs from every code that was there before, and from another edited
   * one if and only if the numbers differ once a ten is counted for each further digit.
   */
  ghost predicate CodesAfter(files: map<string, string>, locs: seq<Location>, order: seq<Location>, next: nat)
    requires Recorded(files, locs)
  {
    UneditedStay(files, locs, order, next) && ReadNumberIff(files, locs, order, next)
    && ReadAboveAll(files, locs, order, next) && ReadSameIff(files, locs, order, next)
  }

  lemma {:induction false} SameReading(
    files: map<string, string>, locs: seq<Location>, order: seq<Location>, next: nat)
    requires Recorded(files, locs) && next > 0 && Sorted(order)
    requires forall x :: x in order ==> x in locs && IntOf(x) == 0
    ensures ReadSameIff(files, locs, order, next)
  {
    hide Print; hide Value; hide Sorted; hide CodeAfter; hide Power; hide Canonical; hide IntOf;
    forall i | 0 <= i < |order|
      ensures CodeStands(files, order[i])
      ensures var code := CodeAfter(files, order, next, order[i]);
              Value(code, 10) == (next + i) * Power(|order[i].code| - 1) && Print(Value(code, 10), 10) == code
    {
      NumberAfter(files, locs, order, next, i);
      CanonicalIsPrinted(CodeAfter(files, order, next, order[i]));
    }
  }

  lemma {:induction false} FixedFilesRead(
    files: map<string, string>, locs: seq<Location>, order: seq<Location>, next: nat)
    requires Recorded(files, locs) && next > 0 && Sorted(order)
    requires forall x :: x in order ==> x in locs && IntOf(x) == 0
    requires forall l :: l in locs ==> IntOf(l) < next
    ensures CodesAfter(files, locs, order, next)
  {
    hide Print; hide Value; hide Sorted; hide CodeAfter; hide Power; hide Canonical; hide ReadSameIff;
    SameReading(files, locs, order, next);
    forall l | l in locs && l !in order ensures CodeAfter(files, order, next, l) == l.code {
      CodeAfterIs(files, locs, order, next, l);
    }
    forall i | 0 <= i < |order|
      ensures CodeStands(files, order[i])
      ensures var code := CodeAfter(files, order, next, order[i]);
              Value(code, 10) >= next + i
    {
      NumberAfter(files, locs, order, next, i);
    }
    forall i | 0 <= i < |order|
      ensures CodeAfter(files, order, next, order[i]) == Print(next + i, 10) <==> order[i].code == "0"
    {
      assert order[i] in order && order[i] in locs;
      ReadsNewNumberIff(files, locs, order, next, i);
    }
  }

  lemma {:induction false} ReadsNewNumberIff(
    files: map<string, string>, locs: seq<Location>, order: seq<Location>, next: nat, i: nat)
    requires Recorded(files, locs) && next > 0 && i < |order| && Sorted(order)
    requires forall x :: x in order ==> x in locs && IntOf(x) == 0
    ensures CodeStands(files, order[i])
    ensures CodeAfter(files, order, next, order[i]) == Print(next + i, 10) <==> order[i].code == "0"
  {
    hide Print; hide Value; hide Sorted; hide CodeAfter; hide Inserted; hide Edits;
    var l := order[i];
    assert l in order;
    CodeAfterIs(files, locs, order, next, l);
    RecordedIsEditable(files, locs, order);
    InsertedIs(files, order, next, i);
    ZeroDigits(l.code);
    assert l.code == [l.code[0]] + l.code[1..];
  }

  /** An edited "0" reads neither "0" nor any code that was there. */
  lemma {:induction false} EditedIsNew(
    files: map<string, string>, locs: seq<Location>, order: seq<Location>, next: nat, i: nat, l: Location)
    requires Recorded(files, locs) && ReadAboveAll(files, locs, order, next) && i < |order|
    requires order[i] in locs && order[i].code == "0" && l in locs
    ensures CodeStands(files, order[i]) && CodeAfter(files, order, next, order[i]) != l.code
    ensures CodeAfter(files, order, next, order[i]) != "0"
  {
    hide Value; hide CodeAfter; hide IntOf;
    assert CodeStands(files, order[i]);
    assert CodeAfter(files, order, next, order[i]) != order[i].code;
  }

  /** Two edited "0" read different codes. */
  lemma {:induction false} EditedDiffer(
    files: map<string, string>, locs: seq<Location>, order: seq<Location>, next: nat, i: nat, j: nat)
    requires Recorded(files, locs) && ReadNumberIff(files, locs, order, next) && i < j < |order|
    requires order[i] in locs && order[j] in locs && order[i].code == "0" && order[j].code == "0"
    ensures CodeStands(files, order[i]) && CodeStands(files, order[j])
    ensures CodeAfter(files, order, next, order[i]) != CodeAfter(files, order, next, order[j])
  {
    hide Value; hide CodeAfter; hide Print;
    assert CodeStands(files, order[i]) && CodeStands(files, order[j]);
    PrintDigits(next + i, 10);
    PrintDigits(next + j, 10);
  }

  lemma {:induction false} CodesAfterParts(
    files: map<string, string>, locs: seq<Location>, order: seq<Location>, next: nat, l: Location)
    requires Recorded(files, locs) && CodesAfter(files, locs, order, next) && l in locs
    ensures CodeStands(files, l) && (l !in order ==> CodeAfter(files, order, next, l) == l.code)
    ensures ReadAboveAll(files, locs, order, next) && ReadNumberIff(files, locs, order, next)
  {
    hide CodeAfter; hide ReadSameIff; hide ReadAboveAll; hide ReadNumberIff;
  }

  lemma {:induction false} ZeroErrorsAreZero(locs: seq<Location>, order: seq<Location>)
    requires forall l :: l in order <==> IsZeroError(locs, l)
    ensures forall l :: l in order ==> l in locs && IntOf(l) == 0
  {
    hide IntOf; hide Repeated;
  }

  /** If all codes are canonical, the files read no zero and share a code only where they did, and it was not zero. */
  lemma {:induction false} CanonicalCodesAfter(
    files: map<string, string>, locs: seq<Location>, order: seq<Location>, next: nat, a: Location, b: Location)
    requires Recorded(files, locs) && next > 0 && Sorted(order)
    requires forall l :: l in order <==> IsZeroError(locs, l)
    requires forall l :: l in locs ==> IntOf(l) < next && Canonical(l.code)
    requires a in locs && b in locs && a != b
    ensures CodeAfter(files, order, next, a) != "0"
    ensures CodeAfter(files, order, next, a) == CodeAfter(files, order, next, b) <==> a.code == b.code && a.code != "0"
  {
    hide *;
    ZeroErrorsAreZero(locs, order);
    FixedFilesRead(files, locs, order, next);
    CodesAfterParts(files, locs, order, next, a);
    CodesAfterParts(files, locs, order, next, b);
    CanonicalZeroErrors(locs, a);
    CanonicalZeroErrors(locs, b);
    if a in order {
      var i :| 0 <= i < |order| && order[i] == a;
      EditedIsNew(files, locs, order, next, i, b);
      if b in order {
        var j :| 0 <= j < |order| && order[j] == b;
        if i < j {
          EditedDiffer(files, locs, order, next, i, j);
        } else {
          EditedDiffer(files, locs, order, next, j, i);
        }
      }
    } else if b in order {
      var j :| 0 <= j < |order| && order[j] == b;
      EditedIsNew(files, locs, order, next, j, a);
    }
  }

  /** A zero code spelled "00" that is not repeated is no error, so it stays. */
  lemma {:induction false} LoneLongZeroStays(a: Location, b: Location)
    requires a.code == "00" && b.code == "5"
    ensures IntOf(a) == 0 && !IsZeroError([a, b], a)
  {
    assert Front("00") == "0" && Front("0") == [];
    var locs := [a, b];
    assert Front(locs) == [a] && Front([a]) == [];
    assert With([a], "00") == With([], "00") + [a];
    assert With(locs, "00") == With([a], "00") + [];
  }

  /** Eleven zero codes of one file, from its start: two spelled "00", seven "0" and two "000". */
  function Spelling(m: nat): string {
    if m < 2 then "00" else if m < 9 then "0" else "000"
  }

  function ZeroAt(m: nat): Location {
    Location("f", 4 * m, "", Spelling(m))
  }

  function ZeroText(): string {
    seq(44, k requires 0 <= k < 44 => if k % 4 < |Spelling(k / 4)| then '0' else ';')
  }

  function ZerosFromLast(): seq<Location> {
    seq(11, i requires 0 <= i < 11 => ZeroAt(10 - i))
  }

  lemma {:induction false} SpelledZero(m: nat)
    ensures AllDigits(Spelling(m), 10) && Value(Spelling(m), 10) == 0
  {
    assert Front("000") == "00" && Front("00") == "0" && Front("0") == [];
  }

  lemma {:induction false} ZeroTextAt(m: nat, t: nat)
    requires m < 11 && t < |Spelling(m)|
    ensures ZeroText()[4 * m + t] == '0' == Spelling(m)[t]
  {
    assert (4 * m + t) / 4 == m && (4 * m + t) % 4 == t;
  }

  lemma {:induction false} ZeroStands(m: nat)
    requires m < 11
    ensures CodeStands(map["f" := ZeroText()], ZeroAt(m)) && IntOf(ZeroAt(m)) == 0
  {
    var code, text := Spelling(m), ZeroText();
    assert |text| == 44 && |code| <= 3;
    hide ZeroText; hide Value; hide Spelling;
    SpelledZero(m);
    forall t | 0 <= t < |code| ensures text[4 * m..4 * m + |code|][t] == code[t] {
      ZeroTextAt(m, t);
    }
    assert text[4 * m..4 * m + |code|] == code;
  }

  lemma {:induction false} ZerosApart(i: nat, j: nat)
    requires i < j < 11
    ensures var locs := ZerosFromLast();
            Above(locs[i], locs[j]) && Apart(locs[i], locs[j]) && Apart(locs[j], locs[i])
  {
    hide LessText;
  }

  lemma {:induction false} ZeroIsError(i: nat)
    requires i < 11
    ensures IsZeroError(ZerosFromLast(), ZerosFromLast()[i])
  {
    hide IntOf; hide With;
    var locs := ZerosFromLast();
    ZeroStands(10 - i);
    if i < 2 {
      RepeatedCodes(locs, 0, 1);
    } else if 9 <= i {
      RepeatedCodes(locs, 9, 10);
    }
  }

  lemma {:induction false} ZerosAreRecorded()
    ensures Recorded(map["f" := ZeroText()], ZerosFromLast()) && Sorted(ZerosFromLast())
    ensures forall l :: l in ZerosFromLast() <==> IsZeroError(ZerosFromLast(), l)
  {
    hide CodeStands; hide IntOf; hide ZeroText; hide Repeated; hide Above; hide Apart;
    var locs := ZerosFromLast();
    forall i | 0 <= i < 11 ensures CodeStands(map["f" := ZeroText()], locs[i]) && IsZeroError(locs, locs[i]) {
      ZeroStands(10 - i);
      ZeroIsError(i);
    }
    forall i, j | 0 <= i < j < 11
      ensures Above(locs[i], locs[j]) && Apart(locs[i], locs[j]) && Apart(locs[j], locs[i])
    {
      ZerosApart(i, j);
    }
    hide ZerosFromLast;
    assert |locs| == 11;
  }

  /** Longer spellings can collide: 1 put before "00" and 10 put before "0" both read "100". */
  lemma {:induction false} LongZerosCollide()
    ensures var files, order := map["f" := ZeroText()], ZerosFromLast();
            Recorded(files, order) && (forall l :: l in order <==> IsZeroError(order, l))
            && CodeAfter(files, order, 1, order[0]) == CodeAfter(files, order, 1, order[9]) == "100"
  {
    hide *;
    var files, order := map["f" := ZeroText()], ZerosFromLast();
    ZerosAreRecorded();
    FirstAndTenth();
    ReadsHundred(files, order, 0);
    ReadsHundred(files, order, 9);
  }

  lemma {:induction false} FirstAndTenth()
    ensures |ZerosFromLast()| == 11 && |ZerosFromLast()[0].code| == 3 && |ZerosFromLast()[9].code| == 2
  {
  }

  lemma {:induction false} ReadsHundred(files: map<string, string>, order: seq<Location>, i: nat)
    requires Recorded(files, order) && Sorted(order) && i < |order| && forall l :: l in order <==> IsZeroError(order, l)
    requires (i == 0 && |order[i].code| == 3) || (i == 9 && |order[i].code| == 2)
    ensures CodeStands(files, order[i]) && CodeAfter(files, order, 1, order[i]) == "100"
  {
    hide Sorted; hide Recorded; hide CodeAfter; hide CodeStands; hide Repeated; hide Power; hide Value;
    NumberAfter(files, order, order, 1, i);
    CanonicalIsPrinted(CodeAfter(files, order, 1, order[i]));
    SmallPowers();
    assert Print(1, 10) == "1" && Print(10, 10) == "10" && Print(100, 10) == "100";
  }

  lemma {:induction false} SmallPowers()
    ensures Power(1) == 10 && Power(2) == 100
  {
    assert Power(0) == 1;
  }

  /** For canonical codes the edited locations are exactly those of the code "0". */
  lemma {:induction false} CanonicalZeroErrors(locs: seq<Location>, l: Location)
    requires Canonical(l.code)
    ensures IsZeroError(locs, l) <==> l in locs && l.code == "0"
  {
    ZeroCode(l.code);
  }

  lemma {:induction false} ZeroHasNoValue()
    ensures forall l: Location :: l.code == "0" ==> IntOf(l) == 0
  {
    assert Front("0") == [];
  }

  lemma {:induction false} ZeroCode(code: string)
    requires Canonical(code)
    ensures Value(code, 10) == 0 <==> code == "0"
  {
    CanonicalIsPrinted(code);
    assert Print(0, 10) == "0" && Front("0") == [];
  }
}
