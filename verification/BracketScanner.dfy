/**
 * cpplint's two line-by-line bracket scanners, forward and backward, with their heuristics for
 * '<' and '>', and the text extractor that matches brackets on its own. Every scanner is proved
 * against the grammar of `BracketGrammar`: started on a round, square or curly bracket it finds
 * the partner in the lines laid end to end, or there is none.
 *
 * Regular expressions are written out. `word` is the regex class \w, left arbitrary because only
 * the word boundary before "operator" depends on it.
 */
module BracketScanner {
  import opened Common
  import opened BracketGrammar
  import opened Numerals

  // ----- regular expressions

  /** Search(r'\boperator\s*$', text) */
  predicate EndsWithOperator(word: char -> bool, text: string) {
    var t := StripRight(text);
    |t| >= 8 && t[|t| - 8..] == "operator" && (|t| == 8 || !word(t[|t| - 9]))
  }

  /** Match(r'\s>=\s', text) */
  predicate StartsWithSpacedGe(text: string) {
    |text| >= 4 && IsSpace(text[0]) && text[1] == '>' && text[2] == '=' && IsSpace(text[3])
  }

  /** Match(r'<[<=]', text) */
  predicate StartsWithShiftOrLe(text: string) {
    |text| >= 2 && text[0] == '<' && (text[1] == '<' || text[1] == '=')
  }

  /** Text that ends in "operator" ends in a letter or a blank, never in a bracket. */
  lemma {:induction false} OperatorEndsPlain(word: char -> bool, text: string)
    requires EndsWithOperator(word, text)
    ensures text != [] && !IsOpen(Last(text)) && !IsClose(Last(text))
  {
    if !IsSpace(Last(text)) {
      assert text[|text| - 8..][7] == 'r';
    }
  }

  lemma {:induction false} SpacedGeStartsPlain(text: string)
    requires StartsWithSpacedGe(text)
    ensures text != [] && !IsOpen(text[0]) && !IsClose(text[0])
  {
  }

  /** The text before blanks at its end is "operator", perhaps behind other text up to a word boundary. */
  predicate OperatorAt(word: char -> bool, text: string, a: string, blanks: string) {
    text == a + ("operator" + blanks) && Blank(blanks) && (a == [] || !word(Last(a)))
  }

  lemma {:induction false} OperatorFound(word: char -> bool, text: string) returns (a: string, blanks: string)
    requires EndsWithOperator(word, text)
    ensures OperatorAt(word, text, a, blanks)
  {
    var t := StripRight(text);
    blanks := RightBlanks(text);
    a := t[..|t| - 8];
    hide StripRight;
    assert t == a + "operator";
    assert a + "operator" + blanks == a + ("operator" + blanks);
  }

  lemma {:induction false} OperatorEnds(word: char -> bool, text: string, a: string, blanks: string)
    requires OperatorAt(word, text, a, blanks)
    ensures EndsWithOperator(word, text)
  {
    var t := a + "operator";
    assert Last(t) == 'r' && text == t + blanks;
    StripRightBlanks(t, blanks);
    hide StripRight;
    assert t[|t| - 8..] == "operator" && (a != [] ==> t[|t| - 9] == Last(a));
  }

  /** What the three patterns match, as texts. */
  lemma {:induction false} PatternsAre(word: char -> bool, text: string)
    ensures EndsWithOperator(word, text) <==> exists a, blanks :: OperatorAt(word, text, a, blanks)
    ensures StartsWithShiftOrLe(text) <==> "<<" <= text || "<=" <= text
    ensures StartsWithSpacedGe(text) <==>
            text != "" && IsSpace(text[0]) && ">=" <= text[1..] && |text| > 3 && IsSpace(text[3])
  {
    hide EndsWithOperator; hide OperatorAt; hide IsSpace;
    if EndsWithOperator(word, text) {
      var a, blanks := OperatorFound(word, text);
    }
    if exists a, blanks :: OperatorAt(word, text, a, blanks) {
      var a, blanks :| OperatorAt(word, text, a, blanks);
      OperatorEnds(word, text, a, blanks);
    }
  }

  // ----- the scanners' stacks

  /** The brackets on a scanner's stack as openers, leaving out the tentative angle brackets. */
  function Core(stack: string): string {
    if stack == [] then []
    else if IsOpen(Last(stack)) then Core(Front(stack)) + [Last(stack)]
    else if IsClose(Last(stack)) then Core(Front(stack)) + [Partner(Last(stack))]
    else Core(Front(stack))
  }

  /** A stack of openers and '<' that rests on a round, square or curly opener. */
  predicate OpenerStack(stack: string) {
    stack != [] && IsOpen(stack[0]) && forall k :: 0 <= k < |stack| ==> IsOpen(stack[k]) || stack[k] == '<'
  }

  /** A stack of closers and '>' that rests on a round, square or curly closer. */
  predicate CloserStack(stack: string) {
    stack != [] && IsClose(stack[0]) && forall k :: 0 <= k < |stack| ==> IsClose(stack[k]) || stack[k] == '>'
  }

  lemma {:induction false} CorePush(stack: string, c: char)
    ensures Core(stack + [c]) ==
            Core(stack) + (if IsOpen(c) then [c] else if IsClose(c) then [Partner(c)] else [])
  {
    assert Front(stack + [c]) == stack;
  }

  /** A stack that rests on a bracket holds at least that bracket. */
  lemma {:induction false} CoreNonEmpty(stack: string)
    requires stack != [] && (IsOpen(stack[0]) || IsClose(stack[0]))
    ensures Core(stack) != []
  {
    if |stack| <= 1 {
    } else {
      CoreNonEmpty(Front(stack));
    }
  }

  lemma {:induction false} CoreDropAngle(stack: string)
    requires stack != [] && !IsOpen(Last(stack)) && !IsClose(Last(stack))
    ensures Core(Front(stack)) == Core(stack)
  {
  }

  /** Popping a bracket pops it from the core. */
  lemma {:induction false} CorePop(stack: string)
    requires stack != [] && (IsOpen(stack[0]) || IsClose(stack[0])) && (IsOpen(Last(stack)) || IsClose(Last(stack)))
    ensures Core(stack) == Core(Front(stack)) + [if IsOpen(Last(stack)) then Last(stack) else Partner(Last(stack))]
    ensures Core(Front(stack)) == [] <==> Front(stack) == []
  {
    if Front(stack) != [] {
      CoreNonEmpty(Front(stack));
    }
  }

  /** Pop every tentative angle bracket off the top. */
  method PopAngles(stack: string, angle: char) returns (rest: string)
    requires angle == '<' || angle == '>'
    ensures rest <= stack && (rest != [] ==> Last(rest) != angle)
    ensures forall k :: |rest| <= k < |stack| ==> stack[k] == angle
    ensures Core(rest) == Core(stack)
  {
    rest := stack;
    while rest != [] && Last(rest) == angle
      invariant rest <= stack && Core(rest) == Core(stack)
      invariant forall k :: |rest| <= k < |stack| ==> stack[k] == angle
    {
      rest := Front(rest);
    }
  }

  /** What scanning one line says: the position found, a failure, or the stack to carry on with. */
  datatype ScanResult = Found(pos: nat) | Failed | Carry(stack: string)

  // ----- forward

  ghost predicate ForwardAgrees(r: ScanResult, start: nat, o: Outcome) {
    match o
    case Closed(n) => r == Found(start + n)
    case Broken => r == Failed
    case Pending(open) => r.Carry? && OpenerStack(r.stack) && Core(r.stack) == open
  }

  predicate ForwardReady(line: string, start: nat, stack: string) {
    start <= |line| && (OpenerStack(stack) || (stack == [] && start < |line| && IsOpen(line[start])))
  }

  /** One step of tracking. */
  lemma {:induction false} TrackStep(line: string, i: nat, stack: string)
    requires i < |line|
    ensures var rest, c := line[i + 1..], line[i];
            Track(line[i..], stack) ==
            if IsOpen(c) then Shift(1, Track(rest, stack + [c]))
            else if !IsClose(c) then Shift(1, Track(rest, stack))
            else if stack == [] || Last(stack) != Partner(c) then Broken
            else if |stack| == 1 then Closed(1)
            else Shift(1, Track(rest, Front(stack)))
  {
    assert line[i..][0] == line[i] && line[i..][1..] == line[i + 1..];
  }

  /** Tracking the line leads to `goal`; position `i` is next and `stack` is what is pending. */
  ghost predicate Ahead(goal: Outcome, line: string, start: nat, i: nat, stack: string) {
    start <= i <= |line| && ForwardReady(line, i, stack) && (i == |line| ==> OpenerStack(stack)) &&
    goal == Shift(i - start, Track(line[i..], Core(stack)))
  }

  lemma {:induction false} AheadPush(goal: Outcome, line: string, start: nat, i: nat, stack: string)
    requires i < |line| && Ahead(goal, line, start, i, stack) && IsOpen(line[i])
    ensures Ahead(goal, line, start, i + 1, stack + [line[i]])
  {
    hide Track;
    TrackStep(line, i, Core(stack));
    CorePush(stack, line[i]);
    assert OpenerStack(stack + [line[i]]);
  }

  /** A character that is no bracket changes nothing, whatever angle brackets it pushes or pops. */
  lemma {:induction false} AheadSkip(goal: Outcome, line: string, start: nat, i: nat, stack: string, stack': string)
    requires i < |line| && Ahead(goal, line, start, i, stack) && !IsOpen(line[i]) && !IsClose(line[i])
    requires OpenerStack(stack') && Core(stack') == Core(stack)
    ensures Ahead(goal, line, start, i + 1, stack')
  {
    hide Track;
    TrackStep(line, i, Core(stack));
  }

  /** A closer pops the opener it matches; `top` is the stack without its angle brackets on top. */
  lemma {:induction false} AheadPop(goal: Outcome, line: string, start: nat, i: nat, stack: string, top: string)
    requires i < |line| && Ahead(goal, line, start, i, stack) && IsClose(line[i])
    requires OpenerStack(top) && Core(top) == Core(stack) && Last(top) != '<'
    ensures if Partner(Last(top)) != line[i] then goal == Broken
            else if |top| == 1 then goal == Closed(i - start + 1)
            else Ahead(goal, line, start, i + 1, Front(top))
  {
    hide Track;
    TrackStep(line, i, Core(stack));
    CorePop(top);
  }

  lemma {:induction false} AheadAtEnd(goal: Outcome, line: string, start: nat, stack: string)
    requires Ahead(goal, line, start, |line|, stack)
    ensures ForwardAgrees(Carry(stack), start, goal)
  {
  }

  method FindEndOfExpressionInLine(word: char -> bool, line: string, startpos: nat, stack0: string)
    returns (r: ScanResult)
    requires startpos <= |line|
    ensures r.Found? ==> startpos < r.pos <= |line| && (IsClose(line[r.pos - 1]) || line[r.pos - 1] == '>')
    ensures ForwardReady(line, startpos, stack0) ==>
              ForwardAgrees(r, startpos, Track(line[startpos..], Core(stack0)))
  {
    hide Track; hide Core; hide EndsWithOperator;
    var stack := stack0;
    ghost var ready := ForwardReady(line, startpos, stack0);
    ghost var goal := Track(line[startpos..], Core(stack0));
    var i := startpos;
    while i < |line|
      invariant startpos <= i <= |line|
      invariant ready ==> Ahead(goal, line, startpos, i, stack)
    {
      var c := line[i];
      ghost var before := stack;
      if IsOpen(c) {
        if ready {
          AheadPush(goal, line, startpos, i, stack);
        }
        stack := stack + [c];
      } else if c == '<' {
        if i > 0 && line[i - 1] == '<' {
          // left shift operator
          if stack != [] && Last(stack) == '<' {
            CoreDropAngle(stack);
            stack := Front(stack);
            if stack == [] {
              return Failed;
            }
          }
        } else if i > 0 && EndsWithOperator(word, line[..i]) {
          // operator<
        } else {
          CorePush(stack, '<');
          stack := stack + ['<'];
        }
        if ready {
          AheadSkip(goal, line, startpos, i, before, stack);
        }
      } else if IsClose(c) {
        stack := PopAngles(stack, '<');
        if stack == [] {
          return Failed;
        }
        if ready {
          AheadPop(goal, line, startpos, i, before, stack);
        }
        if IsOpen(Last(stack)) && Partner(Last(stack)) == c {
          stack := Front(stack);
          if stack == [] {
            return Found(i + 1);
          }
        } else {
          return Failed;
        }
      } else {
        if c == '>' {
          if i > 0 && (line[i - 1] == '-' || EndsWithOperator(word, line[..i - 1])) {
            // "->" or an operator function
          } else if stack != [] && Last(stack) == '<' {
            CoreDropAngle(stack);
            stack := Front(stack);
            if stack == [] {
              return Found(i + 1);
            }
          }
        } else if c == ';' {
          stack := PopAngles(stack, '<');
          if stack == [] {
            return Failed;
          }
        }
        if ready {
          AheadSkip(goal, line, startpos, i, before, stack);
        }
      }
      i := i + 1;
    }
    if ready {
      AheadAtEnd(goal, line, startpos, stack);
    }
    return Carry(stack);
  }

  // ----- positions in the lines laid end to end

  /** How far the start of line `l` is into the whole text. */
  function LineStart(lines: seq<string>, l: nat): nat
    requires l <= |lines|
  {
    |Concat(lines[..l])|
  }

  predicate InText(lines: seq<string>, l: int, p: int) {
    0 <= l < |lines| && 0 <= p < |lines[l]|
  }

  lemma {:induction false} NextLineStart(lines: seq<string>, l: nat)
    requires l < |lines|
    ensures LineStart(lines, l + 1) == LineStart(lines, l) + |lines[l]|
    ensures Concat(lines[l..]) == lines[l] + Concat(lines[l + 1..])
    ensures Concat(lines) == Concat(lines[..l]) + lines[l] + Concat(lines[l + 1..])
  {
    ConcatSplit(lines, l);
    ConcatSnoc(lines[..l], lines[l]);
    assert lines[..l + 1] == lines[..l] + [lines[l]];
    assert lines[l..][1..] == lines[l + 1..];
  }

  lemma {:induction false} LineStartMonotone(lines: seq<string>, l: nat, l': nat)
    requires l <= l' <= |lines|
    ensures LineStart(lines, l) <= LineStart(lines, l')
  {
    if l >= l' {
    } else {
      LineStartMonotone(lines, l, l' - 1);
      NextLineStart(lines, l' - 1);
    }
  }

  /** The character at line `l`, column `p` sits at `LineStart(lines, l) + p` of the whole text. */
  lemma {:induction false} TextAt(lines: seq<string>, l: nat, p: nat)
    requires InText(lines, l, p)
    ensures LineStart(lines, l) + p < |Concat(lines)|
    ensures Concat(lines)[LineStart(lines, l) + p] == lines[l][p]
    ensures Concat(lines)[LineStart(lines, l) + p..] == lines[l][p..] + Concat(lines[l + 1..])
    ensures Concat(lines)[..LineStart(lines, l) + p + 1] == Concat(lines[..l]) + lines[l][..p + 1]
  {
    NextLineStart(lines, l);
    var line := lines[l];
    assert line == line[..p] + line[p..];
  }

  /** Two positions with the same offset are the same position. */
  lemma {:induction false} SamePosition(lines: seq<string>, l: nat, p: nat, l': nat, p': nat)
    requires InText(lines, l, p) && InText(lines, l', p')
    requires LineStart(lines, l) + p == LineStart(lines, l') + p'
    ensures l == l' && p == p'
  {
    NextLineStart(lines, l);
    NextLineStart(lines, l');
    if l < l' {
      LineStartMonotone(lines, l + 1, l');
    } else if l' < l {
      LineStartMonotone(lines, l' + 1, l);
    }
  }

  /** The brackets at two positions are partners in the lines laid end to end. */
  ghost predicate Partners(lines: seq<string>, l: nat, p: nat, l': nat, p': nat)
    requires InText(lines, l, p) && InText(lines, l', p')
  {
    Pair(Concat(lines), LineStart(lines, l) + p, LineStart(lines, l') + p')
  }

  // ----- matching forward across lines

  /** What scanning from offset `start` up to and including line `ln` has established. */
  ghost predicate ScannedTo(lines: seq<string>, start: nat, ln: nat, r: ScanResult)
    requires ln < |lines| && start <= |Concat(lines)|
  {
    var goal := Track(Concat(lines)[start..], []);
    match r
    case Found(pos) =>
      1 <= pos <= |lines[ln]| && start < LineStart(lines, ln) + pos &&
      goal == Closed(LineStart(lines, ln) + pos - start)
    case Failed => goal == Broken
    case Carry(stack) =>
      start <= LineStart(lines, ln + 1) && OpenerStack(stack) &&
      goal == Shift(LineStart(lines, ln + 1) - start, Track(Concat(lines[ln + 1..]), Core(stack)))
  }

  lemma {:induction false} ScanFirstLine(lines: seq<string>, l: nat, p: nat, r: ScanResult)
    requires InText(lines, l, p)
    requires r.Found? ==> p < r.pos <= |lines[l]|
    requires ForwardAgrees(r, p, Track(lines[l][p..], []))
    ensures LineStart(lines, l) + p < |Concat(lines)| && ScannedTo(lines, LineStart(lines, l) + p, l, r)
  {
    TextAt(lines, l, p);
    NextLineStart(lines, l);
    TrackConcat(lines[l][p..], Concat(lines[l + 1..]), []);
  }

  lemma {:induction false} ScanNextLine(lines: seq<string>, start: nat, ln: nat, stack: string, r: ScanResult)
    requires ln + 1 < |lines| && start <= |Concat(lines)| && ScannedTo(lines, start, ln, Carry(stack))
    requires r.Found? ==> 0 < r.pos <= |lines[ln + 1]|
    requires ForwardAgrees(r, 0, Track(lines[ln + 1], Core(stack)))
    ensures ScannedTo(lines, start, ln + 1, r)
  {
    NextLineStart(lines, ln + 1);
    TrackConcat(lines[ln + 1], Concat(lines[ln + 2..]), Core(stack));
  }

  lemma {:induction false} ScanFound(lines: seq<string>, l: nat, p: nat, ln: nat, pos: nat)
    requires InText(lines, l, p) && IsOpen(lines[l][p]) && ln < |lines|
    requires LineStart(lines, l) + p < |Concat(lines)| && ScannedTo(lines, LineStart(lines, l) + p, ln, Found(pos))
    ensures Partners(lines, l, p, ln, pos - 1)
  {
    TextAt(lines, l, p);
    TrackFindsPair(Concat(lines), LineStart(lines, l) + p, LineStart(lines, ln) + pos - 1);
  }

  lemma {:induction false} ScanGaveUp(lines: seq<string>, l: nat, p: nat, ln: nat, r: ScanResult)
    requires InText(lines, l, p) && IsOpen(lines[l][p]) && ln < |lines|
    requires LineStart(lines, l) + p < |Concat(lines)| && ScannedTo(lines, LineStart(lines, l) + p, ln, r)
    requires r.Failed? || (r.Carry? && ln == |lines| - 1)
    ensures NeverCloses(Concat(lines), LineStart(lines, l) + p)
  {
    TextAt(lines, l, p);
    TrackGivesUp(Concat(lines), LineStart(lines, l) + p);
  }

  /** Scan line by line until the end is found, the scan fails or the lines run out. */
  method ScanForward(word: char -> bool, lines: seq<string>, l: nat, p: nat) returns (ln: nat, r: ScanResult)
    requires InText(lines, l, p)
    ensures l <= ln < |lines| && (r.Found? ==> 1 <= r.pos <= |lines[ln]|)
    ensures IsOpen(lines[l][p]) ==>
              LineStart(lines, l) + p < |Concat(lines)| && ScannedTo(lines, LineStart(lines, l) + p, ln, r)
    ensures r.Carry? && r.stack != [] ==> ln == |lines| - 1
  {
    ghost var start := LineStart(lines, l) + p;
    hide Track; hide Core; hide Mirror; hide Concat;
    ghost var round := IsOpen(lines[l][p]);
    ln := l;
    r := FindEndOfExpressionInLine(word, lines[ln], p, []);
    if round {
      ScanFirstLine(lines, l, p, r);
    }
    while r.Carry? && r.stack != [] && ln < |lines| - 1
      invariant l <= ln < |lines| && (r.Found? ==> 1 <= r.pos <= |lines[ln]|)
      invariant round ==> start < |Concat(lines)| && ScannedTo(lines, start, ln, r)
      decreases |lines| - ln
    {
      var stack := r.stack;
      ln := ln + 1;
      r := FindEndOfExpressionInLine(word, lines[ln], 0, stack);
      assert lines[ln][0..] == lines[ln];
      if round {
        ScanNextLine(lines, start, ln - 1, stack, r);
      }
    }
  }

  /** Past the closing bracket, or (last line looked at, number of lines, -1). */
  method CloseExpression(word: char -> bool, lines: seq<string>, l: nat, p: nat)
    returns (line: string, endLine: nat, endPos: int)
    requires InText(lines, l, p)
    ensures endPos == -1 || (InText(lines, endLine, endPos - 1) && l <= endLine && line == lines[endLine])
    ensures endPos == -1 ==> endLine == |lines|
    ensures !IsOpen(lines[l][p]) && lines[l][p] != '<' ==> endPos == -1 && line == lines[l]
    ensures IsOpen(lines[l][p]) && endPos != -1 ==> Partners(lines, l, p, endLine, endPos - 1)
    ensures IsOpen(lines[l][p]) && endPos == -1 ==> NeverCloses(Concat(lines), LineStart(lines, l) + p)
  {
    if !(IsOpen(lines[l][p]) || lines[l][p] == '<') || StartsWithShiftOrLe(lines[l][p..]) {
      return lines[l], |lines|, -1;
    }
    var ln, r := ScanForward(word, lines, l, p);
    if r.Found? {
      if IsOpen(lines[l][p]) {
        ScanFound(lines, l, p, ln, r.pos);
      }
      return lines[ln], ln, r.pos;
    }
    if IsOpen(lines[l][p]) {
      ScanGaveUp(lines, l, p, ln, r);
    }
    return lines[ln], |lines|, -1;
  }

  // ----- backward

  /** `endpos` is the last position looked at, -1 on an empty line. */
  ghost predicate BackwardAgrees(r: ScanResult, endpos: int, o: Outcome) {
    match o
    case Closed(n) => n <= endpos + 1 && r == Found(endpos + 1 - n)
    case Broken => r == Failed
    case Pending(open) => r.Carry? && CloserStack(r.stack) && Core(r.stack) == open
  }

  predicate BackwardReady(line: string, endpos: int, stack: string) {
    -1 <= endpos < |line| && (CloserStack(stack) || (stack == [] && 0 <= endpos && IsClose(line[endpos])))
  }

  /** One step of tracking backwards. */
  lemma {:induction false} TrackBackStep(line: string, i: nat, stack: string)
    requires i < |line|
    ensures var rest, c := Mirror(line[..i]), line[i];
            Track(Mirror(line[..i + 1]), stack) ==
            if IsClose(c) then Shift(1, Track(rest, stack + [Partner(c)]))
            else if !IsOpen(c) then Shift(1, Track(rest, stack))
            else if stack == [] || Last(stack) != c then Broken
            else if |stack| == 1 then Closed(1)
            else Shift(1, Track(rest, Front(stack)))
  {
    assert line[..i + 1] == line[..i] + [line[i]];
    MirrorSnoc(line[..i], line[i]);
    assert ([Partner(line[i])] + Mirror(line[..i]))[1..] == Mirror(line[..i]);
  }

  /** Tracking the line backwards leads to `goal`; position `i` is next and `stack` is what is pending. */
  ghost predicate Behind(goal: Outcome, line: string, endpos: int, i: int, stack: string) {
    -1 <= i <= endpos < |line| && BackwardReady(line, i, stack) &&
    goal == Shift(endpos - i, Track(Mirror(line[..i + 1]), Core(stack)))
  }

  lemma {:induction false} BehindPush(goal: Outcome, line: string, endpos: int, i: nat, stack: string)
    requires Behind(goal, line, endpos, i, stack) && IsClose(line[i])
    ensures Behind(goal, line, endpos, i - 1, stack + [line[i]])
  {
    hide Track; hide Mirror;
    TrackBackStep(line, i, Core(stack));
    CorePush(stack, line[i]);
    assert CloserStack(stack + [line[i]]);
  }

  /** A character that is no bracket changes nothing, whatever angle brackets it pushes or pops. */
  lemma {:induction false} BehindSkip(goal: Outcome, line: string, endpos: int, i: nat, stack: string, stack': string)
    requires Behind(goal, line, endpos, i, stack) && !IsOpen(line[i]) && !IsClose(line[i])
    requires CloserStack(stack') && Core(stack') == Core(stack)
    ensures Behind(goal, line, endpos, i - 1, stack')
  {
    hide Track; hide Mirror;
    TrackBackStep(line, i, Core(stack));
  }

  /** An opener pops the closer it matches; `top` is the stack without its angle brackets on top. */
  lemma {:induction false} BehindPop(goal: Outcome, line: string, endpos: int, i: nat, stack: string, top: string)
    requires Behind(goal, line, endpos, i, stack) && IsOpen(line[i])
    requires CloserStack(top) && Core(top) == Core(stack) && Last(top) != '>'
    ensures if Partner(Last(top)) != line[i] then goal == Broken
            else if |top| == 1 then goal == Closed(endpos - i + 1)
            else Behind(goal, line, endpos, i - 1, Front(top))
  {
    hide Track; hide Mirror;
    TrackBackStep(line, i, Core(stack));
    CorePop(top);
  }

  /** Whether the '>' at `i` belongs to "->", ">=" or "operator>". */
  predicate IgnoresGreater(word: char -> bool, line: string, i: nat)
    requires i < |line|
  {
    i > 0 && (line[i - 1] == '-' || StartsWithSpacedGe(line[i - 1..]) || EndsWithOperator(word, line[..i]))
  }

  /** Then no bracket stands before it. */
  lemma {:induction false} IgnoredAfterPlain(word: char -> bool, line: string, i: nat)
    requires i < |line| && IgnoresGreater(word, line, i)
    ensures i > 0 && !IsOpen(line[i - 1]) && !IsClose(line[i - 1])
  {
    hide EndsWithOperator; hide StartsWithSpacedGe;
    if EndsWithOperator(word, line[..i]) {
      OperatorEndsPlain(word, line[..i]);
    } else if StartsWithSpacedGe(line[i - 1..]) {
      SpacedGeStartsPlain(line[i - 1..]);
    }
  }

  lemma {:induction false} BehindAtStart(goal: Outcome, line: string, endpos: int, stack: string)
    requires Behind(goal, line, endpos, -1, stack)
    ensures BackwardAgrees(Carry(stack), endpos, goal)
  {
    assert line[..0] == [];
  }

  method FindStartOfExpressionInLine(word: char -> bool, line: string, endpos: int, stack0: string)
    returns (r: ScanResult)
    requires -1 <= endpos < |line|
    ensures r.Found? ==> r.pos <= endpos && (IsOpen(line[r.pos]) || line[r.pos] == '<')
    ensures BackwardReady(line, endpos, stack0) ==>
              BackwardAgrees(r, endpos, Track(Mirror(line[..endpos + 1]), Core(stack0)))
  {
    hide Track; hide Core; hide Mirror; hide IgnoresGreater;
    var stack := stack0;
    ghost var ready := BackwardReady(line, endpos, stack0);
    ghost var goal := Track(Mirror(line[..endpos + 1]), Core(stack0));
    var i := endpos;
    while i >= 0
      invariant -1 <= i <= endpos
      invariant ready ==> Behind(goal, line, endpos, i, stack)
    {
      var c := line[i];
      ghost var before := stack;
      if IsClose(c) {
        if ready {
          BehindPush(goal, line, endpos, i, stack);
        }
        stack := stack + [c];
      } else if c == '>' {
        if IgnoresGreater(word, line, i) {
          // skip the character before it too
          IgnoredAfterPlain(word, line, i);
          if ready {
            BehindSkip(goal, line, endpos, i, stack, stack);
            BehindSkip(goal, line, endpos, i - 1, stack, stack);
          }
          i := i - 1;
        } else {
          stack := stack + ['>'];
          if ready {
            CorePush(before, '>');
            BehindSkip(goal, line, endpos, i, before, stack);
          }
        }
      } else if c == '<' {
        if i > 0 && line[i - 1] == '<' {
          // left shift operator
          if ready {
            BehindSkip(goal, line, endpos, i, stack, stack);
            BehindSkip(goal, line, endpos, i - 1, stack, stack);
          }
          i := i - 1;
        } else {
          if stack != [] && Last(stack) == '>' {
            CoreDropAngle(stack);
            stack := Front(stack);
            if stack == [] {
              return Found(i);
            }
          }
          if ready {
            BehindSkip(goal, line, endpos, i, before, stack);
          }
        }
      } else if IsOpen(c) {
        stack := PopAngles(stack, '>');
        if stack == [] {
          return Failed;
        }
        if ready {
          BehindPop(goal, line, endpos, i, before, stack);
        }
        if IsClose(Last(stack)) && Partner(Last(stack)) == c {
          stack := Front(stack);
          if stack == [] {
            return Found(i);
          }
        } else {
          return Failed;
        }
      } else {
        if c == ';' {
          stack := PopAngles(stack, '>');
          if stack == [] {
            return Failed;
          }
        }
        if ready {
          BehindSkip(goal, line, endpos, i, before, stack);
        }
      }
      i := i - 1;
    }
    if ready {
      BehindAtStart(goal, line, endpos, stack);
    }
    return Carry(stack);
  }

  // ----- matching backward across lines

  /** What scanning back from offset `stop` down to and including line `ln` has established. */
  ghost predicate ScannedBackTo(lines: seq<string>, stop: nat, ln: nat, r: ScanResult)
    requires ln < |lines| && stop < |Concat(lines)|
  {
    var goal := Track(Mirror(Concat(lines)[..stop + 1]), []);
    match r
    case Found(pos) =>
      pos < |lines[ln]| && LineStart(lines, ln) + pos <= stop &&
      goal == Closed(stop - (LineStart(lines, ln) + pos) + 1)
    case Failed => goal == Broken
    case Carry(stack) =>
      LineStart(lines, ln) <= stop + 1 && CloserStack(stack) &&
      goal == Shift(stop + 1 - LineStart(lines, ln), Track(Mirror(Concat(lines[..ln])), Core(stack)))
  }

  lemma {:induction false} ScanLastLine(lines: seq<string>, l: nat, p: nat, r: ScanResult)
    requires InText(lines, l, p)
    requires BackwardAgrees(r, p, Track(Mirror(lines[l][..p + 1]), []))
    ensures LineStart(lines, l) + p < |Concat(lines)| && ScannedBackTo(lines, LineStart(lines, l) + p, l, r)
  {
    TextAt(lines, l, p);
    MirrorConcat(Concat(lines[..l]), lines[l][..p + 1]);
    TrackConcat(Mirror(lines[l][..p + 1]), Mirror(Concat(lines[..l])), []);
  }

  lemma {:induction false} ScanPreviousLine(lines: seq<string>, stop: nat, ln: nat, stack: string, r: ScanResult)
    requires 0 < ln < |lines| && stop < |Concat(lines)| && ScannedBackTo(lines, stop, ln, Carry(stack))
    requires BackwardAgrees(r, |lines[ln - 1]| - 1, Track(Mirror(lines[ln - 1]), Core(stack)))
    requires r.Found? ==> r.pos < |lines[ln - 1]|
    ensures ScannedBackTo(lines, stop, ln - 1, r)
  {
    NextLineStart(lines, ln - 1);
    assert lines[..ln] == lines[..ln - 1] + [lines[ln - 1]];
    ConcatSnoc(lines[..ln - 1], lines[ln - 1]);
    MirrorConcat(Concat(lines[..ln - 1]), lines[ln - 1]);
    TrackConcat(Mirror(lines[ln - 1]), Mirror(Concat(lines[..ln - 1])), Core(stack));
  }

  lemma {:induction false} ScanFoundBack(lines: seq<string>, l: nat, p: nat, ln: nat, pos: nat)
    requires InText(lines, l, p) && IsClose(lines[l][p]) && ln < |lines|
    requires LineStart(lines, l) + p < |Concat(lines)| && ScannedBackTo(lines, LineStart(lines, l) + p, ln, Found(pos))
    ensures Partners(lines, ln, pos, l, p)
  {
    hide Track; hide Mirror; hide Pair; hide Concat;
    TextAt(lines, l, p);
    TextAt(lines, ln, pos);
    TrackFindsOpener(Concat(lines), LineStart(lines, ln) + pos, LineStart(lines, l) + p);
  }

  lemma {:induction false} ScanGaveUpBack(lines: seq<string>, l: nat, p: nat, ln: nat, r: ScanResult)
    requires InText(lines, l, p) && IsClose(lines[l][p]) && ln < |lines|
    requires LineStart(lines, l) + p < |Concat(lines)| && ScannedBackTo(lines, LineStart(lines, l) + p, ln, r)
    requires r.Failed? || (r.Carry? && ln == 0)
    ensures NeverOpens(Concat(lines), LineStart(lines, l) + p)
  {
    TextAt(lines, l, p);
    TrackGivesUpBack(Concat(lines), LineStart(lines, l) + p);
  }

  /** Scan back line by line until the start is found, the scan fails or the lines run out. */
  method ScanBackward(word: char -> bool, lines: seq<string>, l: nat, p: nat) returns (ln: nat, r: ScanResult)
    requires InText(lines, l, p)
    ensures ln <= l && (r.Found? ==> r.pos < |lines[ln]|)
    ensures IsClose(lines[l][p]) ==>
              LineStart(lines, l) + p < |Concat(lines)| && ScannedBackTo(lines, LineStart(lines, l) + p, ln, r)
    ensures r.Carry? && r.stack != [] ==> ln == 0
  {
    ghost var stop := LineStart(lines, l) + p;
    hide Track; hide Core; hide Mirror; hide Concat;
    ghost var round := IsClose(lines[l][p]);
    ln := l;
    r := FindStartOfExpressionInLine(word, lines[ln], p, []);
    if round {
      ScanLastLine(lines, l, p, r);
    }
    while r.Carry? && r.stack != [] && ln > 0
      invariant 0 <= ln <= l && (r.Found? ==> r.pos < |lines[ln]|)
      invariant round ==> stop < |Concat(lines)| && ScannedBackTo(lines, stop, ln, r)
      decreases ln
    {
      var stack := r.stack;
      ln := ln - 1;
      r := FindStartOfExpressionInLine(word, lines[ln], |lines[ln]| - 1, stack);
      assert lines[ln][..|lines[ln]| - 1 + 1] == lines[ln];
      if round {
        ScanPreviousLine(lines, stop, ln + 1, stack, r);
      }
    }
  }

  /** At the opening bracket, or (last line looked at, 0, -1). */
  method ReverseCloseExpression(word: char -> bool, lines: seq<string>, l: nat, p: nat)
    returns (line: string, startLine: nat, startPos: int)
    requires InText(lines, l, p)
    ensures startPos == -1 || (InText(lines, startLine, startPos) && startLine <= l && line == lines[startLine])
    ensures startPos == -1 ==> startLine == 0
    ensures !IsClose(lines[l][p]) && lines[l][p] != '>' ==> startPos == -1 && line == lines[l]
    ensures IsClose(lines[l][p]) && startPos != -1 ==> Partners(lines, startLine, startPos, l, p)
    ensures IsClose(lines[l][p]) && startPos == -1 ==> NeverOpens(Concat(lines), LineStart(lines, l) + p)
  {
    if !(IsClose(lines[l][p]) || lines[l][p] == '>') {
      return lines[l], 0, -1;
    }
    var ln, r := ScanBackward(word, lines, l, p);
    if r.Found? {
      if IsClose(lines[l][p]) {
        ScanFoundBack(lines, l, p, ln, r.pos);
      }
      return lines[ln], ln, r.pos;
    }
    if IsClose(lines[l][p]) {
      ScanGaveUpBack(lines, l, p, ln, r);
    }
    return lines[ln], 0, -1;
  }

  // ----- the scanners undo each other

  /** A bracket has at most one partner, and so at most one position for it. */
  lemma {:induction false} OneOpenerPosition(lines: seq<string>, a: nat, b: nat, a': nat, b': nat, l: nat, p: nat)
    requires InText(lines, a, b) && InText(lines, a', b') && InText(lines, l, p)
    requires Partners(lines, a, b, l, p) && Partners(lines, a', b', l, p)
    ensures a == a' && b == b'
  {
    OpenerIsUnique(Concat(lines), LineStart(lines, a) + b, LineStart(lines, a') + b', LineStart(lines, l) + p);
    SamePosition(lines, a, b, a', b');
  }

  lemma {:induction false} OneCloserPosition(lines: seq<string>, l: nat, p: nat, a: nat, b: nat, a': nat, b': nat)
    requires InText(lines, a, b) && InText(lines, a', b') && InText(lines, l, p)
    requires Partners(lines, l, p, a, b) && Partners(lines, l, p, a', b')
    ensures a == a' && b == b'
  {
    PartnerIsUnique(Concat(lines), LineStart(lines, l) + p, LineStart(lines, a) + b, LineStart(lines, a') + b');
    SamePosition(lines, a, b, a', b');
  }

  lemma {:induction false} PartnersKinds(lines: seq<string>, l: nat, p: nat, l': nat, p': nat)
    requires InText(lines, l, p) && InText(lines, l', p') && Partners(lines, l, p, l', p')
    ensures IsOpen(lines[l][p]) && IsClose(lines[l'][p'])
    ensures !NeverCloses(Concat(lines), LineStart(lines, l) + p)
    ensures !NeverOpens(Concat(lines), LineStart(lines, l') + p')
  {
    TextAt(lines, l, p);
    TextAt(lines, l', p');
  }

  /** Closing from an opener and scanning back from where that ended returns to the opener. */
  method CloseThenReverse(word: char -> bool, lines: seq<string>, l: nat, p: nat)
    returns (closed: bool, backLine: nat, backPos: int)
    requires InText(lines, l, p) && IsOpen(lines[l][p])
    ensures closed <==> !NeverCloses(Concat(lines), LineStart(lines, l) + p)
    ensures closed ==> backLine == l && backPos == p
  {
    var line, endLine, endPos := CloseExpression(word, lines, l, p);
    closed, backLine, backPos := endPos != -1, 0, -1;
    if closed {
      PartnersKinds(lines, l, p, endLine, endPos - 1);
      line, backLine, backPos := ReverseCloseExpression(word, lines, endLine, endPos - 1);
      OneOpenerPosition(lines, l, p, backLine, backPos, endLine, endPos - 1);
    }
  }

  /** Scanning back from a closer and closing from where that ended returns past the closer. */
  method ReverseThenClose(word: char -> bool, lines: seq<string>, l: nat, p: nat)
    returns (found: bool, endLine: nat, endPos: int)
    requires InText(lines, l, p) && IsClose(lines[l][p])
    ensures found <==> !NeverOpens(Concat(lines), LineStart(lines, l) + p)
    ensures found ==> endLine == l && endPos == p + 1
  {
    var line, backLine, backPos := ReverseCloseExpression(word, lines, l, p);
    found, endLine, endPos := backPos != -1, 0, -1;
    if found {
      PartnersKinds(lines, backLine, backPos, l, p);
      line, endLine, endPos := CloseExpression(word, lines, backLine, backPos);
      OneCloserPosition(lines, backLine, backPos, l, p, endLine, endPos - 1);
    }
  }

  // ----- the second matcher

  /** Some(text strictly inside), None, or a failed assertion about the start pattern. */
  datatype TextInside = Text(inside: string) | NoText | BadPattern

  /** The closers still awaited after the openers `stack`. */
  function Awaited(stack: string): (w: string)
    ensures |w| == |stack|
  {
    if stack == [] then [] else Awaited(Front(stack)) + [Partner(Last(stack))]
  }

  /** The extractor's loop: tracking leads to `goal`, and `awaited` are the closers still due. */
  ghost predicate Extracting(goal: Outcome, text: string, start: nat, position: nat, open: string, awaited: string) {
    1 <= start <= position <= |text| && awaited == Awaited(open) &&
    (forall k :: 0 <= k < |open| ==> IsOpen(open[k])) &&
    if open == [] then start < position && goal == Closed(position - start + 1)
    else goal == Shift(position - start + 1, Track(text[position..], open))
  }

  lemma {:induction false} ExtractStart(text: string, start: nat)
    requires 0 < start <= |text| && IsOpen(text[start - 1])
    ensures Extracting(Track(text[start - 1..], []), text, start, start, [text[start - 1]], [Partner(text[start - 1])])
  {
    TrackStep(text, start - 1, []);
    var open := [text[start - 1]];
    assert [] + open == open && Front(open) == [];
  }

  lemma {:induction false} ExtractStep(
    goal: Outcome, text: string, start: nat, position: nat, open: string, awaited: string)
    requires Extracting(goal, text, start, position, open, awaited) && open != [] && position < |text|
    ensures var c := text[position];
            if c == Last(awaited) then Extracting(goal, text, start, position + 1, Front(open), Front(awaited))
            else if IsClose(c) then goal == Broken
            else if IsOpen(c) then Extracting(goal, text, start, position + 1, open + [c], awaited + [Partner(c)])
            else Extracting(goal, text, start, position + 1, open, awaited)
  {
    TrackStep(text, position, open);
    assert Front(open + [text[position]]) == open;
    assert Front(Awaited(open)) == Awaited(Front(open));
  }

  lemma {:induction false} ExtractDone(text: string, start: nat, position: nat, open: string, awaited: string)
    requires 0 < start <= |text| && IsOpen(text[start - 1])
    requires Extracting(Track(text[start - 1..], []), text, start, position, open, awaited)
    ensures open == [] ==> Pair(text, start - 1, position - 1)
    ensures open != [] && position == |text| ==> NeverCloses(text, start - 1)
  {
    if open == [] {
      TrackFindsPair(text, start - 1, position - 1);
    } else if position == |text| {
      TrackGivesUp(text, start - 1);
    }
  }

  /** The extractor's loop, from just past the opener: where the matching closer is, if anywhere. */
  method FindCloser(text: string, start: nat) returns (r: Option<nat>)
    requires 0 < start <= |text| && IsOpen(text[start - 1])
    ensures r.Some? ==> Pair(text, start - 1, r.value)
    ensures r.None? ==> NeverCloses(text, start - 1)
  {
    var awaited := [Partner(text[start - 1])];
    var position := start;
    ghost var open := [text[start - 1]];
    ghost var goal := Track(text[start - 1..], []);
    ExtractStart(text, start);
    while awaited != [] && position < |text|
      invariant Extracting(goal, text, start, position, open, awaited)
      decreases |text| - position
    {
      ExtractStep(goal, text, start, position, open, awaited);
      if text[position] == Last(awaited) {
        awaited, open := Front(awaited), Front(open);
      } else if IsClose(text[position]) {
        TrackGivesUp(text, start - 1);
        return None;
      } else if IsOpen(text[position]) {
        awaited, open := awaited + [Partner(text[position])], open + [text[position]];
      }
      position := position + 1;
    }
    ExtractDone(text, start, position, open, awaited);
    if awaited != [] {
      return None;
    }
    return Some(position - 1);
  }

  /** `matchEnd` is where the match of the start pattern ends, if there is one. */
  method GetTextInside(text: string, matchEnd: Option<nat>) returns (r: TextInside)
    requires matchEnd.Some? ==> matchEnd.value <= |text|
    ensures r.BadPattern? <==> matchEnd.Some? && (matchEnd.value == 0 || !IsOpen(text[matchEnd.value - 1]))
    ensures matchEnd.None? ==> r == NoText
    ensures matchEnd.Some? && r.Text? ==>
              var j := matchEnd.value + |r.inside|;
              Pair(text, matchEnd.value - 1, j) && r.inside == text[matchEnd.value..j]
    ensures matchEnd.Some? && r.NoText? ==> NeverCloses(text, matchEnd.value - 1)
  {
    if matchEnd.None? {
      return NoText;
    }
    var start := matchEnd.value;
    if start == 0 || !IsOpen(text[start - 1]) {
      return BadPattern;
    }
    var closer := FindCloser(text, start);
    if closer.None? {
      return NoText;
    }
    return Text(text[start..closer.value]);
  }

  /** The extractor returns exactly what lies before the position the forward scanner finds. */
  method MatchersAgree(word: char -> bool, text: string, start: nat)
    returns (inside: TextInside, scan: ScanResult)
    requires 0 < start <= |text| && IsOpen(text[start - 1])
    ensures scan.Found? ==> start < scan.pos <= |text|
    ensures inside == if scan.Found? then Text(text[start..scan.pos - 1]) else NoText
  {
    hide Track; hide Balanced;
    inside := GetTextInside(text, Some(start));
    scan := FindEndOfExpressionInLine(word, text, start - 1, []);
    ghost var closed := if inside.Text? then start + |inside.inside| else 0;
    TrackFindsPair(text, start - 1, closed);
    TrackGivesUp(text, start - 1);
  }
}
