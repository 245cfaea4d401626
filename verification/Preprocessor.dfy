/**
 * cpplint's checkpoint/restore machine for the nesting stack across #if / #else / #endif.
 * The machine is flat: it looks at one line at a time. It is proved to compute what a structured
 * reading gives, in which only the first branch of every conditional touches the nesting stack.
 *
 * Saved stacks are values here: the source deep-copies them, so later changes to a live block
 * never reach a checkpoint. What the rest of `Update` does with a line is an arbitrary function
 * of the nesting stack, run after the preprocessor step as in the source.
 */
module Preprocessor {
  import opened Common
  import opened Numerals

  // ----- recognising directives

  datatype Directive = If | Else | Endif | NoDirective

  /** The keyword followed by a word boundary. */
  predicate StartsWithKeyword(word: char -> bool, s: string, keyword: string) {
    keyword <= s && (|s| == |keyword| || !word(s[|keyword|]))
  }

  /** Which of the patterns ^\s*#\s*(if|ifdef|ifndef)\b, (else|elif)\b, endif\b the line matches. */
  function DirectiveOf(word: char -> bool, line: string): Directive {
    var t := StripLeft(line);
    if t == [] || t[0] != '#' then NoDirective
    else
      var u := StripLeft(t[1..]);
      if StartsWithKeyword(word, u, "if") || StartsWithKeyword(word, u, "ifdef")
         || StartsWithKeyword(word, u, "ifndef") then If
      else if StartsWithKeyword(word, u, "else") || StartsWithKeyword(word, u, "elif") then Else
      else if StartsWithKeyword(word, u, "endif") then Endif
      else NoDirective
  }

  /** The line is a '#' after blanks, perhaps more blanks, and the keyword up to a word boundary. */
  ghost predicate Directs(word: char -> bool, line: string, keyword: string) {
    exists a, b, rest :: DirectsAs(word, line, keyword, a, b, rest)
  }

  predicate DirectsAs(word: char -> bool, line: string, keyword: string, a: string, b: string, rest: string) {
    Blank(a) && Blank(b) && line == a + ("#" + (b + (keyword + rest))) && (rest == [] || !word(rest[0]))
  }

  /** A line with a directive is stripped down to its keyword. */
  lemma {:induction false} DirectsKeyword(word: char -> bool, line: string, keyword: string)
    requires keyword != "" && 'a' <= keyword[0] <= 'z'
    ensures Directs(word, line, keyword) <==>
            var t := StripLeft(line);
            t != [] && t[0] == '#' && StartsWithKeyword(word, StripLeft(t[1..]), keyword)
  {
    var t := StripLeft(line);
    if Directs(word, line, keyword) {
      var a, b, rest :| DirectsAs(word, line, keyword, a, b, rest);
      StripLeftBlanks(a, "#" + (b + (keyword + rest)));
      assert t[1..] == b + (keyword + rest);
      StripLeftBlanks(b, keyword + rest);
    }
    if t != [] && t[0] == '#' && StartsWithKeyword(word, StripLeft(t[1..]), keyword) {
      var a := LeftBlanks(line);
      var b := LeftBlanks(t[1..]);
      var u := StripLeft(t[1..]);
      var rest := u[|keyword|..];
      assert u == keyword + rest && t == "#" + (b + u);
      assert DirectsAs(word, line, keyword, a, b, rest);
    }
  }

  /** No keyword of one directive starts like one of another. */
  lemma {:induction false} KeywordsDiffer(word: char -> bool, u: string)
    ensures var open := StartsWithKeyword(word, u, "if") || StartsWithKeyword(word, u, "ifdef")
                        || StartsWithKeyword(word, u, "ifndef");
            var other := StartsWithKeyword(word, u, "else") || StartsWithKeyword(word, u, "elif");
            var close := StartsWithKeyword(word, u, "endif");
            !(open && other) && !(open && close) && !(other && close)
  {
    if |u| >= 2 {
      assert "if" <= u ==> u[0] == 'i';
      assert "ifdef" <= u ==> u[0] == 'i';
      assert "ifndef" <= u ==> u[0] == 'i';
      assert "else" <= u ==> u[0] == 'e' && u[1] == 'l';
      assert "elif" <= u ==> u[0] == 'e' && u[1] == 'l';
      assert "endif" <= u ==> u[0] == 'e' && u[1] == 'n';
    }
  }

  /** Exactly which lines are taken for which directive; all others are none. */
  lemma {:induction false} DirectiveIs(word: char -> bool, line: string)
    ensures DirectiveOf(word, line) == If <==>
            Directs(word, line, "if") || Directs(word, line, "ifdef") || Directs(word, line, "ifndef")
    ensures DirectiveOf(word, line) == Else <==> Directs(word, line, "else") || Directs(word, line, "elif")
    ensures DirectiveOf(word, line) == Endif <==> Directs(word, line, "endif")
  {
    hide Directs; hide StripLeft;
    var t := StripLeft(line);
    if t != [] && t[0] == '#' {
      KeywordsDiffer(word, StripLeft(t[1..]));
    }
    hide StartsWithKeyword;
    DirectsKeyword(word, line, "if");
    DirectsKeyword(word, line, "ifdef");
    DirectsKeyword(word, line, "ifndef");
    DirectsKeyword(word, line, "else");
    DirectsKeyword(word, line, "elif");
    DirectsKeyword(word, line, "endif");
  }

  // ----- the machine

  datatype PreprocessorInfo<Block> =
    PreprocessorInfo(stackBeforeIf: seq<Block>, stackBeforeElse: seq<Block>, seenElse: bool)

  datatype State<Block> = State(stack: seq<Block>, pp: seq<PreprocessorInfo<Block>>)

  /** A line and what the rest of `Update` does to the nesting stack on it. */
  datatype Line<!Block> = Line(text: string, effect: seq<Block> -> seq<Block>)

  function Step<Block>(d: Directive, s: State<Block>): State<Block> {
    match d
    case If => s.(pp := s.pp + [PreprocessorInfo(s.stack, [], false)])
    case Else =>
      if s.pp == [] then s
      else
        var top := Last(s.pp);
        var top' := if top.seenElse then top else top.(seenElse := true, stackBeforeElse := s.stack);
        State(top.stackBeforeIf, Front(s.pp) + [top'])
    case Endif =>
      if s.pp == [] then s
      else State(if Last(s.pp).seenElse then Last(s.pp).stackBeforeElse else s.stack, Front(s.pp))
    case NoDirective => s
  }

  function UpdateLine<Block>(word: char -> bool, line: Line<Block>, s: State<Block>): State<Block> {
    var s' := Step(DirectiveOf(word, line.text), s);
    s'.(stack := line.effect(s'.stack))
  }

  function Run<Block>(word: char -> bool, lines: seq<Line<Block>>, s: State<Block>): State<Block> {
    if lines == [] then s else Run(word, lines[1..], UpdateLine(word, lines[0], s))
  }

  class NestingState<Block> {
    var stack: seq<Block>
    var ppStack: seq<PreprocessorInfo<Block>>

    constructor ()
      ensures stack == [] && ppStack == []
    {
      stack, ppStack := [], [];
    }

    ghost function Abs(): State<Block>
      reads this
    {
      State(stack, ppStack)
    }

    method UpdatePreprocessor(word: char -> bool, line: string)
      modifies this
      ensures Abs() == Step(DirectiveOf(word, line), old(Abs()))
    {
      match DirectiveOf(word, line) {
        case If =>
          ppStack := ppStack + [PreprocessorInfo(stack, [], false)];
        case Else =>
          if ppStack != [] {
            var top := Last(ppStack);
            if !top.seenElse {
              ppStack := Front(ppStack) + [top.(seenElse := true, stackBeforeElse := stack)];
            }
            stack := Last(ppStack).stackBeforeIf;
          }
        case Endif =>
          if ppStack != [] {
            if Last(ppStack).seenElse {
              stack := Last(ppStack).stackBeforeElse;
            }
            ppStack := Front(ppStack);
          }
        case NoDirective =>
      }
    }

    method Update(word: char -> bool, line: Line<Block>)
      modifies this
      ensures Abs() == UpdateLine(word, line, old(Abs()))
    {
      UpdatePreprocessor(word, line.text);
      stack := line.effect(stack);
    }

    /** The per-line loop of the file checker. */
    method UpdateAll(word: char -> bool, lines: seq<Line<Block>>)
      modifies this
      ensures Abs() == Run(word, lines, old(Abs()))
    {
      for i := 0 to |lines|
        invariant Run(word, lines, old(Abs())) == Run(word, lines[i..], Abs())
      {
        Update(word, lines[i]);
        assert lines[i..][1..] == lines[i + 1..];
      }
    }
  }

  // ----- the structured reading

  /** Plain lines and conditionals; a conditional has a first branch and any number of else/elif branches. */
  datatype Code<!Block> =
    | Nil
    | Plain(line: Line<Block>, rest: Code<Block>)
    | Conditional(ifLine: Line<Block>, first: Code<Block>, others: Branches<Block>, endifLine: Line<Block>,
                  rest: Code<Block>)

  datatype Branches<!Block> = NoBranch | Branch(elseLine: Line<Block>, body: Code<Block>, more: Branches<Block>)

  predicate WellFormed<Block>(word: char -> bool, code: Code<Block>) {
    match code
    case Nil => true
    case Plain(line, rest) => DirectiveOf(word, line.text) == NoDirective && WellFormed(word, rest)
    case Conditional(ifLine, first, others, endifLine, rest) =>
      DirectiveOf(word, ifLine.text) == If && WellFormed(word, first) && WellFormedBranches(word, others)
      && DirectiveOf(word, endifLine.text) == Endif && WellFormed(word, rest)
  }

  predicate WellFormedBranches<Block>(word: char -> bool, branches: Branches<Block>) {
    match branches
    case NoBranch => true
    case Branch(elseLine, body, more) =>
      DirectiveOf(word, elseLine.text) == Else && WellFormed(word, body) && WellFormedBranches(word, more)
  }

  /** The lines of the code, followed by `after`. */
  function Layout<Block>(code: Code<Block>, after: seq<Line<Block>>): seq<Line<Block>> {
    match code
    case Nil => after
    case Plain(line, rest) => [line] + Layout(rest, after)
    case Conditional(ifLine, first, others, endifLine, rest) =>
      [ifLine] + Layout(first, LayoutBranches(others, [endifLine] + Layout(rest, after)))
  }

  function LayoutBranches<Block>(branches: Branches<Block>, after: seq<Line<Block>>): seq<Line<Block>> {
    match branches
    case NoBranch => after
    case Branch(elseLine, body, more) => [elseLine] + Layout(body, LayoutBranches(more, after))
  }

  /** Only first branches touch the nesting stack. */
  function FirstBranch<Block>(code: Code<Block>, stack: seq<Block>): seq<Block> {
    match code
    case Nil => stack
    case Plain(line, rest) => FirstBranch(rest, line.effect(stack))
    case Conditional(ifLine, first, others, endifLine, rest) =>
      FirstBranch(rest, endifLine.effect(FirstBranch(first, ifLine.effect(stack))))
  }

  lemma {:induction false} RunCons<Block>(
    word: char -> bool, line: Line<Block>, rest: seq<Line<Block>>, s: State<Block>)
    ensures Run(word, [line] + rest, s) == Run(word, rest, UpdateLine(word, line, s))
  {
    assert ([line] + rest)[1..] == rest;
  }

  /** Once an else branch has been seen, further branches leave the checkpoint as it is. */
  lemma {:induction false} BranchesKeepCheckpoint<Block>(
    word: char -> bool, branches: Branches<Block>, after: seq<Line<Block>>, s: State<Block>)
    returns (stack: seq<Block>)
    requires WellFormedBranches(word, branches) && s.pp != [] && Last(s.pp).seenElse
    ensures Run(word, LayoutBranches(branches, after), s) == Run(word, after, State(stack, s.pp))
    decreases branches
  {
    hide DirectiveOf;
    match branches
    case NoBranch =>
      stack := s.stack;
    case Branch(elseLine, body, more) =>
      var s1 := UpdateLine(word, elseLine, s);
      assert s1.pp == s.pp;
      RunCons(word, elseLine, Layout(body, LayoutBranches(more, after)), s);
      FirstBranchesThenRest(word, body, LayoutBranches(more, after), s1);
      stack := BranchesKeepCheckpoint(word, more, after, State(FirstBranch(body, s1.stack), s1.pp));
  }

  /** After all branches of a conditional, #endif brings back what the first branch left. */
  lemma {:induction false} BranchesThenEndif<Block>(
    word: char -> bool, branches: Branches<Block>, endifLine: Line<Block>, after: seq<Line<Block>>,
    stack: seq<Block>, saved: seq<Block>, pp: seq<PreprocessorInfo<Block>>)
    requires WellFormedBranches(word, branches) && DirectiveOf(word, endifLine.text) == Endif
    ensures Run(word, LayoutBranches(branches, [endifLine] + after),
                State(stack, pp + [PreprocessorInfo(saved, [], false)])) ==
            Run(word, after, State(endifLine.effect(stack), pp))
    decreases branches
  {
    hide DirectiveOf;
    var s := State(stack, pp + [PreprocessorInfo(saved, [], false)]);
    match branches
    case NoBranch =>
      RunCons(word, endifLine, after, s);
    case Branch(elseLine, body, more) =>
      var s1 := UpdateLine(word, elseLine, s);
      var seen := pp + [PreprocessorInfo(saved, stack, true)];
      assert s1.pp == seen;
      var next := LayoutBranches(more, [endifLine] + after);
      RunCons(word, elseLine, Layout(body, next), s);
      FirstBranchesThenRest(word, body, next, s1);
      var last := BranchesKeepCheckpoint(word, more, [endifLine] + after, State(FirstBranch(body, s1.stack), seen));
      RunCons(word, endifLine, after, State(last, seen));
  }

  lemma {:induction false} FirstBranchesThenRest<Block>(
    word: char -> bool, code: Code<Block>, after: seq<Line<Block>>, s: State<Block>)
    requires WellFormed(word, code)
    ensures Run(word, Layout(code, after), s) == Run(word, after, State(FirstBranch(code, s.stack), s.pp))
    decreases code
  {
    hide DirectiveOf;
    match code
    case Nil =>
    case Plain(line, rest) =>
      RunCons(word, line, Layout(rest, after), s);
      FirstBranchesThenRest(word, rest, after, UpdateLine(word, line, s));
    case Conditional(ifLine, first, others, endifLine, rest) =>
      var s1 := UpdateLine(word, ifLine, s);
      var tail := Layout(rest, after);
      var next := LayoutBranches(others, [endifLine] + tail);
      RunCons(word, ifLine, Layout(first, next), s);
      FirstBranchesThenRest(word, first, next, s1);
      var kept := FirstBranch(first, s1.stack);
      BranchesThenEndif(word, others, endifLine, tail, kept, s.stack, s.pp);
      FirstBranchesThenRest(word, rest, after, State(endifLine.effect(kept), s.pp));
  }

  /**
   * For every nesting of conditionals, the flat machine ends with the nesting stack of the first
   * branches alone, and with the checkpoint stack it started with.
   */
  lemma {:induction false} FlatMachineFollowsFirstBranches<Block>(
    word: char -> bool, code: Code<Block>, s: State<Block>)
    requires WellFormed(word, code)
    ensures Run(word, Layout(code, []), s) == State(FirstBranch(code, s.stack), s.pp)
  {
    FirstBranchesThenRest(word, code, [], s);
  }

  /** An #else, #elif or #endif with no conditional open acts as any other line. */
  lemma {:induction false} StrayDirectiveIsPlain<Block>(word: char -> bool, line: Line<Block>, stack: seq<Block>)
    requires Directs(word, line.text, "else") || Directs(word, line.text, "elif") || Directs(word, line.text, "endif")
    ensures UpdateLine(word, line, State(stack, [])) == State(line.effect(stack), [])
  {
    hide Directs; hide DirectiveOf;
    DirectiveIs(word, line.text);
  }

  // ----- every properly closed line sequence has a structured reading

  /** With `depth` conditionals open, no #else or #endif is stray and everything is closed at the end. */
  predicate Closes<Block>(word: char -> bool, lines: seq<Line<Block>>, depth: nat) {
    if lines == [] then depth == 0
    else
      match DirectiveOf(word, lines[0].text)
      case If => Closes(word, lines[1..], depth + 1)
      case Else => depth > 0 && Closes(word, lines[1..], depth)
      case Endif => depth > 0 && Closes(word, lines[1..], depth - 1)
      case NoDirective => Closes(word, lines[1..], depth)
  }

  ghost predicate EndsAtDelimiter<Block>(word: char -> bool, rest: seq<Line<Block>>, depth: nat) {
    Closes(word, rest, depth) && (rest == [] || DirectiveOf(word, rest[0].text) in {Else, Endif})
  }

  lemma {:induction false} ParseCode<Block>(word: char -> bool, lines: seq<Line<Block>>, depth: nat)
    returns (code: Code<Block>, rest: seq<Line<Block>>)
    requires Closes(word, lines, depth)
    ensures WellFormed(word, code) && lines == Layout(code, rest) && EndsAtDelimiter(word, rest, depth)
    ensures |rest| <= |lines|
    decreases |lines|, 1
  {
    hide DirectiveOf;
    if lines == [] || DirectiveOf(word, lines[0].text) in {Else, Endif} {
      return Nil, lines;
    }
    if DirectiveOf(word, lines[0].text) == NoDirective {
      var tail;
      tail, rest := ParseCode(word, lines[1..], depth);
      code := Plain(lines[0], tail);
    } else {
      var first, afterFirst := ParseCode(word, lines[1..], depth + 1);
      var others, afterOthers := ParseBranches(word, afterFirst, depth + 1);
      var tail;
      tail, rest := ParseCode(word, afterOthers[1..], depth);
      code := Conditional(lines[0], first, others, afterOthers[0], tail);
      assert afterOthers == [afterOthers[0]] + Layout(tail, rest);
    }
  }

  lemma {:induction false} ParseBranches<Block>(word: char -> bool, lines: seq<Line<Block>>, depth: nat)
    returns (branches: Branches<Block>, rest: seq<Line<Block>>)
    requires depth > 0 && EndsAtDelimiter(word, lines, depth)
    ensures WellFormedBranches(word, branches) && lines == LayoutBranches(branches, rest)
    ensures Closes(word, rest, depth) && rest != [] && DirectiveOf(word, rest[0].text) == Endif
    ensures |rest| <= |lines|
    decreases |lines|, 0
  {
    hide DirectiveOf;
    if DirectiveOf(word, lines[0].text) == Endif {
      return NoBranch, lines;
    }
    var body, afterBody := ParseCode(word, lines[1..], depth);
    var more;
    more, rest := ParseBranches(word, afterBody, depth);
    branches := Branch(lines[0], body, more);
  }

  /** On any line sequence whose conditionals close, the machine computes a first-branch reading of it. */
  lemma {:induction false} ClosedLinesFollowFirstBranches<Block>(
    word: char -> bool, lines: seq<Line<Block>>, s: State<Block>)
    returns (code: Code<Block>)
    requires Closes(word, lines, 0)
    ensures WellFormed(word, code) && Layout(code, []) == lines
    ensures Run(word, lines, s) == State(FirstBranch(code, s.stack), s.pp)
  {
    hide DirectiveOf;
    var rest;
    code, rest := ParseCode(word, lines, 0);
    assert rest == [];
    FlatMachineFollowsFirstBranches(word, code, s);
  }

  /** Conversely, every structured reading lays out as lines whose conditionals close. */
  lemma {:induction false} StructuredCodeCloses<Block>(
    word: char -> bool, code: Code<Block>, after: seq<Line<Block>>, depth: nat)
    requires WellFormed(word, code) && Closes(word, after, depth)
    ensures Closes(word, Layout(code, after), depth)
    decreases code
  {
    hide DirectiveOf;
    match code
    case Nil =>
    case Plain(line, rest) =>
      StructuredCodeCloses(word, rest, after, depth);
      assert Layout(code, after)[1..] == Layout(rest, after);
    case Conditional(ifLine, first, others, endifLine, rest) =>
      StructuredCodeCloses(word, rest, after, depth);
      var tail := [endifLine] + Layout(rest, after);
      assert tail[1..] == Layout(rest, after);
      BranchesClose(word, others, tail, depth + 1);
      StructuredCodeCloses(word, first, LayoutBranches(others, tail), depth + 1);
      assert Layout(code, after)[1..] == Layout(first, LayoutBranches(others, tail));
  }

  lemma {:induction false} BranchesClose<Block>(
    word: char -> bool, branches: Branches<Block>, after: seq<Line<Block>>, depth: nat)
    requires WellFormedBranches(word, branches) && depth > 0 && Closes(word, after, depth)
    ensures Closes(word, LayoutBranches(branches, after), depth)
    decreases branches
  {
    hide DirectiveOf;
    match branches
    case NoBranch =>
    case Branch(elseLine, body, more) =>
      BranchesClose(word, more, after, depth);
      StructuredCodeCloses(word, body, LayoutBranches(more, after), depth);
      assert LayoutBranches(branches, after)[1..] == Layout(body, LayoutBranches(more, after));
  }
}
