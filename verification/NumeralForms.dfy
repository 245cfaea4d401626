/**
 * What Python's int() accepts, spelled out: blanks around, a sign, in base 16 a prefix, and groups of
 * digits of either case joined by single underscores. The parser of `Numerals` accepts exactly these
 * texts, with the value of the digits.
 */
module NumeralForms {
  import opened Common
  import opened Numerals
  import opened Strings

  // ----- characters

  /** The sixteen digits in either case, and no other character, have a value. */
  lemma {:induction false} DigitsSpelled(c: char, k: nat)
    requires k < 16
    ensures DigitValue(c) == k <==> c == "0123456789abcdef"[k] || c == "0123456789ABCDEF"[k]
    ensures DigitChar(k) == "0123456789abcdef"[k]
  {
  }

  /** The blanks among the ASCII characters. */
  lemma {:induction false} BlanksSpelled(c: char)
    requires c as int < 128
    ensures IsSpace(c) <==> c == ' ' || c == '\t' || c == '\n' || c == '\r' || c as int in {11, 12, 28, 29, 30, 31}
  {
  }

  function Lower(c: char): char {
    if 'A' <= c <= 'Z' then (c as int - 'A' as int + 'a' as int) as char else c
  }

  function Lowered(s: string): (t: string)
    ensures |t| == |s| && forall k :: 0 <= k < |s| ==> t[k] == Lower(s[k])
  {
    seq(|s|, k requires 0 <= k < |s| => Lower(s[k]))
  }

  lemma {:induction false} LowerKeepsDigit(c: char)
    ensures DigitValue(Lower(c)) == DigitValue(c)
  {
  }

  /** Upper-case digits count like lower-case ones. */
  lemma {:induction false} LoweredKeepsValue(s: string, base: nat)
    requires IsBase(base)
    ensures Value(Lowered(s), base) == Value(s, base)
    ensures AllDigits(Lowered(s), base) <==> AllDigits(s, base)
  {
    forall k | 0 <= k < |s| ensures DigitValue(Lowered(s)[k]) == DigitValue(s[k]) {
      LowerKeepsDigit(s[k]);
    }
    if s == [] {
    } else {
      LoweredKeepsValue(Front(s), base);
      assert Front(Lowered(s)) == Lowered(Front(s));
    }
  }

  /** A numeral in any mix of cases, with any leading zeros, has the value of the printed number. */
  lemma {:induction false} SpelledValue(digits: string, zeros: nat, n: nat, base: nat)
    requires IsBase(base) && Lowered(digits) == ZFill(Print(n, base), zeros)
    ensures AllDigits(digits, base) && Value(digits, base) == n
  {
    hide Value; hide Print; hide ZFill; hide AllDigits;
    LoweredKeepsValue(digits, base);
    PrintDigits(n, base);
    ZFillValue(Print(n, base), zeros, base);
  }

  // ----- numerals

  predicate DigitGroups(groups: seq<string>, base: nat) {
    groups != [] && forall i :: 0 <= i < |groups| ==> AllDigits(groups[i], base)
  }

  lemma {:induction false} ValueSnoc(s: string, c: char, base: nat)
    requires IsBase(base)
    ensures Value(s + [c], base) == Value(s, base) * base + DigitValue(c)
  {
    assert Front(s + [c]) == s;
  }

  /** The groups without their last digit. */
  function Shorter(groups: seq<string>): seq<string>
    requires groups != [] && Last(groups) != []
  {
    if |Last(groups)| == 1 then Front(groups) else Front(groups) + [Front(Last(groups))]
  }

  lemma {:induction false} ShorterGroups(groups: seq<string>, base: nat)
    requires DigitGroups(groups, base) && Shorter(groups) != []
    ensures DigitGroups(Shorter(groups), base)
    ensures Concat(groups) == Concat(Shorter(groups)) + [Last(Last(groups))]
    ensures Join(groups, '_') == Join(Shorter(groups), '_') + (if |Last(groups)| == 1 then ['_'] else [])
                                 + [Last(Last(groups))]
  {
    hide Join; hide Concat;
    var g, init := Last(groups), Front(groups);
    Snoc(groups);
    Snoc(g);
    ConcatSnoc(init, g);
    if |g| == 1 {
      JoinSnoc(init, g, '_');
      assert g == [Last(g)];
    } else {
      ConcatSnoc(init, Front(g));
      forall i | 0 <= i < |Shorter(groups)| ensures AllDigits(Shorter(groups)[i], base) {
        assert AllDigits(groups[i], base);
      }
      ExtendLast(Shorter(groups), Last(g));
      assert Front(Shorter(groups)) == init && Last(Shorter(groups)) == Front(g);
    }
  }

  /** Groups of digits joined by underscores are a numeral of all the digits. */
  lemma {:induction false} GroupsAreNumeral(groups: seq<string>, base: nat)
    requires IsBase(base) && DigitGroups(groups, base)
    ensures Join(groups, '_') != [] && Numeral(Join(groups, '_'), base) == Some(Value(Concat(groups), base))
    ensures IsDigit(Join(groups, '_')[0], base) && IsDigit(Last(Join(groups, '_')), base)
    decreases |Concat(groups)|
  {
    hide Numeral; hide Value; hide Join; hide Concat;
    var g := Last(groups);
    assert AllDigits(g, base) && IsDigit(Last(g), base);
    if Shorter(groups) == [] {
      assert groups == [g];
      OneDigit(g, base);
    } else {
      ShorterGroups(groups, base);
      GroupsAreNumeral(Shorter(groups), base);
      ValueSnoc(Concat(Shorter(groups)), Last(g), base);
      NumeralSnoc(Join(Shorter(groups), '_'), |g| == 1, Last(g), base);
    }
  }

  lemma {:induction false} OneDigit(g: string, base: nat)
    requires IsBase(base) && |g| == 1 && AllDigits(g, base)
    ensures Join([g], '_') == g && Concat([g]) == g && Numeral(g, base) == Some(Value(g, base))
  {
    assert Concat([g]) == g + Concat<char>([]);
    assert Front(g) == [];
  }

  lemma {:induction false} NumeralSnoc(s: string, gap: bool, c: char, base: nat)
    requires IsBase(base) && s != [] && IsDigit(Last(s), base) && IsDigit(c, base)
    ensures Numeral(s + (if gap then ['_'] else []) + [c], base) ==
            match Numeral(s, base) case None => None case Some(n) => Some(n * base + DigitValue(c))
  {
    var t := s + (if gap then ['_'] else []) + [c];
    assert Front(t) == s + (if gap then ['_'] else []);
    if gap {
      assert Last(Front(t)) == '_' && Front(Front(t)) == s;
    } else {
      assert Front(t) == s;
    }
  }

  /** Every numeral consists of such groups. */
  lemma {:induction false} NumeralHasGroups(s: string, base: nat) returns (groups: seq<string>)
    requires IsBase(base) && Numeral(s, base).Some?
    ensures DigitGroups(groups, base) && Join(groups, '_') == s
  {
    hide Join; hide Numeral;
    NumeralShape(s, base);
    var c := Last(s);
    Snoc(s);
    if |s| == 1 {
      groups := [s];
      OneDigit(s, base);
    } else if Last(Front(s)) == '_' {
      var init := NumeralHasGroups(Front(Front(s)), base);
      groups := init + [[c]];
      JoinSnoc(init, [c], '_');
      Snoc(Front(s));
    } else {
      var init := NumeralHasGroups(Front(s), base);
      groups := Front(init) + [Last(init) + [c]];
      ExtendLast(init, c);
      assert AllDigits(Last(init), base);
    }
  }

  lemma {:induction false} NumeralShape(s: string, base: nat)
    requires IsBase(base) && Numeral(s, base).Some?
    ensures s != [] && IsDigit(Last(s), base)
    ensures |s| > 1 ==> Numeral(if Last(Front(s)) == '_' then Front(Front(s)) else Front(s), base).Some?
  {
  }

  lemma {:induction false} ExtendLast(groups: seq<string>, c: char)
    requires groups != []
    ensures Join(Front(groups) + [Last(groups) + [c]], '_') == Join(groups, '_') + [c]
  {
    var init, g := Front(groups), Last(groups);
    Snoc(groups);
    if init == [] {
      assert groups == [g] && init + [g + [c]] == [g + [c]];
    } else {
      JoinSnoc(init, g, '_');
      JoinSnoc(init, g + [c], '_');
    }
  }

  // ----- int()

  datatype Form = Form(before: string, sign: string, prefix: string, groups: seq<string>, after: string)

  ghost predicate IsForm(f: Form, base: nat) {
    Blank(f.before) && Blank(f.after) && f.sign in {"", "+", "-"} && DigitGroups(f.groups, base)
    && (f.prefix == "" || (base == 16 && f.prefix in {"0x", "0X", "0x_", "0X_"}))
  }

  function FormText(f: Form): string {
    f.before + (f.sign + (f.prefix + Join(f.groups, '_'))) + f.after
  }

  function FormValue(f: Form, base: nat): int
    requires IsBase(base)
  {
    var n: int := Value(Concat(f.groups), base);
    if f.sign == "-" then -n else n
  }

  lemma {:induction false} StripBlanks(a: string, core: string, b: string)
    requires Blank(a) && Blank(b) && core != [] && !IsSpace(core[0]) && !IsSpace(Last(core))
    ensures Strip(a + core + b) == core
  {
    StripLeftBlanks(a, core + b);
    assert a + core + b == a + (core + b);
    StripRightBlanks(core, b);
  }

  lemma {:induction false} PrefixDropped(prefix: string, numeral: string, base: nat)
    requires IsBase(base) && Numeral(numeral, base).Some? && numeral != [] && IsDigit(numeral[0], base)
    requires prefix == "" || (base == 16 && prefix in {"0x", "0X", "0x_", "0X_"})
    ensures WithoutPrefix(prefix + numeral, base) == numeral
  {
    var u := prefix + numeral;
    if prefix == "" {
      assert u == numeral;
      if base == 16 && |numeral| >= 2 {
        SecondCharacter(numeral, base);
      }
    } else {
      assert u[2..] == (if |prefix| == 3 then ['_'] else []) + numeral;
      assert |prefix| == 3 ==> u[3..] == numeral;
    }
  }

  lemma {:induction false} SecondCharacter(s: string, base: nat)
    requires IsBase(base) && Numeral(s, base).Some? && |s| >= 2
    ensures IsDigit(s[1], base) || s[1] == '_'
  {
    if |s| == 2 {
    } else {
      var front := if Last(Front(s)) == '_' then Front(Front(s)) else Front(s);
      if |front| >= 2 {
        SecondCharacter(front, base);
      }
    }
  }

  lemma {:induction false} SignedReads(sign: string, u: string, base: nat)
    requires IsBase(base) && sign in {"", "+", "-"} && u != [] && u[0] != '+' && u[0] != '-'
    ensures Signed(sign + u, base) ==
            match Numeral(WithoutPrefix(u, base), base)
            case None => None
            case Some(n) => Some(if sign == "-" then -(n as int) else n as int)
  {
    hide Numeral; hide WithoutPrefix;
    if sign == "" {
      assert sign + u == u;
    } else {
      assert (sign + u)[1..] == u;
    }
  }

  /** Every form is read, as its value. */
  lemma {:induction false} FormsAreRead(f: Form, base: nat)
    requires IsBase(base) && IsForm(f, base)
    ensures ParseInt(FormText(f), base) == Some(FormValue(f, base))
  {
    hide Numeral; hide Join; hide Concat; hide WithoutPrefix; hide Strip; hide Value; hide Signed;
    var numeral := Join(f.groups, '_');
    GroupsAreNumeral(f.groups, base);
    var u := f.prefix + numeral;
    var core := f.sign + u;
    assert core[0] == (if f.sign != "" then f.sign[0] else if f.prefix != "" then '0' else numeral[0]);
    assert Last(core) == Last(numeral);
    StripBlanks(f.before, core, f.after);
    PrefixDropped(f.prefix, numeral, base);
    SignedReads(f.sign, u, base);
  }

  lemma {:induction false} BlanksAround(s: string) returns (a: string, b: string)
    ensures Blank(a) && Blank(b) && s == a + Strip(s) + b
  {
    a := LeftBlanks(s);
    b := RightBlanks(StripLeft(s));
    assert a + (Strip(s) + b) == a + Strip(s) + b;
  }

  lemma {:induction false} PrefixFound(u: string, base: nat) returns (prefix: string)
    ensures u == prefix + WithoutPrefix(u, base)
    ensures prefix == "" || (base == 16 && prefix in {"0x", "0X", "0x_", "0X_"})
  {
    prefix := u[..|u| - |WithoutPrefix(u, base)|];
    if prefix != "" {
      assert prefix == ['0', u[1]] || prefix == ['0', u[1], '_'];
    }
  }

  /** Whatever is read is a form, and its value is what was read. */
  lemma {:induction false} OnlyFormsAreRead(s: string, base: nat) returns (f: Form)
    requires IsBase(base) && ParseInt(s, base).Some?
    ensures IsForm(f, base) && FormText(f) == s && ParseInt(s, base) == Some(FormValue(f, base))
  {
    hide Numeral; hide Join; hide Concat; hide WithoutPrefix; hide FormValue; hide Value;
    var a, b := BlanksAround(s);
    var t := Strip(s);
    var sign := if t != [] && (t[0] == '+' || t[0] == '-') then [t[0]] else [];
    var u := if sign != [] then t[1..] else t;
    assert t == sign + u;
    var prefix := PrefixFound(u, base);
    var groups := NumeralHasGroups(WithoutPrefix(u, base), base);
    f := Form(a, sign, prefix, groups, b);
    assert FormText(f) == a + t + b;
    FormsAreRead(f, base);
  }
}
