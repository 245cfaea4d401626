/** Python's conversions between integers and numerals, in base 10 and base 16, on ASCII text. */
module Numerals {
  import opened Common

  /** str.isspace() and the regex class \s. */
  predicate IsSpace(c: char) {
    var u := c as int;
    9 <= u <= 13 || 28 <= u <= 32 || u == 0x85 || u == 0xA0 || u == 0x1680 || 0x2000 <= u <= 0x200A
    || u == 0x2028 || u == 0x2029 || u == 0x202F || u == 0x205F || u == 0x3000
  }

  function StripLeft(s: string): string {
    if s != [] && IsSpace(s[0]) then StripLeft(s[1..]) else s
  }

  function StripRight(s: string): string {
    if s != [] && IsSpace(Last(s)) then StripRight(Front(s)) else s
  }

  function Strip(s: string): string {
    StripRight(StripLeft(s))
  }

  predicate Blank(s: string) {
    forall k :: 0 <= k < |s| ==> IsSpace(s[k])
  }

  lemma {:induction false} StripLeftBlanks(a: string, rest: string)
    requires Blank(a) && (rest == [] || !IsSpace(rest[0]))
    ensures StripLeft(a + rest) == rest
  {
    if a == [] {
      assert a + rest == rest;
    } else {
      assert (a + rest)[1..] == a[1..] + rest;
      StripLeftBlanks(a[1..], rest);
    }
  }

  lemma {:induction false} StripRightBlanks(core: string, b: string)
    requires Blank(b) && core != [] && !IsSpace(Last(core))
    ensures StripRight(core + b) == core
  {
    if b == [] {
      assert core + b == core;
    } else {
      assert Front(core + b) == core + Front(b);
      StripRightBlanks(core, Front(b));
    }
  }

  lemma {:induction false} LeftBlanks(s: string) returns (a: string)
    ensures Blank(a) && s == a + StripLeft(s)
  {
    a := [];
    if s != [] && IsSpace(s[0]) {
      var more := LeftBlanks(s[1..]);
      a := [s[0]] + more;
    }
  }

  lemma {:induction false} RightBlanks(s: string) returns (b: string)
    ensures Blank(b) && s == StripRight(s) + b
  {
    b := [];
    if s != [] && IsSpace(Last(s)) {
      var more := RightBlanks(Front(s));
      b := more + [Last(s)];
    }
  }

  predicate IsBase(base: nat) {
    base == 10 || base == 16
  }

  /** The value of a digit character, or 16 if it is none. */
  function DigitValue(c: char): nat {
    if '0' <= c <= '9' then c as int - '0' as int
    else if 'a' <= c <= 'f' then c as int - 'a' as int + 10
    else if 'A' <= c <= 'F' then c as int - 'A' as int + 10
    else 16
  }

  predicate IsDigit(c: char, base: nat) {
    DigitValue(c) < base
  }

  function DigitChar(d: nat): (c: char)
    requires d < 16
    ensures DigitValue(c) == d && !IsSpace(c) && c !in {'+', '-', '_', '/', 'x', 'X'}
  {
    if d < 10 then ('0' as int + d) as char else ('a' as int + d - 10) as char
  }

  // ----- printing

  /** str(n) in base 10, format(n, 'x') in base 16. */
  function Print(n: nat, base: nat): string
    requires IsBase(base)
  {
    if n < base then [DigitChar(n)] else Print(n / base, base) + [DigitChar(n % base)]
  }

  /** str.zfill on an unsigned numeral. */
  function ZFill(s: string, width: nat): string
    decreases width - |s|
  {
    if |s| >= width then s else ZFill(['0'] + s, width)
  }

  // ----- reading

  /** A numeral is a digit, or a numeral, perhaps an underscore, and a digit. */
  function Numeral(s: string, base: nat): Option<nat>
    requires IsBase(base)
  {
    if s == [] || !IsDigit(Last(s), base) then None
    else if |s| == 1 then Some(DigitValue(Last(s)))
    else
      var front := if Last(Front(s)) == '_' then Front(Front(s)) else Front(s);
      match Numeral(front, base)
      case None => None
      case Some(n) => Some(n * base + DigitValue(Last(s)))
  }

  /** Without the prefix 0x of base 16, and the underscore that may follow it. */
  function WithoutPrefix(u: string, base: nat): string {
    if base == 16 && |u| >= 2 && u[0] == '0' && (u[1] == 'x' || u[1] == 'X') then
      (if |u| >= 3 && u[2] == '_' then u[3..] else u[2..])
    else u
  }

  /** A sign, the prefix, then a numeral. */
  function Signed(t: string, base: nat): Option<int>
    requires IsBase(base)
  {
    var negative := t != [] && t[0] == '-';
    var u := if t != [] && (t[0] == '+' || t[0] == '-') then t[1..] else t;
    match Numeral(WithoutPrefix(u, base), base)
    case None => None
    case Some(n) =>
      var magnitude: int := n;
      Some(if negative then -magnitude else magnitude)
  }

  /** int(s, base), with blanks around. */
  function ParseInt(s: string, base: nat): Option<int>
    requires IsBase(base)
  {
    Signed(Strip(s), base)
  }

  predicate AllDigits(s: string, base: nat) {
    s != [] && forall k :: 0 <= k < |s| ==> IsDigit(s[k], base)
  }

  /** The value of a plain string of digits. */
  function Value(s: string, base: nat): nat
    requires IsBase(base)
  {
    if s == [] then 0 else Value(Front(s), base) * base + DigitValue(Last(s))
  }

  lemma {:induction false} PrintDigits(n: nat, base: nat)
    requires IsBase(base)
    ensures AllDigits(Print(n, base), base) && Value(Print(n, base), base) == n
    ensures n > 0 ==> Print(n, base)[0] != '0'
    ensures forall k :: 0 <= k < |Print(n, base)| ==>
              !IsSpace(Print(n, base)[k]) && Print(n, base)[k] !in {'+', '-', '_', '/', 'x', 'X', ',', ';', '\r', '\n'}
  {
    if n < base {
      assert Front([DigitChar(n)]) == [];
    } else {
      PrintDigits(n / base, base);
      var s := Print(n / base, base);
      assert Front(s + [DigitChar(n % base)]) == s;
      assert n == n / base * base + n % base;
    }
    DigitsArePlain(Print(n, base), base);
  }

  lemma {:induction false} DigitsArePlain(s: string, base: nat)
    requires IsBase(base) && AllDigits(s, base)
    ensures forall k :: 0 <= k < |s| ==>
              !IsSpace(s[k]) && s[k] !in {'+', '-', '_', '/', 'x', 'X', ',', ';', '\r', '\n'}
  {
  }

  lemma {:induction false} DigitsAreNumeral(s: string, base: nat)
    requires IsBase(base) && AllDigits(s, base)
    ensures Numeral(s, base) == Some(Value(s, base))
  {
    if |s| > 1 {
      assert IsDigit(s[|s| - 2], base);
      DigitsAreNumeral(Front(s), base);
    } else {
      assert Front(s) == [];
    }
  }

  lemma {:induction false} DigitsParse(s: string, base: nat)
    requires IsBase(base) && AllDigits(s, base)
    ensures ParseInt(s, base) == Some(Value(s, base))
  {
    assert forall c: char :: IsDigit(c, base) ==> !IsSpace(c);
    assert IsDigit(s[0], base);
    assert IsDigit(Last(s), base);
    assert |s| >= 2 ==> IsDigit(s[1], base);
    DigitsAreNumeral(s, base);
  }

  /** Reading back what was printed. */
  lemma {:induction false} PrintParse(n: nat, base: nat)
    requires IsBase(base)
    ensures ParseInt(Print(n, base), base) == Some(n)
  {
    PrintDigits(n, base);
    DigitsParse(Print(n, base), base);
  }

  lemma {:induction false} ValueOfPadded(s: string, base: nat)
    requires IsBase(base)
    ensures Value(['0'] + s, base) == Value(s, base)
  {
    if s == [] {
      assert Front(['0'] + s) == [];
    } else {
      ValueOfPadded(Front(s), base);
      assert Front(['0'] + s) == ['0'] + Front(s);
    }
  }

  /** Padding with zeros keeps the value. */
  lemma {:induction false} ZFillValue(s: string, width: nat, base: nat)
    requires IsBase(base) && AllDigits(s, base)
    ensures AllDigits(ZFill(s, width), base) && Value(ZFill(s, width), base) == Value(s, base)
    decreases width - |s|
  {
    if |s| >= width {
    } else {
      ValueOfPadded(s, base);
      ZFillValue(['0'] + s, width, base);
    }
  }
}
