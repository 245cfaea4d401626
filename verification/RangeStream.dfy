/**
 * Range requests (section 2.1 of RFC 7233): parsing the header into byte ranges of a file and
 * streaming a range in bounded parts, whatever the reads deliver.
 */
module RangeStream {
  import opened Common
  import opened Numerals
  import opened Strings
  import opened Stream

  // ----- parsing

  datatype Range = Range(start: nat, end: nat)

  /** str.split('-', 1) of a text that holds a dash. */
  function SplitDash(s: string): (r: (string, string))
  {
    if s == [] then ("", "")
    else if s[0] == '-' then ("", s[1..])
    else
      var (a, b) := SplitDash(s[1..]);
      ([s[0]] + a, b)
  }

  /** The range a part of the header asks for, if it can be satisfied; None also for a ValueError. */
  function RangeOf(part: string, maxlen: nat): (r: Option<Range>)
    ensures r.Some? ==> r.value.start < r.value.end <= maxlen
  {
    if Without(part, '-') then None
    else
      var (first, last) := SplitDash(part);
      if first == "" then
        match ParseInt(last, 10)
        case None => None
        case Some(n) => Satisfiable(if maxlen - n > 0 then maxlen - n else 0, maxlen, maxlen)
      else
        match ParseInt(first, 10)
        case None => None
        case Some(a) =>
          if last == "" then Satisfiable(a, maxlen, maxlen)
          else
            match ParseInt(last, 10)
            case None => None
            case Some(b) => Satisfiable(a, if b + 1 < maxlen then b + 1 else maxlen, maxlen)
  }

  function Satisfiable(start: int, end: int, maxlen: nat): Option<Range> {
    if 0 <= start < end <= maxlen then Some(Range(start, end)) else None
  }

  function RangesOf(parts: seq<string>, maxlen: nat): seq<Range> {
    if parts == [] then []
    else
      RangesOf(Front(parts), maxlen) +
      match RangeOf(Last(parts), maxlen)
      case None => []
      case Some(r) => [r]
  }

  const PREFIX := "bytes="

  method ParseRangeHeader(header: string, maxlen: nat) returns (ranges: seq<Range>)
    ensures ranges == if "bytes=" <= header then RangesOf(Split(header[6..], ','), maxlen) else []
  {
    hide RangeOf; hide Split;
    ranges := [];
    if header == "" || !(PREFIX <= header) {
      return;
    }
    var parts := Split(header[6..], ',');
    for i := 0 to |parts|
      invariant ranges == RangesOf(parts[..i], maxlen)
    {
      assert Front(parts[..i + 1]) == parts[..i];
      var r := RangeOf(parts[i], maxlen);
      if r.Some? {
        ranges := ranges + [r.value];
      }
    }
    assert parts[..|parts|] == parts;
  }

  // ----- what the header means

  /** The forms of a byte-range-spec. */
  datatype Spec = Between(first: nat, last: nat) | From(first: nat) | Suffix(count: nat)

  /** The byte positions of a file of the given length that a spec asks for. */
  predicate Asks(spec: Spec, length: nat, i: nat) {
    i < length &&
    match spec
    case Between(a, b) => a <= i <= b
    case From(a) => a <= i
    case Suffix(n) => length - n <= i
  }

  function Text(spec: Spec): string {
    match spec
    case Between(a, b) => Print(a, 10) + ("-" + Print(b, 10))
    case From(a) => Print(a, 10) + ("-" + "")
    case Suffix(n) => "" + ("-" + Print(n, 10))
  }

  lemma {:induction false} SplitDashAt(a: string, b: string)
    requires Without(a, '-')
    ensures SplitDash(a + ("-" + b)) == (a, b) && !Without(a + ("-" + b), '-')
  {
    var s := a + ("-" + b);
    assert s[|a|] == '-';
    if a == [] {
      assert s[1..] == b;
    } else {
      assert s[1..] == a[1..] + ("-" + b);
      SplitDashAt(a[1..], b);
      assert a == [a[0]] + a[1..];
    }
  }

  /** A part yields a range exactly if it asks for any byte, and then the range is what it asks for. */
  lemma {:induction false} RangeIsWhatWasAsked(spec: Spec, length: nat)
    ensures var r := RangeOf(Text(spec), length);
            if r.None? then forall i: nat :: !Asks(spec, length, i)
            else forall i: nat :: Asks(spec, length, i) <==> r.value.start <= i < r.value.end
  {
    hide ParseInt; hide Print; hide SplitDash;
    match spec
    case Between(a, b) =>
      PrintParse(a, 10);
      PrintParse(b, 10);
      PrintDigits(a, 10);
      PrintDigits(b, 10);
      SplitDashAt(Print(a, 10), Print(b, 10));
      if RangeOf(Text(spec), length).None? {
        NothingBetween(a, b, length);
      }
    case From(a) =>
      PrintParse(a, 10);
      PrintDigits(a, 10);
      SplitDashAt(Print(a, 10), "");
    case Suffix(n) =>
      PrintParse(n, 10);
      SplitDashAt("", Print(n, 10));
  }

  lemma {:induction false} NothingBetween(a: nat, b: nat, length: nat)
    requires Satisfiable(a, if b + 1 < length then b + 1 else length, length).None?
    ensures forall i: nat :: !Asks(Between(a, b), length, i)
  {
  }

  function Texts(specs: seq<Spec>): seq<string> {
    if specs == [] then [] else Texts(Front(specs)) + [Text(Last(specs))]
  }

  /** The satisfiable specs, in order. */
  function Granted(specs: seq<Spec>, length: nat): seq<Range> {
    if specs == [] then []
    else
      Granted(Front(specs), length) +
      match RangeOf(Text(Last(specs)), length)
      case None => []
      case Some(r) => [r]
  }

  lemma {:induction false} TextsAre(specs: seq<Spec>, length: nat)
    ensures |Texts(specs)| == |specs| && AllWithout(Texts(specs), ',')
    ensures RangesOf(Texts(specs), length) == Granted(specs, length)
  {
    hide RangeOf;
    if specs == [] {
    } else {
      TextsAre(Front(specs), length);
      var t := Texts(Front(specs));
      assert Front(t + [Text(Last(specs))]) == t;
      TextHasNoComma(Last(specs));
    }
  }

  lemma {:induction false} TextHasNoComma(spec: Spec)
    ensures Without(Text(spec), ',')
  {
    hide Print;
    match spec
    case Between(a, b) =>
      PrintDigits(a, 10);
      PrintDigits(b, 10);
    case From(a) =>
      PrintDigits(a, 10);
    case Suffix(n) =>
      PrintDigits(n, 10);
  }

  /** A header listing specs parses to the satisfiable ones, in order. */
  lemma {:induction false} HeaderRoundTrip(specs: seq<Spec>, length: nat)
    requires specs != []
    ensures var header := "bytes=" + Join(Texts(specs), ',');
            "bytes=" <= header && RangesOf(Split(header[6..], ','), length) == Granted(specs, length)
  {
    hide Split; hide Join; hide RangesOf; hide Granted; hide Texts; hide RangeOf;
    TextsAre(specs, length);
    SplitJoin(Texts(specs), ',');
    assert ("bytes=" + Join(Texts(specs), ','))[6..] == Join(Texts(specs), ',');
  }

  // ----- streaming

  /** The bytes of a range of the file, in parts of at most `maxread`. */
  method FileIterRange(file: Input, offset: nat, count: nat, maxread: nat) returns (parts: seq<string>)
    requires offset <= |file.data| && maxread > 0
    modifies file
    ensures PartsWithin(parts, maxread)
    ensures Concat(parts) == file.data[offset..Min(offset + count, |file.data|)]
  {
    hide Concat; hide Delivered;
    ConcatNone<char>();
    file.Seek(offset);
    parts := [];
    var bytes := count;
    while bytes > 0
      invariant file.Valid() && PartsWithin(parts, maxread) && offset <= file.pos
      invariant 0 <= bytes && file.pos - offset + bytes == count
      invariant Concat(parts) == file.data[offset..file.pos]
    {
      ghost var here := file.pos;
      var part := file.Read(Min(bytes, maxread));
      if part == [] {
        break;
      }
      bytes := bytes - |part|;
      ConcatSnoc(parts, part);
      assert file.data[offset..here] + file.data[here..file.pos] == file.data[offset..file.pos];
      parts := parts + [part];
    }
  }

  datatype Response = NotSatisfiable | Partial(range: Range, contentLength: nat, parts: seq<string>)

  const MAXREAD := 1024 * 1024

  /** The part of static_file that answers a Range header; a HEAD request gets no body. */
  method ServeRange(header: string, file: Input, head: bool) returns (r: Response)
    modifies file
    ensures var ranges := if "bytes=" <= header then RangesOf(Split(header[6..], ','), |file.data|) else [];
            if ranges == [] then r == NotSatisfiable
            else
              r.Partial? && r.range == ranges[0] && r.range.start < r.range.end <= |file.data|
              && r.contentLength == r.range.end - r.range.start
              && PartsWithin(r.parts, 1048576)
              && Concat(r.parts) == if head then "" else file.data[r.range.start..r.range.end]
    ensures r.Partial? && !head ==> |Concat(r.parts)| == r.contentLength
  {
    hide RangeOf; hide Split; hide Concat; hide RangesOf; hide Delivered;
    ConcatNone<char>();
    var ranges := ParseRangeHeader(header, |file.data|);
    if ranges == [] {
      return NotSatisfiable;
    }
    if PREFIX <= header {
      RangesInFile(Split(header[6..], ','), |file.data|);
    }
    var range := ranges[0];
    var parts: seq<string> := [];
    if !head {
      parts := FileIterRange(file, range.start, range.end - range.start, MAXREAD);
    }
    return Partial(range, range.end - range.start, parts);
  }

  lemma {:induction false} RangesInFile(parts: seq<string>, maxlen: nat)
    ensures forall r :: r in RangesOf(parts, maxlen) ==> r.start < r.end <= maxlen
  {
    hide RangeOf;
    if parts == [] {
    } else {
      RangesInFile(Front(parts), maxlen);
    }
  }
}
