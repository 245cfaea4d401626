/**
 * Decoding a request body in chunked transfer coding (section 4.1 of RFC 7230) and storing it,
 * in memory or in a temporary file once it grows past a limit.
 */
module Chunked {
  import opened Common
  import opened Numerals
  import opened NumeralForms
  import opened Stream

  const CRLF := "\r\n"

  // ----- what the decoder computes

  predicate EndsLine(s: string) {
    |s| >= 2 && s[|s| - 2..] == CRLF
  }

  /** The first `k` characters end a line. */
  predicate LineEnds(s: string, k: nat) {
    2 <= k <= |s| && s[k - 2] == '\r' && s[k - 1] == '\n'
  }

  lemma {:induction false} LineEndAt(s: string, k: nat)
    requires k <= |s|
    ensures EndsLine(s[..k]) <==> LineEnds(s, k)
  {
    if k >= 2 {
      assert s[..k][k - 2..] == [s[k - 2], s[k - 1]];
    }
  }

  /** The length of the header line at the start of `rest`, of which `n` bytes have been read. */
  function HeaderLength(rest: string, n: nat, bufsize: nat): (r: Option<nat>)
    requires n <= |rest|
    ensures r.Some? ==> n <= r.value <= |rest| && r.value >= 2
    decreases |rest| - n
  {
    if LineEnds(rest, n) then Some(n)
    else if n == |rest| || n + 1 > bufsize then None
    else HeaderLength(rest, n + 1, bufsize)
  }

  /** header.partition(';')[0] */
  function BeforeSemicolon(s: string): string {
    if s == [] || s[0] == ';' then [] else [s[0]] + BeforeSemicolon(s[1..])
  }

  predicate Ascii(s: string) {
    forall k :: 0 <= k < |s| ==> s[k] as int < 128
  }

  function SizeOf(header: string): Option<int> {
    var field := BeforeSemicolon(header);
    if Ascii(field) then ParseInt(field, 16) else None
  }

  /** A negative size reads no data. */
  function DataLength(size: int): nat {
    if size < 0 then 0 else size
  }

  datatype Decoded = Malformed | Complete(payload: string, end: nat)

  /** Whether the two bytes behind a chunk's data are delivered by one read and are a line end. */
  predicate ChunkCloses(after: string, at: nat, reader: Reader) {
    Delivered(reader, at, 2, |after|) == 2 && after[..2] == CRLF
  }

  /** Decode `rest`, which starts at position `at` of the stream. */
  function Decode(rest: string, at: nat, reader: Reader, bufsize: nat): Decoded
    decreases |rest|
  {
    match HeaderLength(rest, Min(1, |rest|), bufsize)
    case None => Malformed
    case Some(h) =>
      match SizeOf(rest[..h])
      case None => Malformed
      case Some(size) =>
        if size == 0 then Complete([], at + h)
        else
          var n, body := DataLength(size), rest[h..];
          if |body| < n || !ChunkCloses(body[n..], at + h + n, reader) then Malformed
          else
            match Decode(body[n..][2..], at + h + n + 2, reader, bufsize)
            case Malformed => Malformed
            case Complete(payload, end) => Complete(body[..n] + payload, end)
  }

  /** The data yielded before decoding ends or fails: also that of a chunk which is cut off or not closed. */
  function Yielded(rest: string, at: nat, reader: Reader, bufsize: nat): string
    decreases |rest|
  {
    match HeaderLength(rest, Min(1, |rest|), bufsize)
    case None => []
    case Some(h) =>
      match SizeOf(rest[..h])
      case None => []
      case Some(size) =>
        if size == 0 then [] else YieldedFrom(rest[h..], at + h, DataLength(size), reader, bufsize)
  }

  /** The same from the data of a chunk of size `n` on. */
  function YieldedFrom(body: string, at: nat, n: nat, reader: Reader, bufsize: nat): string
    decreases |body|
  {
    if |body| < n then body
    else if !ChunkCloses(body[n..], at + n, reader) then body[..n]
    else body[..n] + Yielded(body[n..][2..], at + n + 2, reader, bufsize)
  }

  lemma {:induction false} YieldedStep(rest: string, at: nat, reader: Reader, bufsize: nat)
    ensures var header := HeaderLength(rest, Min(1, |rest|), bufsize);
            var y := Yielded(rest, at, reader, bufsize);
            if header.None? || SizeOf(rest[..header.value]).None? then y == []
            else
              var h, size := header.value, SizeOf(rest[..header.value]).value;
              y == if size == 0 then [] else YieldedFrom(rest[h..], at + h, DataLength(size), reader, bufsize)
  {
    hide HeaderLength; hide SizeOf; hide ChunkCloses; hide YieldedFrom;
  }

  /** A complete decoding yields its payload. */
  lemma {:induction false} CompleteYieldsPayload(rest: string, at: nat, reader: Reader, bufsize: nat)
    requires Decode(rest, at, reader, bufsize).Complete?
    ensures Yielded(rest, at, reader, bufsize) == Decode(rest, at, reader, bufsize).payload
    decreases |rest|
  {
    hide Decode; hide Yielded; hide HeaderLength; hide SizeOf; hide ChunkCloses;
    DecodeStep(rest, at, reader, bufsize);
    YieldedStep(rest, at, reader, bufsize);
    var h := HeaderLength(rest, Min(1, |rest|), bufsize).value;
    var size := SizeOf(rest[..h]).value;
    if size == 0 {
    } else {
      var n, body := DataLength(size), rest[h..];
      ClosingBytes(body[n..], at + h + n, reader);
      CompleteYieldsPayload(body[n..][2..], at + h + n + 2, reader, bufsize);
    }
  }

  // ----- the decoder

  lemma {:induction false} HeaderStep(rest: string, n: nat, bufsize: nat)
    requires n <= |rest|
    ensures EndsLine(rest[..n]) <==> LineEnds(rest, n)
    ensures LineEnds(rest, n) ==> HeaderLength(rest, n, bufsize) == Some(n)
    ensures !LineEnds(rest, n) && (n == |rest| || n + 1 > bufsize) ==> HeaderLength(rest, n, bufsize).None?
    ensures !LineEnds(rest, n) && n < |rest| && n + 1 <= bufsize ==>
              HeaderLength(rest, n, bufsize) == HeaderLength(rest, n + 1, bufsize)
  {
    LineEndAt(rest, n);
  }

  /** Reads a header line, of which HeaderLength gives the length. */
  method ReadHeader(input: Input, bufsize: nat) returns (header: Option<string>)
    requires input.Valid()
    modifies input
    ensures input.Valid()
    ensures var start, rest := old(input.pos), old(input.Rest());
            var h := HeaderLength(rest, Min(1, |rest|), bufsize);
            if h.None? then header.None?
            else header == Some(rest[..h.value]) && input.pos == start + h.value
  {
    hide HeaderLength; hide EndsLine; hide LineEnds; hide Delivered;
    ghost var start, rest := input.pos, input.Rest();
    var line := input.Read(1);
    assert line == rest[..|line|];
    HeaderStep(rest, |line|, bufsize);
    while !EndsLine(line)
      invariant input.Valid() && input.pos == start + |line| && line == rest[..|line|]
      invariant HeaderLength(rest, |line|, bufsize) == HeaderLength(rest, Min(1, |rest|), bufsize)
      invariant EndsLine(line) ==> HeaderLength(rest, |line|, bufsize) == Some(|line|)
      decreases |rest| - |line|
    {
      HeaderStep(rest, |line|, bufsize);
      var c := input.Read(1);
      line := line + c;
      if c == [] {
        return None;
      }
      if |line| > bufsize {
        return None;
      }
      assert line == rest[..|line|];
      HeaderStep(rest, |line|, bufsize);
    }
    return Some(line);
  }

  /** Yield the data of one chunk; fails if the stream ends early. */
  method ReadChunkData(input: Input, size: int, bufsize: nat) returns (parts: seq<string>, ok: bool)
    requires input.Valid() && bufsize > 0
    modifies input
    ensures input.Valid() && PartsWithin(parts, bufsize)
    ensures var start, n := old(input.pos), DataLength(size);
            ok == (start + n <= |input.data|) && (ok ==> input.pos == start + n)
            && Concat(parts) == (if ok then input.data[start..start + n] else input.data[start..])
  {
    hide Concat; hide Delivered;
    ghost var start := input.pos;
    parts := [];
    ConcatNone<char>();
    var maxread := size;
    var buff := "";
    while maxread > 0
      invariant input.Valid() && PartsWithin(parts, bufsize) && buff == ""
      invariant start <= input.pos && input.pos - start + DataLength(maxread) == DataLength(size)
      invariant Concat(parts) == input.data[start..input.pos]
    {
      ghost var here := input.pos;
      if buff == "" {
        buff := input.Read(Min(maxread, bufsize));
      }
      var part := buff[..Min(maxread, |buff|)];
      buff := buff[|part|..];
      if part == [] {
        assert input.data[start..input.pos] == input.data[start..];
        return parts, false;
      }
      assert part == input.data[here..input.pos];
      ConcatSnoc(parts, part);
      SliceJoin(input.data, start, here, input.pos);
      parts := parts + [part];
      maxread := maxread - |part|;
    }
    return parts, true;
  }

  lemma {:induction false} DecodeStep(rest: string, at: nat, reader: Reader, bufsize: nat)
    ensures var header := HeaderLength(rest, Min(1, |rest|), bufsize);
            var d := Decode(rest, at, reader, bufsize);
            if header.None? || SizeOf(rest[..header.value]).None? then d == Malformed
            else
              var h, size := header.value, SizeOf(rest[..header.value]).value;
              var n, body := DataLength(size), rest[h..];
              if size == 0 then d == Complete([], at + h)
              else if |body| < n || !ChunkCloses(body[n..], at + h + n, reader) then d == Malformed
              else
                var next := Decode(body[n..][2..], at + h + n + 2, reader, bufsize);
                d == if next.Malformed? then Malformed else Complete(body[..n] + next.payload, next.end)
  {
    hide HeaderLength; hide SizeOf; hide ChunkCloses;
  }

  /** The same in absolute positions of the stream's data. */
  lemma {:induction false} DecodeAt(data: string, start: nat, reader: Reader, bufsize: nat)
    requires start <= |data|
    ensures var rest := data[start..];
            var header := HeaderLength(rest, Min(1, |rest|), bufsize);
            var d := Decode(rest, start, reader, bufsize);
            if header.None? || SizeOf(rest[..header.value]).None? then d == Malformed
            else
              var h, size := header.value, SizeOf(rest[..header.value]).value;
              var n := DataLength(size);
              if size == 0 then d == Complete([], start + h)
              else if start + h + n > |data| || !ChunkCloses(data[start + h + n..], start + h + n, reader) then
                d == Malformed
              else
                var end := start + h + n + 2;
                end <= |data| &&
                var next := Decode(data[end..], end, reader, bufsize);
                d == if next.Malformed? then Malformed
                     else Complete(data[start + h..start + h + n] + next.payload, next.end)
  {
    hide HeaderLength; hide SizeOf; hide ChunkCloses; hide Decode;
    var rest := data[start..];
    DecodeStep(rest, start, reader, bufsize);
    var header := HeaderLength(rest, Min(1, |rest|), bufsize);
    if header.Some? && SizeOf(rest[..header.value]).Some? {
      var h := header.value;
      var n := DataLength(SizeOf(rest[..h]).value);
      SliceSlice(data, start, h, h);
      if start + h + n <= |data| {
        SliceSlice(data, start + h, 0, n);
        SliceSlice(data, start + h, n, n);
        if ChunkCloses(data[start + h + n..], start + h + n, reader) {
          ClosingBytes(data[start + h + n..], start + h + n, reader);
          SliceSlice(data, start + h + n, 2, 2);
        }
      }
    }
  }

  lemma {:induction false} ClosingBytes(after: string, at: nat, reader: Reader)
    requires ChunkCloses(after, at, reader)
    ensures |after| >= 2
  {
  }

  lemma {:induction false} TailCloses(data: string, at: nat, reader: Reader, tail: string)
    requires at <= |data| && |tail| == Delivered(reader, at, 2, |data| - at) && tail == data[at..at + |tail|]
    ensures tail == CRLF <==> ChunkCloses(data[at..], at, reader)
    ensures tail == CRLF ==> |tail| == 2
  {
    hide Delivered;
    SliceSlice(data, at, 0, |tail|);
  }

  /** Decoding from `pos` with `sofar` already yielded leads to `goal`. */
  ghost predicate Leads(goal: Decoded, data: string, pos: nat, reader: Reader, bufsize: nat, sofar: string) {
    pos <= |data| &&
    var d := Decode(data[pos..], pos, reader, bufsize);
    if d.Malformed? then goal.Malformed? else goal == Complete(sofar + d.payload, d.end)
  }

  lemma {:induction false} LeadsFrom(data: string, pos: nat, reader: Reader, bufsize: nat)
    requires pos <= |data|
    ensures Leads(Decode(data[pos..], pos, reader, bufsize), data, pos, reader, bufsize, [])
  {
    hide Decode;
    var d := Decode(data[pos..], pos, reader, bufsize);
    if d.Complete? {
      assert [] + d.payload == d.payload;
    }
  }

  lemma {:induction false} LeadsStep(
    goal: Decoded, data: string, start: nat, reader: Reader, bufsize: nat, sofar: string)
    requires Leads(goal, data, start, reader, bufsize, sofar)
    ensures var rest := data[start..];
            var header := HeaderLength(rest, Min(1, |rest|), bufsize);
            if header.None? || SizeOf(rest[..header.value]).None? then goal.Malformed?
            else
              var at, size := start + header.value, SizeOf(rest[..header.value]).value;
              var n := DataLength(size);
              if size == 0 then goal == Complete(sofar, at)
              else if at + n > |data| || !ChunkCloses(data[at + n..], at + n, reader) then goal.Malformed?
              else Leads(goal, data, at + n + 2, reader, bufsize, sofar + data[at..at + n])
  {
    hide Decode; hide HeaderLength; hide SizeOf; hide ChunkCloses;
    DecodeAt(data, start, reader, bufsize);
    var rest := data[start..];
    var header := HeaderLength(rest, Min(1, |rest|), bufsize);
    if header.Some? && SizeOf(rest[..header.value]).Some? {
      var at, size := start + header.value, SizeOf(rest[..header.value]).value;
      var n := DataLength(size);
      if size == 0 {
        assert sofar + [] == sofar;
      } else if at + n <= |data| && ChunkCloses(data[at + n..], at + n, reader) {
        var next := Decode(data[at + n + 2..], at + n + 2, reader, bufsize);
        if next.Complete? {
          Assoc(sofar, data[at..at + n], next.payload);
        }
      }
    }
  }

  /** With `sofar` already yielded at `pos`, `all` is what will have been yielded at the end. */
  ghost predicate Yields(all: string, data: string, pos: nat, reader: Reader, bufsize: nat, sofar: string) {
    pos <= |data| && all == sofar + Yielded(data[pos..], pos, reader, bufsize)
  }

  lemma {:induction false} BodyAt(data: string, at: nat, n: nat)
    requires at <= |data|
    ensures at + n <= |data| ==> data[at..][..n] == data[at..at + n] && data[at..][n..] == data[at + n..]
    ensures at + n + 2 <= |data| ==> data[at..][n..][2..] == data[at + n + 2..]
  {
  }

  /** One step of Yielded in absolute positions of the stream's data. */
  lemma {:induction false} YieldedAt(data: string, start: nat, reader: Reader, bufsize: nat)
    requires start <= |data|
    ensures var rest := data[start..];
            var header := HeaderLength(rest, Min(1, |rest|), bufsize);
            var y := Yielded(rest, start, reader, bufsize);
            if header.None? || SizeOf(rest[..header.value]).None? then y == []
            else
              var at, size := start + header.value, SizeOf(rest[..header.value]).value;
              var n := DataLength(size);
              if size == 0 then y == []
              else if at + n > |data| then y == data[at..]
              else if !ChunkCloses(data[at + n..], at + n, reader) then y == data[at..at + n]
              else
                at + n + 2 <= |data|
                && y == data[at..at + n] + Yielded(data[at + n + 2..], at + n + 2, reader, bufsize)
  {
    hide HeaderLength; hide SizeOf; hide ChunkCloses; hide Yielded; hide YieldedFrom; hide DataLength;
    var rest := data[start..];
    YieldedStep(rest, start, reader, bufsize);
    var header := HeaderLength(rest, Min(1, |rest|), bufsize);
    if header.Some? && SizeOf(rest[..header.value]).Some? {
      SliceSlice(data, start, header.value, header.value);
      YieldedFromAt(data, start + header.value, DataLength(SizeOf(rest[..header.value]).value), reader, bufsize);
    }
  }

  lemma {:induction false} YieldedFromAt(data: string, at: nat, n: nat, reader: Reader, bufsize: nat)
    requires at <= |data|
    ensures var y := YieldedFrom(data[at..], at, n, reader, bufsize);
            if at + n > |data| then y == data[at..]
            else if !ChunkCloses(data[at + n..], at + n, reader) then y == data[at..at + n]
            else
              at + n + 2 <= |data|
              && y == data[at..at + n] + Yielded(data[at + n + 2..], at + n + 2, reader, bufsize)
  {
    hide ChunkCloses; hide Yielded;
    BodyAt(data, at, n);
    if at + n <= |data| && ChunkCloses(data[at + n..], at + n, reader) {
      ClosingBytes(data[at + n..], at + n, reader);
    }
  }

  lemma {:induction false} YieldsStep(
    all: string, data: string, start: nat, reader: Reader, bufsize: nat, sofar: string)
    requires Yields(all, data, start, reader, bufsize, sofar)
    ensures var rest := data[start..];
            var header := HeaderLength(rest, Min(1, |rest|), bufsize);
            if header.None? || SizeOf(rest[..header.value]).None? then all == sofar
            else
              var at, size := start + header.value, SizeOf(rest[..header.value]).value;
              var n := DataLength(size);
              if size == 0 then all == sofar
              else if at + n > |data| then all == sofar + data[at..]
              else if !ChunkCloses(data[at + n..], at + n, reader) then all == sofar + data[at..at + n]
              else Yields(all, data, at + n + 2, reader, bufsize, sofar + data[at..at + n])
  {
    hide Yielded; hide HeaderLength; hide SizeOf; hide ChunkCloses;
    YieldedAt(data, start, reader, bufsize);
    var rest := data[start..];
    var header := HeaderLength(rest, Min(1, |rest|), bufsize);
    assert sofar + [] == sofar;
    if header.Some? && SizeOf(rest[..header.value]).Some? {
      var at, size := start + header.value, SizeOf(rest[..header.value]).value;
      var n := DataLength(size);
      if size != 0 && at + n <= |data| && ChunkCloses(data[at + n..], at + n, reader) {
        Assoc(sofar, data[at..at + n], Yielded(data[at + n + 2..], at + n + 2, reader, bufsize));
      }
    }
  }

  method IterChunked(input: Input, bufsize: nat) returns (parts: seq<string>, ok: bool)
    requires input.Valid()
    modifies input
    ensures input.Valid() && PartsWithin(parts, bufsize)
    ensures var d := Decode(old(input.Rest()), old(input.pos), input.reader, bufsize);
            ok == d.Complete? && (ok ==> Concat(parts) == d.payload && input.pos == d.end)
    ensures Concat(parts) == Yielded(old(input.Rest()), old(input.pos), input.reader, bufsize)
  {
    hide *;
    ghost var goal := Decode(input.Rest(), input.pos, input.reader, bufsize);
    ghost var all := Yielded(input.Rest(), input.pos, input.reader, bufsize);
    StartDecoding(input, bufsize);
    parts := [];
    ok := false;
    while true
      invariant input.Valid() && PartsWithin(parts, bufsize) && !ok
      invariant Leads(goal, input.data, input.pos, input.reader, bufsize, Concat(parts))
      invariant Yields(all, input.data, input.pos, input.reader, bufsize, Concat(parts))
      decreases |input.data| - input.pos
    {
      LeadsStep(goal, input.data, input.pos, input.reader, bufsize, Concat(parts));
      YieldsStep(all, input.data, input.pos, input.reader, bufsize, Concat(parts));
      InputRest(input);
      HeaderNeedsRoom(input.Rest(), bufsize);
      var header := ReadHeader(input, bufsize);
      if header.None? {
        return;
      }
      var size := SizeOf(header.value);
      if size.None? {
        return;
      }
      if size.value == 0 {
        ok := true;
        return;
      }
      var more, complete := ReadChunkData(input, size.value, bufsize);
      ConcatAppend(parts, more);
      PartsWithinConcat(parts, more, bufsize);
      parts := parts + more;
      if !complete {
        return;
      }
      ghost var at := input.pos;
      InputRest(input);
      var tail := input.Read(2);
      TailCloses(input.data, at, input.reader, tail);
      if tail != CRLF {
        return;
      }
    }
  }

  lemma {:induction false} StartDecoding(input: Input, bufsize: nat)
    requires input.Valid()
    ensures input.pos <= |input.data| && PartsWithin([], bufsize)
    ensures Leads(Decode(input.Rest(), input.pos, input.reader, bufsize), input.data, input.pos, input.reader, bufsize,
                  Concat<char>([]))
    ensures Yields(Yielded(input.Rest(), input.pos, input.reader, bufsize), input.data, input.pos, input.reader,
                   bufsize, Concat<char>([]))
  {
    hide Decode; hide Leads; hide Yielded;
    LeadsFrom(input.data, input.pos, input.reader, bufsize);
  }

  lemma {:induction false} InputRest(input: Input)
    requires input.Valid()
    ensures input.pos <= |input.data| && input.Rest() == input.data[input.pos..]
  {
  }

  lemma {:induction false} Assoc(a: string, b: string, c: string)
    ensures a + (b + c) == a + b + c
  {
  }

  /** A header line has at least two bytes, so it is only found when the buffer holds two. */
  lemma {:induction false} HeaderNeedsRoom(rest: string, bufsize: nat)
    ensures HeaderLength(rest, Min(1, |rest|), bufsize).Some? ==> bufsize > 1
  {
  }

  // ----- the encoder of RFC 7230 and the round trip

  /** A chunk as sent: any header line that states the length of the data, and the data. */
  datatype Chunk = Chunk(line: string, data: string)

  /** A header line: ended by its only line end, and no longer than the buffer. */
  predicate HeaderLine(line: string, bufsize: nat) {
    LineEnds(line, |line|) && |line| <= bufsize && forall k :: 0 <= k < |line| ==> !LineEnds(line, k)
  }

  predicate ValidChunk(c: Chunk, bufsize: nat) {
    HeaderLine(c.line, bufsize) && c.data != [] && SizeOf(c.line) == Some(|c.data|)
  }

  predicate ValidLast(line: string, bufsize: nat) {
    HeaderLine(line, bufsize) && SizeOf(line) == Some(0)
  }

  /** The chunks, then the zero-size line. */
  function Encode(chunks: seq<Chunk>, last: string): string {
    if chunks == [] then last
    else chunks[0].line + (chunks[0].data + (CRLF + Encode(chunks[1..], last)))
  }

  function Payload(chunks: seq<Chunk>): string {
    if chunks == [] then [] else chunks[0].data + Payload(chunks[1..])
  }

  /** Each line end behind a chunk's data arrives in one read of two bytes; `left` bytes follow the encoding. */
  predicate LineEndsArriveWhole(chunks: seq<Chunk>, last: string, at: nat, reader: Reader, left: nat) {
    if chunks == [] then true
    else
      var end := at + |chunks[0].line| + |chunks[0].data|;
      Delivered(reader, end, 2, 2 + |Encode(chunks[1..], last)| + left) == 2
      && LineEndsArriveWhole(chunks[1..], last, end + 2, reader, left)
  }

  /** A complete header line is found, a cut one is not. */
  lemma {:induction false} FindsHeader(line: string, rest: string, n: nat, bufsize: nat)
    requires HeaderLine(line, bufsize) && n <= |line| && n <= |rest|
    requires line <= rest || rest <= line
    ensures HeaderLength(rest, n, bufsize) == if line <= rest then Some(|line|) else None
    decreases |line| - n
  {
    hide HeaderLength;
    HeaderStep(rest, n, bufsize);
    assert LineEnds(rest, n) <==> LineEnds(line, n);
    if n >= |line| {
    } else if n < |rest| {
      FindsHeader(line, rest, n + 1, bufsize);
    }
  }

  lemma {:induction false} HeaderFound(line: string, more: string, bufsize: nat)
    requires HeaderLine(line, bufsize)
    ensures var rest := line + more;
            HeaderLength(rest, Min(1, |rest|), bufsize) == Some(|line|)
            && rest[..|line|] == line && rest[|line|..] == more
  {
    FindsHeader(line, line + more, Min(1, |line + more|), bufsize);
  }

  /**
   * Decoding what was encoded, with anything behind it: the payload comes back and reading stops
   * right after the zero-size line, exactly when no line end behind a chunk is split by a short read.
   */
  lemma {:induction false} RoundTrip(
    chunks: seq<Chunk>, last: string, tail: string, at: nat, reader: Reader, bufsize: nat)
    requires ValidLast(last, bufsize) && forall c :: c in chunks ==> ValidChunk(c, bufsize)
    ensures Decode(Encode(chunks, last) + tail, at, reader, bufsize) ==
            if LineEndsArriveWhole(chunks, last, at, reader, |tail|)
            then Complete(Payload(chunks), at + |Encode(chunks, last)|) else Malformed
    decreases |chunks|
  {
    hide HeaderLength; hide SizeOf; hide Decode; hide HeaderLine; hide Delivered;
    if chunks == [] {
      HeaderFound(last, tail, bufsize);
      DecodeStep(last + tail, at, reader, bufsize);
    } else {
      var c, more := chunks[0], Encode(chunks[1..], last);
      assert c in chunks;
      RoundTrip(chunks[1..], last, tail, at + |c.line| + |c.data| + 2, reader, bufsize);
      OneChunk(c, more + tail, at, reader, bufsize);
      Regroup(c.line, c.data, CRLF, more, tail);
    }
  }

  lemma {:induction false} Regroup(a: string, b: string, c: string, d: string, e: string)
    ensures a + (b + (c + d)) + e == a + (b + (c + (d + e)))
  {
  }

  /** Decoding one whole chunk. */
  lemma {:induction false} OneChunk(c: Chunk, more: string, at: nat, reader: Reader, bufsize: nat)
    requires ValidChunk(c, bufsize)
    ensures var end := at + |c.line| + |c.data|;
            var next := Decode(more, end + 2, reader, bufsize);
            Decode(c.line + (c.data + (CRLF + more)), at, reader, bufsize) ==
            if Delivered(reader, end, 2, 2 + |more|) < 2 || next.Malformed? then Malformed
            else Complete(c.data + next.payload, next.end)
  {
    hide HeaderLength; hide SizeOf; hide Decode; hide HeaderLine; hide Delivered;
    var body := c.data + (CRLF + more);
    HeaderFound(c.line, body, bufsize);
    DecodeStep(c.line + body, at, reader, bufsize);
    assert body[..|c.data|] == c.data && body[|c.data|..] == CRLF + more;
    assert (CRLF + more)[..2] == CRLF && (CRLF + more)[2..] == more;
  }

  /** No proper prefix of an encoding decodes, however the reads are split. */
  lemma {:induction false} ProperPrefixFails(
    chunks: seq<Chunk>, last: string, prefix: string, at: nat, reader: Reader, bufsize: nat)
    requires ValidLast(last, bufsize) && forall c :: c in chunks ==> ValidChunk(c, bufsize)
    requires prefix < Encode(chunks, last)
    ensures Decode(prefix, at, reader, bufsize) == Malformed
    decreases |chunks|
  {
    hide HeaderLength; hide SizeOf; hide Decode; hide HeaderLine; hide Delivered;
    DecodeStep(prefix, at, reader, bufsize);
    var line := if chunks == [] then last else chunks[0].line;
    if chunks != [] {
      assert chunks[0] in chunks;
    }
    assert line <= Encode(chunks, last);
    if |prefix| < |line| {
      assert prefix == line[..|prefix|];
      CutHeader(line, prefix, bufsize);
    } else {
      var c, more := chunks[0], Encode(chunks[1..], last);
      assert c in chunks;
      var body := prefix[|line|..];
      assert prefix == line + body;
      HeaderFound(line, body, bufsize);
      CutBody(c, more, body);
      if |body| >= |c.data| + 2 {
        var rest := body[|c.data| + 2..];
        ProperPrefixFails(chunks[1..], last, rest, at + |c.line| + |c.data| + 2, reader, bufsize);
        SliceSlice(body, |c.data|, 2, 2);
      } else if |body| >= |c.data| {
        NotClosed(body[|c.data|..], at + |c.line| + |c.data|, reader);
      }
    }
  }

  /** A proper prefix yields a prefix of the payload before it is refused. */
  lemma {:induction false} ProperPrefixYields(
    chunks: seq<Chunk>, last: string, prefix: string, at: nat, reader: Reader, bufsize: nat)
    requires ValidLast(last, bufsize) && forall c :: c in chunks ==> ValidChunk(c, bufsize)
    requires prefix < Encode(chunks, last)
    ensures Yielded(prefix, at, reader, bufsize) <= Payload(chunks)
    decreases |chunks|
  {
    hide HeaderLength; hide SizeOf; hide Yielded; hide YieldedFrom; hide HeaderLine; hide Delivered;
    YieldedStep(prefix, at, reader, bufsize);
    var line := if chunks == [] then last else chunks[0].line;
    if chunks != [] {
      assert chunks[0] in chunks;
    }
    assert line <= Encode(chunks, last);
    if |prefix| < |line| {
      assert prefix == line[..|prefix|];
      CutHeader(line, prefix, bufsize);
    } else {
      var c, more := chunks[0], Encode(chunks[1..], last);
      assert c in chunks;
      var body := prefix[|line|..];
      assert prefix == line + body;
      HeaderFound(line, body, bufsize);
      CutBody(c, more, body);
      if |body| >= |c.data| + 2 {
        ProperPrefixYields(chunks[1..], last, body[|c.data| + 2..], at + |c.line| + |c.data| + 2, reader, bufsize);
      }
      CutChunkYields(c.data, Payload(chunks[1..]), body, at + |c.line|, reader, bufsize);
    }
  }

  lemma {:induction false} CutChunkYields(
    data: string, later: string, body: string, at: nat, reader: Reader, bufsize: nat)
    requires if |body| < |data| then body <= data else body[..|data|] == data
    requires |body| >= |data| + 2 ==>
               Yielded(body[|data| + 2..], at + |data| + 2, reader, bufsize) <= later
    ensures YieldedFrom(body, at, |data|, reader, bufsize) <= data + later
  {
    hide Yielded; hide ChunkCloses;
    if |body| >= |data| && ChunkCloses(body[|data|..], at + |data|, reader) {
      ClosingBytes(body[|data|..], at + |data|, reader);
      SliceSlice(body, |data|, 2, 2);
    }
  }

  lemma {:induction false} CutHeader(line: string, prefix: string, bufsize: nat)
    requires HeaderLine(line, bufsize) && prefix <= line && |prefix| < |line|
    ensures HeaderLength(prefix, Min(1, |prefix|), bufsize).None?
  {
    FindsHeader(line, prefix, Min(1, |prefix|), bufsize);
  }

  lemma {:induction false} NotClosed(after: string, at: nat, reader: Reader)
    requires |after| < 2
    ensures !ChunkCloses(after, at, reader)
  {
  }

  lemma {:induction false} CutBody(c: Chunk, more: string, body: string)
    requires c.line + body < c.line + (c.data + (CRLF + more))
    ensures |body| >= |c.data| + 2 ==> body[|c.data| + 2..] < more
    ensures if |body| < |c.data| then body <= c.data else body[..|c.data|] == c.data
  {
    var whole := c.data + (CRLF + more);
    assert body == (c.line + body)[|c.line|..] && whole == (c.line + whole)[|c.line|..];
    assert body < whole;
    if |body| >= |c.data| + 2 {
      assert whole[|c.data| + 2..] == more;
    }
  }

  // ----- the ordinary spelling of header lines

  /** Nothing, or a semicolon and extensions without a line end. */
  predicate Extension(ext: string) {
    (ext == [] || ext[0] == ';') && forall k :: 0 <= k <= |ext| ==> !LineEnds(ext, k)
  }

  /** A numeral and extensions without a line end, closed by one. */
  lemma {:induction false} HexHeaderLine(digits: string, ext: string, bufsize: nat)
    requires Extension(ext) && |digits + ext| + 2 <= bufsize
    requires forall k :: 0 <= k < |digits| ==> digits[k] != '\r'
    ensures HeaderLine(digits + ext + CRLF, bufsize)
  {
    var line := digits + ext + CRLF;
    forall k | 0 <= k < |line| ensures !LineEnds(line, k) {
      if |digits| + 2 <= k <= |digits + ext| {
        assert line[k - 2] == ext[k - |digits| - 2] && line[k - 1] == ext[k - |digits| - 1];
        assert !LineEnds(ext, k - |digits|);
      }
    }
  }

  /** Hexadecimal digits, with or without extensions, are a header line that states their value. */
  lemma {:induction false} DigitsLine(digits: string, ext: string, bufsize: nat)
    requires Extension(ext) && AllDigits(digits, 16) && |digits + ext| + 2 <= bufsize
    ensures HeaderLine(digits + ext + CRLF, bufsize) && SizeOf(digits + ext + CRLF) == Some(Value(digits, 16))
  {
    hide ParseInt; hide HeaderLine; hide LineEnds; hide Value;
    var line := digits + ext + CRLF;
    DigitsArePlain(digits, 16);
    HexHeaderLine(digits, ext, bufsize);
    if ext == [] {
      assert line == digits + CRLF;
      FieldIsAll(digits + CRLF);
      DigitsWithLineEnd(digits);
    } else {
      assert line == digits + ([';'] + (ext[1..] + CRLF));
      FieldIsPrefix(digits, ext[1..] + CRLF);
      DigitsParse(digits, 16);
    }
  }

  /** The size in hexadecimal, in any mix of cases and with any leading zeros, is a header line that states it. */
  lemma {:induction false} HexLine(digits: string, zeros: nat, n: nat, ext: string, bufsize: nat)
    requires Lowered(digits) == ZFill(Print(n, 16), zeros)
    requires Extension(ext) && |digits + ext| + 2 <= bufsize
    ensures HeaderLine(digits + ext + "\r\n", bufsize) && SizeOf(digits + ext + "\r\n") == Some(n)
  {
    hide Print; hide ZFill; hide HeaderLine; hide SizeOf; hide Value;
    SpelledValue(digits, zeros, n, 16);
    DigitsLine(digits, ext, bufsize);
  }

  lemma {:induction false} FieldIsAll(s: string)
    requires forall k :: 0 <= k < |s| ==> s[k] != ';'
    ensures BeforeSemicolon(s) == s
  {
    if s == [] {
    } else {
      FieldIsAll(s[1..]);
    }
  }

  lemma {:induction false} FieldIsPrefix(s: string, more: string)
    requires forall k :: 0 <= k < |s| ==> s[k] != ';'
    ensures BeforeSemicolon(s + ([';'] + more)) == s
  {
    if s == [] {
    } else {
      assert (s + ([';'] + more))[1..] == s[1..] + ([';'] + more);
      FieldIsPrefix(s[1..], more);
    }
  }

  lemma {:induction false} DigitsWithLineEnd(digits: string)
    requires AllDigits(digits, 16)
    ensures ParseInt(digits + CRLF, 16) == Some(Value(digits, 16))
  {
    hide ParseInt; hide Value;
    var f := Form("", "", "", [digits], CRLF);
    FormsAreRead(f, 16);
    assert Concat([digits]) == digits by {
      assert Concat([digits]) == digits + Concat<char>([]);
    }
    assert FormText(f) == digits + CRLF;
  }

  /** A reader that delivers single bytes makes the decoder refuse a correct encoding. */
  lemma {:induction false} SplitLineEndIsRefused(bufsize: nat)
    requires bufsize >= 3
    ensures Decode("1\r\n" + ("A" + ("\r\n" + "0\r\n")), 0, (at, n) => 1, bufsize) == Malformed
  {
    hide Decode; hide HeaderLine; hide SizeOf;
    var reader: Reader := (at, n) => 1;
    assert Value("1", 16) == 1 by {
      assert Front("1") == [];
    }
    NoExtension();
    DigitsLine("1", "", bufsize);
    assert "1" + "" + CRLF == "1\r\n";
    OneChunk(Chunk("1\r\n", "A"), "0\r\n", 0, reader, bufsize);
  }

  /** A chunk as RFC 7230 writes it: the size in hexadecimal, the data, and line ends. */
  datatype Sent = Sent(size: string, data: string)

  function Wire(sent: seq<Sent>): string {
    if sent == [] then "0\r\n" else sent[0].size + "\r\n" + (sent[0].data + ("\r\n" + Wire(sent[1..])))
  }

  function DataOf(sent: seq<Sent>): string {
    if sent == [] then "" else sent[0].data + DataOf(sent[1..])
  }

  function ToChunks(sent: seq<Sent>): seq<Chunk> {
    if sent == [] then [] else [Chunk(sent[0].size + "" + CRLF, sent[0].data)] + ToChunks(sent[1..])
  }

  predicate ValidSent(s: Sent, bufsize: nat) {
    s.data != "" && Lowered(s.size) == Print(|s.data|, 16) && |s.size| + 2 <= bufsize
  }

  lemma {:induction false} WireIsEncoding(sent: seq<Sent>, bufsize: nat)
    requires bufsize >= 3 && forall s :: s in sent ==> ValidSent(s, bufsize)
    ensures Encode(ToChunks(sent), "0" + "" + CRLF) == Wire(sent) && Payload(ToChunks(sent)) == DataOf(sent)
    ensures ValidLast("0" + "" + CRLF, bufsize)
    ensures forall c :: c in ToChunks(sent) ==> ValidChunk(c, bufsize)
  {
    hide HeaderLine; hide SizeOf; hide Print;
    NoExtension();
    if sent == [] {
      assert "0" + "" + CRLF == "0\r\n" && Value("0", 16) == 0 by {
        assert Front("0") == [];
      }
      DigitsLine("0", "", bufsize);
    } else {
      WireIsEncoding(sent[1..], bufsize);
      var s, chunks := sent[0], ToChunks(sent);
      assert ValidSent(s, bufsize);
      assert Lowered(s.size) == ZFill(Print(|s.data|, 16), 0);
      assert s.size + "" == s.size;
      HexLine(s.size, 0, |s.data|, "", bufsize);
      assert chunks[0] == Chunk(s.size + "" + CRLF, s.data) && chunks[1..] == ToChunks(sent[1..]);
    }
  }

  lemma {:induction false} NoExtension()
    ensures Extension("")
  {
  }

  lemma {:induction false} WholeReads(chunks: seq<Chunk>, last: string, at: nat, reader: Reader, left: nat)
    requires forall at, n :: reader(at, n) >= n
    ensures LineEndsArriveWhole(chunks, last, at, reader, left)
  {
    if chunks == [] {
    } else {
      WholeReads(chunks[1..], last, at + |chunks[0].line| + |chunks[0].data| + 2, reader, left);
    }
  }

  /** A body on the wire, read in whole reads, decodes to its data and ends after the zero-size line. */
  lemma {:induction false} WireRoundTrip(sent: seq<Sent>, tail: string, at: nat, reader: Reader, bufsize: nat)
    requires bufsize >= 3 && (forall s :: s in sent ==> ValidSent(s, bufsize)) && forall at, n :: reader(at, n) >= n
    ensures Decode(Wire(sent) + tail, at, reader, bufsize) == Complete(DataOf(sent), at + |Wire(sent)|)
  {
    hide Decode; hide Wire; hide Encode; hide LineEndsArriveWhole; hide ValidChunk; hide ValidLast; hide ValidSent;
    WireIsEncoding(sent, bufsize);
    var chunks, last := ToChunks(sent), "0" + "" + CRLF;
    WholeReads(chunks, last, at, reader, |tail|);
    RoundTrip(chunks, last, tail, at, reader, bufsize);
  }

  /**
   * With `n` bytes read and no line end among them, the header line reaches to the first line end, which
   * must lie within the buffer size.
   */
  lemma {:induction false} HeaderLengthIs(rest: string, n: nat, bufsize: nat, h: nat)
    requires n <= |rest| && (n <= 1 || n <= bufsize)
    ensures HeaderLength(rest, n, bufsize) == Some(h) <==>
            n <= h <= |rest| && 2 <= h <= bufsize && rest[h - 2] == '\r' && rest[h - 1] == '\n'
            && forall k :: 0 <= k && n <= k + 2 < h ==> !(rest[k] == '\r' && rest[k + 1] == '\n')
    decreases |rest| - n
  {
    HeaderStep(rest, n, bufsize);
    hide HeaderLength;
    if LineEnds(rest, n) || n == |rest| || n + 1 > bufsize {
    } else {
      HeaderLengthIs(rest, n + 1, bufsize, h);
    }
  }

  // ----- storing the body

  /** A body kept in memory or in a temporary file. */
  class BodyFile {
    const temporary: bool
    var contents: string

    constructor (temporary: bool)
      ensures this.temporary == temporary && contents == []
    {
      this.temporary, contents := temporary, [];
    }

    method Write(part: string)
      modifies this
      ensures contents == old(contents) + part
    {
      contents := contents + part;
    }
  }

  /** Non-chunked bodies: as many bytes as announced, or as many as there are. */
  method IterBody(input: Input, contentLength: int, bufsize: nat) returns (parts: seq<string>)
    requires input.Valid() && bufsize > 0
    modifies input
    ensures input.Valid() && PartsWithin(parts, bufsize)
    ensures input.pos == Min(old(input.pos) + DataLength(contentLength), |input.data|)
    ensures Concat(parts) == input.data[old(input.pos)..input.pos]
  {
    hide Concat; hide Delivered;
    ConcatNone<char>();
    ghost var start := input.pos;
    parts := [];
    var maxread := DataLength(contentLength);
    while maxread > 0
      invariant input.Valid() && PartsWithin(parts, bufsize) && start <= input.pos
      invariant 0 <= maxread && input.pos - start + maxread == DataLength(contentLength)
      invariant Concat(parts) == input.data[start..input.pos]
    {
      ghost var here := input.pos;
      var part := input.Read(Min(maxread, bufsize));
      if part == [] {
        break;
      }
      ConcatSnoc(parts, part);
      SliceJoin(input.data, start, here, input.pos);
      parts := parts + [part];
      maxread := maxread - |part|;
    }
  }

  /** Collects the parts; once they exceed the limit the body moves to a temporary file, bytes and all. */
  method StoreBody(parts: seq<string>, memfileMax: nat) returns (body: BodyFile)
    ensures fresh(body) && body.contents == Concat(parts)
    ensures body.temporary <==> |Concat(parts)| > memfileMax
  {
    hide Concat;
    ConcatNone<char>();
    body := new BodyFile(false);
    var bodySize, isTempFile := 0, false;
    for i := 0 to |parts|
      invariant fresh(body) && body.contents == Concat(parts[..i])
      invariant bodySize == |body.contents| && isTempFile == body.temporary == (bodySize > memfileMax)
    {
      body.Write(parts[i]);
      bodySize := bodySize + |parts[i]|;
      assert parts[..i + 1] == parts[..i] + [parts[i]];
      ConcatSnoc(parts[..i], parts[i]);
      if !isTempFile && bodySize > memfileMax {
        var tmp := body;
        body := new BodyFile(true);
        body.Write(tmp.contents);
        assert body.contents == tmp.contents;
        isTempFile := true;
      }
    }
    assert parts[..|parts|] == parts;
  }

  /** The request body, or the error raised for a malformed chunked body. */
  method Body(input: Input, chunked: bool, contentLength: int, memfileMax: nat) returns (body: Option<BodyFile>)
    requires input.Valid() && memfileMax > 0
    modifies input
    ensures var rest := old(input.Rest());
            var d := Decode(rest, old(input.pos), input.reader, memfileMax);
            if chunked && d.Malformed? then body.None?
            else (
              && body.Some? && fresh(body.value)
              && body.value.contents == (if chunked then d.payload else rest[..Min(DataLength(contentLength), |rest|)])
              && (body.value.temporary <==> |body.value.contents| > memfileMax))
  {
    hide Decode; hide Concat;
    var parts;
    ghost var start := input.pos;
    if chunked {
      var ok;
      parts, ok := IterChunked(input, memfileMax);
      if !ok {
        return None;
      }
    } else {
      parts := IterBody(input, contentLength, memfileMax);
      SliceSlice(input.data, start, 0, input.pos - start);
    }
    var stored := StoreBody(parts, memfileMax);
    return Some(stored);
  }
}
