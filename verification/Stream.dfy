/**
 * Byte streams whose reads may be short. Bytes are characters. How many bytes a read delivers is
 * decided by an arbitrary function of the position and the size asked for: at least one byte and
 * at most what was asked for, until the stream ends.
 */
module Stream {
  type Reader = (nat, nat) -> nat

  /** The number of bytes a read of size `n` at position `at` delivers when `left` bytes are left. */
  function Delivered(reader: Reader, at: nat, n: nat, left: nat): (k: nat)
    ensures k <= n && k <= left && (n > 0 && left > 0 ==> k > 0)
  {
    var most := if n < left then n else left;
    var wanted := reader(at, n);
    if most == 0 then 0 else if wanted < 1 then 1 else if wanted > most then most else wanted
  }

  class Input {
    const data: string
    const reader: Reader
    var pos: nat

    constructor (data: string, reader: Reader)
      ensures Valid() && this.data == data && this.reader == reader && pos == 0
    {
      this.data, this.reader, pos := data, reader, 0;
    }

    ghost predicate Valid()
      reads this
    {
      pos <= |data|
    }

    /** What has not been read yet. */
    ghost function Rest(): string
      reads this
      requires Valid()
    {
      data[pos..]
    }

    method Read(n: nat) returns (b: string)
      requires Valid()
      modifies this
      ensures Valid() && |b| == Delivered(reader, old(pos), n, |data| - old(pos))
      ensures pos == old(pos) + |b| && b == data[old(pos)..pos]
    {
      var k := Delivered(reader, pos, n, |data| - pos);
      b := data[pos..pos + k];
      pos := pos + k;
    }

    method Seek(offset: nat)
      requires offset <= |data|
      modifies this
      ensures Valid() && pos == offset
    {
      pos := offset;
    }
  }

  /** No part is empty or longer than the limit. */
  predicate PartsWithin(parts: seq<string>, limit: nat) {
    forall i :: 0 <= i < |parts| ==> 0 < |parts[i]| <= limit
  }

  lemma {:induction false} PartsWithinConcat(a: seq<string>, b: seq<string>, limit: nat)
    requires PartsWithin(a, limit) && PartsWithin(b, limit)
    ensures PartsWithin(a + b, limit)
  {
  }

  function Min(a: nat, b: nat): nat {
    if a < b then a else b
  }
}
