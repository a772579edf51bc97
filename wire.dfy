/**
 The primitive field codecs the frame layout is built from, as the `bufrw`
 library lays them out: an unsigned byte, a big-endian 16-bit and a
 big-endian 32-bit unsigned integer, and `str2`, a byte string preceded by
 its length as a big-endian 16-bit integer.

 A reader takes a buffer and an offset and either fails or returns the
 value together with the offset just past it, which is how `bufrw` chains
 the fields of a struct.
 */
module Wire {
  import opened Bytes

  /** The ways a read or write of the frame layout can fail. */
  datatype Error =
    | ShortBuffer(needed: nat, actual: int, offset: nat)
      // fewer than `needed` bytes are left at `offset`; `actual` is what is left
    | ChecksumMismatch(stored: uint32, computed: uint32, start: nat, end: nat)
      // the checksum stored at [start, end) is `stored`, the prefix hashes to `computed`
    | InvalidSwitchValue(value: int)
      // the type tag names no registered body
    | LengthOutOfRange(length: nat)
      // a `str2` body longer than its 16-bit length field can state
    | ShortRead(remaining: nat, readOffset: nat)
      // a whole-buffer read stopped at `readOffset` with bytes left over

  /** The result of reading one field. */
  datatype ReadResult<T> = Read(offset: nat, value: T) | ReadFail(err: Error)

  /** The result of writing one field into a buffer: the offset just past it. */
  datatype WriteResult = Wrote(offset: nat) | WriteFail(err: Error)

  /** The error a reader reports when `n` bytes are needed at `off`. */
  function Short(buf: seq<byte>, off: nat, n: nat): Error {
    ShortBuffer(n, |buf| - off, off)
  }

  // ---------------------------------------------------------------------
  // Encoders.

  /** The largest length a `str2` length field can hold. */
  const MaxStr2: nat := 0xFFFF

  /** Big-endian encoding of a 16-bit unsigned integer. */
  function BE16(n: nat): (s: seq<byte>)
    requires n <= MaxStr2
    ensures |s| == 2
  {
    [(n / 0x100) as byte, (n % 0x100) as byte]
  }

  /** Big-endian encoding of a 32-bit unsigned integer. */
  function BE32(x: uint32): (s: seq<byte>)
    ensures |s| == 4
  {
    var q1 := x / 0x100;
    var q2 := q1 / 0x100;
    [(q2 / 0x100) as byte, (q2 % 0x100) as byte, (q1 % 0x100) as byte, (x % 0x100) as byte]
  }

  /** A `str2` field: the length, then the bytes. */
  function Str2(msg: seq<byte>): (s: seq<byte>)
    requires |msg| <= MaxStr2
    ensures |s| == 2 + |msg| && s[2..] == msg
  {
    BE16(|msg|) + msg
  }

  // ---------------------------------------------------------------------
  // Decoders.

  /** The value of two big-endian bytes. */
  function FromBE16(a: byte, b: byte): nat {
    (a as int) * 0x100 + (b as int)
  }

  /** The value of four big-endian bytes. */
  function FromBE32(a: byte, b: byte, c: byte, d: byte): uint32 {
    (((a as int) * 0x100 + (b as int)) * 0x100 + (c as int)) * 0x100 + (d as int)
  }

  function ReadUInt8(buf: seq<byte>, off: nat): (r: ReadResult<int>)
    ensures r.Read? <==> off + 1 <= |buf|
    ensures r.Read? ==> r.offset == off + 1 && r.value == buf[off] as int
    ensures r.ReadFail? ==> r.err == Short(buf, off, 1)
  {
    if off + 1 > |buf| then ReadFail(Short(buf, off, 1))
    else Read(off + 1, buf[off] as int)
  }

  function ReadUInt16BE(buf: seq<byte>, off: nat): (r: ReadResult<nat>)
    ensures r.Read? <==> off + 2 <= |buf|
    ensures r.Read? ==> r.offset == off + 2 && r.value == FromBE16(buf[off], buf[off + 1])
                        && r.value <= MaxStr2
    ensures r.ReadFail? ==> r.err == Short(buf, off, 2)
  {
    if off + 2 > |buf| then ReadFail(Short(buf, off, 2))
    else Read(off + 2, FromBE16(buf[off], buf[off + 1]))
  }

  function ReadUInt32BE(buf: seq<byte>, off: nat): (r: ReadResult<uint32>)
    ensures r.Read? <==> off + 4 <= |buf|
    ensures r.Read? ==> r.offset == off + 4 && BE32(r.value) == buf[off..off + 4]
    ensures r.ReadFail? ==> r.err == Short(buf, off, 4)
  {
    if off + 4 > |buf| then ReadFail(Short(buf, off, 4))
    else
      var v := FromBE32(buf[off], buf[off + 1], buf[off + 2], buf[off + 3]);
      BE32Of(buf[off], buf[off + 1], buf[off + 2], buf[off + 3]);
      assert buf[off..off + 4] == [buf[off], buf[off + 1], buf[off + 2], buf[off + 3]];
      Read(off + 4, v)
  }

  /** A `str2` field: a 16-bit length, then that many bytes. A length that
      runs past the end of the buffer is a short buffer at the start of the
      bytes. */
  function ReadStr2(buf: seq<byte>, off: nat): (r: ReadResult<seq<byte>>)
    ensures r.Read? ==> |r.value| <= MaxStr2 && off + 2 + |r.value| == r.offset <= |buf|
    ensures r.Read? ==> FromBE16(buf[off], buf[off + 1]) == |r.value|
                        && r.value == buf[off + 2..r.offset]
  {
    match ReadUInt16BE(buf, off)
    case ReadFail(e) => ReadFail(e)
    case Read(start, n) =>
      if start + n > |buf| then ReadFail(Short(buf, start, n))
      else Read(start + n, buf[start..start + n])
  }

  /** The bytes a successful `str2` read consumed are the encoding of what it
      returned. */
  lemma Str2At(buf: seq<byte>, off: nat)
    requires off + 2 <= |buf|
    requires off + 2 + FromBE16(buf[off], buf[off + 1]) <= |buf|
    ensures FromBE16(buf[off], buf[off + 1]) <= MaxStr2
    ensures var n := FromBE16(buf[off], buf[off + 1]);
            buf[off..off + 2 + n] == Str2(buf[off + 2..off + 2 + n])
  {
    BE16Of(buf[off], buf[off + 1]);
    SplitTwo(buf, off, FromBE16(buf[off], buf[off + 1]));
  }

  lemma SplitTwo(buf: seq<byte>, off: nat, n: nat)
    requires off + 2 + n <= |buf|
    ensures buf[off..off + 2 + n] == [buf[off], buf[off + 1]] + buf[off + 2..off + 2 + n]
  {
  }

  // ---------------------------------------------------------------------
  // The encoders and decoders are inverse to each other.

  lemma FromBE16OfBE16(n: nat)
    requires n <= MaxStr2
    ensures FromBE16(BE16(n)[0], BE16(n)[1]) == n
  {
  }

  lemma BE16Of(a: byte, b: byte)
    ensures FromBE16(a, b) <= MaxStr2 && BE16(FromBE16(a, b)) == [a, b]
  {
  }

  lemma FromBE32OfBE32(x: uint32)
    ensures FromBE32(BE32(x)[0], BE32(x)[1], BE32(x)[2], BE32(x)[3]) == x
  {
  }

  lemma BE32Of(a: byte, b: byte, c: byte, d: byte)
    ensures BE32(FromBE32(a, b, c, d)) == [a, b, c, d]
  {
    var q2 := (a as int) * 0x100 + (b as int);
    var q1 := q2 * 0x100 + (c as int);
    DigitOf(q1, d as int);
    DigitOf(q2, c as int);
    DigitOf(a as int, b as int);
  }

  /** Dividing `q * 256 + r` by 256 gives back `q` and `r`. */
  lemma DigitOf(q: int, r: int)
    requires 0 <= r < 0x100
    ensures (q * 0x100 + r) / 0x100 == q && (q * 0x100 + r) % 0x100 == r
  {
  }

  /** Different values have different encodings. */
  lemma BE32Injective(x: uint32, y: uint32)
    requires BE32(x) == BE32(y)
    ensures x == y
  {
    FromBE32OfBE32(x);
    FromBE32OfBE32(y);
  }

  /** Reading back what the encoder wrote gives the value and the offset
      just past it. */
  lemma ReadUInt32BEOfBE32(pre: seq<byte>, x: uint32, post: seq<byte>)
    ensures ReadUInt32BE(pre + BE32(x) + post, |pre|) == Read(|pre| + 4, x)
  {
    var buf := pre + BE32(x) + post;
    assert buf[|pre|..|pre| + 4] == BE32(x);
    var r := ReadUInt32BE(buf, |pre|);
    BE32Injective(r.value, x);
  }

  lemma ReadStr2OfStr2(pre: seq<byte>, msg: seq<byte>, post: seq<byte>)
    requires |msg| <= MaxStr2
    ensures ReadStr2(pre + Str2(msg) + post, |pre|) == Read(|pre| + 2 + |msg|, msg)
  {
    var buf := pre + Str2(msg) + post;
    var off := |pre|;
    assert buf[off] == BE16(|msg|)[0] && buf[off + 1] == BE16(|msg|)[1];
    FromBE16OfBE16(|msg|);
    assert buf[off + 2..off + 2 + |msg|] == msg;
  }

  // ---------------------------------------------------------------------
  // Writing into a buffer in place.

  /** `value` as four big-endian bytes at `offset`. */
  function Put32(buf: seq<byte>, offset: nat, value: uint32): (r: seq<byte>)
    requires offset + 4 <= |buf|
    ensures |r| == |buf| && r[offset..offset + 4] == BE32(value)
    ensures forall i :: 0 <= i < |buf| && !(offset <= i < offset + 4) ==> r[i] == buf[i]
  {
    buf[..offset] + BE32(value) + buf[offset + 4..]
  }

  /** Writes `value` as four big-endian bytes at `offset`, or reports a short
      buffer and changes nothing. */
  method WriteUInt32BE(buffer: array<byte>, offset: nat, value: uint32) returns (r: WriteResult)
    modifies buffer
    ensures offset + 4 > buffer.Length ==>
              r == WriteFail(ShortBuffer(4, buffer.Length - offset, offset))
              && buffer[..] == old(buffer[..])
    ensures offset + 4 <= buffer.Length ==>
              r == Wrote(offset + 4) && buffer[..] == Put32(old(buffer[..]), offset, value)
  {
    if offset + 4 > buffer.Length {
      return WriteFail(ShortBuffer(4, buffer.Length - offset, offset));
    }
    var bytes := BE32(value);
    buffer[offset] := bytes[0];
    buffer[offset + 1] := bytes[1];
    buffer[offset + 2] := bytes[2];
    buffer[offset + 3] := bytes[3];
    assert buffer[..] == Put32(old(buffer[..]), offset, value);
    return Wrote(offset + 4);
  }
}
