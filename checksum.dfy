/**
 `ChecksumPrior`, the last field of every frame: a big-endian CRC-32C of all
 the bytes before it. The bytes are always hashed from offset 0 of the
 buffer, so the field is only meaningful in a buffer that holds exactly one
 frame starting at offset 0.
 */
module Checksum {
  import opened Bytes
  import opened Wire
  import Crc32c

  /** The CRC a checksum field at `off` must carry: CRC-32C of `buf[0..off)`. */
  function PriorCrc(buf: seq<byte>, off: nat): uint32
    requires off <= |buf|
  {
    Crc32c.Crc32c(buf[..off])
  }

  /** `byteLength`: the field is as wide as a big-endian 32-bit integer. */
  function ByteLength(): (n: nat)
    ensures forall x: uint32 :: |BE32(x)| == n
  {
    4
  }

  /** `readFrom`: read the stored 32-bit value and compare it with the CRC of
      everything before it. A short buffer is reported as it is, without a
      comparison; a mismatch is an error ranged over the four bytes of the
      field. */
  function ReadFrom(buf: seq<byte>, off: nat): (r: ReadResult<uint32>)
    ensures r.Read? ==> r.offset == off + ByteLength() <= |buf|
  {
    var res := ReadUInt32BE(buf, off);
    if res.ReadFail? then res
    else
      var got := PriorCrc(buf, off);
      if got != res.value then ReadFail(ChecksumMismatch(res.value, got, off, res.offset))
      else res
  }

  /** The buffer after `writeInto` at `off`: the prefix CRC in the four bytes
      at `off`, everything else as it was. */
  function Stamp(buf: seq<byte>, off: nat): (r: seq<byte>)
    requires off + ByteLength() <= |buf|
    ensures |r| == |buf| && r[off..off + 4] == BE32(PriorCrc(buf, off))
  {
    Put32(buf, off, PriorCrc(buf, off))
  }

  /** `writeInto`: hash `buffer[0..offset)` and write the CRC as four
      big-endian bytes at `offset`. As with `Buffer.slice`, an offset past
      the end hashes the whole buffer; the write then fails. */
  method WriteInto(buffer: array<byte>, offset: nat) returns (r: WriteResult)
    modifies buffer
    ensures offset + ByteLength() > buffer.Length ==>
              r == WriteFail(ShortBuffer(4, buffer.Length - offset, offset))
              && buffer[..] == old(buffer[..])
    ensures offset + ByteLength() <= buffer.Length ==>
              r == Wrote(offset + ByteLength()) && buffer[..] == Stamp(old(buffer[..]), offset)
  {
    var end := if offset <= buffer.Length then offset else buffer.Length;
    var checksum := Crc32c.Crc32c(buffer[..end]);
    r := WriteUInt32BE(buffer, offset, checksum);
  }

  // ---------------------------------------------------------------------
  // Properties of the field.

  /** Writing the checksum changes exactly the four bytes of the field, and
      reading it back at the same offset succeeds with the prefix CRC and an
      end offset four bytes on. */
  lemma WriteThenRead(buf: seq<byte>, off: nat)
    requires off + ByteLength() <= |buf|
    ensures Stamp(buf, off)[..off] == buf[..off]
    ensures Stamp(buf, off)[off + 4..] == buf[off + 4..]
    ensures ReadFrom(Stamp(buf, off), off) == Read(off + 4, PriorCrc(buf, off))
  {
    var s := Stamp(buf, off);
    assert s[..off] == buf[..off];
    assert s == buf[..off] + BE32(PriorCrc(buf, off)) + buf[off + 4..];
    ReadUInt32BEOfBE32(buf[..off], PriorCrc(buf, off), buf[off + 4..]);
  }

  /** Stamping the four bytes after `p` appends the CRC of `p`. */
  lemma StampAfter(buf: seq<byte>, p: seq<byte>)
    requires |buf| == |p| + 4 && buf[..|p|] == p
    ensures Stamp(buf, |p|) == p + BE32(Crc32c.Crc32c(p))
  {
    assert buf[|p| + 4..] == [];
  }

  /** A field that does not fit is a short-buffer error, passed through
      without hashing. */
  lemma ShortBufferPassesThrough(buf: seq<byte>, off: nat)
    requires |buf| < off + ByteLength()
    ensures ReadFrom(buf, off) == ReadFail(ShortBuffer(4, |buf| - off, off))
  {
  }

  /** The field reads successfully exactly when it holds the big-endian CRC
      of the prefix, and the value read is that CRC. */
  lemma ReadFromAccepts(buf: seq<byte>, off: nat)
    ensures ReadFrom(buf, off).Read? <==>
              off + 4 <= |buf| && buf[off..off + 4] == BE32(PriorCrc(buf, off))
    ensures ReadFrom(buf, off).Read? ==> ReadFrom(buf, off).value == PriorCrc(buf, off)
  {
    if off + 4 <= |buf| {
      var res := ReadUInt32BE(buf, off);
      if buf[off..off + 4] == BE32(PriorCrc(buf, off)) {
        BE32Injective(res.value, PriorCrc(buf, off));
      }
    }
  }

  /** Where the field fits, the only way for it to fail is a mismatch
      ranged over its four bytes. */
  lemma OnlyMismatch(buf: seq<byte>, off: nat)
    requires off + 4 <= |buf|
    ensures ReadFrom(buf, off).ReadFail? ==>
              ReadFrom(buf, off).err.ChecksumMismatch?
              && ReadFrom(buf, off).err.start == off && ReadFrom(buf, off).err.end == off + 4
  {
  }

  /** Any other four bytes give a checksum mismatch ranged over
      `[off, off + 4)`, naming the stored value and the recomputed CRC. */
  lemma MismatchIsRanged(buf: seq<byte>, off: nat)
    requires off + 4 <= |buf| && buf[off..off + 4] != BE32(PriorCrc(buf, off))
    ensures ReadFrom(buf, off).ReadFail?
    ensures var e := ReadFrom(buf, off).err;
            e.ChecksumMismatch? && e.start == off && e.end == off + 4
            && BE32(e.stored) == buf[off..off + 4] && e.computed == PriorCrc(buf, off)
  {
    ReadFromAccepts(buf, off);
  }
}
