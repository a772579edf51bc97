/**
 `FrameRW`, the demo's datagram layout:

     type:1  body  checksum:4

 The one-byte type selects the body codec from `BodyCases`. Only type 1
 (`MessType`) is registered; its body is a single `str2` field `msg`. The
 checksum is `ChecksumPrior`: CRC-32C of every byte before it.

 `Encode` and `Decode` are the whole-buffer forms (`bufrw.toBufferResult` and
 `bufrw.fromBufferResult`): encoding ignores the checksum the frame carries
 and writes the computed one; decoding reads from offset 0 and requires every
 byte of the buffer to be consumed.
 */
module FrameRW {
  import opened Bytes
  import opened Wire
  import Checksum
  import Crc32c

  datatype Result<T> = Ok(value: T) | Err(error: Error)

  /** The tag of a plain string message, the only registered body. */
  const MessType: int := 1

  datatype Body = MessageBody(msg: seq<byte>)

  /** A frame as the codec sees it: the type tag, the body it selects, and
      the checksum value read from the wire. */
  datatype Frame = Frame(tag: int, body: Body, checksum: uint32)

  /** `BodyCases`: the tags that have a body codec. */
  predicate Registered(tag: int) {
    tag == MessType
  }

  /** The bytes before the checksum: the tag, then the `str2` body. */
  function Prefix(tag: int, msg: seq<byte>): (p: seq<byte>)
    requires Registered(tag) && |msg| <= MaxStr2
    ensures |p| == 3 + |msg| && p[0] as int == tag && p[3..] == msg
  {
    [tag as byte] + Str2(msg)
  }

  /** `bufrw.toBufferResult(FrameRW, f)`, which reports errors as a result. The switch looks the tag up first, so an
      unregistered tag is reported whatever the body; a message whose length
      does not fit the 16-bit length field cannot be written. */
  function Encode(f: Frame): (r: Result<seq<byte>>)
    ensures r.Ok? <==> Registered(f.tag) && |f.body.msg| <= MaxStr2
    ensures r.Ok? ==> |r.value| == 3 + |f.body.msg| + 4
  {
    if !Registered(f.tag) then Err(InvalidSwitchValue(f.tag))
    else if |f.body.msg| > MaxStr2 then Err(LengthOutOfRange(|f.body.msg|))
    else
      var p := Prefix(f.tag, f.body.msg);
      Ok(p + BE32(Crc32c.Crc32c(p)))
  }

  /** `FrameRW.readFrom`: the tag, the body it selects, then the checksum.
      An unregistered tag stops the read before the body and the checksum
      are looked at. */
  function ReadFrom(buf: seq<byte>, off: nat): (r: ReadResult<Frame>)
    ensures r.Read? ==> r.offset == off + 3 + |r.value.body.msg| + 4 <= |buf| && Registered(r.value.tag)
  {
    match ReadUInt8(buf, off)
    case ReadFail(e) => ReadFail(e)
    case Read(bodyAt, tag) =>
      if !Registered(tag) then ReadFail(InvalidSwitchValue(tag))
      else
        match ReadStr2(buf, bodyAt)
        case ReadFail(e) => ReadFail(e)
        case Read(sumAt, msg) =>
          match Checksum.ReadFrom(buf, sumAt)
          case ReadFail(e) => ReadFail(e)
          case Read(end, sum) => Read(end, Frame(tag, MessageBody(msg), sum))
  }

  /** `bufrw.fromBufferResult(FrameRW, buf)`: read at offset 0; bytes left
      over after the frame are an error. */
  function Decode(buf: seq<byte>): (r: Result<Frame>)
    ensures r.Ok? ==> Registered(r.value.tag) && |buf| == 3 + |r.value.body.msg| + 4
  {
    match ReadFrom(buf, 0)
    case ReadFail(e) => Err(e)
    case Read(end, f) =>
      if end != |buf| then Err(ShortRead(|buf| - end, end)) else Ok(f)
  }

  /** The encoder as `bufrw` runs it: size the buffer, write the tag and the
      body into it, then let `ChecksumPrior.writeInto` hash what is there and
      append the CRC in place. */
  method ToBuffer(f: Frame) returns (r: Result<seq<byte>>)
    ensures r == Encode(f)
  {
    if !Registered(f.tag) {
      return Err(InvalidSwitchValue(f.tag));
    }
    var msg := f.body.msg;
    if |msg| > MaxStr2 {
      return Err(LengthOutOfRange(|msg|));
    }
    var size := 1 + 2 + |msg| + Checksum.ByteLength();
    var buffer := new byte[size];
    WritePrefix(buffer, f.tag, msg);
    ghost var before := buffer[..];
    var w := Checksum.WriteInto(buffer, 3 + |msg|);
    Checksum.StampAfter(before, Prefix(f.tag, msg));
    EncodeIs(f);
    return Ok(buffer[..]);
  }

  /** The switch writes the tag, then the `str2` body writes its length and
      its bytes, each field after the previous one. */
  method WritePrefix(buffer: array<byte>, tag: int, msg: seq<byte>)
    requires Registered(tag) && |msg| <= MaxStr2 && 3 + |msg| <= buffer.Length
    modifies buffer
    ensures buffer[..3 + |msg|] == Prefix(tag, msg)
    ensures buffer[3 + |msg|..] == old(buffer[3 + |msg|..])
  {
    var len := BE16(|msg|);
    buffer[0] := tag as byte;
    buffer[1] := len[0];
    buffer[2] := len[1];
    forall i | 0 <= i < |msg| {
      buffer[3 + i] := msg[i];
    }
    assert buffer[..3 + |msg|] == [tag as byte] + len + msg;
  }

  lemma EncodeIs(f: Frame)
    requires Registered(f.tag) && |f.body.msg| <= MaxStr2
    ensures var p := Prefix(f.tag, f.body.msg);
            Encode(f) == Ok(p + BE32(Crc32c.Crc32c(p)))
  {
  }

  // ---------------------------------------------------------------------
  // Encoding.

  /** Encoding fails exactly for an unregistered tag (reported first) and for
      a message too long for its length field. */
  lemma EncodeFails(f: Frame)
    ensures Encode(f).Err? <==> !Registered(f.tag) || |f.body.msg| > MaxStr2
    ensures !Registered(f.tag) ==> Encode(f) == Err(InvalidSwitchValue(f.tag))
    ensures Registered(f.tag) && |f.body.msg| > MaxStr2 ==>
              Encode(f) == Err(LengthOutOfRange(|f.body.msg|))
  {
  }

  /** The layout `type:1 {len:2 msg} checksum:4`, the checksum being the
      CRC-32C of everything before it. */
  lemma EncodeLayout(f: Frame, b: seq<byte>)
    requires Encode(f) == Ok(b)
    ensures |b| == 1 + 2 + |f.body.msg| + 4
    ensures b[0] as int == f.tag == MessType
    ensures FromBE16(b[1], b[2]) == |f.body.msg|
    ensures b[3..3 + |f.body.msg|] == f.body.msg
    ensures b[3 + |f.body.msg|..] == BE32(Crc32c.Crc32c(b[..3 + |f.body.msg|]))
  {
    var msg := f.body.msg;
    var p := Prefix(f.tag, msg);
    assert b[..3 + |msg|] == p;
    assert b[3..3 + |msg|] == p[3..];
    assert b[1] == BE16(|msg|)[0] && b[2] == BE16(|msg|)[1];
    FromBE16OfBE16(|msg|);
  }

  // ---------------------------------------------------------------------
  // Decoding what was encoded.

  /** Reading a frame whose tag and length fields are well formed comes down
      to reading its checksum field. */
  lemma ReadFromWellFormed(buf: seq<byte>)
    requires 3 <= |buf| && buf[0] == 1
    requires 3 + FromBE16(buf[1], buf[2]) <= |buf|
    ensures var n := FromBE16(buf[1], buf[2]);
            ReadFrom(buf, 0) ==
              match Checksum.ReadFrom(buf, 3 + n)
              case ReadFail(e) => ReadFail(e)
              case Read(end, sum) => Read(end, Frame(1, MessageBody(buf[3..3 + n]), sum))
  {
  }

  /** The same for a whole-buffer decode. */
  lemma DecodeWellFormed(buf: seq<byte>)
    requires 3 <= |buf| && buf[0] == 1
    requires 3 + FromBE16(buf[1], buf[2]) <= |buf|
    ensures var n := FromBE16(buf[1], buf[2]);
            Decode(buf) ==
              match Checksum.ReadFrom(buf, 3 + n)
              case ReadFail(e) => Err(e)
              case Read(end, sum) =>
                if end != |buf| then Err(ShortRead(|buf| - end, end))
                else Ok(Frame(1, MessageBody(buf[3..3 + n]), sum))
  {
    ReadFromWellFormed(buf);
  }

  /** A buffer laid out as a type-1 frame whose checksum field holds the
      prefix CRC decodes to its message and that CRC. */
  lemma DecodeLaidOut(b: seq<byte>, n: nat)
    requires |b| == 3 + n + 4 && b[0] == 1 && FromBE16(b[1], b[2]) == n
    requires b[3 + n..] == BE32(Crc32c.Crc32c(b[..3 + n]))
    ensures Decode(b) == Ok(Frame(1, MessageBody(b[3..3 + n]), Crc32c.Crc32c(b[..3 + n])))
  {
    assert b[3 + n..3 + n + 4] == b[3 + n..];
    Checksum.ReadFromAccepts(b, 3 + n);
    ReadFromWellFormed(b);
  }

  /** Encode then decode: the tag and the message come back, with the
      checksum field holding the CRC that was written. */
  lemma RoundTrip(f: Frame)
    requires Registered(f.tag) && |f.body.msg| <= MaxStr2
    ensures Encode(f).Ok?
    ensures var b := Encode(f).value;
            Decode(b) == Ok(Frame(f.tag, f.body, Crc32c.Crc32c(b[..|b| - 4])))
  {
    var b := Encode(f).value;
    EncodeLayout(f, b);
    DecodeLaidOut(b, |f.body.msg|);
  }

  /** What a successful decode says about the buffer: it is laid out as a
      type-1 frame and its checksum field holds the prefix CRC. */
  lemma DecodedLayout(b: seq<byte>)
    requires Decode(b).Ok?
    ensures var g := Decode(b).value;
            var n := |g.body.msg|;
            |b| == 3 + n + 4 && b[0] == 1 && g.tag == 1 && FromBE16(b[1], b[2]) == n
            && g.body.msg == b[3..3 + n]
            && b[3 + n..] == BE32(Crc32c.Crc32c(b[..3 + n]))
            && g.checksum == Crc32c.Crc32c(b[..3 + n])
  {
    var g := Decode(b).value;
    var n := |g.body.msg|;
    assert ReadUInt8(b, 0).Read? && b[0] as int == 1;
    assert ReadStr2(b, 1) == Read(3 + n, g.body.msg);
    Checksum.ReadFromAccepts(b, 3 + n);
    assert b[3 + n..3 + n + 4] == b[3 + n..];
  }

  /** The first `3 + n` bytes of a type-1 layout are the prefix the encoder
      writes for its message. */
  lemma PrefixOfLayout(b: seq<byte>, n: nat)
    requires 3 + n <= |b| && b[0] == 1 && FromBE16(b[1], b[2]) == n
    ensures Prefix(1, b[3..3 + n]) == b[..3 + n]
  {
    var m := b[3..3 + n];
    BE16Of(b[1], b[2]);
    SplitPrefix(b, n);
    PrefixIs(m, b[0], b[1], b[2]);
  }
  lemma PrefixIs(m: seq<byte>, t: byte, x: byte, y: byte)
    requires |m| <= MaxStr2 && t == 1 && BE16(|m|) == [x, y]
    ensures Prefix(1, m) == [t] + [x, y] + m
  {
  }
  lemma SplitPrefix(b: seq<byte>, n: nat)
    requires 3 + n <= |b|
    ensures b[..3 + n] == [b[0]] + [b[1], b[2]] + b[3..3 + n]
  {
  }

  /** The encoding is canonical: every buffer that decodes is the encoding of
      what it decodes to, and its checksum field is the CRC of the rest. */
  lemma DecodeThenEncode(b: seq<byte>)
    requires Decode(b).Ok?
    ensures Encode(Decode(b).value) == Ok(b)
    ensures 4 <= |b| && Decode(b).value.checksum == Crc32c.Crc32c(b[..|b| - 4])
  {
    var g := Decode(b).value;
    var n := |g.body.msg|;
    DecodedLayout(b);
    PrefixOfLayout(b, n);
    EncodeOfLayout(g, b, n);
  }

  lemma EncodeOfLayout(g: Frame, b: seq<byte>, n: nat)
    requires g.tag == 1 && |g.body.msg| == n <= MaxStr2 && |b| == 3 + n + 4
    requires Prefix(1, g.body.msg) == b[..3 + n]
    requires b[3 + n..] == BE32(Crc32c.Crc32c(b[..3 + n]))
    ensures Encode(g) == Ok(b)
  {
    assert b == b[..3 + n] + b[3 + n..];
  }

  // ---------------------------------------------------------------------
  // Errors.

  /** An empty buffer has no tag. */
  lemma DecodeEmpty()
    ensures Decode([]) == Err(ShortBuffer(1, 0, 0))
  {
  }

  /** A buffer starting with any tag but 1 is rejected for its tag, before
      the body or the checksum is looked at. */
  lemma DecodeUnknownTag(b: seq<byte>)
    requires 1 <= |b| && b[0] != 1
    ensures Decode(b) == Err(InvalidSwitchValue(b[0] as int))
  {
  }

  /** A type-1 layout with a valid checksum field followed by more bytes
      is a short read at the end of the checksum. */
  lemma TrailingLaidOut(c: seq<byte>, n: nat)
    requires 3 + n + 4 < |c| && c[0] == 1 && FromBE16(c[1], c[2]) == n
    requires c[3 + n..3 + n + 4] == BE32(Crc32c.Crc32c(c[..3 + n]))
    ensures Decode(c) == Err(ShortRead(|c| - (3 + n + 4), 3 + n + 4))
  {
    ChecksumAccepted(c, n);
    DecodeWellFormed(c);
    var r := Checksum.ReadFrom(c, 3 + n);
    assert r.Read? && r.offset != |c|;
  }

  lemma ChecksumAccepted(c: seq<byte>, n: nat)
    requires 3 + n + 4 <= |c|
    requires c[3 + n..3 + n + 4] == BE32(Crc32c.Crc32c(c[..3 + n]))
    ensures Checksum.ReadFrom(c, 3 + n) == Read(3 + n + 4, Crc32c.Crc32c(c[..3 + n]))
  {
    Checksum.ReadFromAccepts(c, 3 + n);
  }

  /** Bytes after a valid frame are reported as a short read at the end of
      the frame. */
  lemma DecodeTrailing(f: Frame, extra: seq<byte>)
    requires Registered(f.tag) && |f.body.msg| <= MaxStr2 && extra != []
    ensures var b := Encode(f).value;
            Decode(b + extra) == Err(ShortRead(|extra|, |b|))
  {
    var b := Encode(f).value;
    EncodeLayout(f, b);
    var n := |f.body.msg|;
    ExtendLayout(b, extra, n);
    TrailingLaidOut(b + extra, n);
    assert |b + extra| - (3 + n + 4) == |extra| && 3 + n + 4 == |b|;
  }

  /** Bytes appended to a laid-out frame leave its fields where they were. */
  lemma ExtendLayout(b: seq<byte>, extra: seq<byte>, n: nat)
    requires |b| == 3 + n + 4 && b[0] == 1 && FromBE16(b[1], b[2]) == n
    requires b[3 + n..] == BE32(Crc32c.Crc32c(b[..3 + n])) && extra != []
    ensures var c := b + extra;
            3 + n + 4 < |c| && c[0] == 1 && FromBE16(c[1], c[2]) == n
            && c[3 + n..3 + n + 4] == BE32(Crc32c.Crc32c(c[..3 + n]))
  {
    var c := b + extra;
    assert c[..3 + n] == b[..3 + n];
    assert c[3 + n..3 + n + 4] == b[3 + n..];
  }

  // ---------------------------------------------------------------------
  // A corrupted byte never decodes.

  lemma LengthFieldInjective(a: byte, b: byte, c: byte, d: byte)
    requires FromBE16(a, b) == FromBE16(c, d)
    ensures a == c && b == d
  {
    BE16Of(a, b);
    BE16Of(c, d);
  }

  /** A corrupted tag byte is reported as an unknown tag. */
  lemma TagCorrupted(f: Frame, b: seq<byte>, v: byte)
    requires Encode(f) == Ok(b) && v != b[0]
    ensures Decode(b[0 := v]) == Err(InvalidSwitchValue(v as int))
  {
    EncodeLayout(f, b);
    DecodeUnknownTag(b[0 := v]);
  }

  /** A corrupted length byte makes the frame end somewhere other than the
      end of the buffer, which no successful decode allows. */
  lemma LengthCorrupted(f: Frame, b: seq<byte>, i: nat, v: byte)
    requires Encode(f) == Ok(b) && 1 <= i < 3 && v != b[i]
    ensures Decode(b[i := v]).Err?
  {
    EncodeLayout(f, b);
    var c := b[i := v];
    if Decode(c).Ok? {
      DecodedLayout(c);
      LengthFieldInjective(c[1], c[2], b[1], b[2]);
    }
  }

  /** Changing a byte of the tag, length or message leaves a checksum field
      that does not match the new prefix. */
  lemma PrefixByteBreaksChecksum(b: seq<byte>, n: nat, i: nat, v: byte)
    requires |b| == 3 + n + 4 && i < 3 + n
    requires b[3 + n..] == BE32(Crc32c.Crc32c(b[..3 + n]))
    ensures Checksum.ReadFrom(b[i := v], 3 + n).Read? ==> v == b[i]
  {
    var c := b[i := v];
    var p := b[..3 + n];
    if Checksum.ReadFrom(c, 3 + n).Read? {
      Checksum.ReadFromAccepts(c, 3 + n);
      assert c[..3 + n] == p[i := v];
      assert c[3 + n..3 + n + 4] == b[3 + n..];
      BE32Injective(Crc32c.Crc32c(p), Crc32c.Crc32c(p[i := v]));
      Crc32c.ByteChangeChangesCrc(p, i, v);
    }
  }

  /** Changing a byte of the checksum field itself leaves it different from
      the CRC of the unchanged prefix. */
  lemma ChecksumByteBreaksChecksum(b: seq<byte>, n: nat, i: nat, v: byte)
    requires |b| == 3 + n + 4 && 3 + n <= i < |b|
    requires b[3 + n..] == BE32(Crc32c.Crc32c(b[..3 + n]))
    ensures Checksum.ReadFrom(b[i := v], 3 + n).Read? ==> v == b[i]
  {
    var c := b[i := v];
    if Checksum.ReadFrom(c, 3 + n).Read? {
      Checksum.ReadFromAccepts(c, 3 + n);
      assert c[..3 + n] == b[..3 + n];
      assert c[3 + n..3 + n + 4][i - (3 + n)] == v;
      assert b[3 + n..][i - (3 + n)] == b[i];
    }
  }

  /** A corrupted message or checksum byte is reported as a checksum mismatch
      over the last four bytes. */
  lemma PayloadCorrupted(f: Frame, b: seq<byte>, i: nat, v: byte)
    requires Encode(f) == Ok(b) && 3 <= i < |b| && v != b[i]
    ensures Decode(b[i := v]).Err?
    ensures var e := Decode(b[i := v]).error;
            e.ChecksumMismatch? && e.start == |b| - 4 && e.end == |b|
  {
    EncodeLayout(f, b);
    PayloadCorruptedLaidOut(b, |f.body.msg|, i, v);
  }

  lemma PayloadCorruptedLaidOut(b: seq<byte>, n: nat, i: nat, v: byte)
    requires |b| == 3 + n + 4 && b[0] == 1 && FromBE16(b[1], b[2]) == n
    requires b[3 + n..] == BE32(Crc32c.Crc32c(b[..3 + n]))
    requires 3 <= i < |b| && v != b[i]
    ensures Decode(b[i := v]).Err?
    ensures var e := Decode(b[i := v]).error;
            e.ChecksumMismatch? && e.start == |b| - 4 && e.end == |b|
  {
    var c := b[i := v];
    ChecksumBroken(b, n, i, v);
    Checksum.OnlyMismatch(c, 3 + n);
    assert c[0] == 1 && c[1] == b[1] && c[2] == b[2];
    ChecksumFailureLaidOut(c, n);
  }

  /** Any changed byte after the tag and length fields fails the checksum. */
  lemma ChecksumBroken(b: seq<byte>, n: nat, i: nat, v: byte)
    requires |b| == 3 + n + 4
    requires b[3 + n..] == BE32(Crc32c.Crc32c(b[..3 + n]))
    requires i < |b| && v != b[i]
    ensures Checksum.ReadFrom(b[i := v], 3 + n).ReadFail?
  {
    if i < 3 + n {
      PrefixByteBreaksChecksum(b, n, i, v);
    } else {
      ChecksumByteBreaksChecksum(b, n, i, v);
    }
  }

  /** In a type-1 layout, a failing checksum field fails the decode with the
      same error. */
  lemma ChecksumFailureLaidOut(c: seq<byte>, n: nat)
    requires |c| == 3 + n + 4 && c[0] == 1 && FromBE16(c[1], c[2]) == n
    requires Checksum.ReadFrom(c, 3 + n).ReadFail?
    ensures Decode(c) == Err(Checksum.ReadFrom(c, 3 + n).err)
  {
    DecodeWellFormed(c);
  }

  /** Every single-byte corruption of an encoded frame is rejected. */
  lemma SingleByteErrorDetected(f: Frame, b: seq<byte>, i: nat, v: byte)
    requires Encode(f) == Ok(b) && i < |b| && v != b[i]
    ensures Decode(b[i := v]).Err?
  {
    if i == 0 {
      TagCorrupted(f, b, v);
    } else if i < 3 {
      LengthCorrupted(f, b, i, v);
    } else {
      PayloadCorrupted(f, b, i, v);
    }
  }
}
