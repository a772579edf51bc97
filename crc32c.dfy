/**
 CRC-32C (Castagnoli), the checksum that the frame layout appends to every
 frame. The demo takes it from a native library; here it is the bitwise
 definition of section 12.1 of RFC 3720 in its reflected form: the register
 starts at all ones, each byte is xored into the low end and shifted out one
 bit at a time against the reversed polynomial 0x82F63B78, and the final
 register is complemented.

 Besides the definition, this module proves the one property of the CRC that
 the frame codec relies on: changing any single byte of the input changes the
 CRC (a CRC detects every burst error no longer than its width). The proof
 goes through injectivity: each step of the register is a bijection of the
 32-bit register, so two registers that ever differ stay different.
 */
module Crc32c {
  import opened Bytes

  /** The Castagnoli polynomial, bit-reversed. */
  const Poly: bv32 := 0x82F6_3B78

  /** One shift of the register, feeding back the polynomial when a one falls out. */
  function ShiftBit(r: bv32): bv32 {
    if r & 1 == 1 then (r >> 1) ^ Poly else r >> 1
  }

  /** Eight shifts: one byte's worth. */
  function Shift8(r: bv32): bv32 {
    ShiftBit(ShiftBit(ShiftBit(ShiftBit(ShiftBit(ShiftBit(ShiftBit(ShiftBit(r))))))))
  }

  /** The bits of the byte whose value is `q`. Written by counting up rather
      than as the conversion `q as bv8`: a direct integer-to-bit-vector
      conversion brings the solver's bit-vector and integer theories together
      in every proof about the register, and the injectivity proofs below then
      run out of resources. */
  function Bits8(q: int): (b: bv8)
    requires 0 <= q < 256
    ensures b as int == q
    decreases q
  {
    if q == 0 then 0 else Bits8(q - 1) + 1
  }

  /** A byte as the low eight bits of a register. */
  function Bits(b: byte): bv32 {
    Bits8(b as int) as bv32
  }

  /** Absorb one byte into the register. */
  function Update(r: bv32, b: byte): bv32 {
    Shift8(r ^ Bits(b))
  }

  /** The register after absorbing `data`, starting from `r`. */
  function Register(r: bv32, data: seq<byte>): bv32
    decreases |data|
  {
    if data == [] then r else Register(Update(r, data[0]), data[1..])
  }

  /** The complemented register, as the unsigned integer the CRC is. */
  function Complement(r: bv32): uint32 {
    Unsigned(r ^ 0xFFFF_FFFF)
  }

  /** A register read as an unsigned integer. */
  function Unsigned(x: bv32): uint32 {
    x as int
  }

  /** CRC-32C of a byte string. */
  function Crc32c(data: seq<byte>): (c: uint32)
    ensures data == [] ==> c == 0
  {
    Complement(Register(0xFFFF_FFFF, data))
  }

  // ---------------------------------------------------------------------
  // The standard check value.

  /** The catalogued check value of CRC-32C: the CRC of the ASCII string
      "123456789" is 0xE3069283. This pins the definition above to the
      standard one (initial value, reflection and final complement). */
  lemma CheckValue()
    ensures Crc32c([0x31, 0x32, 0x33, 0x34, 0x35, 0x36, 0x37, 0x38, 0x39]) == 0xE306_9283
  {
    var s: seq<byte> := [0x31, 0x32, 0x33, 0x34, 0x35, 0x36, 0x37, 0x38, 0x39];
    var p: seq<byte> := [0x31, 0x32, 0x33, 0x34];
    var q: seq<byte> := [0x35, 0x36, 0x37, 0x38, 0x39];
    assert s == p + q;
    RegisterAppend(0xFFFF_FFFF, p, q);
    CheckValueFirst();
    CheckValueRest();
  }

  /** The register after "1234". */
  lemma CheckValueFirst()
    ensures Register(0xFFFF_FFFF, [0x31, 0x32, 0x33, 0x34]) == 0x09C5_0B11
  {
    var s: seq<byte> := [0x31, 0x32, 0x33, 0x34];
    assert Update(0xFFFF_FFFF, 0x31) == 0x6F0A_661C;
    assert Update(0x6F0A_661C, 0x32) == 0x8CAA_3B9F;
    assert Update(0x8CAA_3B9F, 0x33) == 0xEF84_D04D;
    assert Update(0xEF84_D04D, 0x34) == 0x09C5_0B11;
    assert s[1..][1..][1..][1..] == [];
  }

  /** The register after "56789", started where "1234" left it. */
  lemma CheckValueRest()
    ensures Register(0x09C5_0B11, [0x35, 0x36, 0x37, 0x38, 0x39]) == 0x1CF9_6D7C
  {
    var s: seq<byte> := [0x35, 0x36, 0x37, 0x38, 0x39];
    assert Update(0x09C5_0B11, 0x35) == 0xE72E_DCCA;
    assert Update(0xE72E_DCCA, 0x36) == 0xBECA_8E79;
    assert Update(0xBECA_8E79, 0x37) == 0xEDBD_6815;
    assert Update(0xEDBD_6815, 0x38) == 0x9F78_7F65;
    assert Update(0x9F78_7F65, 0x39) == 0x1CF9_6D7C;
    assert s[1..][1..][1..][1..][1..] == [];
  }

  // ---------------------------------------------------------------------
  // Every step of the register is injective.

  /** One shift loses no information: the low bit that falls out is
      recorded in the top bit (the polynomial has it set, a plain shift
      clears it). */
  lemma ShiftBitInjective(r1: bv32, r2: bv32)
    requires ShiftBit(r1) == ShiftBit(r2)
    ensures r1 == r2
  {
  }
  lemma Shift8Injective(r1: bv32, r2: bv32)
    requires Shift8(r1) == Shift8(r2)
    ensures r1 == r2
  {
    var a1, b1 := ShiftBit(r1), ShiftBit(r2);
    var a2, b2 := ShiftBit(a1), ShiftBit(b1);
    var a3, b3 := ShiftBit(a2), ShiftBit(b2);
    var a4, b4 := ShiftBit(a3), ShiftBit(b3);
    var a5, b5 := ShiftBit(a4), ShiftBit(b4);
    var a6, b6 := ShiftBit(a5), ShiftBit(b5);
    var a7, b7 := ShiftBit(a6), ShiftBit(b6);
    ShiftBitInjective(a7, b7);
    ShiftBitInjective(a6, b6);
    ShiftBitInjective(a5, b5);
    ShiftBitInjective(a4, b4);
    ShiftBitInjective(a3, b3);
    ShiftBitInjective(a2, b2);
    ShiftBitInjective(a1, b1);
    ShiftBitInjective(r1, r2);
  }
  /** Xoring the same register into two bytes keeps them apart. */
  lemma UnXor(r: bv32, x: byte, y: byte)
    requires r ^ Bits(x) == r ^ Bits(y)
    ensures x == y
  {
    XorCancels(r, Bits(x), Bits(y));
    WidenInjective(Bits8(x as int), Bits8(y as int));
  }
  lemma XorCancels(r: bv32, u: bv32, w: bv32)
    requires r ^ u == r ^ w
    ensures u == w
  {
  }
  lemma WidenInjective(u: bv8, w: bv8)
    requires u as bv32 == w as bv32
    ensures u == w
  {
  }
  lemma UnXorRegister(r1: bv32, r2: bv32, b: byte)
    requires r1 ^ Bits(b) == r2 ^ Bits(b)
    ensures r1 == r2
  {
  }
  /** Absorbing the same byte into two registers keeps them apart. */
  lemma UpdateInjective(r1: bv32, r2: bv32, b: byte)
    requires Update(r1, b) == Update(r2, b)
    ensures r1 == r2
  {
    Shift8Injective(r1 ^ Bits(b), r2 ^ Bits(b));
    UnXorRegister(r1, r2, b);
  }
  /** Absorbing two different bytes into the same register gives different
      registers. */
  lemma UpdateSeparates(r: bv32, x: byte, y: byte)
    requires Update(r, x) == Update(r, y)
    ensures x == y
  {
    Shift8Injective(r ^ Bits(x), r ^ Bits(y));
    UnXor(r, x, y);
  }
  /** Two registers that absorb the same bytes never meet. */
  lemma {:induction false} RegisterInjective(r1: bv32, r2: bv32, s: seq<byte>)
    requires Register(r1, s) == Register(r2, s)
    ensures r1 == r2
    decreases |s|
  {
    if s != [] {
      RegisterInjective(Update(r1, s[0]), Update(r2, s[0]), s[1..]);
      UpdateInjective(r1, r2, s[0]);
    }
  }
  /** The register after a concatenation is the register of the second part,
      started where the first part left it. */
  lemma {:induction false} RegisterAppend(r: bv32, p: seq<byte>, s: seq<byte>)
    ensures Register(r, p + s) == Register(Register(r, p), s)
    decreases |p|
  {
    if p == [] {
      assert p + s == s;
    } else {
      assert (p + s)[0] == p[0] && (p + s)[1..] == p[1..] + s;
      RegisterAppend(Update(r, p[0]), p[1..], s);
    }
  }
  /** Equal CRCs mean equal final registers. */
  lemma Uncomplement(s1: seq<byte>, s2: seq<byte>)
    requires Crc32c(s1) == Crc32c(s2)
    ensures Register(0xFFFF_FFFF, s1) == Register(0xFFFF_FFFF, s2)
  {
    var r1, r2 := Register(0xFFFF_FFFF, s1), Register(0xFFFF_FFFF, s2);
    ComplementInjective(r1, r2);
  }
  lemma ComplementInjective(r1: bv32, r2: bv32)
    requires Complement(r1) == Complement(r2)
    ensures r1 == r2
  {
    var c1, c2 := r1 ^ 0xFFFF_FFFF, r2 ^ 0xFFFF_FFFF;
    UnsignedInjective(c1, c2);
    ComplementCancels(r1, r2);
  }
  lemma ComplementCancels(r1: bv32, r2: bv32)
    requires r1 ^ 0xFFFF_FFFF == r2 ^ 0xFFFF_FFFF
    ensures r1 == r2
  {
  }
  lemma UnsignedInjective(x: bv32, y: bv32)
    requires Unsigned(x) == Unsigned(y)
    ensures x == y
  {
    assert (x as int) as bv32 == x;
    assert (y as int) as bv32 == y;
  }
  /** The register of a string with byte `i` replaced by `v`: the prefix, then
      `v`, then the suffix. */
  lemma RegisterAround(data: seq<byte>, i: nat, v: byte)
    requires i < |data|
    ensures Register(0xFFFF_FFFF, data[i := v])
         == Register(Update(Register(0xFFFF_FFFF, data[..i]), v), data[i + 1..])
  {
    var p, s := data[..i], data[i + 1..];
    assert data[i := v] == p + ([v] + s);
    RegisterAppend(0xFFFF_FFFF, p, [v] + s);
    assert ([v] + s)[1..] == s;
  }
  lemma RegisterSeparates(data: seq<byte>, i: nat, v: byte)
    requires i < |data|
    requires Register(0xFFFF_FFFF, data[i := v]) == Register(0xFFFF_FFFF, data)
    ensures v == data[i]
  {
    var r := Register(0xFFFF_FFFF, data[..i]);
    RegisterAround(data, i, v);
    RegisterAround(data, i, data[i]);
    assert data[i := data[i]] == data;
    RegisterInjective(Update(r, v), Update(r, data[i]), data[i + 1..]);
    UpdateSeparates(r, v, data[i]);
  }
  // ---------------------------------------------------------------------
  // Single-byte error detection.

  /** Replacing any one byte of the input by a different byte changes the
      CRC-32C: equal CRCs force the same byte. This is why a frame with one
      corrupted byte never passes the checksum comparison. */
  lemma ByteChangeChangesCrc(data: seq<byte>, i: nat, v: byte)
    requires i < |data|
    ensures Crc32c(data[i := v]) == Crc32c(data) ==> v == data[i]
  {
    if Crc32c(data[i := v]) == Crc32c(data) {
      Uncomplement(data[i := v], data);
      RegisterSeparates(data, i, v);
    }
  }
}
