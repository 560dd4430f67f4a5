/** The bits of 32-bit registers, stated without any other definition in sight. */
module RawRegisters32 {
  lemma {:induction false} XorTest(a: bv32, b: bv32, mask: bv32)
    requires mask & (mask - 1) == 0
    ensures (a ^ b) & mask != 0 <==> (a & mask != 0) != (b & mask != 0)
  {
  }

  lemma {:induction false} HalfMask(w: bv32, mask: bv32)
    ensures (w >> 1) & mask != 0 <==> w & (mask << 1) != 0
  {
  }

  lemma {:induction false} Widened(b: bv8)
    ensures var w := b as bv32;
            && (w & 0x80 != 0 <==> b & 0x80 != 0) && (w & 0x40 != 0 <==> b & 0x40 != 0)
            && (w & 0x20 != 0 <==> b & 0x20 != 0) && (w & 0x10 != 0 <==> b & 0x10 != 0)
            && (w & 0x8 != 0 <==> b & 0x8 != 0) && (w & 0x4 != 0 <==> b & 0x4 != 0)
            && (w & 0x2 != 0 <==> b & 0x2 != 0) && (w & 0x1 != 0 <==> b & 0x1 != 0)
            && w & 0xFFFF_FF00 == 0
  {
  }

  lemma {:induction false} Quarter0(w: bv32)
    ensures var q := (w & 0xFF) as bv8;
            && (q & 0x80 != 0 <==> w & 0x80 != 0) && (q & 0x40 != 0 <==> w & 0x40 != 0)
            && (q & 0x20 != 0 <==> w & 0x20 != 0) && (q & 0x10 != 0 <==> w & 0x10 != 0)
            && (q & 0x8 != 0 <==> w & 0x8 != 0) && (q & 0x4 != 0 <==> w & 0x4 != 0)
            && (q & 0x2 != 0 <==> w & 0x2 != 0) && (q & 0x1 != 0 <==> w & 0x1 != 0)
  {
  }

  lemma {:induction false} Quarter1(w: bv32)
    ensures var q := ((w >> 8) & 0xFF) as bv8;
            && (q & 0x80 != 0 <==> w & 0x8000 != 0) && (q & 0x40 != 0 <==> w & 0x4000 != 0)
            && (q & 0x20 != 0 <==> w & 0x2000 != 0) && (q & 0x10 != 0 <==> w & 0x1000 != 0)
            && (q & 0x8 != 0 <==> w & 0x800 != 0) && (q & 0x4 != 0 <==> w & 0x400 != 0)
            && (q & 0x2 != 0 <==> w & 0x200 != 0) && (q & 0x1 != 0 <==> w & 0x100 != 0)
  {
  }

  lemma {:induction false} Quarter2(w: bv32)
    ensures var q := ((w >> 16) & 0xFF) as bv8;
            && (q & 0x80 != 0 <==> w & 0x800000 != 0) && (q & 0x40 != 0 <==> w & 0x400000 != 0)
            && (q & 0x20 != 0 <==> w & 0x200000 != 0) && (q & 0x10 != 0 <==> w & 0x100000 != 0)
            && (q & 0x8 != 0 <==> w & 0x80000 != 0) && (q & 0x4 != 0 <==> w & 0x40000 != 0)
            && (q & 0x2 != 0 <==> w & 0x20000 != 0) && (q & 0x1 != 0 <==> w & 0x10000 != 0)
  {
  }

  lemma {:induction false} Quarter3(w: bv32)
    ensures var q := ((w >> 24) & 0xFF) as bv8;
            && (q & 0x80 != 0 <==> w & 0x80000000 != 0) && (q & 0x40 != 0 <==> w & 0x40000000 != 0)
            && (q & 0x20 != 0 <==> w & 0x20000000 != 0) && (q & 0x10 != 0 <==> w & 0x10000000 != 0)
            && (q & 0x8 != 0 <==> w & 0x8000000 != 0) && (q & 0x4 != 0 <==> w & 0x4000000 != 0)
            && (q & 0x2 != 0 <==> w & 0x2000000 != 0) && (q & 0x1 != 0 <==> w & 0x1000000 != 0)
  {
  }
}

/** The checksum of the records is a remainder of long division, with the lowest bits first. */
module Crc32Division {
  import opened Bytes
  import opened Bits8
  import opened Division
  import opened Words
  import opened Crc32
  import RawRegisters
  import RawRegisters32

  /** x^32 + x^26 + x^23 + x^22 + x^16 + x^12 + x^11 + x^10 + x^8 + x^7 + x^5 + x^4 + x^2 + x + 1. */
  const POLYNOMIAL: Bits := [
    true, false, false, false, false, false, true, false, false, true, true,
    false, false, false, false, false, true, false, false, false, true, true,
    true, false, true, true, false, true, true, false, true, true, true]

  predicate Test(w: bv32, mask: bv32) {
    w & mask != 0
  }

  function Mask(i: nat): bv32
    requires i < 32
  {
    if i == 0 then 0x1
    else if i == 1 then 0x2
    else if i == 2 then 0x4
    else if i == 3 then 0x8
    else if i == 4 then 0x10
    else if i == 5 then 0x20
    else if i == 6 then 0x40
    else if i == 7 then 0x80
    else if i == 8 then 0x100
    else if i == 9 then 0x200
    else if i == 10 then 0x400
    else if i == 11 then 0x800
    else if i == 12 then 0x1000
    else if i == 13 then 0x2000
    else if i == 14 then 0x4000
    else if i == 15 then 0x8000
    else if i == 16 then 0x10000
    else if i == 17 then 0x20000
    else if i == 18 then 0x40000
    else if i == 19 then 0x80000
    else if i == 20 then 0x100000
    else if i == 21 then 0x200000
    else if i == 22 then 0x400000
    else if i == 23 then 0x800000
    else if i == 24 then 0x1000000
    else if i == 25 then 0x2000000
    else if i == 26 then 0x4000000
    else if i == 27 then 0x8000000
    else if i == 28 then 0x10000000
    else if i == 29 then 0x20000000
    else if i == 30 then 0x40000000
    else 0x80000000
  }

  /** The bits of the register, from the lowest up. */
  function Reg(w: bv32): (r: Bits)
    ensures |r| == 32 && forall i {:trigger r[i]} :: 0 <= i < 32 ==> r[i] == Test(w, Mask(i))
  {
    seq(32, i requires 0 <= i < 32 => Test(w, Mask(i)))
  }

  lemma {:induction false} RegHalf(w: bv32)
    ensures Reg(Half(w)) == Reg(w)[1..] + [false]
  {
    hide Reg, Test, Half;
    var r, s := Reg(Half(w)), Reg(w)[1..] + [false];
    forall i | 0 <= i < 32
      ensures r[i] == s[i]
    {
      HalfTest(w, i);
      assert i < 31 ==> s[i] == Reg(w)[i + 1];
    }
  }

  lemma {:induction false} HalfTest(w: bv32, i: nat)
    requires i < 32
    ensures Test(Half(w), Mask(i)) == if i < 31 then Test(w, Mask(i + 1)) else false
  {
    hide Mask, Test, Half, Doubled;
    HalfDoubled(w, Mask(i));
    MaskDoubled(i);
    NoTest(w);
  }

  function Doubled(mask: bv32): bv32 {
    mask << 1
  }

  lemma {:induction false} HalfDoubled(w: bv32, mask: bv32)
    ensures Test(Half(w), mask) == Test(w, Doubled(mask))
  {
    RawRegisters32.HalfMask(w, mask);
  }

  lemma {:induction false} MaskDoubled(i: nat)
    requires i < 32
    ensures Doubled(Mask(i)) == if i < 31 then Mask(i + 1) else 0
  {
    hide Doubled, Mask;
    if i < 8 {
      MaskDoubled0(i);
    } else if i < 16 {
      MaskDoubled1(i);
    } else if i < 24 {
      MaskDoubled2(i);
    } else {
      MaskDoubled3(i);
    }
  }

  lemma {:induction false} MaskDoubled0(i: nat)
    requires 0 <= i < 8
    ensures Doubled(Mask(i)) == Mask(i + 1)
  {
  }

  lemma {:induction false} MaskDoubled1(i: nat)
    requires 8 <= i < 16
    ensures Doubled(Mask(i)) == Mask(i + 1)
  {
  }

  lemma {:induction false} MaskDoubled2(i: nat)
    requires 16 <= i < 24
    ensures Doubled(Mask(i)) == Mask(i + 1)
  {
  }

  lemma {:induction false} MaskDoubled3(i: nat)
    requires 24 <= i < 32
    ensures Doubled(Mask(i)) == if i < 31 then Mask(i + 1) else 0
  {
  }

  lemma {:induction false} NoTest(w: bv32)
    ensures !Test(w, 0)
  {
  }

  predicate OneBit(mask: bv32) {
    mask & (mask - 1) == 0
  }

  lemma {:induction false} XorTest(a: bv32, b: bv32, mask: bv32)
    requires OneBit(mask)
    ensures Test(Xor(a, b), mask) <==> Test(a, mask) != Test(b, mask)
  {
    RawRegisters32.XorTest(a, b, mask);
  }

  lemma {:induction false} MaskOneBit(i: nat)
    requires i < 32
    ensures OneBit(Mask(i))
  {
  }

  lemma {:induction false} RegXor(a: bv32, b: bv32)
    ensures Reg(Xor(a, b)) == Add(Reg(a), Reg(b))
  {
    hide Reg, Test, Xor, OneBit, Mask;
    forall i | 0 <= i < 32
      ensures Test(Xor(a, b), Mask(i)) <==> Test(a, Mask(i)) != Test(b, Mask(i))
    {
      MaskOneBit(i);
      XorTest(a, b, Mask(i));
    }
  }

  lemma {:induction false} RegPolynomial()
    ensures Reg(0xEDB88320) == POLYNOMIAL[1..]
  {
    hide Reg;
    forall i | 0 <= i < 32
      ensures Reg(0xEDB88320)[i] == POLYNOMIAL[1..][i]
    {
      PolynomialBit(i);
    }
  }

  lemma {:induction false} PolynomialBit(i: nat)
    requires i < 32
    ensures Test(0xEDB88320, Mask(i)) == POLYNOMIAL[i + 1]
  {
    hide Test, Mask;
    if i < 8 {
      PolynomialByte0(i);
    } else if i < 16 {
      PolynomialByte1(i);
    } else if i < 24 {
      PolynomialByte2(i);
    } else {
      PolynomialByte3(i);
    }
  }

  lemma {:induction false} PolynomialByte0(i: nat)
    requires 0 <= i < 8
    ensures Test(0xEDB88320, Mask(i)) == POLYNOMIAL[i + 1]
  {
  }

  lemma {:induction false} PolynomialByte1(i: nat)
    requires 8 <= i < 16
    ensures Test(0xEDB88320, Mask(i)) == POLYNOMIAL[i + 1]
  {
  }

  lemma {:induction false} PolynomialByte2(i: nat)
    requires 16 <= i < 24
    ensures Test(0xEDB88320, Mask(i)) == POLYNOMIAL[i + 1]
  {
  }

  lemma {:induction false} PolynomialByte3(i: nat)
    requires 24 <= i < 32
    ensures Test(0xEDB88320, Mask(i)) == POLYNOMIAL[i + 1]
  {
  }

  lemma {:induction false} RegOnes()
    ensures Reg(0xFFFF_FFFF) == Ones(32)
  {
  }

  lemma {:induction false} RegOdd(w: bv32)
    ensures Odd(w) == Reg(w)[0]
  {
  }

  lemma {:induction false} RegShift(w: bv32)
    ensures Reg(Crc32.Shift(w)) == Division.Shift(Reg(w), POLYNOMIAL)
  {
    hide Reg, Half, Xor, Odd;
    RegOdd(w);
    RegHalf(w);
    RegPolynomial();
    RegXor(0xEDB88320, Half(w));
    AddCommutes(Reg(0xEDB88320), Reg(Half(w)));
  }

  lemma {:induction false} AddCommutes(a: Bits, b: Bits)
    requires |a| == |b|
    ensures Add(a, b) == Add(b, a)
  {
  }

  lemma {:induction false} RegShifts(w: bv32, n: nat)
    ensures Reg(Crc32.Shifts(w, n)) == Division.Shifts(Reg(w), POLYNOMIAL, n)
    decreases n
  {
    hide Reg, Crc32.Shift, Division.Shift;
    if n > 0 {
      RegShift(w);
      RegShifts(Crc32.Shift(w), n - 1);
    }
  }

  lemma {:induction false} RegWide(b: Byte)
    ensures Reg(Wide(b)) == OneByte(b, true) + Zeros(24)
  {
    hide Reg, OneByte, Wide;
    var r := Reg(Wide(b));
    LowEight(b);
    WideIsLow(b);
    HighZero(Wide(b));
    assert r == r[..8] + r[8..];
  }

  lemma {:induction false} WideIsLow(b: Byte)
    ensures Wide(b) & 0xFFFF_FF00 == 0
  {
    RawRegisters32.Widened(ToBits(b));
  }

  lemma {:induction false} LowEight(b: Byte)
    ensures Reg(Wide(b))[..8] == OneByte(b, true)
  {
    hide Reg;
    RawRegisters32.Widened(ToBits(b));
    RawRegisters.HighBits(b);
    RawRegisters.LowBits(b);
  }

  lemma {:induction false} HighZero(w: bv32)
    requires w & 0xFFFF_FF00 == 0
    ensures Reg(w)[8..] == Zeros(24)
  {
    forall i | 8 <= i < 32
      ensures !Reg(w)[i]
    {
      HighMask(w, i);
    }
  }

  lemma {:induction false} HighMask(w: bv32, i: nat)
    requires w & 0xFFFF_FF00 == 0 && 8 <= i < 32
    ensures !Test(w, Mask(i))
  {
  }

  lemma {:induction false} RegMix(w: bv32, b: Byte)
    ensures Reg(Xor(w, Wide(b))) == Add(Reg(w), OneByte(b, true))
  {
    hide Reg, OneByte, Xor, Wide;
    RegXor(w, Wide(b));
    RegWide(b);
    assert Add(Reg(w), OneByte(b, true)) == Add(Reg(w), OneByte(b, true) + Zeros(24));
  }

  lemma {:induction false} RegFold(w: bv32, data: seq<Byte>)
    ensures Reg(Fold(w, data)) == Register(Reg(w), data, true, POLYNOMIAL)
    decreases |data|
  {
    hide Reg, Crc32.Shifts, Division.Shifts, OneByte, Xor, Wide;
    if data != [] {
      RegMix(w, data[0]);
      RegShifts(Xor(w, Wide(data[0])), 8);
      RegFold(Update(w, data[0]), data[1..]);
    }
  }

  // ----- the number

  /** A byte is the number with its bits. */
  lemma {:induction false} ByteValue(q: bv8, r: Bits)
    requires |r| == 8
    requires (r[0] <==> q & 0x1 != 0) && (r[1] <==> q & 0x2 != 0) && (r[2] <==> q & 0x4 != 0)
             && (r[3] <==> q & 0x8 != 0) && (r[4] <==> q & 0x10 != 0) && (r[5] <==> q & 0x20 != 0)
             && (r[6] <==> q & 0x40 != 0) && (r[7] <==> q & 0x80 != 0)
    ensures FromBits(q) == Value(Reverse(r))
  {
    hide Value;
    RawRegisters.ByteAsSum(q);
    ValueOf8(Reverse(r));
  }

  lemma {:induction false} Reg0(w: bv32)
    ensures var r := Reg(w)[0..8];
            && (r[0] <==> w & 0x1 != 0) && (r[1] <==> w & 0x2 != 0)
            && (r[2] <==> w & 0x4 != 0) && (r[3] <==> w & 0x8 != 0)
            && (r[4] <==> w & 0x10 != 0) && (r[5] <==> w & 0x20 != 0)
            && (r[6] <==> w & 0x40 != 0) && (r[7] <==> w & 0x80 != 0)
  {
    hide Reg;
    var r := Reg(w)[0..8];
    assert r[0] == Test(w, Mask(0)) && r[1] == Test(w, Mask(1)) && r[2] == Test(w, Mask(2));
    assert r[3] == Test(w, Mask(3)) && r[4] == Test(w, Mask(4)) && r[5] == Test(w, Mask(5));
    assert r[6] == Test(w, Mask(6)) && r[7] == Test(w, Mask(7));
  }

  lemma {:induction false} ByteBits0(w: bv32)
    ensures WordBytes(w)[0] == Value(Reverse(Reg(w)[0..8]))
  {
    hide Value, Reg, FromBits, Reverse;
    Reg0(w);
    RawRegisters32.Quarter0(w);
    ByteValue((w & 0xFF) as bv8, Reg(w)[0..8]);
  }

  lemma {:induction false} Reg1(w: bv32)
    ensures var r := Reg(w)[8..16];
            && (r[0] <==> w & 0x100 != 0) && (r[1] <==> w & 0x200 != 0)
            && (r[2] <==> w & 0x400 != 0) && (r[3] <==> w & 0x800 != 0)
            && (r[4] <==> w & 0x1000 != 0) && (r[5] <==> w & 0x2000 != 0)
            && (r[6] <==> w & 0x4000 != 0) && (r[7] <==> w & 0x8000 != 0)
  {
    hide Reg;
    var r := Reg(w)[8..16];
    assert r[0] == Test(w, Mask(8)) && r[1] == Test(w, Mask(9)) && r[2] == Test(w, Mask(10));
    assert r[3] == Test(w, Mask(11)) && r[4] == Test(w, Mask(12)) && r[5] == Test(w, Mask(13));
    assert r[6] == Test(w, Mask(14)) && r[7] == Test(w, Mask(15));
  }

  lemma {:induction false} ByteBits1(w: bv32)
    ensures WordBytes(w)[1] == Value(Reverse(Reg(w)[8..16]))
  {
    hide Value, Reg, FromBits, Reverse;
    Reg1(w);
    RawRegisters32.Quarter1(w);
    ByteValue(((w >> 8) & 0xFF) as bv8, Reg(w)[8..16]);
  }

  lemma {:induction false} Reg2(w: bv32)
    ensures var r := Reg(w)[16..24];
            && (r[0] <==> w & 0x10000 != 0) && (r[1] <==> w & 0x20000 != 0)
            && (r[2] <==> w & 0x40000 != 0) && (r[3] <==> w & 0x80000 != 0)
            && (r[4] <==> w & 0x100000 != 0) && (r[5] <==> w & 0x200000 != 0)
            && (r[6] <==> w & 0x400000 != 0) && (r[7] <==> w & 0x800000 != 0)
  {
    hide Reg;
    var r := Reg(w)[16..24];
    assert r[0] == Test(w, Mask(16)) && r[1] == Test(w, Mask(17)) && r[2] == Test(w, Mask(18));
    assert r[3] == Test(w, Mask(19)) && r[4] == Test(w, Mask(20)) && r[5] == Test(w, Mask(21));
    assert r[6] == Test(w, Mask(22)) && r[7] == Test(w, Mask(23));
  }

  lemma {:induction false} ByteBits2(w: bv32)
    ensures WordBytes(w)[2] == Value(Reverse(Reg(w)[16..24]))
  {
    hide Value, Reg, FromBits, Reverse;
    Reg2(w);
    RawRegisters32.Quarter2(w);
    ByteValue(((w >> 16) & 0xFF) as bv8, Reg(w)[16..24]);
  }

  lemma {:induction false} Reg3(w: bv32)
    ensures var r := Reg(w)[24..32];
            && (r[0] <==> w & 0x1000000 != 0) && (r[1] <==> w & 0x2000000 != 0)
            && (r[2] <==> w & 0x4000000 != 0) && (r[3] <==> w & 0x8000000 != 0)
            && (r[4] <==> w & 0x10000000 != 0) && (r[5] <==> w & 0x20000000 != 0)
            && (r[6] <==> w & 0x40000000 != 0) && (r[7] <==> w & 0x80000000 != 0)
  {
    hide Reg;
    var r := Reg(w)[24..32];
    assert r[0] == Test(w, Mask(24)) && r[1] == Test(w, Mask(25)) && r[2] == Test(w, Mask(26));
    assert r[3] == Test(w, Mask(27)) && r[4] == Test(w, Mask(28)) && r[5] == Test(w, Mask(29));
    assert r[6] == Test(w, Mask(30)) && r[7] == Test(w, Mask(31));
  }

  lemma {:induction false} ByteBits3(w: bv32)
    ensures WordBytes(w)[3] == Value(Reverse(Reg(w)[24..32]))
  {
    hide Value, Reg, FromBits, Reverse;
    Reg3(w);
    RawRegisters32.Quarter3(w);
    ByteValue(((w >> 24) & 0xFF) as bv8, Reg(w)[24..32]);
  }

  lemma {:induction false} ReverseQuarters(r: Bits)
    requires |r| == 32
    ensures Reverse(r) == Reverse(r[24..32]) + Reverse(r[16..24]) + Reverse(r[8..16]) + Reverse(r[0..8])
  {
  }

  /** The four bytes of a register, the lowest first, are the number with its bits. */
  lemma {:induction false} WordBytesAreValue(w: bv32)
    ensures var b := WordBytes(w);
            b[0] as int + 256 * b[1] as int + 65536 * b[2] as int + 16777216 * b[3] as int == Value(Reverse(Reg(w)))
  {
    hide Reg, Value, WordBytes, Power2;
    var r := Reg(w);
    ByteBits0(w);
    ByteBits1(w);
    ByteBits2(w);
    ByteBits3(w);
    ReverseQuarters(r);
    ValueConcat(Reverse(r[24..32]), Reverse(r[16..24]));
    ValueConcat(Reverse(r[24..32]) + Reverse(r[16..24]), Reverse(r[8..16]));
    ValueConcat(Reverse(r[24..32]) + Reverse(r[16..24]) + Reverse(r[8..16]), Reverse(r[0..8]));
    Power8();
  }

  lemma {:induction false} Power8()
    ensures Power2(8) == 256
  {
    assert Power2(4) == 16;
  }

  /** The checksum, its bytes with the lowest first, is the inverted remainder of the message, read with the lowest bits
      first, its first 32 bits inverted and 32 zeros behind it, divided by the polynomial. */
  lemma {:induction false} CrcIsRemainder(data: seq<Byte>)
    ensures var b := WordBytes(Crc(data));
            var r := Remainder(Add(MessageBits(data, true) + Zeros(32), Ones(32)), POLYNOMIAL);
            b[0] as int + 256 * b[1] as int + 65536 * b[2] as int + 16777216 * b[3] as int
            == Value(Reverse(Add(r, Ones(32))))
  {
    hide Reg, Value, WordBytes, Remainder, Register, Xor;
    RegFold(INITIAL, data);
    RegOnes();
    RegisterDivides(Ones(32), data, true, POLYNOMIAL);
    RegXor(Fold(INITIAL, data), INITIAL);
    WordBytesAreValue(Crc(data));
  }

  // ----- the check value

  /** Eight shifts, one after the other. */
  lemma {:induction false} EightSteps(w: bv32, a: bv32, b: bv32, c: bv32, d: bv32, e: bv32, f: bv32, g: bv32, h: bv32)
    requires a == Crc32.Shift(w) && b == Crc32.Shift(a) && c == Crc32.Shift(b) && d == Crc32.Shift(c)
    requires e == Crc32.Shift(d) && f == Crc32.Shift(e) && g == Crc32.Shift(f) && h == Crc32.Shift(g)
    ensures Crc32.Shifts(w, 8) == h
  {
    hide Crc32.Shift;
    assert Crc32.Shifts(d, 4) == h;
  }

  lemma {:induction false} Digit1()
    ensures Update(0xFFFFFFFF, 0x31) == 0x7C231048
  {
    assert Wide(0x31) == 0x31;
    assert Xor(0xFFFFFFFF, 0x31) == 0xFFFFFFCE;
    EightSteps(0xFFFFFFCE, 0x7FFFFFE7, 0xD2477CD3, 0x849B3D49, 0xAFF51D84,
               0x57FA8EC2, 0x2BFD4761, 0xF8462090, 0x7C231048);
  }

  lemma {:induction false} Digit2()
    ensures Update(0x7C231048, 0x32) == 0xB0ACBB32
  {
    assert Wide(0x32) == 0x32;
    assert Xor(0x7C231048, 0x32) == 0x7C23107A;
    EightSteps(0x7C23107A, 0x3E11883D, 0xF2B0473E, 0x7958239F, 0xD11492EF,
               0x8532CA57, 0xAF21E60B, 0xBA287025, 0xB0ACBB32);
  }

  lemma {:induction false} Digit3()
    ensures Update(0xB0ACBB32, 0x33) == 0x77B79C2D
  {
    assert Wide(0x33) == 0x33;
    assert Xor(0xB0ACBB32, 0x33) == 0xB0ACBB01;
    EightSteps(0xB0ACBB01, 0xB5EEDEA0, 0x5AF76F50, 0x2D7BB7A8, 0x16BDDBD4,
               0x0B5EEDEA, 0x05AF76F5, 0xEF6F385A, 0x77B79C2D);
  }

  lemma {:induction false} Digit4()
    ensures Update(0x77B79C2D, 0x34) == 0x641C1F5C
  {
    assert Wide(0x34) == 0x34;
    assert Xor(0x77B79C2D, 0x34) == 0x77B79C19;
    EightSteps(0x77B79C19, 0xD6634D2C, 0x6B31A696, 0x3598D34B, 0xF774EA85,
               0x9602F662, 0x4B017B31, 0xC8383EB8, 0x641C1F5C);
  }

  lemma {:induction false} Digit5()
    ensures Update(0x641C1F5C, 0x35) == 0x340AC5E3
  {
    assert Wide(0x35) == 0x35;
    assert Xor(0x641C1F5C, 0x35) == 0x641C1F69;
    EightSteps(0x641C1F69, 0xDFB68C94, 0x6FDB464A, 0x37EDA325, 0xF64E52B2,
               0x7B272959, 0xD02B178C, 0x68158BC6, 0x340AC5E3);
  }

  lemma {:induction false} Digit6()
    ensures Update(0x340AC5E3, 0x36) == 0xF68D2C9E
  {
    assert Wide(0x36) == 0x36;
    assert Xor(0x340AC5E3, 0x36) == 0x340AC5D5;
    EightSteps(0x340AC5D5, 0xF7BDE1CA, 0x7BDEF0E5, 0xD057FB52, 0x682BFDA9,
               0xD9AD7DF4, 0x6CD6BEFA, 0x366B5F7D, 0xF68D2C9E);
  }

  lemma {:induction false} Digit7()
    ensures Update(0xF68D2C9E, 0x37) == 0xAFFC9660
  {
    assert Wide(0x37) == 0x37;
    assert Xor(0xF68D2C9E, 0x37) == 0xF68D2CA9;
    EightSteps(0xF68D2CA9, 0x96FE1574, 0x4B7F0ABA, 0x25BF855D, 0xFF67418E,
               0x7FB3A0C7, 0xD2615343, 0x84882A81, 0xAFFC9660);
  }

  lemma {:induction false} Digit8()
    ensures Update(0xAFFC9660, 0x38) == 0x651F2550
  {
    assert Wide(0x38) == 0x38;
    assert Xor(0xAFFC9660, 0x38) == 0xAFFC9658;
    EightSteps(0xAFFC9658, 0x57FE4B2C, 0x2BFF2596, 0x15FF92CB, 0xE7474A45,
               0x9E1B2602, 0x4F0D9301, 0xCA3E4AA0, 0x651F2550);
  }

  lemma {:induction false} Digit9()
    ensures Update(0x651F2550, 0x39) == 0x340BC6D9
  {
    assert Wide(0x39) == 0x39;
    assert Xor(0x651F2550, 0x39) == 0x651F2569;
    EightSteps(0x651F2569, 0xDF371194, 0x6F9B88CA, 0x37CDC465, 0xF65E6112,
               0x7B2F3089, 0xD02F1B64, 0x68178DB2, 0x340BC6D9);
  }

  lemma {:induction false} FoldMore(w: bv32, data: seq<Byte>)
    requires data != []
    ensures Fold(w, data) == Fold(Update(w, data[0]), data[1..])
  {
  }

  /** The check value of the source's tests: the nine digits from "1" to "9". */
  lemma {:induction false} CheckValue()
    ensures Crc([0x31, 0x32, 0x33, 0x34, 0x35, 0x36, 0x37, 0x38, 0x39]) == 0xCBF43926
  {
    hide Update;
    Digit1();
    Digit2();
    Digit3();
    Digit4();
    Digit5();
    Digit6();
    Digit7();
    Digit8();
    Digit9();
    FoldMore(0xFFFFFFFF, [0x31, 0x32, 0x33, 0x34, 0x35, 0x36, 0x37, 0x38, 0x39]);
    FoldMore(0x7C231048, [0x32, 0x33, 0x34, 0x35, 0x36, 0x37, 0x38, 0x39]);
    FoldMore(0xB0ACBB32, [0x33, 0x34, 0x35, 0x36, 0x37, 0x38, 0x39]);
    FoldMore(0x77B79C2D, [0x34, 0x35, 0x36, 0x37, 0x38, 0x39]);
    FoldMore(0x641C1F5C, [0x35, 0x36, 0x37, 0x38, 0x39]);
    FoldMore(0x340AC5E3, [0x36, 0x37, 0x38, 0x39]);
    FoldMore(0xF68D2C9E, [0x37, 0x38, 0x39]);
    FoldMore(0xAFFC9660, [0x38, 0x39]);
    FoldMore(0x651F2550, [0x39]);
    assert Xor(0x340BC6D9, INITIAL) == 0xCBF43926;
  }
}
