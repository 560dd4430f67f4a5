/** The bits of 8- and 16-bit registers, stated without any other definition in sight. */
module RawRegisters {
  lemma {:induction false} ByteAsSum(w: bv8)
    ensures w as int ==
            (if w & 0x80 != 0 then 128 else 0) + (if w & 0x40 != 0 then 64 else 0)
            + (if w & 0x20 != 0 then 32 else 0) + (if w & 0x10 != 0 then 16 else 0)
            + (if w & 0x8 != 0 then 8 else 0) + (if w & 0x4 != 0 then 4 else 0)
            + (if w & 0x2 != 0 then 2 else 0) + (if w & 0x1 != 0 then 1 else 0)
  {
  }

  lemma {:induction false} HighBits(n: int)
    requires 0 <= n < 256
    ensures ((n as bv8) & 0x80 != 0 <==> n / 128 % 2 == 1) && ((n as bv8) & 0x40 != 0 <==> n / 64 % 2 == 1)
    ensures ((n as bv8) & 0x20 != 0 <==> n / 32 % 2 == 1) && ((n as bv8) & 0x10 != 0 <==> n / 16 % 2 == 1)
  {
  }

  lemma {:induction false} LowBits(n: int)
    requires 0 <= n < 256
    ensures ((n as bv8) & 0x8 != 0 <==> n / 8 % 2 == 1) && ((n as bv8) & 0x4 != 0 <==> n / 4 % 2 == 1)
    ensures ((n as bv8) & 0x2 != 0 <==> n / 2 % 2 == 1) && ((n as bv8) & 0x1 != 0 <==> n % 2 == 1)
  {
  }

  lemma {:induction false} Halves(w: bv16)
    ensures w as int == 256 * (((w >> 8) as bv8) as int) + (((w & 0xFF) as bv8) as int)
  {
  }

  lemma {:induction false} HighHalf(w: bv16)
    ensures var h := (w >> 8) as bv8;
            && (h & 0x80 != 0 <==> w & 0x8000 != 0) && (h & 0x40 != 0 <==> w & 0x4000 != 0)
            && (h & 0x20 != 0 <==> w & 0x2000 != 0) && (h & 0x10 != 0 <==> w & 0x1000 != 0)
            && (h & 0x8 != 0 <==> w & 0x800 != 0) && (h & 0x4 != 0 <==> w & 0x400 != 0)
            && (h & 0x2 != 0 <==> w & 0x200 != 0) && (h & 0x1 != 0 <==> w & 0x100 != 0)
  {
  }

  lemma {:induction false} LowHalf(w: bv16)
    ensures var l := (w & 0xFF) as bv8;
            && (l & 0x80 != 0 <==> w & 0x80 != 0) && (l & 0x40 != 0 <==> w & 0x40 != 0)
            && (l & 0x20 != 0 <==> w & 0x20 != 0) && (l & 0x10 != 0 <==> w & 0x10 != 0)
            && (l & 0x8 != 0 <==> w & 0x8 != 0) && (l & 0x4 != 0 <==> w & 0x4 != 0)
            && (l & 0x2 != 0 <==> w & 0x2 != 0) && (l & 0x1 != 0 <==> w & 0x1 != 0)
  {
  }

  lemma {:induction false} XorTest(a: bv16, b: bv16, mask: bv16)
    requires mask & (mask - 1) == 0
    ensures (a ^ b) & mask != 0 <==> (a & mask != 0) != (b & mask != 0)
  {
  }

  lemma {:induction false} Placed(b: bv8)
    ensures var w := (b as bv16) << 8;
            && (w & 0x8000 != 0 <==> b & 0x80 != 0) && (w & 0x4000 != 0 <==> b & 0x40 != 0)
            && (w & 0x2000 != 0 <==> b & 0x20 != 0) && (w & 0x1000 != 0 <==> b & 0x10 != 0)
            && (w & 0x800 != 0 <==> b & 0x8 != 0) && (w & 0x400 != 0 <==> b & 0x4 != 0)
            && (w & 0x200 != 0 <==> b & 0x2 != 0) && (w & 0x100 != 0 <==> b & 0x1 != 0)
            && w & 0xFF == 0
  {
  }
}

/** The checksum of the frames is a remainder of long division. */
module Crc16Division {
  import opened Bytes
  import opened Bits8
  import opened Division
  import opened Crc16
  import RawRegisters

  /** x^16 + x^12 + x^5 + 1. */
  const POLYNOMIAL: Division.Bits := [
    true, false, false, false, true, false, false, false, false, false, false, true, false, false, false, false, true]

  predicate Test(w: bv16, mask: bv16) {
    w & mask != 0
  }

  function Mask(i: nat): bv16
    requires i < 16
  {
    if i == 0 then 0x8000
    else if i == 1 then 0x4000
    else if i == 2 then 0x2000
    else if i == 3 then 0x1000
    else if i == 4 then 0x800
    else if i == 5 then 0x400
    else if i == 6 then 0x200
    else if i == 7 then 0x100
    else if i == 8 then 0x80
    else if i == 9 then 0x40
    else if i == 10 then 0x20
    else if i == 11 then 0x10
    else if i == 12 then 0x8
    else if i == 13 then 0x4
    else if i == 14 then 0x2
    else 0x1
  }

  /** The bits of the register, from the highest down. */
  function Reg(w: bv16): (r: Division.Bits)
    ensures |r| == 16 && forall i {:trigger r[i]} :: 0 <= i < 16 ==> r[i] == Test(w, Mask(i))
  {
    seq(16, i requires 0 <= i < 16 => Test(w, Mask(i)))
  }

  lemma {:induction false} RegDouble(w: bv16)
    ensures Reg(w << 1) == Reg(w)[1..] + [false]
  {
    hide Reg, Test;
    var r, s := Reg(w << 1), Reg(w)[1..] + [false];
    forall i | 0 <= i < 16
      ensures r[i] == s[i]
    {
      DoubleTest(w, i);
      assert i < 15 ==> s[i] == Reg(w)[i + 1];
    }
  }

  lemma {:induction false} DoubleTest(w: bv16, i: nat)
    requires i < 16
    ensures Test(w << 1, Mask(i)) == if i < 15 then Test(w, Mask(i + 1)) else false
  {
  }

  function Xored(a: bv16, b: bv16): bv16 {
    a ^ b
  }

  predicate OneBit(mask: bv16) {
    mask & (mask - 1) == 0
  }

  lemma {:induction false} XorTest(a: bv16, b: bv16, mask: bv16)
    requires OneBit(mask)
    ensures Test(Xored(a, b), mask) <==> Test(a, mask) != Test(b, mask)
  {
    RawRegisters.XorTest(a, b, mask);
  }

  lemma {:induction false} MaskOneBit(i: nat)
    requires i < 16
    ensures OneBit(Mask(i))
  {
  }

  lemma {:induction false} RegXor(a: bv16, b: bv16)
    ensures Reg(Xored(a, b)) == Add(Reg(a), Reg(b))
  {
    hide Reg, Test, Xored, OneBit, Mask;
    forall i | 0 <= i < 16
      ensures Test(Xored(a, b), Mask(i)) <==> Test(a, Mask(i)) != Test(b, Mask(i))
    {
      MaskOneBit(i);
      XorTest(a, b, Mask(i));
    }
  }

  lemma {:induction false} RegPolynomial()
    ensures Reg(0x1021) == POLYNOMIAL[1..]
  {
  }

  lemma {:induction false} RegInitial()
    ensures Reg(0xFFFF) == Ones(16)
  {
  }

  lemma {:induction false} RegStep(w: bv16)
    ensures Reg(BitStep(w)) == Shift(Reg(w), POLYNOMIAL)
  {
    var top := Reg(w)[0];
    assert top <==> (w & 0x8000) != 0;
    hide Reg;
    RegDouble(w);
    if top {
      RegXor(w << 1, 0x1021);
      RegPolynomial();
      assert BitStep(w) == Xored(w << 1, 0x1021);
    }
  }

  lemma {:induction false} RegBits(w: bv16, n: nat)
    ensures Reg(Crc16.Bits(w, n)) == Shifts(Reg(w), POLYNOMIAL, n)
    decreases n
  {
    hide Reg, Shift, BitStep;
    if n > 0 {
      RegStep(w);
      RegBits(BitStep(w), n - 1);
    }
  }

  lemma {:induction false} RegMix(w: bv16, b: Byte)
    ensures Reg(Mix(w, b)) == Add(Reg(w), OneByte(b, false))
  {
    hide Reg, OneByte;
    var placed := (ToBits(b) as bv16) << 8;
    RegXor(w, placed);
    assert Mix(w, b) == Xored(w, placed);
    RegPlaced(b);
    assert Add(Reg(w), OneByte(b, false)) == Add(Reg(w), OneByte(b, false) + Zeros(8));
  }

  lemma {:induction false} RegPlaced(b: Byte)
    ensures Reg((ToBits(b) as bv16) << 8) == OneByte(b, false) + Zeros(8)
  {
    RawRegisters.Placed(ToBits(b));
    RawRegisters.HighBits(b);
    RawRegisters.LowBits(b);
    LowZero((ToBits(b) as bv16) << 8);
  }

  lemma {:induction false} LowZero(w: bv16)
    requires w & 0xFF == 0
    ensures Reg(w)[8..] == Zeros(8)
  {
  }

  lemma {:induction false} RegFold(w: bv16, data: seq<Byte>)
    ensures Reg(Fold(w, data)) == Register(Reg(w), data, false, POLYNOMIAL)
    decreases |data|
  {
    hide Reg, Crc16.Bits, Mix, OneByte, Shifts;
    if data != [] {
      RegMix(w, data[0]);
      RegBits(Mix(w, data[0]), 8);
      RegFold(Update(w, data[0]), data[1..]);
    }
  }

  // ----- the number

  lemma {:induction false} HighByteBits(w: bv16)
    ensures HighByte(w) == Value(Reg(w)[..8])
  {
    hide Value;
    ValueOf8(Reg(w)[..8]);
    HighSum(w, (w >> 8) as bv8);
  }

  lemma {:induction false} HighSum(w: bv16, h: bv8)
    requires h == (w >> 8) as bv8
    ensures HighByte(w) ==
            (if Test(w, 0x8000) then 128 else 0) + (if Test(w, 0x4000) then 64 else 0)
            + (if Test(w, 0x2000) then 32 else 0) + (if Test(w, 0x1000) then 16 else 0)
            + (if Test(w, 0x800) then 8 else 0) + (if Test(w, 0x400) then 4 else 0)
            + (if Test(w, 0x200) then 2 else 0) + (if Test(w, 0x100) then 1 else 0)
  {
    RawRegisters.HighHalf(w);
    RawRegisters.ByteAsSum(h);
  }

  lemma {:induction false} LowByteBits(w: bv16)
    ensures LowByte(w) == Value(Reg(w)[8..])
  {
    hide Value;
    RawRegisters.LowHalf(w);
    RawRegisters.ByteAsSum((w & 0xFF) as bv8);
    ValueOf8(Reg(w)[8..]);
  }

  lemma {:induction false} WordIsValue(w: bv16)
    ensures Word(w) == Value(Reg(w))
  {
    hide Reg, Value, HighByte, LowByte;
    var r := Reg(w);
    HighByteBits(w);
    LowByteBits(w);
    assert r == r[..8] + r[8..];
    ValueConcat(r[..8], r[8..]);
    assert Power2(4) == 16;
    assert Power2(8) == 256;
  }

  /** The register is read as the number it is. */
  lemma {:induction false} WordIsNumber(w: bv16)
    ensures Word(w) == w as int
  {
    RawRegisters.Halves(w);
  }

  /** The checksum is the remainder of the message, with its first 16 bits inverted and 16 zeros behind it, divided by
      the polynomial. */
  lemma {:induction false} CrcIsRemainder(data: seq<Byte>)
    ensures Crc(data) == Value(Remainder(Add(MessageBits(data, false) + Zeros(16), Ones(16)), POLYNOMIAL))
  {
    hide Reg, Value, Word, Remainder, Register;
    RegFold(INITIAL, data);
    RegInitial();
    RegisterDivides(Ones(16), data, false, POLYNOMIAL);
    WordIsValue(Fold(INITIAL, data));
  }

  /** Eight steps of the register, one after the other. */
  lemma {:induction false} EightSteps(w: bv16, a: bv16, b: bv16, c: bv16, d: bv16, e: bv16, f: bv16, g: bv16, h: bv16)
    requires a == BitStep(w) && b == BitStep(a) && c == BitStep(b) && d == BitStep(c)
    requires e == BitStep(d) && f == BitStep(e) && g == BitStep(f) && h == BitStep(g)
    ensures Crc16.Bits(w, 8) == h
  {
    hide BitStep;
    assert Crc16.Bits(d, 4) == h;
  }

  lemma {:induction false} Digit1()
    ensures Update(0xFFFF, 0x31) == 0xC782
  {
    assert ToBits(0x31) == 0x31;
    assert Mix(0xFFFF, 0x31) == 0xCEFF;
    EightSteps(0xCEFF, 0x8DDF, 0x0B9F, 0x173E, 0x2E7C, 0x5CF8, 0xB9F0, 0x63C1, 0xC782);
  }

  lemma {:induction false} Digit2()
    ensures Update(0xC782, 0x32) == 0x3DBA
  {
    assert ToBits(0x32) == 0x32;
    assert Mix(0xC782, 0x32) == 0xF582;
    EightSteps(0xF582, 0xFB25, 0xE66B, 0xDCF7, 0xA9CF, 0x43BF, 0x877E, 0x1EDD, 0x3DBA);
  }

  lemma {:induction false} Digit3()
    ensures Update(0x3DBA, 0x33) == 0x5BCE
  {
    assert ToBits(0x33) == 0x33;
    assert Mix(0x3DBA, 0x33) == 0x0EBA;
    EightSteps(0x0EBA, 0x1D74, 0x3AE8, 0x75D0, 0xEBA0, 0xC761, 0x9EE3, 0x2DE7, 0x5BCE);
  }

  lemma {:induction false} Digit4()
    ensures Update(0x5BCE, 0x34) == 0x5349
  {
    assert ToBits(0x34) == 0x34;
    assert Mix(0x5BCE, 0x34) == 0x6FCE;
    EightSteps(0x6FCE, 0xDF9C, 0xAF19, 0x4E13, 0x9C26, 0x286D, 0x50DA, 0xA1B4, 0x5349);
  }

  lemma {:induction false} Digit5()
    ensures Update(0x5349, 0x35) == 0x4560
  {
    assert ToBits(0x35) == 0x35;
    assert Mix(0x5349, 0x35) == 0x6649;
    EightSteps(0x6649, 0xCC92, 0x8905, 0x022B, 0x0456, 0x08AC, 0x1158, 0x22B0, 0x4560);
  }

  lemma {:induction false} Digit6()
    ensures Update(0x4560, 0x36) == 0x2EF4
  {
    assert ToBits(0x36) == 0x36;
    assert Mix(0x4560, 0x36) == 0x7360;
    EightSteps(0x7360, 0xE6C0, 0xDDA1, 0xAB63, 0x46E7, 0x8DCE, 0x0BBD, 0x177A, 0x2EF4);
  }

  lemma {:induction false} Digit7()
    ensures Update(0x2EF4, 0x37) == 0x7718
  {
    assert ToBits(0x37) == 0x37;
    assert Mix(0x2EF4, 0x37) == 0x19F4;
    EightSteps(0x19F4, 0x33E8, 0x67D0, 0xCFA0, 0x8F61, 0x0EE3, 0x1DC6, 0x3B8C, 0x7718);
  }

  lemma {:induction false} Digit8()
    ensures Update(0x7718, 0x38) == 0xA12B
  {
    assert ToBits(0x38) == 0x38;
    assert Mix(0x7718, 0x38) == 0x4F18;
    EightSteps(0x4F18, 0x9E30, 0x2C41, 0x5882, 0xB104, 0x7229, 0xE452, 0xD885, 0xA12B);
  }

  lemma {:induction false} Digit9()
    ensures Update(0xA12B, 0x39) == 0x29B1
  {
    assert ToBits(0x39) == 0x39;
    assert Mix(0xA12B, 0x39) == 0x982B;
    EightSteps(0x982B, 0x2077, 0x40EE, 0x81DC, 0x1399, 0x2732, 0x4E64, 0x9CC8, 0x29B1);
  }

  /** The check value of the source's tests: the nine digits from "1" to "9". */
  lemma {:induction false} CheckValue()
    ensures Crc([0x31, 0x32, 0x33, 0x34, 0x35, 0x36, 0x37, 0x38, 0x39]) == 0x29B1
  {
    hide Update, Word;
    Digit1();
    Digit2();
    Digit3();
    Digit4();
    Digit5();
    Digit6();
    Digit7();
    Digit8();
    Digit9();
    FoldMore(0xFFFF, [0x31, 0x32, 0x33, 0x34, 0x35, 0x36, 0x37, 0x38, 0x39]);
    FoldMore(0xC782, [0x32, 0x33, 0x34, 0x35, 0x36, 0x37, 0x38, 0x39]);
    FoldMore(0x3DBA, [0x33, 0x34, 0x35, 0x36, 0x37, 0x38, 0x39]);
    FoldMore(0x5BCE, [0x34, 0x35, 0x36, 0x37, 0x38, 0x39]);
    FoldMore(0x5349, [0x35, 0x36, 0x37, 0x38, 0x39]);
    FoldMore(0x4560, [0x36, 0x37, 0x38, 0x39]);
    FoldMore(0x2EF4, [0x37, 0x38, 0x39]);
    FoldMore(0x7718, [0x38, 0x39]);
    FoldMore(0xA12B, [0x39]);
    WordIsNumber(0x29B1);
  }

  lemma {:induction false} FoldMore(w: bv16, data: seq<Byte>)
    requires data != []
    ensures Fold(w, data) == Fold(Update(w, data[0]), data[1..])
  {
  }
}
