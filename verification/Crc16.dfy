/** CRC-16-CCITT (polynomial 0x1021, initial value 0xFFFF), bit by bit. */
module Crc16 {
  import opened Bytes
  import opened Bits8

  const INITIAL: bv16 := 0xFFFF

  function BitStep(crc: bv16): bv16 {
    if (crc & 0x8000) != 0 then (crc << 1) ^ 0x1021 else crc << 1
  }

  function Bits(crc: bv16, n: nat): bv16
    decreases n
  {
    if n == 0 then crc else Bits(BitStep(crc), n - 1)
  }

  function Mix(crc: bv16, b: Byte): bv16 {
    MixBits(crc, ToBits(b))
  }

  function MixBits(crc: bv16, b: bv8): bv16 {
    crc ^ ((b as bv16) << 8)
  }

  function Update(crc: bv16, b: Byte): bv16 {
    Bits(Mix(crc, b), 8)
  }

  /** The register after `data`, starting from `crc`. */
  function Fold(crc: bv16, data: seq<Byte>): bv16
    decreases |data|
  {
    if data == [] then crc else Fold(Update(crc, data[0]), data[1..])
  }

  /** The register as a number: its high byte, then its low byte. */
  function Word(crc: bv16): (r: nat)
    ensures r < 0x1_0000
  {
    U16(HighByte(crc), LowByte(crc))
  }

  /** The checksum as the 16-bit number that goes on the wire. */
  function Crc(data: seq<Byte>): (r: nat)
    ensures r < 0x1_0000
  {
    Word(Fold(INITIAL, data))
  }

  /** The inner loop of the sources: eight shifts. */
  method Shift8(crc: bv16) returns (r: bv16)
    ensures r == Bits(crc, 8)
  {
    r := crc;
    for bit := 0 to 8
      invariant Bits(r, 8 - bit) == Bits(crc, 8)
    {
      r := if (r & 0x8000) != 0 then (r << 1) ^ 0x1021 else r << 1;
    }
  }

  /** The outer loop: one byte at a time. */
  method Continue(crc: bv16, data: seq<Byte>) returns (r: bv16)
    ensures r == Fold(crc, data)
  {
    hide Mix, Bits;
    r := crc;
    for i := 0 to |data|
      invariant Fold(r, data[i..]) == Fold(crc, data)
    {
      assert data[i..][0] == data[i] && data[i..][1..] == data[i + 1..];
      r := Shift8(Mix(r, data[i]));
    }
  }

  method Compute(data: seq<Byte>) returns (r: bv16)
    ensures r == Fold(INITIAL, data) && Word(r) == Crc(data)
  {
    r := Continue(0xFFFF, data);
  }

  lemma {:induction false} FoldConcat(crc: bv16, s: seq<Byte>, t: seq<Byte>)
    ensures Fold(crc, s + t) == Fold(Fold(crc, s), t)
    decreases |s|
  {
    if s == [] {
      assert s + t == t;
    } else {
      assert (s + t)[1..] == s[1..] + t;
      FoldConcat(Update(crc, s[0]), s[1..], t);
    }
  }

  // ----- the update is injective in the register and in the byte

  /** Undoes one shift: the low bit tells whether the polynomial was added. */
  function UndoBit(crc: bv16): bv16 {
    if (crc & 1) == 1 then ((crc ^ 0x1021) >> 1) | 0x8000 else crc >> 1
  }

  lemma {:induction false} UndoShiftHigh(crc: bv16)
    requires (crc & 0x8000) != 0
    ensures ((((crc << 1) ^ 0x1021) ^ 0x1021) >> 1) | 0x8000 == crc
    ensures ((crc << 1) ^ 0x1021) & 1 == 1
  {
  }

  lemma {:induction false} UndoShiftLow(crc: bv16)
    requires (crc & 0x8000) == 0
    ensures (crc << 1) >> 1 == crc
    ensures (crc << 1) & 1 == 0
  {
  }

  lemma {:induction false} UndoBitStep(crc: bv16)
    ensures UndoBit(BitStep(crc)) == crc
  {
    if (crc & 0x8000) != 0 {
      UndoShiftHigh(crc);
      assert BitStep(crc) == (crc << 1) ^ 0x1021;
    } else {
      UndoShiftLow(crc);
      assert BitStep(crc) == crc << 1;
    }
  }

  lemma {:induction false} BitsInjective(a: bv16, b: bv16, n: nat)
    requires Bits(a, n) == Bits(b, n)
    ensures a == b
    decreases n
  {
    if n > 0 {
      BitsInjective(BitStep(a), BitStep(b), n - 1);
      UndoBitStep(a);
      UndoBitStep(b);
    }
  }

  lemma {:induction false} MixInjective(a: bv16, b: bv16, x: Byte, y: Byte)
    ensures Mix(a, x) == Mix(b, x) ==> a == b
    ensures Mix(a, x) == Mix(a, y) ==> x == y
  {
    MixBitsInjective(a, b, ToBits(x), ToBits(y));
    if ToBits(x) == ToBits(y) {
      ToBitsInjective(x, y);
    }
  }

  lemma {:induction false} MixBitsInjective(a: bv16, b: bv16, x: bv8, y: bv8)
    ensures MixBits(a, x) == MixBits(b, x) ==> a == b
    ensures MixBits(a, x) == MixBits(a, y) ==> x == y
  {
  }

  /** Reading the register as two bytes loses nothing. */
  lemma {:induction false} WordInjective(a: bv16, b: bv16)
    requires Word(a) == Word(b)
    ensures a == b
  {
    hide HighByte, LowByte;
    U16Bytes(HighByte(a), LowByte(a));
    U16Bytes(HighByte(b), LowByte(b));
    BytesDetermine(a, b);
  }

  lemma {:induction false} FoldInjective(a: bv16, b: bv16, data: seq<Byte>)
    requires Fold(a, data) == Fold(b, data)
    ensures a == b
    decreases |data|
  {
    if data != [] {
      FoldInjective(Update(a, data[0]), Update(b, data[0]), data[1..]);
      BitsInjective(Mix(a, data[0]), Mix(b, data[0]), 8);
      MixInjective(a, b, data[0], data[0]);
    }
  }

  lemma {:induction false} UpdateInjective(c: bv16, x: Byte, y: Byte, tail: seq<Byte>)
    requires Fold(Update(c, x), tail) == Fold(Update(c, y), tail)
    ensures x == y
  {
    FoldInjective(Update(c, x), Update(c, y), tail);
    BitsInjective(Mix(c, x), Mix(c, y), 8);
    MixInjective(c, c, x, y);
  }

  /** Changing any single byte always changes the checksum. */
  lemma {:induction false} SingleByteChange(data: seq<Byte>, k: nat, b: Byte)
    requires k < |data| && b != data[k]
    ensures Crc(data[k := b]) != Crc(data)
  {
    SplitAt(data, k);
    SplitAt(data[k := b], k);
    assert data[k := b][..k] == data[..k] && data[k := b][k + 1..] == data[k + 1..];
    if Crc(data[k := b]) == Crc(data) {
      WordInjective(Fold(INITIAL, data[k := b]), Fold(INITIAL, data));
      UpdateInjective(Fold(INITIAL, data[..k]), b, data[k], data[k + 1..]);
    }
  }

  lemma {:induction false} SplitAt(data: seq<Byte>, k: nat)
    requires k < |data|
    ensures Fold(INITIAL, data) == Fold(Update(Fold(INITIAL, data[..k]), data[k]), data[k + 1..])
  {
    assert data == data[..k] + data[k..];
    FoldConcat(INITIAL, data[..k], data[k..]);
    assert data[k..][1..] == data[k + 1..];
  }
}
