/** Facts about 32-bit vectors, stated without any other definition in sight. */
module RawWords {

  lemma {:induction false} LowByteSmall(x: bv32)
    ensures x & 0xFF <= 0xFF
  {
  }

  lemma {:induction false} SmallIndex(x: bv32)
    requires x <= 0xFF
    ensures 0 <= x as int < 256
  {
  }

  lemma {:induction false} NumberRoundTrip(x: bv32)
    ensures (x as int) as bv32 == x
  {
  }

  lemma {:induction false} FourHalves(x: bv32)
    requires x & 0xF == 0
    ensures x & 1 == 0 && (x >> 1) & 1 == 0 && ((x >> 1) >> 1) & 1 == 0 && (((x >> 1) >> 1) >> 1) & 1 == 0
    ensures (((x >> 1) >> 1) >> 1) >> 1 == x >> 4
  {
  }

  lemma {:induction false} TwoNibbles(x: bv32)
    requires x & 0xFF == 0
    ensures x & 0xF == 0 && (x >> 4) & 0xF == 0 && (x >> 4) >> 4 == x >> 8
  {
  }

  lemma {:induction false} QuartersDetermine(a: bv32, b: bv32)
    requires (a & 0xFF) as bv8 == (b & 0xFF) as bv8 && ((a >> 8) & 0xFF) as bv8 == ((b >> 8) & 0xFF) as bv8
    requires ((a >> 16) & 0xFF) as bv8 == ((b >> 16) & 0xFF) as bv8
             && ((a >> 24) & 0xFF) as bv8 == ((b >> 24) & 0xFF) as bv8
    ensures a == b
  {
  }
}

/** The bit operations of the checksum as named functions, with the algebra they obey. */
module Words {
  import RawWords

  function Xor(a: bv32, b: bv32): bv32 { a ^ b }

  function Half(a: bv32): bv32 { a >> 1 }

  predicate Odd(a: bv32) { (a & 1) != 0 }

  function LowByteOf(a: bv32): bv32 { a & 0xFF }

  function HighPartOf(a: bv32): bv32 { a & 0xFFFF_FF00 }

  function Drop8(a: bv32): bv32 { a >> 8 }

  predicate NoLowByte(a: bv32) { a & 0xFF == 0 }

  predicate TopBit(a: bv32) { (a & 0x8000_0000) != 0 }

  function Double(a: bv32): bv32 { a << 1 }

  function DoublePlusOne(a: bv32): bv32 { (a << 1) | 1 }

  lemma {:induction false} HalfOfXor(a: bv32, b: bv32)
    ensures Half(Xor(a, b)) == Xor(Half(a), Half(b))
    ensures Odd(Xor(a, b)) <==> Odd(a) != Odd(b)
  {
  }

  lemma {:induction false} XorAssociative(p: bv32, x: bv32, y: bv32)
    ensures Xor(Xor(p, x), y) == Xor(p, Xor(x, y))
  {
  }

  lemma {:induction false} XorCommutative(x: bv32, y: bv32)
    ensures Xor(x, y) == Xor(y, x)
  {
  }

  lemma {:induction false} XorCancels(p: bv32, x: bv32)
    ensures Xor(p, Xor(p, x)) == x
  {
  }

  lemma {:induction false} XorMoves(p: bv32, x: bv32, y: bv32)
    ensures Xor(Xor(p, x), y) == Xor(p, Xor(x, y))
    ensures Xor(x, Xor(p, y)) == Xor(p, Xor(x, y))
    ensures Xor(Xor(p, x), Xor(p, y)) == Xor(x, y)
    ensures Xor(Xor(p, x), p) == x
  {
    hide Xor;
    XorAssociative(p, x, y);
    XorAssociative(x, p, y);
    XorAssociative(p, x, Xor(p, y));
    XorCommutative(x, p);
    XorCommutative(Xor(p, x), p);
    XorCancels(p, x);
    XorCancels(p, Xor(x, y));
  }

  lemma {:induction false} XorInjective(a: bv32, b: bv32, x: bv32)
    ensures Xor(a, x) == Xor(b, x) ==> a == b
    ensures Xor(x, a) == Xor(x, b) ==> a == b
  {
  }

  lemma {:induction false} Parts(x: bv32)
    ensures x == Xor(LowByteOf(x), HighPartOf(x))
    ensures Drop8(HighPartOf(x)) == Drop8(x)
    ensures NoLowByte(HighPartOf(x))
  {
  }

  lemma {:induction false} ByteDropsOut(c: bv32, b: bv8)
    ensures Drop8(Xor(c, b as bv32)) == Drop8(c)
  {
  }

  predicate NoNibble(a: bv32) { a & 0xF == 0 }

  function Drop4(a: bv32): bv32 { a >> 4 }

  lemma {:induction false} EvenAtFirst(x: bv32)
    requires NoNibble(x)
    ensures !Odd(x)
  {
    RawWords.FourHalves(x);
  }

  lemma {:induction false} EvenAfterOne(x: bv32)
    requires NoNibble(x)
    ensures !Odd(Half(x))
  {
    RawWords.FourHalves(x);
  }

  lemma {:induction false} EvenAfterTwo(x: bv32)
    requires NoNibble(x)
    ensures !Odd(Half(Half(x)))
  {
    RawWords.FourHalves(x);
  }

  lemma {:induction false} EvenAfterThree(x: bv32)
    requires NoNibble(x)
    ensures !Odd(Half(Half(Half(x))))
  {
    RawWords.FourHalves(x);
  }

  lemma {:induction false} FourHalvesDrop(x: bv32)
    requires NoNibble(x)
    ensures Half(Half(Half(Half(x)))) == Drop4(x)
  {
    RawWords.FourHalves(x);
  }

  lemma {:induction false} FourHalves(x: bv32)
    requires NoNibble(x)
    ensures !Odd(x) && !Odd(Half(x)) && !Odd(Half(Half(x))) && !Odd(Half(Half(Half(x))))
    ensures Half(Half(Half(Half(x)))) == Drop4(x)
  {
    hide Odd, Half, NoNibble, Drop4;
    EvenAtFirst(x);
    EvenAfterOne(x);
    EvenAfterTwo(x);
    EvenAfterThree(x);
    FourHalvesDrop(x);
  }

  lemma {:induction false} TwoNibbles(x: bv32)
    requires NoLowByte(x)
    ensures NoNibble(x) && NoNibble(Drop4(x)) && Drop4(Drop4(x)) == Drop8(x)
  {
    RawWords.TwoNibbles(x);
  }

  /** Eight halvings of a word whose low byte is zero meet only even words and drop the byte. */
  lemma {:induction false} EightHalves(x: bv32)
    requires NoLowByte(x)
    ensures !Odd(x) && !Odd(Half(x)) && !Odd(Half(Half(x))) && !Odd(Half(Half(Half(x))))
    ensures var y := Half(Half(Half(Half(x))));
            && !Odd(y) && !Odd(Half(y)) && !Odd(Half(Half(y))) && !Odd(Half(Half(Half(y))))
            && Half(Half(Half(Half(y)))) == Drop8(x)
  {
    hide Odd, Half, NoNibble, Drop4, Drop8, NoLowByte;
    TwoNibbles(x);
    FourHalves(x);
    FourHalves(Drop4(x));
  }

  lemma {:induction false} UndoHalf(c: bv32)
    ensures if Odd(c) then DoublePlusOne(Half(c)) == c else Double(Half(c)) == c
    ensures !TopBit(Half(c)) && TopBit(Xor(0xEDB88320, Half(c)))
  {
  }

  lemma {:induction false} WidenInjective(x: bv8, y: bv8)
    requires x as bv32 == y as bv32
    ensures x == y
  {
  }

  function Index(x: bv32): (i: int)
    ensures 0 <= i < 256
  {
    RawWords.LowByteSmall(x);
    RawWords.SmallIndex(LowByteOf(x));
    LowByteOf(x) as int
  }

  lemma {:induction false} IndexIsLowByte(x: bv32)
    ensures Index(x) as bv32 == LowByteOf(x)
  {
    hide LowByteOf;
    RawWords.NumberRoundTrip(LowByteOf(x));
  }
}

/** CRC-32 (reflected polynomial 0xEDB88320, section 8 of RFC 1952): bit by bit, and through a table of 256 words. */
module Crc32 {
  import opened Bytes
  import opened Bits8
  import opened Words
  import RawWords

  const INITIAL: bv32 := 0xFFFF_FFFF

  function Shift(c: bv32): bv32 {
    if Odd(c) then Xor(0xEDB88320, Half(c)) else Half(c)
  }

  function Shifts(c: bv32, n: nat): bv32
    decreases n
  {
    if n == 0 then c else Shifts(Shift(c), n - 1)
  }

  function Wide(b: Byte): bv32 {
    ToBits(b) as bv32
  }

  /** One byte, bit by bit. */
  function Update(c: bv32, b: Byte): bv32 {
    Shifts(Xor(c, Wide(b)), 8)
  }

  function Fold(c: bv32, data: seq<Byte>): bv32
    decreases |data|
  {
    if data == [] then c else Fold(Update(c, data[0]), data[1..])
  }

  function Crc(data: seq<Byte>): bv32 {
    Xor(Fold(INITIAL, data), INITIAL)
  }

  // ----- the table computes the same

  lemma {:induction false} ShiftLinear(a: bv32, b: bv32)
    ensures Shift(Xor(a, b)) == Xor(Shift(a), Shift(b))
  {
    hide Xor, Half, Odd;
    HalfOfXor(a, b);
    XorMoves(0xEDB88320, Half(a), Half(b));
  }

  lemma {:induction false} ShiftsLinear(a: bv32, b: bv32, n: nat)
    ensures Shifts(Xor(a, b), n) == Xor(Shifts(a, n), Shifts(b, n))
    decreases n
  {
    hide Xor, Shift;
    if n > 0 {
      ShiftLinear(a, b);
      ShiftsLinear(Shift(a), Shift(b), n - 1);
    }
  }

  lemma {:induction false} ShiftsConcat(c: bv32, m: nat, n: nat)
    ensures Shifts(c, m + n) == Shifts(Shifts(c, m), n)
    decreases m
  {
    hide Shift;
    if m > 0 {
      ShiftsConcat(Shift(c), m - 1, n);
    }
  }

  lemma {:induction false} FourEvenShifts(x: bv32)
    requires !Odd(x) && !Odd(Half(x)) && !Odd(Half(Half(x))) && !Odd(Half(Half(Half(x))))
    ensures Shifts(x, 4) == Half(Half(Half(Half(x))))
  {
    hide Odd, Half, Xor;
    assert Shifts(x, 4) == Shifts(Half(x), 3);
    assert Shifts(Half(x), 3) == Shifts(Half(Half(x)), 2);
    assert Shifts(Half(Half(x)), 2) == Shifts(Half(Half(Half(x))), 1);
  }

  lemma {:induction false} ShiftsOfHighPart(x: bv32)
    requires NoLowByte(x)
    ensures Shifts(x, 8) == Drop8(x)
  {
    hide Odd, Half, Xor, Shifts, Drop8, NoLowByte;
    EightHalves(x);
    FourEvenShifts(x);
    FourEvenShifts(Half(Half(Half(Half(x)))));
    ShiftsConcat(x, 4, 4);
  }

  lemma {:induction false} WideDropsOut(c: bv32, b: Byte)
    ensures Drop8(Xor(c, Wide(b))) == Drop8(c)
  {
    ByteDropsOut(c, ToBits(b));
  }

  /** The table lookup: the low byte is shifted out through the table, the rest moves down by eight bits. */
  lemma {:induction false} TableStep(c: bv32, b: Byte)
    ensures Update(c, b) == Xor(Shifts(LowByteOf(Xor(c, Wide(b))), 8), Drop8(c))
  {
    hide Shifts, Wide, Xor, Drop8, LowByteOf, HighPartOf, NoLowByte;
    var x := Xor(c, Wide(b));
    Parts(x);
    ShiftsLinear(LowByteOf(x), HighPartOf(x), 8);
    ShiftsOfHighPart(HighPartOf(x));
    WideDropsOut(c, b);
  }

  /** The table entry for a byte value. */
  function Entry(i: nat): bv32
    requires i < 256
  {
    Shifts(i as bv32, 8)
  }

  class Table {
    const words: array<bv32>
    var ready: bool

    ghost predicate Valid()
      reads this, words
    {
      words.Length == 256 && (ready ==> forall i {:trigger words[i]} :: 0 <= i < 256 ==> words[i] == Entry(i))
    }

    constructor ()
      ensures Valid() && !ready && fresh(words)
    {
      words := new bv32[256](i => 0);
      ready := false;
    }

    method Init()
      requires Valid()
      modifies this, words
      ensures Valid() && ready
    {
      hide Shifts;
      for i := 0 to 256
        invariant words.Length == 256
        invariant forall k {:trigger words[k]} :: 0 <= k < i ==> words[k] == Entry(k)
      {
        var c := EightShifts(i as bv32);
        words[i] := c;
      }
      ready := true;
    }

    /** Folds the data through the table; the result is the bit-by-bit checksum. */
    method Calc(data: seq<Byte>) returns (crc: bv32)
      requires Valid()
      modifies this, words
      ensures Valid() && ready && crc == Crc(data)
    {
      hide Update, Xor, Entry;
      if !ready {
        Init();
      }
      var c := INITIAL;
      for i := 0 to |data|
        invariant Valid() && ready
        invariant Fold(c, data[i..]) == Fold(INITIAL, data)
      {
        assert data[i..][0] == data[i] && data[i..][1..] == data[i + 1..];
        c := Lookup(c, data[i]);
      }
      assert data[|data|..] == [];
      crc := Xor(c, INITIAL);
    }

    method Lookup(c: bv32, b: Byte) returns (r: bv32)
      requires Valid() && ready
      ensures r == Update(c, b)
    {
      hide Shifts, Wide, Xor, Drop8, LowByteOf, Update, Index;
      TableStep(c, b);
      var index := Index(Xor(c, Wide(b)));
      IndexIsLowByte(Xor(c, Wide(b)));
      assert words[index] == Entry(index);
      r := Xor(words[index], Drop8(c));
    }
  }

  method EightShifts(start: bv32) returns (c: bv32)
    ensures c == Shifts(start, 8)
  {
    hide Odd, Half, Xor;
    c := start;
    for j := 0 to 8
      invariant Shifts(c, 8 - j) == Shifts(start, 8)
    {
      c := if Odd(c) then Xor(0xEDB88320, Half(c)) else Half(c);
    }
  }

  // ----- the update is injective in the register and in the byte

  /** The top bit after a shift tells whether the polynomial was added. */
  function Unshift(c: bv32): bv32 {
    if TopBit(c) then DoublePlusOne(Xor(c, 0xEDB88320)) else Double(c)
  }

  lemma {:induction false} UnshiftShift(c: bv32)
    ensures Unshift(Shift(c)) == c
  {
    hide Xor, Half, Odd, TopBit, Double, DoublePlusOne;
    UndoHalf(c);
    XorMoves(0xEDB88320, Half(c), 0);
  }

  lemma {:induction false} ShiftsInjective(a: bv32, b: bv32, n: nat)
    requires Shifts(a, n) == Shifts(b, n)
    ensures a == b
    decreases n
  {
    hide Shift, Unshift;
    if n > 0 {
      ShiftsInjective(Shift(a), Shift(b), n - 1);
      UnshiftShift(a);
      UnshiftShift(b);
    }
  }

  lemma {:induction false} UpdateInjective(a: bv32, b: bv32, x: Byte, y: Byte)
    ensures Update(a, x) == Update(b, x) ==> a == b
    ensures Update(a, x) == Update(a, y) ==> x == y
  {
    hide Shifts, Xor, Wide;
    if Update(a, x) == Update(b, x) {
      ShiftsInjective(Xor(a, Wide(x)), Xor(b, Wide(x)), 8);
      XorInjective(a, b, Wide(x));
    }
    if Update(a, x) == Update(a, y) {
      ShiftsInjective(Xor(a, Wide(x)), Xor(a, Wide(y)), 8);
      XorInjective(Wide(x), Wide(y), a);
      WideInjective(x, y);
    }
  }

  lemma {:induction false} WideInjective(x: Byte, y: Byte)
    requires Wide(x) == Wide(y)
    ensures x == y
  {
    hide ToBits;
    WidenInjective(ToBits(x), ToBits(y));
    ToBitsInjective(x, y);
  }

  lemma {:induction false} FoldInjective(a: bv32, b: bv32, data: seq<Byte>)
    requires Fold(a, data) == Fold(b, data)
    ensures a == b
    decreases |data|
  {
    hide Update;
    if data != [] {
      FoldInjective(Update(a, data[0]), Update(b, data[0]), data[1..]);
      UpdateInjective(a, b, data[0], data[0]);
    }
  }

  lemma {:induction false} FoldConcat(c: bv32, s: seq<Byte>, t: seq<Byte>)
    ensures Fold(c, s + t) == Fold(Fold(c, s), t)
    decreases |s|
  {
    hide Update;
    if s == [] {
      assert s + t == t;
    } else {
      assert (s + t)[1..] == s[1..] + t;
      FoldConcat(Update(c, s[0]), s[1..], t);
    }
  }

  lemma {:induction false} SplitAt(data: seq<Byte>, k: nat)
    requires k < |data|
    ensures Fold(INITIAL, data) == Fold(Update(Fold(INITIAL, data[..k]), data[k]), data[k + 1..])
  {
    hide Update;
    assert data == data[..k] + data[k..];
    FoldConcat(INITIAL, data[..k], data[k..]);
    assert data[k..][1..] == data[k + 1..];
  }

  /** Changing any single byte always changes the checksum. */
  lemma {:induction false} SingleByteChange(data: seq<Byte>, k: nat, b: Byte)
    requires k < |data| && b != data[k]
    ensures Crc(data[k := b]) != Crc(data)
  {
    hide Update, Xor;
    SplitAt(data, k);
    SplitAt(data[k := b], k);
    assert data[k := b][..k] == data[..k] && data[k := b][k + 1..] == data[k + 1..];
    if Crc(data[k := b]) == Crc(data) {
      XorInjective(Fold(INITIAL, data[k := b]), Fold(INITIAL, data), INITIAL);
      var c := Fold(INITIAL, data[..k]);
      FoldInjective(Update(c, b), Update(c, data[k]), data[k + 1..]);
      UpdateInjective(c, c, b, data[k]);
    }
  }

  // ----- the checksum as four bytes, least significant first

  function WordBytes(c: bv32): (s: seq<Byte>)
    ensures |s| == 4
  {
    [FromBits((c & 0xFF) as bv8), FromBits(((c >> 8) & 0xFF) as bv8),
     FromBits(((c >> 16) & 0xFF) as bv8), FromBits(((c >> 24) & 0xFF) as bv8)]
  }

  lemma {:induction false} WordBytesInjective(a: bv32, b: bv32)
    requires WordBytes(a) == WordBytes(b)
    ensures a == b
  {
    assert WordBytes(a)[0] == WordBytes(b)[0] && WordBytes(a)[1] == WordBytes(b)[1]
           && WordBytes(a)[2] == WordBytes(b)[2] && WordBytes(a)[3] == WordBytes(b)[3];
    hide WordBytes, FromBits;
    SameByte((a & 0xFF) as bv8, (b & 0xFF) as bv8);
    SameByte(((a >> 8) & 0xFF) as bv8, ((b >> 8) & 0xFF) as bv8);
    SameByte(((a >> 16) & 0xFF) as bv8, ((b >> 16) & 0xFF) as bv8);
    SameByte(((a >> 24) & 0xFF) as bv8, ((b >> 24) & 0xFF) as bv8);
    RawWords.QuartersDetermine(a, b);
  }
}
