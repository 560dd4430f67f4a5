/** Bits of bytes and masks, stated without any other definition in sight. */
module RawAnd {
  lemma {:induction false} AndTest(a: bv8, b: bv8, mask: bv8)
    requires mask & (mask - 1) == 0
    ensures (a & b) & mask != 0 <==> a & mask != 0 && b & mask != 0
  {
  }

  lemma {:induction false} BackAgain(w: bv8)
    ensures (w as int) as bv8 == w
  {
  }
}

/** Programming flash, bit by bit. */
module FlashBits {
  import opened Bytes
  import opened Bits8
  import opened Flash
  import RawAnd
  import RawRegisters

  /** Bit `k` of a byte, counted from the lowest. */
  predicate Bit(b: Byte, k: nat)
    requires k < 8
  {
    b / (if k == 0 then 1 else if k == 1 then 2 else if k == 2 then 4 else if k == 3 then 8
         else if k == 4 then 16 else if k == 5 then 32 else if k == 6 then 64 else 128) % 2 == 1
  }

  function Mask(k: nat): bv8
    requires k < 8
  {
    if k == 0 then 1 else if k == 1 then 2 else if k == 2 then 4 else if k == 3 then 8
    else if k == 4 then 16 else if k == 5 then 32 else if k == 6 then 64 else 128
  }

  predicate Test(w: bv8, mask: bv8) {
    w & mask != 0
  }

  lemma {:induction false} BitIsTest(b: Byte, k: nat)
    requires k < 8
    ensures Bit(b, k) <==> Test(ToBits(b), Mask(k))
  {
    RawRegisters.HighBits(b);
    RawRegisters.LowBits(b);
  }

  lemma {:induction false} AndTest(a: bv8, b: bv8, k: nat)
    requires k < 8
    ensures Test(a & b, Mask(k)) <==> Test(a, Mask(k)) && Test(b, Mask(k))
  {
    OneBit(k);
    RawAnd.AndTest(a, b, Mask(k));
  }

  lemma {:induction false} OneBit(k: nat)
    requires k < 8
    ensures Mask(k) & (Mask(k) - 1) == 0
  {
  }

  lemma {:induction false} AndBack(a: Byte, b: Byte)
    ensures ToBits(And(a, b)) == ToBits(a) & ToBits(b)
  {
    RawAnd.BackAgain(ToBits(a) & ToBits(b));
  }

  /** Programming leaves a bit set if and only if it was set and is written as set; behind the data nothing changes. */
  lemma {:induction false} ProgramBits(before: seq<Byte>, data: seq<Byte>, i: nat, k: nat)
    requires |data| <= |before| && i < |before| && k < 8
    ensures Bit(Program(before, data)[i], k) <==> Bit(before[i], k) && (i < |data| ==> Bit(data[i], k))
    ensures i >= |data| ==> Program(before, data)[i] == before[i]
  {
    hide Bit, Test, Mask, And, ToBits;
    if i < |data| {
      var a, b := before[i], data[i];
      BitIsTest(And(a, b), k);
      BitIsTest(a, k);
      BitIsTest(b, k);
      AndBack(a, b);
      AndTest(ToBits(a), ToBits(b), k);
    }
  }

  /** Erasing sets every bit. */
  lemma {:induction false} ErasedBits(i: nat, k: nat)
    requires i < 4096 && k < 8
    ensures |Erased()| == 4096 && Bit(Erased()[i], k)
  {
  }
}
