/** Facts about bit vectors, stated without any other definition in sight. */
module RawBits {
  lemma {:induction false} RoundTrip(n: int)
    requires 0 <= n < 256
    ensures (n as bv8) as int == n
  {
    assert n == n % 256;
  }

  lemma {:induction false} SameNumber(x: bv8, y: bv8)
    requires x as int == y as int
    ensures x == y
  {
  }

  lemma {:induction false} HalvesDetermine(a: bv16, b: bv16)
    requires (a >> 8) as bv8 == (b >> 8) as bv8 && (a & 0xFF) as bv8 == (b & 0xFF) as bv8
    ensures a == b
  {
  }
}

/** Bytes as bit patterns: the one place where numbers and bit vectors meet. */
module Bits8 {
  import RawBits

  function ToBits(b: int): bv8
    requires 0 <= b < 256
  {
    b as bv8
  }

  function FromBits(b: bv8): (r: int)
    ensures 0 <= r < 256
  {
    b as int
  }

  lemma {:induction false} FromToBits(b: int)
    requires 0 <= b < 256
    ensures FromBits(ToBits(b)) == b
  {
    RawBits.RoundTrip(b);
  }

  lemma {:induction false} ToBitsInjective(x: int, y: int)
    requires 0 <= x < 256 && 0 <= y < 256
    requires ToBits(x) == ToBits(y)
    ensures x == y
  {
    FromToBits(x);
    FromToBits(y);
  }

  lemma {:induction false} SameByte(x: bv8, y: bv8)
    ensures FromBits(x) == FromBits(y) ==> x == y
  {
    if FromBits(x) == FromBits(y) {
      RawBits.SameNumber(x, y);
    }
  }

  function HighByte(w: bv16): (r: int)
    ensures 0 <= r < 256
  {
    FromBits((w >> 8) as bv8)
  }

  function LowByte(w: bv16): (r: int)
    ensures 0 <= r < 256
  {
    FromBits((w & 0xFF) as bv8)
  }

  lemma {:induction false} BytesDetermine(a: bv16, b: bv16)
    requires HighByte(a) == HighByte(b) && LowByte(a) == LowByte(b)
    ensures a == b
  {
    RawBits.SameNumber((a >> 8) as bv8, (b >> 8) as bv8);
    RawBits.SameNumber((a & 0xFF) as bv8, (b & 0xFF) as bv8);
    RawBits.HalvesDetermine(a, b);
  }
}
