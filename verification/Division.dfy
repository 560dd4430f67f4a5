/** Long division of polynomials over two elements, on bit sequences with the leading coefficient first. */
module Division {
  import opened Bytes

  type Bits = seq<bool>

  function Zeros(n: nat): (s: Bits)
    ensures |s| == n && forall i :: 0 <= i < n ==> !s[i]
  {
    seq(n, i => false)
  }

  function Ones(n: nat): (s: Bits)
    ensures |s| == n && forall i :: 0 <= i < n ==> s[i]
  {
    seq(n, i => true)
  }

  /** `g` added to the front of `s`. */
  function Add(s: Bits, g: Bits): (r: Bits)
    requires |g| <= |s|
    ensures |r| == |s| && forall i {:trigger r[i]} :: 0 <= i < |s| ==> r[i] == if i < |g| then s[i] != g[i] else s[i]
  {
    seq(|s|, i requires 0 <= i < |s| => if i < |g| then s[i] != g[i] else s[i])
  }

  /** The remainder of `s` divided by `g`: as long as the degree allows, the leading term is cancelled. */
  function Remainder(s: Bits, g: Bits): (r: Bits)
    requires 0 < |g| <= |s| + 1 && g[0]
    ensures |r| == |g| - 1
    decreases |s|
  {
    if |s| < |g| then s else Remainder((if s[0] then Add(s, g) else s)[1..], g)
  }

  /** The number with these bits. */
  function Value(s: Bits): nat
    decreases |s|
  {
    if s == [] then 0 else 2 * Value(s[..|s| - 1]) + if s[|s| - 1] then 1 else 0
  }

  function Reverse(s: Bits): (r: Bits)
    ensures |r| == |s| && forall i {:trigger r[i]} :: 0 <= i < |s| ==> r[i] == s[|s| - 1 - i]
  {
    seq(|s|, i requires 0 <= i < |s| => s[|s| - 1 - i])
  }

  /** The bits of a byte, from the highest down. */
  function ByteBits(b: Byte): (r: Bits)
    ensures |r| == 8
  {
    [b / 128 % 2 == 1, b / 64 % 2 == 1, b / 32 % 2 == 1, b / 16 % 2 == 1, b / 8 % 2 == 1, b / 4 % 2 == 1,
     b / 2 % 2 == 1, b % 2 == 1]
  }

  /** The bits of a message, each byte from its highest bit down, or from its lowest up. */
  function MessageBits(data: seq<Byte>, lowFirst: bool): (r: Bits)
    ensures |r| == 8 * |data|
    decreases |data|
  {
    if data == [] then [] else OneByte(data[0], lowFirst) + MessageBits(data[1..], lowFirst)
  }

  function OneByte(b: Byte, lowFirst: bool): (r: Bits)
    ensures |r| == 8
  {
    if lowFirst then Reverse(ByteBits(b)) else ByteBits(b)
  }

  // ----- division by a shift register

  /** One step of a register of one bit less than `g`. */
  function Shift(r: Bits, g: Bits): (s: Bits)
    requires 0 < |r| == |g| - 1
    ensures |s| == |r|
  {
    if r[0] then Add(r[1..] + [false], g[1..]) else r[1..] + [false]
  }

  function Shifts(r: Bits, g: Bits, n: nat): (s: Bits)
    requires 0 < |r| == |g| - 1
    ensures |s| == |r|
    decreases n
  {
    if n == 0 then r else Shifts(Shift(r, g), g, n - 1)
  }

  /** The register after a message, byte by byte. */
  function Register(r: Bits, data: seq<Byte>, lowFirst: bool, g: Bits): (s: Bits)
    requires 8 <= |r| == |g| - 1
    ensures |s| == |r|
    decreases |data|
  {
    if data == [] then r
    else Register(Shifts(Add(r, OneByte(data[0], lowFirst)), g, 8), data[1..], lowFirst, g)
  }

  lemma {:induction false} DivideOne(r: Bits, u: Bits, g: Bits)
    requires 0 < |r| == |g| - 1 <= |u| && g[0]
    ensures Remainder(Add([false] + u, r), g) == Remainder(Add(u, Shift(r, g)), g)
  {
    hide Remainder;
    var s := Add([false] + u, r);
    var next := (if s[0] then Add(s, g) else s)[1..];
    assert s[0] == r[0];
    forall i | 0 <= i < |u|
      ensures next[i] == Add(u, Shift(r, g))[i]
    {
    }
    assert next == Add(u, Shift(r, g));
    CancelOne(s, g);
  }

  lemma {:induction false} CancelOne(s: Bits, g: Bits)
    requires 0 < |g| <= |s| && g[0]
    ensures Remainder(s, g) == Remainder((if s[0] then Add(s, g) else s)[1..], g)
  {
  }

  lemma {:induction false} DivideMany(r: Bits, n: nat, u: Bits, g: Bits)
    requires 0 < |r| == |g| - 1 <= |u| && g[0]
    ensures Remainder(Add(Zeros(n) + u, r), g) == Remainder(Add(u, Shifts(r, g, n)), g)
    decreases n
  {
    hide Remainder, Shift;
    if n == 0 {
      assert Zeros(n) + u == u;
    } else {
      assert Zeros(n) + u == [false] + (Zeros(n - 1) + u);
      DivideOne(r, Zeros(n - 1) + u, g);
      DivideMany(Shift(r, g), n - 1, u, g);
    }
  }

  /** A shift register started at `r` divides the message, with `r` added in front and zeros behind. */
  lemma {:induction false} RegisterDivides(r: Bits, data: seq<Byte>, lowFirst: bool, g: Bits)
    requires 8 <= |r| == |g| - 1 && g[0]
    ensures Register(r, data, lowFirst, g) == Remainder(Add(MessageBits(data, lowFirst) + Zeros(|r|), r), g)
    decreases |data|
  {
    hide Shifts, OneByte;
    if data == [] {
      assert MessageBits(data, lowFirst) + Zeros(|r|) == Zeros(|r|);
      assert Add(Zeros(|r|), r) == r;
    } else {
      var b, u := OneByte(data[0], lowFirst), MessageBits(data[1..], lowFirst) + Zeros(|r|);
      var next := Shifts(Add(r, b), g, 8);
      assert MessageBits(data, lowFirst) + Zeros(|r|) == b + u;
      assert Add(b + u, r) == Add(Zeros(8) + u, Add(r, b));
      DivideMany(Add(r, b), 8, u, g);
      RegisterDivides(next, data[1..], lowFirst, g);
    }
  }

  // ----- numbers

  lemma {:induction false} ValueOf8(s: Bits)
    requires |s| == 8
    ensures Value(s) == (if s[0] then 128 else 0) + (if s[1] then 64 else 0) + (if s[2] then 32 else 0)
                        + (if s[3] then 16 else 0) + (if s[4] then 8 else 0) + (if s[5] then 4 else 0)
                        + (if s[6] then 2 else 0) + (if s[7] then 1 else 0)
  {
    assert s[..7][..6] == s[..6] && s[..6][..5] == s[..5] && s[..5][..4] == s[..4];
    assert s[..4][..3] == s[..3] && s[..3][..2] == s[..2] && s[..2][..1] == s[..1] && s[..1][..0] == [];
    assert Value(s[..1]) == if s[0] then 1 else 0;
    assert Value(s[..2]) == 2 * Value(s[..1]) + if s[1] then 1 else 0;
    assert Value(s[..3]) == 2 * Value(s[..2]) + if s[2] then 1 else 0;
    assert Value(s[..4]) == 2 * Value(s[..3]) + if s[3] then 1 else 0;
    assert Value(s[..5]) == 2 * Value(s[..4]) + if s[4] then 1 else 0;
    assert Value(s[..6]) == 2 * Value(s[..5]) + if s[5] then 1 else 0;
    assert Value(s[..7]) == 2 * Value(s[..6]) + if s[6] then 1 else 0;
  }

  function Power2(n: nat): nat {
    if n == 0 then 1 else 2 * Power2(n - 1)
  }

  lemma {:induction false} ValueConcat(s: Bits, t: Bits)
    ensures Value(s + t) == Power2(|t|) * Value(s) + Value(t)
    decreases |t|
  {
    hide Value, Power2;
    if t == [] {
      ValueOfNothing();
      assert s + t == s;
    } else {
      var front := t[..|t| - 1];
      assert (s + t)[..|s + t| - 1] == s + front;
      ValueConcat(s, front);
      TwiceProduct(Power2(|front|), Value(s));
      PowerStep(|front|);
      ValueStep(s + t);
      ValueStep(t);
    }
  }

  lemma {:induction false} ValueOfNothing()
    ensures Value([]) == 0 && Power2(0) == 1
  {
  }

  lemma {:induction false} ValueStep(s: Bits)
    requires s != []
    ensures Value(s) == 2 * Value(s[..|s| - 1]) + if s[|s| - 1] then 1 else 0
  {
  }

  lemma {:induction false} PowerStep(n: nat)
    ensures Power2(n + 1) == 2 * Power2(n)
  {
  }

  lemma {:induction false} TwiceProduct(a: nat, b: nat)
    ensures 2 * (a * b) == (2 * a) * b
  {
  }
}
