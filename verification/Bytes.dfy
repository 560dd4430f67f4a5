/** Bytes and the multi-byte integers that the wire and flash formats are built from. */
module Bytes {

  type Byte = x: int | 0 <= x < 256

  const WORD32: nat := 0x1_0000_0000

  datatype Option<+T> = None | Some(value: T)

  /** The 16-bit number whose most significant byte is `hi`. */
  function U16(hi: Byte, lo: Byte): (n: nat)
    ensures n < 0x1_0000
  {
    hi * 256 + lo
  }

  /** The high and the low byte of a 16-bit number, as the casts in the sources cut them. */
  function Hi(n: nat): Byte {
    (n / 256) % 256
  }

  function Lo(n: nat): Byte {
    n % 256
  }

  lemma {:induction false} U16RoundTrip(n: nat)
    requires n < 0x1_0000
    ensures U16(Hi(n), Lo(n)) == n
  {
  }

  lemma {:induction false} U16Bytes(hi: Byte, lo: Byte)
    ensures Hi(U16(hi, lo)) == hi && Lo(U16(hi, lo)) == lo
  {
  }

  /** The four bytes of a 32-bit word, least significant first; only the number modulo 2^32 matters. */
  function Le32(n: int): (s: seq<Byte>)
    ensures |s| == 4
  {
    [n % 256, n / 256 % 256, n / 65536 % 256, n / 16777216 % 256]
  }

  function FromLe32(a: Byte, b: Byte, c: Byte, d: Byte): nat {
    (a as int) + 256 * (b as int) + 65536 * (c as int) + 16777216 * (d as int)
  }

  lemma {:induction false} NextByte(n: int)
    ensures n / 65536 == n / 256 / 256 && n / 16777216 == n / 65536 / 256 && n / WORD32 == n / 16777216 / 256
  {
  }

  lemma {:induction false} Le32RoundTrip(n: int)
    ensures var s := Le32(n); FromLe32(s[0], s[1], s[2], s[3]) == n % WORD32
  {
    NextByte(n);
    var a, b, c, d := n / 256, n / 65536, n / 16777216, n / WORD32;
    assert n == n % 256 + 256 * a && a == a % 256 + 256 * b && b == b % 256 + 256 * c && c == c % 256 + 256 * d;
  }

  /** The low `w` bytes of a word as a number. */
  function LowBytes(n: nat, w: int): nat {
    if w <= 0 then 0 else if w == 1 then n % 256 else if w == 2 then n % 65536 else if w == 3 then n % 16777216 else n
  }

  lemma {:induction false} Le32Low(n: nat)
    requires n < WORD32
    ensures var s := Le32(n);
            && s[0] as int == LowBytes(n, 1) && s[0] as int + 256 * s[1] as int == LowBytes(n, 2)
            && s[0] as int + 256 * s[1] as int + 65536 * s[2] as int == LowBytes(n, 3)
            && s[0] as int + 256 * s[1] as int + 65536 * s[2] as int + 16777216 * s[3] as int == n
  {
    Le32RoundTrip(n);
    NextByte(n);
    var a, b, c := n / 256, n / 65536, n / 16777216;
    assert n == n % 256 + 256 * a && a == a % 256 + 256 * b && b == b % 256 + 256 * c;
  }

  /** What a word reads as of which only the low `w` bytes have been written, on erased flash. */
  function Partial(n: nat, w: int): nat {
    if w <= 0 then WORD32 - 1
    else if w == 1 then WORD32 - 256 + LowBytes(n, 1)
    else if w == 2 then WORD32 - 65536 + LowBytes(n, 2)
    else if w == 3 then WORD32 - 16777216 + LowBytes(n, 3)
    else n
  }

  lemma {:induction false} PartialWord(n: nat, w: int, a: Byte, b: Byte, c: Byte, d: Byte)
    requires n < WORD32
    requires var l := Le32(n);
             && a == (if w > 0 then l[0] else 0xFF) && b == (if w > 1 then l[1] else 0xFF)
             && c == (if w > 2 then l[2] else 0xFF) && d == (if w > 3 then l[3] else 0xFF)
    ensures FromLe32(a, b, c, d) == Partial(n, w)
  {
    hide Le32, LowBytes;
    Le32Low(n);
    var l := Le32(n);
    PartialSum(l[0], l[1], l[2], l[3], LowBytes(n, 1), LowBytes(n, 2), LowBytes(n, 3), n, w);
  }

  /** The same sums with the remainders as numbers of their own. */
  lemma {:induction false} PartialSum(l0: int, l1: int, l2: int, l3: int, r1: int, r2: int, r3: int, n: int, w: int)
    requires l0 == r1 && l0 + 256 * l1 == r2 && l0 + 256 * l1 + 65536 * l2 == r3
    requires l0 + 256 * l1 + 65536 * l2 + 16777216 * l3 == n
    ensures (if w > 0 then l0 else 0xFF) + 256 * (if w > 1 then l1 else 0xFF) + 65536 * (if w > 2 then l2 else 0xFF)
            + 16777216 * (if w > 3 then l3 else 0xFF)
            == if w <= 0 then WORD32 - 1
               else if w == 1 then WORD32 - 256 + r1
               else if w == 2 then WORD32 - 65536 + r2
               else if w == 3 then WORD32 - 16777216 + r3
               else n
  {
  }

  /** The text of a C string: what stands before the first zero. */
  function UpToZero(s: seq<Byte>): seq<Byte>
    decreases |s|
  {
    if s == [] || s[0] == 0 then [] else [s[0]] + UpToZero(s[1..])
  }

  lemma {:induction false} NoZero(s: seq<Byte>)
    requires 0 !in s
    ensures UpToZero(s) == s
    decreases |s|
  {
    if s != [] {
      NoZero(s[1..]);
    }
  }

  /** Copies `data` into `out` at offset `at`, as `memcpy` and `TypedArray.set` do. */
  method CopyInto(out: array<Byte>, at: nat, data: seq<Byte>)
    requires at + |data| <= out.Length
    modifies out
    ensures out[..] == old(out[..at]) + data + old(out[at + |data|..])
  {
    forall i | 0 <= i < |data| {
      out[at + i] := data[i];
    }
  }

  /** Continues to overwrite a buffer that held `before`, of which `done` has replaced the front. */
  method CopyNext(out: array<Byte>, at: nat, data: seq<Byte>, ghost done: seq<Byte>, ghost before: seq<Byte>)
    requires at == |done| && at + |data| <= out.Length == |before|
    requires out[..] == done + before[at..]
    modifies out
    ensures out[..] == (done + data) + before[at + |data|..]
  {
    CopyInto(out, at, data);
  }

  /** `n` copies of `b`. */
  function Repeat(b: Byte, n: nat): (s: seq<Byte>)
    ensures |s| == n && forall i :: 0 <= i < n ==> s[i] == b
  {
    seq(n, i => b)
  }
}
