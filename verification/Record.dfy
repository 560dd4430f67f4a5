/** Power-loss safe flash records: header, payload, commit marker. */
module Record {
  import opened Bytes
  import Crc32

  const MAGIC: nat := 0x52454331
  const COMMIT: nat := 0x55AA55AA
  const HEADER: nat := 16
  const ERASED: Byte := 0xFF

  /** Little-endian words, as the target and the hosts store them. */
  function Le16(n: nat): (s: seq<Byte>)
    ensures |s| == 2
  {
    [n % 256, n / 256 % 256]
  }

  function Header(sequence: nat, payload: seq<Byte>): (s: seq<Byte>)
    ensures |s| == HEADER
  {
    Le32(MAGIC) + Le16(1) + Le16(sequence) + Le32(|payload|) + Crc32.WordBytes(Crc32.Crc(payload))
  }

  function Format(sequence: nat, payload: seq<Byte>): (s: seq<Byte>)
    ensures |s| == HEADER + |payload| + 4
  {
    Header(sequence, payload) + payload + Le32(COMMIT)
  }

  /** The payload length that a header announces. */
  function PayloadLength(buffer: seq<Byte>): nat
    requires |buffer| >= HEADER
  {
    FromLe32(buffer[8], buffer[9], buffer[10], buffer[11])
  }

  /** What comes of looking at a buffer: a committed record and the length of its payload, no record, or a read past the
      end of the buffer. */
  datatype Outcome = Accepted(length: nat) | Rejected | Overrun

  /** Sizes are added modulo `width`, one more than the largest value of `size_t`. */
  function Validate(buffer: seq<Byte>, width: nat): Outcome
    requires width > 0
  {
    if |buffer| < HEADER + 4 then Rejected
    else if buffer[..4] != Le32(MAGIC) || buffer[4..6] != Le16(1) then Rejected
    else
      var n := PayloadLength(buffer);
      if (HEADER + n + 4) % width > |buffer| then Rejected
      else if HEADER + n + 4 > |buffer| then Overrun
      else if Crc32.WordBytes(Crc32.Crc(buffer[HEADER..HEADER + n])) != buffer[12..16] then Rejected
      else if buffer[HEADER + n..HEADER + n + 4] != Le32(COMMIT) then Rejected
      else Accepted(n)
  }

  datatype Status = Ok | NoMemory | Corrupted

  // ----- the layout, byte by byte

  /** A record is "1CER", version 1, the low 16 bits of its sequence number, the length and the checksum of its payload,
      the payload, and 0x55AA55AA, all least significant byte first. */
  predicate Holds(r: seq<Byte>, sequence: nat, payload: seq<Byte>) {
    && |r| == |payload| + 20
    && r[0] == 0x31 && r[1] == 0x43 && r[2] == 0x45 && r[3] == 0x52 && r[4] == 1 && r[5] == 0
    && r[6] as int + 256 * r[7] as int == sequence % 65536
    && r[8] as int + 256 * r[9] as int + 65536 * r[10] as int + 16777216 * r[11] as int == |payload| % 0x1_0000_0000
    && r[12..16] == Crc32.WordBytes(Crc32.Crc(payload))
    && r[16..16 + |payload|] == payload
    && r[16 + |payload|..] == [0xAA, 0x55, 0xAA, 0x55]
  }

  lemma {:induction false} Low16(n: nat)
    ensures Le16(n)[0] as int + 256 * Le16(n)[1] as int == n % 65536
  {
    var a, b := n / 256, n / 65536;
    assert n == n % 256 + 256 * a && a == a % 256 + 256 * b by {
      NextByte(n);
    }
  }

  lemma {:induction false} Constants()
    ensures Le32(MAGIC) == [0x31, 0x43, 0x45, 0x52] && Le32(COMMIT) == [0xAA, 0x55, 0xAA, 0x55] && Le16(1) == [1, 0]
  {
  }

  lemma {:induction false} FormatHolds(sequence: nat, payload: seq<Byte>)
    ensures Holds(Format(sequence, payload), sequence, payload)
  {
    hide Crc32.Crc, Crc32.WordBytes, Le16, Le32;
    Constants();
    Low16(sequence);
    Le32RoundTrip(|payload|);
    var r, l := Format(sequence, payload), Le32(|payload|);
    assert r[8] == l[0] && r[9] == l[1] && r[10] == l[2] && r[11] == l[3];
    assert r[16..16 + |payload|] == payload && r[16 + |payload|..] == Le32(COMMIT);
  }

  lemma {:induction false} SameLow16(a: nat, b: nat, payload: seq<Byte>)
    requires a % 65536 == b % 65536
    ensures Format(a, payload) == Format(b, payload)
  {
    hide Crc32.Crc, Crc32.WordBytes, Le32;
    Low16(a);
    Low16(b);
    assert Le16(a) == Le16(b);
  }

  /** Two records are the same if and only if their payloads are, and the low 16 bits of their sequence numbers: below
      65536, records with different sequence numbers differ. */
  lemma {:induction false} SameRecordIff(a: nat, p: seq<Byte>, b: nat, q: seq<Byte>)
    ensures Format(a, p) == Format(b, q) <==> a % 65536 == b % 65536 && p == q
    ensures a < 65536 && b < 65536 && a != b ==> Format(a, p) != Format(b, q)
  {
    hide Crc32.Crc, Crc32.WordBytes, Format, Le16, Le32;
    FormatHolds(a, p);
    FormatHolds(b, q);
    if a % 65536 == b % 65536 {
      SameLow16(a, b, p);
    }
  }

  method FormatRecord(out: array<Byte>, sequence: nat, payload: seq<Byte>, crc: Crc32.Table)
    returns (status: Status, total: nat)
    requires crc.Valid() && out as object != crc.words
    modifies out, crc, crc.words
    ensures crc.Valid()
    ensures status == if |payload| + 20 > out.Length then NoMemory else Ok
    ensures status.Ok? ==> total == |payload| + 20 && out[..] == Format(sequence, payload) + old(out[total..])
    ensures status.Ok? ==> Holds(out[..total], sequence, payload)
    ensures status.Ok? ==>
              && out[4] == 1 && out[5] == 0 && out[6] as int + 256 * out[7] as int == sequence % 65536
              && out[8] as int + 256 * out[9] as int + 65536 * out[10] as int + 16777216 * out[11] as int
                 == |payload| % 0x1_0000_0000
    ensures !status.Ok? ==> out[..] == old(out[..])
  {
    total := HEADER + |payload| + 4;
    if total > out.Length {
      return NoMemory, 0;
    }
    var word := crc.Calc(payload);
    hide Crc32.Crc, Crc32.WordBytes, Header;
    ghost var before := out[..];
    WriteHeader(out, sequence, payload, word);
    CopyInto(out, HEADER, payload);
    CopyInto(out, HEADER + |payload|, Le32(COMMIT));
    assert out[..] == Format(sequence, payload) + before[total..];
    assert out[..total] == Format(sequence, payload);
    FormatHolds(sequence, payload);
    assert forall i :: 0 <= i < 12 ==> out[i] == out[..total][i];
    return Ok, total;
  }

  method WriteHeader(out: array<Byte>, sequence: nat, payload: seq<Byte>, word: bv32)
    requires out.Length >= HEADER && word == Crc32.Crc(payload)
    modifies out
    ensures out[..] == Header(sequence, payload) + old(out[HEADER..])
  {
    hide Crc32.Crc, Crc32.WordBytes, Le16, Le32;
    ghost var before := out[..];
    CopyInto(out, 0, Le32(MAGIC));
    CopyInto(out, 4, Le16(1));
    assert out[..] == Le32(MAGIC) + Le16(1) + before[6..];
    CopyInto(out, 6, Le16(sequence));
    CopyInto(out, 8, Le32(|payload|));
    assert out[..] == Le32(MAGIC) + Le16(1) + Le16(sequence) + Le32(|payload|) + before[12..];
    CopyInto(out, 12, Crc32.WordBytes(word));
  }

  /** `overrun` says that the length test has let a payload through that reaches past the buffer; reading on from there
      is beyond what the source defines. */
  method ValidateRecord(buffer: seq<Byte>, width: nat, crc: Crc32.Table)
    returns (status: Status, length: nat, overrun: bool)
    requires crc.Valid() && width > 0
    modifies crc, crc.words
    ensures crc.Valid() && status != NoMemory
    ensures Validate(buffer, width) == if overrun then Overrun else if status.Ok? then Accepted(length) else Rejected
  {
    hide Crc32.Crc, Crc32.WordBytes;
    length, overrun := 0, false;
    if |buffer| < HEADER + 4 {
      return Corrupted, 0, false;
    }
    if buffer[..4] != Le32(MAGIC) || buffer[4..6] != Le16(1) {
      return Corrupted, 0, false;
    }
    length := PayloadLength(buffer);
    var expected := (HEADER + length + 4) % width;
    if expected > |buffer| {
      return Corrupted, 0, false;
    }
    if HEADER + length + 4 > |buffer| {
      return Corrupted, 0, true;
    }
    var word := crc.Calc(buffer[HEADER..HEADER + length]);
    if Crc32.WordBytes(word) != buffer[12..16] {
      return Corrupted, 0, false;
    }
    if buffer[HEADER + length..HEADER + length + 4] != Le32(COMMIT) {
      return Corrupted, 0, false;
    }
    return Ok, length, false;
  }

  /** A record is accepted if and only if magic, version, length, checksum and commit marker are all as they should be
      and the sum of the sizes does not wrap round to reach past the buffer. */
  lemma {:induction false} AcceptedIff(buffer: seq<Byte>, width: nat, n: nat)
    requires width > 0
    ensures Validate(buffer, width) == Accepted(n) <==>
              && n + 20 <= |buffer|
              && buffer[..6] == [0x31, 0x43, 0x45, 0x52, 1, 0] && (n + 20) % width <= |buffer|
              && buffer[8] as int + 256 * buffer[9] as int + 65536 * buffer[10] as int + 16777216 * buffer[11] as int
                 == n
              && buffer[12..16] == Crc32.WordBytes(Crc32.Crc(buffer[16..16 + n]))
              && buffer[16 + n..20 + n] == [0xAA, 0x55, 0xAA, 0x55]
  {
    hide Crc32.Crc, Crc32.WordBytes, Le32, Le16;
    Constants();
    if |buffer| >= 20 {
      GoodFront(buffer);
    }
  }

  lemma {:induction false} HeaderFields(sequence: nat, payload: seq<Byte>, rest: seq<Byte>)
    requires |payload| < WORD32
    ensures var s := Header(sequence, payload) + rest;
            && s[..4] == Le32(MAGIC) && s[4..6] == Le16(1) && PayloadLength(s) == |payload|
            && s[12..16] == Crc32.WordBytes(Crc32.Crc(payload))
  {
    hide Crc32.Crc, Crc32.WordBytes;
    var s := Header(sequence, payload) + rest;
    Le32RoundTrip(|payload|);
    assert s[8..12] == Le32(|payload|);
    assert s[8] == s[8..12][0] && s[9] == s[8..12][1] && s[10] == s[8..12][2] && s[11] == s[8..12][3];
  }

  /** A buffer that passes every test. */
  lemma {:induction false} PassesAll(s: seq<Byte>, n: nat, width: nat)
    requires HEADER + n + 4 <= |s| < width
    requires s[..4] == Le32(MAGIC) && s[4..6] == Le16(1) && PayloadLength(s) == n
    requires Crc32.WordBytes(Crc32.Crc(s[HEADER..HEADER + n])) == s[12..16]
    requires s[HEADER + n..HEADER + n + 4] == Le32(COMMIT)
    ensures Validate(s, width) == Accepted(n)
  {
    hide Crc32.Crc, Crc32.WordBytes, PayloadLength, Le16, Le32;
    assert (HEADER + n + 4) % width == HEADER + n + 4;
  }

  /** A formatted record validates with its own payload length, whatever follows it in the buffer and however wide sizes
      are, as long as the buffer can be addressed. */
  lemma {:induction false} FormattedValidates(sequence: nat, payload: seq<Byte>, rest: seq<Byte>, width: nat)
    requires |payload| < WORD32 && |Format(sequence, payload) + rest| < width
    ensures Validate(Format(sequence, payload) + rest, width) == Accepted(|payload|)
  {
    hide Crc32.Crc, Crc32.WordBytes, Header, Le16, Le32, PayloadLength, Validate;
    var s := Format(sequence, payload) + rest;
    HeaderFields(sequence, payload, payload + Le32(COMMIT) + rest);
    assert s == Header(sequence, payload) + (payload + Le32(COMMIT) + rest);
    assert s[HEADER..HEADER + |payload|] == payload;
    assert s[HEADER + |payload|..HEADER + |payload| + 4] == Le32(COMMIT);
    PassesAll(s, |payload|, width);
  }

  /** What flash holds when power was lost after `k` bytes: the prefix written so far, then erased bytes. */
  function Interrupted(record: seq<Byte>, k: nat, size: nat): (s: seq<Byte>)
    requires k <= |record| <= size
    ensures |s| == size
  {
    record[..k] + Repeat(ERASED, size - k)
  }

  /** A buffer is overrun if and only if its header is good and its length is so close to 2^32 that the sum wraps. */
  lemma {:induction false} OverrunIff(buffer: seq<Byte>)
    requires |buffer| < WORD32
    ensures Validate(buffer, WORD32).Overrun? <==>
              |buffer| >= 20 && buffer[..6] == [0x31, 0x43, 0x45, 0x52, 1, 0]
              && PayloadLength(buffer) >= 0x1_0000_0000 - 20
  {
    hide Crc32.Crc, Crc32.WordBytes, Le16, Le32;
    if |buffer| >= 20 {
      GoodFront(buffer);
    }
  }

  lemma {:induction false} GoodFront(s: seq<Byte>)
    requires |s| >= 6
    ensures s[..6] == [0x31, 0x43, 0x45, 0x52, 1, 0] <==> s[..4] == Le32(MAGIC) && s[4..6] == Le16(1)
  {
    Constants();
    assert s[..6] == s[..4] + s[4..6];
    hide Le32, Le16;
  }

  /** Where sizes are wider than the length field, nothing is overrun. */
  lemma {:induction false} NeverOverrun(buffer: seq<Byte>, width: nat)
    requires width >= 0x1_0000_0000 + 20
    ensures !Validate(buffer, width).Overrun?
  {
    hide Crc32.Crc, Crc32.WordBytes, Le16, Le32, PayloadLength;
    if |buffer| >= 20 {
      LengthBound(buffer);
      SmallRemainder(PayloadLength(buffer) + 20, width);
    }
  }

  lemma {:induction false} LengthBound(buffer: seq<Byte>)
    requires |buffer| >= 16
    ensures PayloadLength(buffer) < 0x1_0000_0000
  {
  }

  lemma {:induction false} SmallRemainder(n: nat, width: nat)
    requires n < width
    ensures n % width == n
  {
  }

  /** A record whose writing was cut short at any byte is not accepted, however wide sizes are. */
  lemma {:induction false} InterruptedNotAccepted(sequence: nat, payload: seq<Byte>, k: nat, size: nat, width: nat)
    requires |payload| < WORD32 && k < |Format(sequence, payload)| <= size && width > 0
    ensures !Validate(Interrupted(Format(sequence, payload), k, size), width).Accepted?
  {
    hide Crc32.Crc, Crc32.WordBytes, Le32, Le16, Format, Interrupted;
    if k < 6 {
      FrontMissing(sequence, payload, k, size);
    } else {
      CommitMissing(sequence, payload, k, size);
    }
  }

  /** Without all of magic and version, one of them is wrong. */
  lemma {:induction false} FrontMissing(sequence: nat, payload: seq<Byte>, k: nat, size: nat)
    requires k < 6 && |Format(sequence, payload)| <= size
    ensures var s := Interrupted(Format(sequence, payload), k, size);
            !(s[..4] == Le32(MAGIC) && s[4..6] == Le16(1))
  {
    hide Crc32.Crc, Crc32.WordBytes;
    var r := Format(sequence, payload);
    var s := Interrupted(r, k, size);
    assert forall i :: 0 <= i < size ==> s[i] == if i < k then r[i] else ERASED;
    if k < 4 {
      assert s[..4][3] == ERASED && Le32(MAGIC)[3] == 0x52;
    } else {
      assert s[4..6][1] == ERASED && Le16(1)[1] == 0;
    }
  }

  /** The length that an interrupted record announces: the bytes of it that were written, then ones. */
  function Announced(payload: nat, k: nat): nat {
    Partial(payload, k - 8)
  }

  lemma {:induction false} AnnouncedLength(sequence: nat, payload: seq<Byte>, k: nat, size: nat)
    requires |payload| < WORD32 && 6 <= k < |Format(sequence, payload)| <= size
    ensures var s := Interrupted(Format(sequence, payload), k, size);
            s[..4] == Le32(MAGIC) && s[4..6] == Le16(1) && PayloadLength(s) == Announced(|payload|, k)
  {
    hide Crc32.Crc, Crc32.WordBytes, Le32, Le16;
    var r, n := Format(sequence, payload), |payload|;
    var s := Interrupted(r, k, size);
    var l := Le32(n);
    assert forall i :: 0 <= i < size ==> s[i] == if i < k then r[i] else ERASED;
    assert r[8] == l[0] && r[9] == l[1] && r[10] == l[2] && r[11] == l[3];
    assert s[..4] == r[..4] == Le32(MAGIC) && s[4..6] == r[4..6] == Le16(1);
    PartialWord(n, k - 8, s[8], s[9], s[10], s[11]);
  }

  /** Wherever the header of an interrupted record puts the commit marker, it is not there. */
  lemma {:induction false} CommitMissing(sequence: nat, payload: seq<Byte>, k: nat, size: nat)
    requires |payload| < WORD32 && 6 <= k < |Format(sequence, payload)| <= size
    ensures var s := Interrupted(Format(sequence, payload), k, size);
            var end := HEADER + PayloadLength(s) + 4;
            end <= size ==> s[end - 4..end] != Le32(COMMIT)
  {
    hide Crc32.Crc, Crc32.WordBytes, Header;
    AnnouncedLength(sequence, payload, k, size);
    var s := Interrupted(Format(sequence, payload), k, size);
    var end := HEADER + PayloadLength(s) + 4;
    if end <= size {
      assert s[end - 4..end][3] == s[end - 1] == ERASED && Le32(COMMIT)[3] == 0x55;
    }
  }

  /** Where sizes are wider than the length field, a record cut short at any byte is rejected. */
  lemma {:induction false} InterruptedRejected(sequence: nat, payload: seq<Byte>, k: nat, size: nat, width: nat)
    requires |payload| < WORD32 && k < |Format(sequence, payload)| <= size && width >= WORD32 + HEADER + 4
    ensures Validate(Interrupted(Format(sequence, payload), k, size), width) == Rejected
  {
    InterruptedNotAccepted(sequence, payload, k, size, width);
    NeverOverrun(Interrupted(Format(sequence, payload), k, size), width);
  }

  /** Where sizes have 32 bits, it is rejected if and only if it was not cut inside the length field at a point where
      that announces a length within 20 of 2^32; otherwise the check reads past the buffer. */
  lemma {:induction false} InterruptedRejectedIff(sequence: nat, payload: seq<Byte>, k: nat, size: nat)
    requires k < |Format(sequence, payload)| <= size < WORD32
    ensures Validate(Interrupted(Format(sequence, payload), k, size), WORD32) == Rejected
            <==> !(6 <= k < 12 && Announced(|payload|, k) >= 0x1_0000_0000 - 20)
  {
    hide Crc32.Crc, Crc32.WordBytes, Validate, PayloadLength, Le32, Le16, Format, Interrupted;
    var s := Interrupted(Format(sequence, payload), k, size);
    InterruptedNotAccepted(sequence, payload, k, size, WORD32);
    OverrunIff(s);
    GoodFront(s);
    if k < 6 {
      FrontMissing(sequence, payload, k, size);
    } else {
      AnnouncedLength(sequence, payload, k, size);
    }
  }

  /** On a 32-bit device the check of every record cut at byte 8 reads past the buffer. */
  lemma {:induction false} CutAtLengthOverruns(sequence: nat, payload: seq<Byte>, size: nat)
    requires |Format(sequence, payload)| <= size < WORD32
    ensures Validate(Interrupted(Format(sequence, payload), 8, size), WORD32) == Overrun
  {
    InterruptedRejectedIff(sequence, payload, 8, size);
    InterruptedNotAccepted(sequence, payload, 8, size, WORD32);
  }

  /** Changing any one payload byte of a record is always noticed. */
  lemma {:induction false} CorruptedPayloadRejected(
      sequence: nat, payload: seq<Byte>, rest: seq<Byte>, k: nat, b: Byte, width: nat)
    requires |payload| < WORD32 && k < |payload| && b != payload[k] && |Format(sequence, payload) + rest| < width
    ensures Validate((Format(sequence, payload) + rest)[HEADER + k := b], width) == Rejected
  {
    hide Crc32.Crc, Crc32.WordBytes, Le16, Le32;
    var s := (Format(sequence, payload) + rest)[HEADER + k := b];
    var bad := payload[k := b];
    assert s == Header(sequence, payload) + (bad + Le32(COMMIT) + rest);
    HeaderFields(sequence, payload, bad + Le32(COMMIT) + rest);
    assert s[HEADER..HEADER + |payload|] == bad;
    Crc32.SingleByteChange(payload, k, b);
    if Crc32.WordBytes(Crc32.Crc(bad)) == Crc32.WordBytes(Crc32.Crc(payload)) {
      Crc32.WordBytesInjective(Crc32.Crc(bad), Crc32.Crc(payload));
    }
  }
}
