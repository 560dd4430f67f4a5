/** The SLVR/1 wire format: magic, version, type, flags, sequence, length, payload, CRC-16. */
module SlvrFrame {
  import opened Bytes
  import Crc16

  const S: Byte := 0x53
  const MAGIC: seq<Byte> := [0x53, 0x4C, 0x56, 0x52]
  const VERSION_1: Byte := 0x01
  const HEADER: nat := 10
  const OVERHEAD: nat := 12
  const MAX_PAYLOAD: nat := 512

  /** A frame; the C structure's `length` is the length of `payload`. */
  datatype Frame = Frame(version: Byte, kind: Byte, flags: Byte, sequence: Byte, payload: seq<Byte>)

  /** What the encoders put on the wire and the parsers look for. */
  predicate Sendable(f: Frame) {
    f.version == VERSION_1 && |f.payload| <= MAX_PAYLOAD
  }

  /** Header after the magic, then the payload: the bytes the checksum covers. */
  function Body(f: Frame): (s: seq<Byte>)
    ensures |s| == 6 + |f.payload|
  {
    [f.version, f.kind, f.flags, f.sequence, Hi(|f.payload|), Lo(|f.payload|)] + f.payload
  }

  function CrcBytes(crc: nat): (s: seq<Byte>)
    ensures |s| == 2
  {
    [Hi(crc), Lo(crc)]
  }

  function Encode(f: Frame): (s: seq<Byte>)
    ensures |s| == OVERHEAD + |f.payload|
  {
    MAGIC + Body(f) + CrcBytes(Crc16.Crc(Body(f)))
  }

  /** The bytes that the encodings of some frames take. */
  function FrameBytes(frames: seq<Frame>): nat
    decreases |frames|
  {
    if frames == [] then 0
    else FrameBytes(frames[..|frames| - 1]) + OVERHEAD + |frames[|frames| - 1].payload|
  }

  // ----- reading the format back

  /** The payload length announced by a header. */
  function PayloadLength(s: seq<Byte>): nat
    requires |s| >= HEADER
  {
    U16(s[8], s[9])
  }

  /** `s` opens with the magic, the supported version and an acceptable length. */
  predicate GoodHeader(s: seq<Byte>) {
    |s| >= HEADER && s[..4] == MAGIC && s[4] == VERSION_1 && PayloadLength(s) <= MAX_PAYLOAD
  }

  /** `s` is laid out as one whole frame; the checksum may still be wrong. */
  predicate FrameShaped(s: seq<Byte>) {
    GoodHeader(s) && |s| == OVERHEAD + PayloadLength(s)
  }

  predicate ChecksumMatches(s: seq<Byte>)
    requires |s| >= OVERHEAD
  {
    s[|s| - 2..] == CrcBytes(Crc16.Crc(s[4..|s| - 2]))
  }

  function Decode(s: seq<Byte>): Frame
    requires |s| >= OVERHEAD
  {
    Frame(s[4], s[5], s[6], s[7], s[HEADER..|s| - 2])
  }

  /** Comparing the checksum words compares their bytes. */
  lemma {:induction false} CrcWord(hi: Byte, lo: Byte, crc: nat)
    requires crc < 0x1_0000
    ensures U16(hi, lo) == crc <==> [hi, lo] == CrcBytes(crc)
  {
    U16Bytes(hi, lo);
    U16RoundTrip(crc);
    assert [hi, lo][0] == hi && [hi, lo][1] == lo;
  }

  /** Decoding undoes encoding. */
  lemma {:induction false} DecodeEncode(f: Frame)
    requires Sendable(f)
    ensures FrameShaped(Encode(f)) && ChecksumMatches(Encode(f)) && Decode(Encode(f)) == f
  {
    var s := Encode(f);
    U16RoundTrip(|f.payload|);
    assert s[8] == Hi(|f.payload|) && s[9] == Lo(|f.payload|);
    assert s[..4] == MAGIC;
    assert s[4..|s| - 2] == Body(f);
    assert s[HEADER..|s| - 2] == f.payload;
  }

  /** Encoding undoes decoding: a well-formed frame has exactly one encoding. */
  lemma {:induction false} EncodeDecode(s: seq<Byte>)
    requires FrameShaped(s) && ChecksumMatches(s)
    ensures Sendable(Decode(s)) && Encode(Decode(s)) == s
  {
    var f := Decode(s);
    U16Bytes(s[8], s[9]);
    assert Body(f) == s[4..|s| - 2];
    assert s == s[..4] + s[4..|s| - 2] + s[|s| - 2..];
  }

  // ----- the format in bytes

  /** Two bytes, the higher first, as a number. */
  lemma {:induction false} BigEndian(hi: Byte, lo: Byte, n: nat)
    requires n < 65536
    ensures hi == Hi(n) && lo == Lo(n) <==> 256 * hi + lo == n
  {
  }

  /** Every byte of an encoded frame, and its checksum as a number. */
  lemma {:induction false} WireBytes(f: Frame)
    requires |f.payload| <= 512
    ensures var e, n := Encode(f), |f.payload|;
            && |e| == 12 + n && e[..4] == [0x53, 0x4C, 0x56, 0x52]
            && e[4] == f.version && e[5] == f.kind && e[6] == f.flags && e[7] == f.sequence
            && 256 * e[8] as int + e[9] as int == n && e[10..10 + n] == f.payload
            && 256 * e[10 + n] as int + e[11 + n] as int == Crc16.Crc(e[4..10 + n])
  {
    hide Crc16.Crc, Hi, Lo;
    var e, n := Encode(f), |f.payload|;
    assert e[4..10 + n] == Body(f);
    assert e[8] == Hi(n) && e[9] == Lo(n);
    BigEndian(e[8], e[9], n);
    BigEndian(e[10 + n], e[11 + n], Crc16.Crc(Body(f)));
  }

  /** Which bytes are a frame, and which header announces one, in numbers. */
  lemma {:induction false} AcceptedBytes(s: seq<Byte>)
    ensures GoodHeader(s) <==> |s| >= 10 && s[..4] == [0x53, 0x4C, 0x56, 0x52] && s[4] == 1
                               && 256 * s[8] as int + s[9] as int <= 512
    ensures FrameShaped(s) <==> GoodHeader(s) && |s| == 12 + 256 * s[8] as int + s[9] as int
    ensures |s| >= 12 ==>
              (ChecksumMatches(s) <==>
               256 * s[|s| - 2] as int + s[|s| - 1] as int == Crc16.Crc(s[4..|s| - 2]))
  {
    hide Crc16.Crc, Hi, Lo;
    if |s| >= 12 {
      var crc := Crc16.Crc(s[4..|s| - 2]);
      BigEndian(s[|s| - 2], s[|s| - 1], crc);
      assert s[|s| - 2..] == [s[|s| - 2], s[|s| - 1]];
      assert CrcBytes(crc)[0] == Hi(crc) && CrcBytes(crc)[1] == Lo(crc);
    }
  }

  /** The bytes of delivered frames are those of their encodings. */
  lemma {:induction false} FrameBytesAreEncodings(frames: seq<Frame>, f: Frame)
    ensures FrameBytes([]) == 0 && FrameBytes(frames + [f]) == FrameBytes(frames) + |Encode(f)|
  {
    assert (frames + [f])[..|frames|] == frames;
  }

  // ----- the encoders

  datatype Status = Ok | InvalidArg | NoMemory

  /** The steps both encoders share: magic, header, payload, then the checksum read back from the buffer. */
  method PutFrame(f: Frame, out: array<Byte>)
    requires |f.payload| <= MAX_PAYLOAD && OVERHEAD + |f.payload| <= out.Length
    modifies out
    ensures out[..] == Encode(f) + old(out[OVERHEAD + |f.payload|..])
  {
    hide Crc16.Crc, Crc16.Word, Crc16.Fold, Hi, Lo, Encode, Body;
    var n := |f.payload|;
    ghost var before := out[..];
    assert out[..] == [] + before[0..];
    var header := [f.version, f.kind, f.flags, f.sequence, Hi(n), Lo(n)];
    ghost var start := MAGIC + header + f.payload;
    Pieces(f);
    CopyNext(out, 0, MAGIC, [], before);
    CopyNext(out, 4, header, MAGIC, before);
    CopyNext(out, HEADER, f.payload, MAGIC + header, before);
    assert out[4..HEADER + n] == start[4..];
    var crc := Crc16.Compute(out[4..HEADER + n]);
    var word := Crc16.Word(crc);
    CopyNext(out, HEADER + n, [Hi(word), Lo(word)], start, before);
  }

  /** The pieces of a frame in the order in which they are written. */
  lemma {:induction false} Pieces(f: Frame)
    ensures var n := |f.payload|;
            var start := MAGIC + [f.version, f.kind, f.flags, f.sequence, Hi(n), Lo(n)] + f.payload;
            && |start| == HEADER + n && start[4..] == Body(f)
            && start + CrcBytes(Crc16.Crc(Body(f))) == Encode(f)
  {
    hide Crc16.Crc, CrcBytes, Hi, Lo;
    var start := MAGIC + Body(f);
    assert start[4..] == Body(f);
  }

  /** The device's encoder writes into a caller's buffer. */
  method EncodeFrame(f: Frame, out: array<Byte>) returns (status: Status, len: nat)
    modifies out
    ensures status == (if |f.payload| > 512 then InvalidArg
                       else if out.Length < 12 + |f.payload| then NoMemory else Ok)
    ensures status.Ok? ==> len == 12 + |f.payload| && out[..] == Encode(f) + old(out[len..])
    ensures status.Ok? ==>
              var n := |f.payload|;
              && out[..4] == [0x53, 0x4C, 0x56, 0x52] && out[4] == f.version && out[5] == f.kind
              && out[6] == f.flags && out[7] == f.sequence && 256 * out[8] as int + out[9] as int == n
              && out[10..10 + n] == f.payload
              && 256 * out[10 + n] as int + out[11 + n] as int == Crc16.Crc(out[4..10 + n])
    ensures !status.Ok? ==> len == 0 && out[..] == old(out[..])
  {
    hide Encode, Crc16.Crc;
    if |f.payload| > 512 {
      return InvalidArg, 0;
    }
    if out.Length < OVERHEAD + |f.payload| {
      return NoMemory, 0;
    }
    PutFrame(f, out);
    WireBytes(f);
    ghost var e, n := Encode(f), |f.payload|;
    assert out[..4] == e[..4] && out[4..10 + n] == e[4..10 + n] && out[10..10 + n] == e[10..10 + n];
    assert forall i :: 0 <= i < 12 + n ==> out[i] == out[..][i] == e[i];
    return Ok, OVERHEAD + |f.payload|;
  }

  /** The browser's encoder: missing fields default to zero and numbers are stored modulo 256. */
  method EncodeInBrowser(kind: int, flags: Option<int>, sequence: Option<int>, payload: Option<seq<Byte>>)
    returns (r: Option<seq<Byte>>)
    ensures var bytes := if payload.Some? then payload.value else [];
            r == if |bytes| > 512 then None
                 else Some(Encode(Frame(VERSION_1, Uint8(kind), Uint8(Default(flags)), Uint8(Default(sequence)),
                                         bytes)))
    ensures r.Some? ==>
              var e, n := r.value, |if payload.Some? then payload.value else []|;
              && |e| == 12 + n && e[..4] == [0x53, 0x4C, 0x56, 0x52] && e[4] == 1 && e[5] as int == kind % 256
              && e[6] as int == (if flags.Some? then flags.value % 256 else 0)
              && e[7] as int == (if sequence.Some? then sequence.value % 256 else 0)
              && 256 * e[8] as int + e[9] as int == n && (payload.Some? ==> e[10..10 + n] == payload.value)
              && 256 * e[10 + n] as int + e[11 + n] as int == Crc16.Crc(e[4..10 + n])
  {
    hide Encode, Crc16.Crc;
    var bytes := if payload.Some? then payload.value else [];
    if |bytes| > 512 {
      return None;
    }
    var f := Frame(VERSION_1, Uint8(kind), Uint8(Default(flags)), Uint8(Default(sequence)), bytes);
    var out := new Byte[OVERHEAD + |bytes|](i => 0);
    PutFrame(f, out);
    assert out[..] == Encode(f);
    WireBytes(f);
    return Some(out[..]);
  }

  function Default(n: Option<int>): int {
    if n.Some? then n.value else 0
  }

  function Uint8(n: int): Byte {
    n % 256
  }

  // ----- streams of frames with noise between them

  predicate AllSendable(frames: seq<Frame>) {
    forall i {:trigger frames[i]} :: 0 <= i < |frames| ==> Sendable(frames[i])
  }

  /** Noise, frame, noise, ..., frame, noise. */
  function Interleave(gaps: seq<seq<Byte>>, frames: seq<Frame>): seq<Byte>
    requires |gaps| == |frames| + 1
    requires AllSendable(frames)
    decreases |frames|
  {
    if frames == [] then gaps[0]
    else gaps[0] + (Encode(frames[0]) + Interleave(gaps[1..], frames[1..]))
  }

  /** The same stream, with one more frame and gap at its end. */
  lemma {:induction false} InterleaveSnoc(gaps: seq<seq<Byte>>, frames: seq<Frame>, f: Frame, gap: seq<Byte>)
    requires |gaps| == |frames| + 1 && AllSendable(frames) && Sendable(f)
    ensures Interleave(gaps + [gap], frames + [f]) == Interleave(gaps, frames) + Encode(f) + gap
    decreases |frames|
  {
    hide Encode, Sendable;
    var gaps', frames' := gaps + [gap], frames + [f];
    if frames == [] {
      assert gaps'[1..] == [gap] && frames'[1..] == [];
      assert Interleave(gaps'[1..], frames'[1..]) == gap;
      assert gaps'[0] == gaps[0] && frames'[0] == f;
    } else {
      assert gaps'[1..] == gaps[1..] + [gap] && frames'[1..] == frames[1..] + [f];
      assert gaps'[0] == gaps[0] && frames'[0] == frames[0];
      InterleaveSnoc(gaps[1..], frames[1..], f, gap);
      var rest := Interleave(gaps[1..], frames[1..]);
      assert gaps[0] + (Encode(frames[0]) + (rest + Encode(f) + gap))
          == gaps[0] + (Encode(frames[0]) + rest) + Encode(f) + gap;
    }
  }

  /** Noise at the end of a stream belongs to its last gap. */
  lemma {:induction false} InterleaveTail(gaps: seq<seq<Byte>>, frames: seq<Frame>, noise: seq<Byte>)
    requires |gaps| == |frames| + 1 && AllSendable(frames)
    ensures Interleave(gaps[|frames| := gaps[|frames|] + noise], frames) == Interleave(gaps, frames) + noise
    decreases |frames|
  {
    hide Encode, Sendable;
    if frames != [] {
      var more := gaps[|frames| := gaps[|frames|] + noise];
      assert more[1..] == gaps[1..][|frames| - 1 := gaps[1..][|frames| - 1] + noise];
      InterleaveTail(gaps[1..], frames[1..], noise);
    }
  }
}
