/** The device's byte-at-a-time SLVR/1 parser. */
module DeviceParser {
  import opened Bytes
  import opened SlvrFrame
  import Crc16

  // ----- specification: collect the bytes of one attempt at a frame

  /** `p` can still grow into a frame. */
  predicate Viable(p: seq<Byte>) {
    && (if |p| <= 4 then p == MAGIC[..|p|] else p[..4] == MAGIC && p[4] == VERSION_1)
    && (|p| >= HEADER ==> PayloadLength(p) <= MAX_PAYLOAD && |p| < OVERHEAD + PayloadLength(p))
  }

  /** What the parser has done so far: the attempt in progress and everything it reported. */
  datatype Device = Device(pending: seq<Byte>, delivered: seq<Frame>, crcErrors: nat, dropped: nat)

  const IDLE := Device([], [], 0, 0)

  /** How many bytes the parser reports as dropped when an attempt of `n` bytes is given up. */
  function Penalty(n: nat): nat {
    if n <= 3 then n + 1 else 1
  }

  /** One more byte: extend the attempt, finish it, or give it up. */
  function Feed(d: Device, b: Byte): Device {
    var q := d.pending + [b];
    if Viable(q) then d.(pending := q)
    else if FrameShaped(q) then
      if ChecksumMatches(q) then d.(pending := [], delivered := d.delivered + [Decode(q)])
      else d.(pending := [], crcErrors := d.crcErrors + 1)
    else if d.pending == [S] && b == S then d.(dropped := d.dropped + 1)
    else d.(pending := [], dropped := d.dropped + Penalty(|d.pending|))
  }

  function FeedAll(d: Device, s: seq<Byte>): Device
    decreases |s|
  {
    if s == [] then d else FeedAll(Feed(d, s[0]), s[1..])
  }

  lemma {:induction false} FeedAllConcat(d: Device, s: seq<Byte>, t: seq<Byte>)
    ensures FeedAll(d, s + t) == FeedAll(FeedAll(d, s), t)
    decreases |s|
  {
    if s == [] {
      assert s + t == t;
    } else {
      assert (s + t)[1..] == s[1..] + t;
      FeedAllConcat(Feed(d, s[0]), s[1..], t);
    }
  }

  lemma {:induction false} FeedLast(d: Device, s: seq<Byte>)
    requires s != []
    ensures FeedAll(d, s) == Feed(FeedAll(d, s[..|s| - 1]), s[|s| - 1])
  {
    assert s == s[..|s| - 1] + [s[|s| - 1]];
    FeedAllConcat(d, s[..|s| - 1], [s[|s| - 1]]);
    assert [s[|s| - 1]][1..] == [];
  }

  /** While the magic is being matched, only the next magic byte extends the attempt. */
  lemma {:induction false} FeedMagic(d: Device, b: Byte)
    requires Viable(d.pending) && |d.pending| <= 4
    ensures Feed(d, b) ==
            if |d.pending| < 4 && b == MAGIC[|d.pending|] then d.(pending := MAGIC[..|d.pending| + 1])
            else if |d.pending| == 4 && b == VERSION_1 then d.(pending := MAGIC + [b])
            else if |d.pending| == 1 && b == S then d.(dropped := d.dropped + 1)
            else d.(pending := [], dropped := d.dropped + Penalty(|d.pending|))
  {
    var p := d.pending;
    var q := p + [b];
    assert q[|p|] == b;
    if |p| < 4 {
      assert MAGIC[..|p| + 1] == MAGIC[..|p|] + [MAGIC[|p|]];
      assert MAGIC[..|p| + 1][|p|] == MAGIC[|p|];
    } else {
      assert q[..4] == p;
    }
  }

  /** Type, flags, sequence and the high length byte are taken as they come. */
  lemma {:induction false} FeedHeader(d: Device, b: Byte)
    requires Viable(d.pending) && 5 <= |d.pending| <= 8
    ensures Feed(d, b) == d.(pending := d.pending + [b])
  {
    assert (d.pending + [b])[..4] == d.pending[..4];
  }

  /** The low length byte ends the header; too long a payload is refused there. */
  lemma {:induction false} FeedLength(d: Device, b: Byte)
    requires Viable(d.pending) && |d.pending| == 9
    ensures Feed(d, b) ==
            if U16(d.pending[8], b) <= MAX_PAYLOAD then d.(pending := d.pending + [b])
            else d.(pending := [], dropped := d.dropped + 1)
  {
    assert (d.pending + [b])[..4] == d.pending[..4];
  }

  /** After the header every byte is taken; the last one decides. */
  lemma {:induction false} FeedBody(d: Device, b: Byte)
    requires Viable(d.pending) && |d.pending| >= HEADER
    ensures var q := d.pending + [b];
            Feed(d, b) ==
            if |q| < OVERHEAD + PayloadLength(q) then d.(pending := q)
            else if ChecksumMatches(q) then d.(pending := [], delivered := d.delivered + [Decode(q)])
            else d.(pending := [], crcErrors := d.crcErrors + 1)
  {
    var q := d.pending + [b];
    assert q[..4] == d.pending[..4];
    assert PayloadLength(q) == PayloadLength(d.pending);
  }

  lemma {:induction false} FeedViable(d: Device, b: Byte)
    requires Viable(d.pending)
    ensures Viable(Feed(d, b).pending)
  {
  }

  /** A whole attempt, cut into the fields the parser stores. */
  lemma {:induction false} Assemble(p: seq<Byte>, b: Byte, payload: seq<Byte>)
    requires Viable(p) && |p| >= HEADER && |p| == HEADER + PayloadLength(p) + 1
    requires p[HEADER..|p| - 1] == payload
    ensures var q := p + [b];
            var body := [p[4], p[5], p[6], p[7], Hi(|payload|), Lo(|payload|)] + payload;
            && Decode(q) == Frame(p[4], p[5], p[6], p[7], payload)
            && (ChecksumMatches(q) <==> U16(p[|p| - 1], b) == Crc16.Crc(body))
  {
    hide Crc16.Crc;
    var q := p + [b];
    U16Bytes(p[8], p[9]);
    assert q[HEADER..|q| - 2] == payload;
    assert q[4..|q| - 2] == [p[4], p[5], p[6], p[7], Hi(|payload|), Lo(|payload|)] + payload;
    assert q[|q| - 2..] == [p[|p| - 1], b];
    CrcWord(p[|p| - 1], b, Crc16.Crc(q[4..|q| - 2]));
  }

  /** What one byte does, in numbers: which attempts it extends, how many bytes count as dropped when it does not, and
      what the last byte of a frame decides. */
  lemma {:induction false} FeedInBytes(d: Device, b: Byte)
    requires Viable(d.pending)
    ensures var p, kept := d.pending, d.(pending := d.pending + [b]);
            Feed(d, b) ==
            if |p| == 0 then if b == 0x53 then kept else d.(dropped := d.dropped + 1)
            else if |p| == 1 then
              if b == 0x4C then kept
              else if b == 0x53 then d.(dropped := d.dropped + 1)
              else d.(pending := [], dropped := d.dropped + 2)
            else if |p| == 2 then if b == 0x56 then kept else d.(pending := [], dropped := d.dropped + 3)
            else if |p| == 3 then if b == 0x52 then kept else d.(pending := [], dropped := d.dropped + 4)
            else if |p| == 4 then if b == 1 then kept else d.(pending := [], dropped := d.dropped + 1)
            else if |p| <= 8 then kept
            else if |p| == 9 then
              if 256 * p[8] as int + b as int <= 512 then kept else d.(pending := [], dropped := d.dropped + 1)
            else if |p| < 11 + 256 * p[8] as int + p[9] as int then kept
            else if 256 * p[|p| - 1] as int + b as int == Crc16.Crc(p[4..|p| - 1])
            then d.(pending := [], delivered := d.delivered + [Frame(1, p[5], p[6], p[7], p[10..|p| - 1])])
            else d.(pending := [], crcErrors := d.crcErrors + 1)
  {
    hide Feed, Crc16.Crc, ChecksumMatches, FrameShaped, Decode;
    var p, q := d.pending, d.pending + [b];
    if |p| <= 4 {
      FeedMagic(d, b);
      ExtendMagic(p, b);
    } else if |p| <= 8 {
      FeedHeader(d, b);
    } else if |p| == 9 {
      FeedLength(d, b);
    } else {
      FeedBody(d, b);
      LastInBytes(p, b);
    }
  }

  lemma {:induction false} ExtendMagic(p: seq<Byte>, b: Byte)
    requires Viable(p) && |p| <= 4
    ensures |p| < 4 && b == MAGIC[|p|] ==> MAGIC[..|p| + 1] == p + [b]
    ensures |p| == 4 ==> p == MAGIC
    ensures MAGIC == [0x53, 0x4C, 0x56, 0x52]
  {
  }

  lemma {:induction false} LastInBytes(p: seq<Byte>, b: Byte)
    requires Viable(p) && |p| >= 10
    ensures var q, n := p + [b], 256 * p[8] as int + p[9] as int;
            && PayloadLength(q) == n && |p| < 12 + n
            && (|p| == 11 + n ==>
                  && Decode(q) == Frame(1, p[5], p[6], p[7], p[10..|p| - 1])
                  && (ChecksumMatches(q) <==> 256 * p[|p| - 1] as int + b as int == Crc16.Crc(p[4..|p| - 1])))
  {
    hide Crc16.Crc, Hi, Lo;
    var q := p + [b];
    AcceptedBytes(q);
    if |p| >= 11 {
      assert q[4..|q| - 2] == p[4..|p| - 1] && q[10..|q| - 2] == p[10..|p| - 1];
      assert q[|q| - 2] == p[|p| - 1] && q[|q| - 1] == b;
    }
  }

  // ----- the state machine

  datatype ParseState =
    | Magic0 | Magic1 | Magic2 | Magic3 | Version | Kind | Flags | Seq | LenH | LenL | Payload | CrcH | CrcL

  /** The state that an attempt has reached: one per header byte, then payload and checksum. */
  function StateOf(p: seq<Byte>): ParseState
    requires Viable(p)
  {
    if |p| == 0 then Magic0
    else if |p| == 1 then Magic1
    else if |p| == 2 then Magic2
    else if |p| == 3 then Magic3
    else if |p| == 4 then Version
    else if |p| == 5 then Kind
    else if |p| == 6 then Flags
    else if |p| == 7 then Seq
    else if |p| == 8 then LenH
    else if |p| == 9 then LenL
    else if |p| < HEADER + PayloadLength(p) then Payload
    else if |p| == HEADER + PayloadLength(p) then CrcH
    else CrcL
  }

  /** A 32-bit counter that has counted to `n`. */
  function Counter(n: nat): nat {
    n % WORD32
  }

  function Count(counter: nat, k: nat): nat {
    (counter + k) % WORD32
  }

  lemma {:induction false} CountCounter(n: nat)
    ensures forall k: nat {:trigger Count(Counter(n), k)} :: Count(Counter(n), k) == Counter(n + k)
  {
  }

  lemma {:induction false} MagicStates(p: seq<Byte>)
    requires Viable(p) && |p| <= 3
    ensures StateOf(p) == [Magic0, Magic1, Magic2, Magic3][|p|]
    ensures forall k: nat {:trigger MAGIC[..k]} :: k <= 4 ==>
              Viable(MAGIC[..k]) && StateOf(MAGIC[..k]) == [Magic0, Magic1, Magic2, Magic3, Version][k]
    ensures Viable([]) && StateOf([]) == Magic0
  {
    assert [] == MAGIC[..0];
  }

  lemma {:induction false} AtLastByte(p: seq<Byte>)
    requires Viable(p) && StateOf(p).CrcL?
    ensures |p| == HEADER + PayloadLength(p) + 1 && PayloadLength(p) <= MAX_PAYLOAD
    ensures Viable([]) && StateOf([]) == Magic0
  {
  }

  lemma {:induction false} BodyStates(p: seq<Byte>, b: Byte)
    requires Viable(p) && (StateOf(p).Payload? || StateOf(p).CrcH?)
    ensures var n, q := HEADER + PayloadLength(p), p + [b];
            && HEADER <= |p| <= n <= HEADER + MAX_PAYLOAD && PayloadLength(q) == PayloadLength(p)
            && (StateOf(p).Payload? <==> |p| < n)
            && Viable(q) && StateOf(q) == if |q| < n then Payload else if |q| == n then CrcH else CrcL
  {
    assert (p + [b])[..4] == p[..4];
  }

  class Parser {
    var state: ParseState
    var version: Byte
    var kind: Byte
    var flags: Byte
    var sequence: Byte
    var length: nat
    const payload: array<Byte>
    var payloadIdx: nat
    var crc16: nat
    var framesReceived: nat
    var crcErrors: nat
    var droppedBytes: nat

    ghost var device: Device

    /** The fields hold exactly the bytes of the attempt in progress. */
    ghost predicate Holds(p: seq<Byte>)
      requires Viable(p)
      reads this, payload
    {
      && payload.Length == MAX_PAYLOAD
      && state == StateOf(p)
      && (|p| > 4 ==> version == p[4])
      && (|p| > 5 ==> kind == p[5])
      && (|p| > 6 ==> flags == p[6])
      && (|p| > 7 ==> sequence == p[7])
      && (|p| == 9 ==> length == U16(p[8], 0))
      && (|p| >= HEADER ==> length == PayloadLength(p))
      && (state.Payload? ==> payloadIdx == |p| - HEADER && p[HEADER..] == payload[..payloadIdx])
      && (state.CrcH? ==> p[HEADER..] == payload[..length])
      && (state.CrcL? ==> p[HEADER..HEADER + length] == payload[..length] && crc16 == U16(p[|p| - 1], 0))
    }

    ghost predicate Valid()
      reads this, payload
    {
      && Viable(device.pending)
      && Holds(device.pending)
      && framesReceived == Counter(|device.delivered|)
      && crcErrors == Counter(device.crcErrors)
      && droppedBytes == Counter(device.dropped)
    }

    constructor ()
      ensures Valid() && device == IDLE && fresh(payload)
    {
      payload := new Byte[MAX_PAYLOAD](i => 0);
      state := Magic0;
      version, kind, flags, sequence := 0, 0, 0, 0;
      length, payloadIdx, crc16 := 0, 0, 0;
      framesReceived, crcErrors, droppedBytes := 0, 0, 0;
      device := IDLE;
    }

    /** The four magic bytes. */
    method TakeMagic(b: Byte)
      requires Valid() && |device.pending| <= 3
      modifies this
      ensures Valid() && device == Feed(old(device), b) && device.delivered == old(device.delivered)
    {
      hide Feed, FrameShaped, ChecksumMatches, Viable, StateOf, Counter, Count, PayloadLength, U16;
      ghost var p := device.pending;
      MagicStates(p);
      FeedMagic(device, b);
      CountCounter(device.dropped);
      match state {
        case Magic0 =>
          if b == 0x53 {
            state := Magic1;
          } else {
            droppedBytes := Count(droppedBytes, 1);
          }
        case Magic1 =>
          if b == 0x4C {
            state := Magic2;
          } else if b == 0x53 {
            state := Magic1;
            droppedBytes := Count(droppedBytes, 1);
          } else {
            state := Magic0;
            droppedBytes := Count(droppedBytes, 2);
          }
        case Magic2 =>
          if b == 0x56 {
            state := Magic3;
          } else {
            state := Magic0;
            droppedBytes := Count(droppedBytes, 3);
          }
        case Magic3 =>
          if b == 0x52 {
            state := Version;
          } else {
            state := Magic0;
            droppedBytes := Count(droppedBytes, 4);
          }
      }
      device := Feed(device, b);
    }

    method TakeVersion(b: Byte)
      requires Valid() && state.Version?
      modifies this
      ensures Valid() && device == Feed(old(device), b) && device.delivered == old(device.delivered)
    {
      hide Feed, FrameShaped, ChecksumMatches, Counter, Count;
      FeedMagic(device, b);
      CountCounter(device.dropped);
      if b == 0x01 {
        version := b;
        state := Kind;
      } else {
        state := Magic0;
        droppedBytes := Count(droppedBytes, 1);
      }
      device := Feed(device, b);
    }

    /** Type, flags, sequence and the high length byte. */
    method TakeHeader(b: Byte)
      requires Valid() && 5 <= |device.pending| <= 8
      modifies this
      ensures Valid() && device == Feed(old(device), b) && device.delivered == old(device.delivered)
    {
      hide Feed;
      FeedHeader(device, b);
      match state {
        case Kind =>
          kind := b;
          state := Flags;
        case Flags =>
          flags := b;
          state := Seq;
        case Seq =>
          sequence := b;
          state := LenH;
        case LenH =>
          length := b * 256;
          state := LenL;
      }
      device := Feed(device, b);
    }

    /** The low length byte, where an oversized payload is refused. */
    method TakeLengthLow(b: Byte)
      requires Valid() && state.LenL?
      modifies this
      ensures Valid() && device == Feed(old(device), b) && device.delivered == old(device.delivered)
    {
      hide Feed, Counter, Count;
      FeedLength(device, b);
      CountCounter(device.dropped);
      length := length + b;
      if length > 512 {
        state := Magic0;
        droppedBytes := Count(droppedBytes, 1);
      } else {
        payloadIdx := 0;
        state := if length == 0 then CrcH else Payload;
      }
      device := Feed(device, b);
    }

    /** A payload byte, or the high checksum byte. */
    method TakeBody(b: Byte)
      requires Valid() && (state.Payload? || state.CrcH?)
      modifies this, payload
      ensures Valid() && device == Feed(old(device), b) && device.delivered == old(device.delivered)
    {
      hide Feed, ChecksumMatches, FrameShaped, Counter, Viable, StateOf, PayloadLength;
      BodyStates(device.pending, b);
      FeedBody(device, b);
      if state.Payload? {
        payload[payloadIdx] := b;
        assert payload[..payloadIdx + 1] == old(payload[..payloadIdx]) + [b];
        payloadIdx := payloadIdx + 1;
        if payloadIdx >= length {
          state := CrcH;
        }
      } else {
        crc16 := b * 256;
        state := CrcL;
      }
      device := Feed(device, b);
    }

    /** The checksum over the header fields, continued over the payload. */
    method ExpectedCrc() returns (crc: nat)
      requires length <= payload.Length
      ensures crc < 0x1_0000
      ensures crc == Crc16.Crc([version, kind, flags, sequence, Hi(length), Lo(length)] + payload[..length])
    {
      var header := [version, kind, flags, sequence, Hi(length), Lo(length)];
      var r := Crc16.Compute(header);
      if length > 0 {
        r := Crc16.Continue(r, payload[..length]);
      }
      Crc16.FoldConcat(Crc16.INITIAL, header, payload[..length]);
      crc := Crc16.Word(r);
    }

    /** The low checksum byte: compare with the checksum of header and payload. */
    method TakeCrcLow(b: Byte) returns (frame: Option<Frame>)
      requires Valid() && state.CrcL?
      modifies this
      ensures Valid() && device == Feed(old(device), b)
      ensures frame.Some? <==> device.delivered != old(device.delivered)
      ensures frame.Some? ==> device.delivered == old(device.delivered) + [frame.value]
    {
      hide Crc16.Crc, ChecksumMatches, Decode, Feed, FrameShaped, Viable, StateOf, Counter, Count;
      ghost var p := device.pending;
      CountCounter(device.crcErrors);
      CountCounter(|device.delivered|);
      AtLastByte(p);
      FeedBody(device, b);
      Assemble(p, b, payload[..length]);
      var expected := ExpectedCrc();
      crc16 := crc16 + b;
      state := Magic0;
      if crc16 == expected {
        frame := Some(Frame(version, kind, flags, sequence, payload[..length]));
        framesReceived := Count(framesReceived, 1);
      } else {
        frame := None;
        crcErrors := Count(crcErrors, 1);
      }
      device := Feed(device, b);
    }

    method FeedByte(b: Byte) returns (frame: Option<Frame>)
      requires Valid()
      modifies this, payload
      ensures Valid()
      ensures device == Feed(old(device), b)
      ensures frame.Some? <==> device.delivered != old(device.delivered)
      ensures frame.Some? ==> device.delivered == old(device.delivered) + [frame.value]
      ensures framesReceived == |device.delivered| % 0x1_0000_0000 && crcErrors == device.crcErrors % 0x1_0000_0000
      ensures droppedBytes == device.dropped % 0x1_0000_0000
    {
      frame := None;
      match state {
        case Magic0 | Magic1 | Magic2 | Magic3 => TakeMagic(b);
        case Version => TakeVersion(b);
        case Kind | Flags | Seq | LenH => TakeHeader(b);
        case LenL => TakeLengthLow(b);
        case Payload | CrcH => TakeBody(b);
        case CrcL => frame := TakeCrcLow(b);
      }
    }
  }
}
