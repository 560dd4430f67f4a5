/** What the device parser does over whole byte histories. */
module DeviceRuns {
  import opened Bytes
  import opened SlvrFrame
  import opened DeviceParser
  import opened BrowserScan
  import Crc16

  lemma {:induction false} StaysViable(d: Device, s: seq<Byte>)
    requires Viable(d.pending)
    ensures Viable(FeedAll(d, s).pending)
    decreases |s|
  {
    if s != [] {
      FeedViable(d, s[0]);
      StaysViable(Feed(d, s[0]), s[1..]);
    }
  }

  predicate IsSuffix(p: seq<Byte>, s: seq<Byte>) {
    |p| <= |s| && s[|s| - |p|..] == p
  }

  // ----- soundness

  /** The history `s` is noise, first delivered frame, noise, second delivered frame, and so on: each delivered frame's
      encoding is a stretch of the input of its own, the stretches come in order of delivery, and the attempt in
      progress lies after the last of them. */
  ghost predicate Explains(gaps: seq<seq<Byte>>, d: Device, s: seq<Byte>) {
    && |gaps| == |d.delivered| + 1
    && AllSendable(d.delivered)
    && Interleave(gaps, d.delivered) == s
    && Viable(d.pending)
    && IsSuffix(d.pending, gaps[|d.delivered|])
  }

  /** Every history can be explained by what the parser has delivered. */
  lemma {:induction false} Soundness(s: seq<Byte>) returns (gaps: seq<seq<Byte>>)
    ensures Explains(gaps, FeedAll(IDLE, s), s)
    decreases |s|
  {
    if s == [] {
      gaps := [[]];
    } else {
      hide Explains, Feed;
      var r, b := s[..|s| - 1], s[|s| - 1];
      assert s == r + [b];
      FeedLast(IDLE, s);
      gaps := Soundness(r);
      gaps := ExplainMore(gaps, FeedAll(IDLE, r), r, b);
    }
  }

  lemma {:induction false} ExplainMore(gaps: seq<seq<Byte>>, d: Device, s: seq<Byte>, b: Byte)
    returns (more: seq<seq<Byte>>)
    requires Explains(gaps, d, s)
    ensures Explains(more, Feed(d, b), s + [b])
  {
    hide ChecksumMatches, FrameShaped, Encode, Decode, Feed, Viable, PayloadLength, Interleave;
    FeedCases(d, b);
    if Feed(d, b).delivered != d.delivered {
      more := DeliverFromGap(gaps, d.delivered, d.pending, b);
    } else {
      InterleaveTail(gaps, d.delivered, [b]);
      var n := |d.delivered|;
      more := gaps[n := gaps[n] + [b]];
    }
  }

  lemma {:induction false} FeedCases(d: Device, b: Byte)
    requires Viable(d.pending)
    ensures var q := d.pending + [b];
            var next := Feed(d, b);
            && Viable(next.pending)
            && if next.delivered != d.delivered
               then FrameShaped(q) && ChecksumMatches(q) && next.delivered == d.delivered + [Decode(q)]
                 && next.pending == []
               else next.pending == q || next.pending == [b] || next.pending == []
  {
    FeedViable(d, b);
  }

  /** The attempt that became a frame is cut off the end of the last gap. */
  lemma {:induction false} DeliverFromGap(gaps: seq<seq<Byte>>, frames: seq<Frame>, p: seq<Byte>, b: Byte)
    returns (more: seq<seq<Byte>>)
    requires |gaps| == |frames| + 1 && AllSendable(frames)
    requires IsSuffix(p, gaps[|frames|])
    requires FrameShaped(p + [b]) && ChecksumMatches(p + [b])
    ensures var all := frames + [Decode(p + [b])];
            && |more| == |all| + 1 && AllSendable(all) && more[|all|] == []
            && Interleave(more, all) == Interleave(gaps, frames) + [b]
  {
    hide ChecksumMatches, FrameShaped, Encode, Decode;
    var n, q := |frames|, p + [b];
    var cut := gaps[n := gaps[n][..|gaps[n]| - |p|]];
    assert cut[n] + p == gaps[n];
    assert cut[n := cut[n] + p] == gaps;
    InterleaveTail(cut, frames, p);
    EncodeDecode(q);
    InterleaveSnoc(cut, frames, Decode(q), []);
    more := cut + [[]];
    assert Interleave(gaps, frames) + [b] == Interleave(cut, frames) + q + [];
  }

  /** A frame is delivered exactly when the bytes of its encoding, all of them and no others, have just been fed. */
  lemma {:induction false} DeliveredFrameIsLastBytes(s: seq<Byte>, b: Byte)
    requires FeedAll(IDLE, s + [b]).delivered != FeedAll(IDLE, s).delivered
    ensures var before, after := FeedAll(IDLE, s).delivered, FeedAll(IDLE, s + [b]).delivered;
            |after| == |before| + 1 && after[..|before|] == before
            && Sendable(after[|before|]) && IsSuffix(Encode(after[|before|]), s + [b])
  {
    hide FeedAll, Feed, FrameShaped, ChecksumMatches, Encode, Decode, Interleave, Viable, AllSendable;
    var gaps := Soundness(s);
    var d := FeedAll(IDLE, s);
    assert (s + [b])[..|s + [b]| - 1] == s;
    FeedLast(IDLE, s + [b]);
    FeedCases(d, b);
    EncodeDecode(d.pending + [b]);
    PendingIsSuffix(gaps, d.delivered, d.pending);
    SuffixSnoc(d.pending, s, b);
    var frame := Decode(d.pending + [b]);
    assert (d.delivered + [frame])[..|d.delivered|] == d.delivered;
  }

  lemma {:induction false} SuffixSnoc(p: seq<Byte>, s: seq<Byte>, b: Byte)
    requires IsSuffix(p, s)
    ensures IsSuffix(p + [b], s + [b])
  {
    assert (s + [b])[|s| - |p|..] == s[|s| - |p|..] + [b];
  }

  lemma {:induction false} PendingIsSuffix(gaps: seq<seq<Byte>>, frames: seq<Frame>, p: seq<Byte>)
    requires |gaps| == |frames| + 1 && AllSendable(frames)
    requires IsSuffix(p, gaps[|frames|])
    ensures IsSuffix(p, Interleave(gaps, frames))
    decreases |frames|
  {
    if frames != [] {
      PendingIsSuffix(gaps[1..], frames[1..], p);
    }
  }

  // ----- completeness

  /** From idle, the bytes of anything laid out as a frame are collected up to the last one. */
  lemma {:induction false} CollectPrefix(d: Device, e: seq<Byte>, k: nat)
    requires d.pending == [] && FrameShaped(e) && k < |e|
    ensures Viable(e[..k]) && FeedAll(d, e[..k]) == d.(pending := e[..k])
    decreases k
  {
    if k > 0 {
      CollectPrefix(d, e, k - 1);
      FeedLast(d, e[..k]);
      assert e[..k][..k - 1] == e[..k - 1];
      assert e[..k] == e[..k - 1] + [e[k - 1]];
      PrefixViable(e, k);
    }
  }

  lemma {:induction false} PrefixViable(e: seq<Byte>, k: nat)
    requires FrameShaped(e) && k < |e|
    ensures Viable(e[..k])
  {
    if k <= 4 {
      assert e[..k] == e[..4][..k];
    } else {
      assert e[..k][..4] == e[..4];
    }
  }

  lemma {:induction false} CollectWhole(d: Device, e: seq<Byte>)
    requires d.pending == [] && FrameShaped(e)
    ensures FeedAll(d, e) ==
            if ChecksumMatches(e) then d.(delivered := d.delivered + [Decode(e)])
            else d.(crcErrors := d.crcErrors + 1)
  {
    hide ChecksumMatches, Decode;
    CollectPrefix(d, e, |e| - 1);
    FeedLast(d, e);
    assert e[..|e| - 1] + [e[|e| - 1]] == e;
  }

  lemma {:induction false} NoiseIsDropped(d: Device, noise: seq<Byte>)
    requires d.pending == [] && S !in noise
    ensures FeedAll(d, noise) == d.(dropped := d.dropped + |noise|)
    decreases |noise|
  {
    if noise != [] {
      assert noise[0] in noise;
      FeedMagic(d, noise[0]);
      NoiseIsDropped(Feed(d, noise[0]), noise[1..]);
    }
  }

  predicate Quiet(gaps: seq<seq<Byte>>) {
    forall i {:trigger gaps[i]} :: 0 <= i < |gaps| ==> S !in gaps[i]
  }

  /** Frames separated by noise without the byte 'S' are all delivered, in order, with nothing else reported. */
  lemma {:induction false} Completeness(d: Device, gaps: seq<seq<Byte>>, frames: seq<Frame>)
    requires d.pending == []
    requires |gaps| == |frames| + 1 && AllSendable(frames) && Quiet(gaps)
    ensures var r := FeedAll(d, Interleave(gaps, frames));
            r.pending == [] && r.delivered == d.delivered + frames && r.crcErrors == d.crcErrors
    decreases |frames|
  {
    hide Viable, FrameShaped, ChecksumMatches, Encode, Decode, Feed;
    NoiseIsDropped(d, gaps[0]);
    if frames != [] {
      var rest := Interleave(gaps[1..], frames[1..]);
      var d1 := FeedAll(d, gaps[0]);
      var d2 := FeedAll(d1, Encode(frames[0]));
      FeedAllConcat(d, gaps[0], Encode(frames[0]) + rest);
      FeedAllConcat(d1, Encode(frames[0]), rest);
      DecodeEncode(frames[0]);
      CollectWhole(d1, Encode(frames[0]));
      Completeness(d2, gaps[1..], frames[1..]);
      assert d.delivered + frames == d.delivered + [frames[0]] + frames[1..];
    }
  }

  /** On frames separated by noise without 'S', the device's state machine and the browser's rescanning buffer, two
      different resynchronisation strategies, deliver the same frames. */
  lemma {:induction false} ParsersAgree(gaps: seq<seq<Byte>>, frames: seq<Frame>)
    requires |gaps| == |frames| + 1 && AllSendable(frames) && Quiet(gaps)
    ensures FeedAll(IDLE, Interleave(gaps, frames)).delivered == frames
    ensures Scan(Interleave(gaps, frames)).frames == frames
  {
    Completeness(IDLE, gaps, frames);
    forall i | 0 <= i < |gaps|
      ensures MagicFree(gaps[i])
    {
      assert forall j :: 0 <= j < |gaps[i]| ==> gaps[i][j] in gaps[i];
    }
    ScanFramedStream(gaps, frames);
  }

  // ----- exactly when a frame gets through

  lemma {:induction false} AttemptGrowsByOne(d: Device, b: Byte)
    ensures |Feed(d, b).pending| <= |d.pending| + 1
    ensures |Feed(d, b).pending| >= 2 ==> |Feed(d, b).pending| == |d.pending| + 1
    ensures |Feed(d, b).pending| == 1 ==> d.pending == [] || d.pending == [S]
    ensures Feed(d, b).delivered != d.delivered ==> |d.pending| >= OVERHEAD - 1
  {
  }

  /** An attempt as long as what was fed must have begun with the first byte fed. */
  lemma {:induction false} AttemptStart(d: Device, s: seq<Byte>)
    requires s != [] && |FeedAll(d, s).pending| == |s|
    ensures d.pending == [] || d.pending == [S]
    decreases |s|
  {
    var r := s[..|s| - 1];
    FeedLast(d, s);
    AttemptGrowsByOne(FeedAll(d, r), s[|s| - 1]);
    if r != [] {
      AttemptStart(d, r);
    }
  }

  /** Feeding a frame's encoding delivers that frame with its last byte if and only if the parser was idle or had just
      seen a single 'S' before the first. */
  lemma {:induction false} DeliveredIff(d: Device, f: Frame)
    requires Viable(d.pending) && Sendable(f)
    ensures var e := Encode(f);
            FeedAll(d, e).delivered == FeedAll(d, e[..|e| - 1]).delivered + [f]
            <==> (d.pending == [] || d.pending == [S])
  {
    var e := Encode(f);
    var r := e[..|e| - 1];
    var before := FeedAll(d, r);
    DecodeEncode(f);
    FeedLast(d, e);
    if d.pending == [] {
      CollectWhole(d, e);
      CollectPrefix(d, e, |e| - 1);
    } else if d.pending == [S] {
      SecondS(d, e);
      SecondS(d, r);
      var idle := d.(pending := [], dropped := d.dropped + 1);
      CollectWhole(idle, e);
      CollectPrefix(idle, e, |e| - 1);
    }
    if FeedAll(d, e).delivered == before.delivered + [f] {
      StaysViable(d, r);
      var q := before.pending + [e[|e| - 1]];
      assert (before.delivered + [Decode(q)])[|before.delivered|] == f;
      EncodeDecode(q);
      assert |before.pending| == |r|;
      AttemptStart(d, r);
    }
  }

  /** After one 'S', a second one counts the first as dropped and takes its place. */
  lemma {:induction false} SecondS(d: Device, e: seq<Byte>)
    requires d.pending == [S] && e != [] && e[0] == S
    ensures FeedAll(d, e) == FeedAll(d.(pending := [], dropped := d.dropped + 1), e)
  {
    assert [S] == MAGIC[..1];
    FeedMagic(d, S);
    FeedMagic(d.(pending := [], dropped := d.dropped + 1), S);
  }

  /** Fewer than twelve bytes from idle cannot complete a frame. */
  lemma {:induction false} TooShortToDeliver(d: Device, s: seq<Byte>)
    requires |d.pending| + |s| < OVERHEAD
    ensures FeedAll(d, s).delivered == d.delivered
    decreases |s|
  {
    if s != [] {
      AttemptGrowsByOne(d, s[0]);
      TooShortToDeliver(Feed(d, s[0]), s[1..]);
    }
  }

  /** Noise containing 'S' can swallow the frame behind it: after "SL", a frame without payload is lost altogether. */
  lemma {:induction false} NoiseCanSwallowAFrame(f: Frame)
    requires Sendable(f) && f.payload == []
    ensures FeedAll(IDLE, [0x53, 0x4C] + Encode(f)).delivered == []
  {
    var e := Encode(f);
    var d1 := Feed(IDLE, S);
    var d2 := Feed(d1, 0x4C);
    FeedMagic(IDLE, S);
    FeedMagic(d1, 0x4C);
    FeedMagic(d2, S);
    var input := [S, 0x4C] + e;
    assert input[1..][1..] == e;
    assert FeedAll(IDLE, input) == FeedAll(d1, input[1..]) == FeedAll(d2, e);
    TooShortToDeliver(Feed(d2, S), e[1..]);
  }

  // ----- resynchronisation

  /** Bytes other than 'S' either bring the attempt closer to its end or end it. */
  lemma {:induction false} Resynchronise(d: Device, noise: seq<Byte>)
    requires Viable(d.pending) && S !in noise
    requires |d.pending| + |noise| >= OVERHEAD + MAX_PAYLOAD || d.pending == []
    ensures FeedAll(d, noise).pending == []
    decreases |noise|
  {
    if d.pending == [] {
      NoiseIsDropped(d, noise);
    } else {
      assert noise[0] in noise;
      FeedViable(d, noise[0]);
      var next := Feed(d, noise[0]);
      if |next.pending| == 1 {
        FeedMagic(d, noise[0]);
      }
      AttemptGrowsByOne(d, noise[0]);
      Resynchronise(next, noise[1..]);
    }
  }

  /** From any reachable state, 523 bytes without an 'S' bring the parser back to idle. */
  lemma {:induction false} ResynchroniseAfter523(history: seq<Byte>, noise: seq<Byte>)
    requires |noise| == 523 && 0x53 !in noise
    ensures FeedAll(IDLE, history + noise).pending == []
  {
    StaysViable(IDLE, history);
    FeedAllConcat(IDLE, history, noise);
    Resynchronise(FeedAll(IDLE, history), noise);
  }

  // ----- every byte accounted for

  /** The bytes that a give-up takes without counting them as dropped: all but one of them for a wrong version or an
      oversized length, and the whole frame for a wrong checksum. */
  function Uncounted(d: Device, b: Byte): nat {
    var p, q := d.pending, d.pending + [b];
    if |p| == 4 && b != VERSION_1 then 4
    else if |p| == 9 && U16(p[8], b) > MAX_PAYLOAD then 9
    else if |p| >= HEADER && |q| == OVERHEAD + PayloadLength(q) && !ChecksumMatches(q) then |q|
    else 0
  }

  /** The bytes uncounted over a whole history. */
  function AllUncounted(s: seq<Byte>): nat
    decreases |s|
  {
    if s == [] then 0 else AllUncounted(s[..|s| - 1]) + Uncounted(FeedAll(IDLE, s[..|s| - 1]), s[|s| - 1])
  }

  function Accounted(d: Device): nat {
    d.dropped + FrameBytes(d.delivered) + |d.pending|
  }

  lemma {:induction false} StepAccounts(d: Device, b: Byte)
    requires Viable(d.pending)
    ensures Accounted(Feed(d, b)) + Uncounted(d, b) == Accounted(d) + 1
  {
    hide ChecksumMatches, Feed, FrameShaped;
    var p := d.pending;
    if |p| <= 4 {
      FeedMagic(d, b);
      ViableMagic(p);
    } else if |p| <= 8 {
      FeedHeader(d, b);
    } else if |p| == 9 {
      FeedLength(d, b);
    } else {
      var q := p + [b];
      FeedBody(d, b);
      SamePayloadLength(p, b);
      if |q| == OVERHEAD + PayloadLength(q) {
        assert (d.delivered + [Decode(q)])[..|d.delivered|] == d.delivered;
      }
    }
  }

  lemma {:induction false} ViableMagic(p: seq<Byte>)
    requires Viable(p) && |p| <= 4
    ensures |p| < 4 ==> |MAGIC[..|p| + 1]| == |p| + 1
    ensures |p| == 1 ==> p == [S]
  {
  }

  lemma {:induction false} SamePayloadLength(p: seq<Byte>, b: Byte)
    requires Viable(p) && |p| >= HEADER
    ensures PayloadLength(p + [b]) == PayloadLength(p) && |p| < OVERHEAD + PayloadLength(p)
  {
  }

  /** Over every history, the bytes counted as dropped, those of delivered frames, those of the attempt in progress and
      the uncounted ones are all the bytes fed. */
  lemma {:induction false} BytesAccounted(s: seq<Byte>)
    ensures Accounted(FeedAll(IDLE, s)) + AllUncounted(s) == |s|
    decreases |s|
  {
    hide Feed, Uncounted, Accounted;
    if s == [] {
      NothingFed();
    } else {
      var front := s[..|s| - 1];
      BytesAccounted(front);
      StaysViable(IDLE, front);
      FeedLast(IDLE, s);
      StepAccounts(FeedAll(IDLE, front), s[|s| - 1]);
    }
  }

  lemma {:induction false} NothingFed()
    ensures Accounted(IDLE) == 0 && FeedAll(IDLE, []) == IDLE
  {
  }

  // ----- error detection

  /** Corrupting any one byte after the version, other than the two length bytes, always costs exactly the frame:
      one checksum error, nothing delivered, and the parser idle again. */
  lemma {:induction false} SingleByteCorruption(d: Device, f: Frame, k: nat, b: Byte)
    requires d.pending == [] && Sendable(f)
    requires 5 <= k < |Encode(f)| && k != 8 && k != 9
    requires b != Encode(f)[k]
    ensures FeedAll(d, Encode(f)[k := b]) == d.(crcErrors := d.crcErrors + 1)
  {
    hide ChecksumMatches, Encode, Decode, Feed;
    var e := Encode(f);
    var bad := e[k := b];
    DecodeEncode(f);
    assert FrameShaped(bad) by { SameShape(e, bad); }
    CorruptedChecksum(f, k, b);
    CollectWhole(d, bad);
  }

  lemma {:induction false} SameShape(e: seq<Byte>, bad: seq<Byte>)
    requires FrameShaped(e) && |bad| == |e| && bad[..5] == e[..5] && bad[8..10] == e[8..10]
    ensures FrameShaped(bad)
  {
    assert bad[..4] == bad[..5][..4] == e[..4];
    assert bad[4] == bad[..5][4] == e[4];
    assert bad[8] == bad[8..10][0] && bad[9] == bad[8..10][1] && e[8] == e[8..10][0] && e[9] == e[8..10][1];
  }

  lemma {:induction false} CorruptedChecksum(f: Frame, k: nat, b: Byte)
    requires 4 <= k < |Encode(f)| && b != Encode(f)[k]
    ensures !ChecksumMatches(Encode(f)[k := b])
  {
    hide Crc16.Crc, CrcBytes;
    var e := Encode(f);
    var bad, n := e[k := b], |e|;
    assert e[4..n - 2] == Body(f) && e[n - 2..] == CrcBytes(Crc16.Crc(Body(f)));
    if k < n - 2 {
      assert bad[4..n - 2] == Body(f)[k - 4 := b];
      Crc16.SingleByteChange(Body(f), k - 4, b);
      assert bad[n - 2..] == e[n - 2..];
      CrcBytesInjective(Crc16.Crc(Body(f)), Crc16.Crc(bad[4..n - 2]));
    } else {
      assert bad[4..n - 2] == Body(f);
      assert bad[n - 2..][k - (n - 2)] == b != e[n - 2..][k - (n - 2)];
    }
  }

  lemma {:induction false} CrcBytesInjective(a: nat, b: nat)
    requires a < 0x1_0000 && b < 0x1_0000
    ensures CrcBytes(a) == CrcBytes(b) ==> a == b
  {
    if CrcBytes(a) == CrcBytes(b) {
      assert CrcBytes(a)[0] == CrcBytes(b)[0] && CrcBytes(a)[1] == CrcBytes(b)[1];
      U16RoundTrip(a);
      U16RoundTrip(b);
    }
  }
}
