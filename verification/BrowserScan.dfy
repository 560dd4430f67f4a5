/** The browser's reading of a whole byte stream: one greedy scan from left to right. */
module BrowserScan {
  import opened Bytes
  import opened SlvrFrame

  /** The frames found and the candidates whose checksum was wrong. */
  datatype Report = Report(frames: seq<Frame>, crcErrors: nat)

  const NOTHING := Report([], 0)

  function Then(a: Report, b: Report): Report {
    Report(a.frames + b.frames, a.crcErrors + b.crcErrors)
  }

  lemma {:induction false} ThenAssociative(a: Report, b: Report, c: Report)
    ensures Then(Then(a, b), c) == Then(a, Then(b, c))
  {
    assert a.frames + b.frames + c.frames == a.frames + (b.frames + c.frames);
  }

  /** At each position: no frame can start here, so move on by one; or one is still incomplete, so stop; or a whole
      candidate is here, and it is taken if its checksum is right and stepped into if not. */
  function Scan(s: seq<Byte>): Report
    decreases |s|
  {
    if |s| < OVERHEAD then NOTHING
    else if !GoodHeader(s) then Scan(s[1..])
    else if |s| < OVERHEAD + PayloadLength(s) then NOTHING
    else if ChecksumMatches(Candidate(s)) then Then(Report([Decode(Candidate(s))], 0), Scan(s[|Candidate(s)|..]))
    else Then(Report([], 1), Scan(s[1..]))
  }

  /** The bytes that the header at the start of `s` claims for its frame. */
  function Candidate(s: seq<Byte>): (c: seq<Byte>)
    requires |s| >= HEADER && |s| >= OVERHEAD + PayloadLength(s)
    ensures OVERHEAD <= |c| == OVERHEAD + PayloadLength(s) <= |s|
  {
    s[..OVERHEAD + PayloadLength(s)]
  }

  predicate MagicAt(s: seq<Byte>, i: nat) {
    i + 4 <= |s| && s[i] == MAGIC[0] && s[i + 1] == MAGIC[1] && s[i + 2] == MAGIC[2] && s[i + 3] == MAGIC[3]
  }

  lemma {:induction false} MagicAtStart(s: seq<Byte>)
    requires |s| >= 4
    ensures MagicAt(s, 0) <==> s[..4] == MAGIC
  {
  }

  // ----- how the scan of a buffer relates to the scan of what may still arrive behind it

  /** A position that can be ruled out on what is here is ruled out whatever follows. */
  lemma {:induction false} StepOver(s: seq<Byte>, t: seq<Byte>)
    requires (|s| >= 4 && !MagicAt(s, 0)) || (|s| >= HEADER && !GoodHeader(s))
    ensures Scan(s + t) == Scan(s[1..] + t)
  {
    MagicAtStart(s);
    assert (s + t)[..4] == s[..4];
    assert (s + t)[1..] == s[1..] + t;
  }

  lemma {:induction false} StepOverMany(s: seq<Byte>, k: nat, t: seq<Byte>)
    requires k == 0 || k + 3 <= |s|
    requires forall i :: 0 <= i < k ==> !MagicAt(s, i)
    ensures k <= |s| && Scan(s + t) == Scan(s[k..] + t)
    decreases k
  {
    if k == 0 {
      assert s[0..] == s;
    } else {
      StepOver(s, t);
      forall i | 0 <= i < k - 1
        ensures !MagicAt(s[1..], i)
      {
        assert !MagicAt(s, i + 1);
      }
      StepOverMany(s[1..], k - 1, t);
      assert s[1..][k - 1..] == s[k..];
    }
  }

  /** A whole candidate is judged the same whatever follows. */
  lemma {:induction false} JudgeCandidate(s: seq<Byte>, t: seq<Byte>)
    requires GoodHeader(s) && |s| >= OVERHEAD + PayloadLength(s)
    ensures var c := Candidate(s);
            Scan(s + t) == if ChecksumMatches(c) then Then(Report([Decode(c)], 0), Scan(s[|c|..] + t))
                           else Then(Report([], 1), Scan(s[1..] + t))
  {
    hide ChecksumMatches, Decode;
    var n := |Candidate(s)|;
    assert (s + t)[..4] == s[..4];
    assert Candidate(s + t) == Candidate(s);
    assert (s + t)[1..] == s[1..] + t && (s + t)[n..] == s[n..] + t;
  }

  /** Whatever arrives next, scanning everything fed gives the report so far followed by the scan of the buffer. */
  ghost predicate Equivalent(fed: seq<Byte>, report: Report, buffered: seq<Byte>) {
    forall t {:trigger Scan(fed + t)} :: Scan(fed + t) == Then(report, Scan(buffered + t))
  }

  lemma {:induction false} EquivalentAfterDrop(fed: seq<Byte>, report: Report, buffered: seq<Byte>, k: nat)
    requires Equivalent(fed, report, buffered) && k <= |buffered|
    requires forall t :: Scan(buffered + t) == Scan(buffered[k..] + t)
    ensures Equivalent(fed, report, buffered[k..])
  {
    hide Scan, Then;
  }

  lemma {:induction false} EquivalentAfterAppend(fed: seq<Byte>, report: Report, buffered: seq<Byte>, chunk: seq<Byte>)
    requires Equivalent(fed, report, buffered)
    ensures Equivalent(fed + chunk, report, buffered + chunk)
  {
    hide Scan, Then;
    forall t
      ensures Scan(fed + chunk + t) == Then(report, Scan(buffered + chunk + t))
    {
      assert fed + chunk + t == fed + (chunk + t);
      assert buffered + chunk + t == buffered + (chunk + t);
    }
  }

  lemma {:induction false} EquivalentAfterJudging(fed: seq<Byte>, report: Report, s: seq<Byte>)
    requires Equivalent(fed, report, s)
    requires GoodHeader(s) && |s| >= OVERHEAD + PayloadLength(s)
    ensures var c := Candidate(s);
            if ChecksumMatches(c) then Equivalent(fed, Then(report, Report([Decode(c)], 0)), s[|c|..])
            else Equivalent(fed, Then(report, Report([], 1)), s[1..])
  {
    hide Scan, Then, ChecksumMatches, Decode;
    var c := Candidate(s);
    var first := if ChecksumMatches(c) then Report([Decode(c)], 0) else Report([], 1);
    var rest := if ChecksumMatches(c) then s[|c|..] else s[1..];
    forall t
      ensures Scan(fed + t) == Then(Then(report, first), Scan(rest + t))
    {
      JudgeCandidate(s, t);
      ThenAssociative(report, first, Scan(rest + t));
    }
  }

  /** Nothing is decided while a candidate is incomplete. */
  predicate Waiting(s: seq<Byte>) {
    |s| < OVERHEAD || (GoodHeader(s) && |s| < OVERHEAD + PayloadLength(s))
  }

  // ----- framed streams

  predicate MagicFree(noise: seq<Byte>) {
    forall i {:trigger MagicAt(noise, i)} :: 0 <= i < |noise| ==> !MagicAt(noise, i)
  }

  predicate MagicFreeGaps(gaps: seq<seq<Byte>>) {
    forall i {:trigger gaps[i]} :: 0 <= i < |gaps| ==> MagicFree(gaps[i])
  }

  /** The magic does not overlap itself, so noise without it ends where the next frame begins. */
  lemma {:induction false} SkipNoise(noise: seq<Byte>, s: seq<Byte>)
    requires MagicFree(noise) && (s == [] || MagicAt(s, 0))
    ensures Scan(noise + s) == Scan(s)
    decreases |noise|
  {
    if noise == [] {
      assert noise + s == s;
    } else {
      var all := noise + s;
      var rest := noise[1..];
      assert all[1..] == rest + s;
      NoMagicInFront(noise, s);
      forall i | 0 <= i < |rest|
        ensures !MagicAt(rest, i)
      {
        assert !MagicAt(noise, i + 1);
      }
      if |all| >= OVERHEAD {
        MagicAtStart(all);
      }
      SkipNoise(rest, s);
    }
  }

  lemma {:induction false} NoMagicInFront(noise: seq<Byte>, s: seq<Byte>)
    requires noise != [] && MagicFree(noise) && (s == [] || MagicAt(s, 0))
    ensures !MagicAt(noise + s, 0)
  {
    var all := noise + s;
    assert !MagicAt(noise, 0);
    assert s != [] && |noise| < 4 ==> all[|noise|] == S;
  }

  /** A frame at the front is taken whole. */
  lemma {:induction false} ScanFrame(f: Frame, rest: seq<Byte>)
    requires Sendable(f)
    ensures MagicAt(Encode(f) + rest, 0)
    ensures Scan(Encode(f) + rest) == Then(Report([f], 0), Scan(rest))
  {
    hide ChecksumMatches, Decode;
    var e := Encode(f);
    DecodeEncode(f);
    MagicAtStart(e);
    assert Candidate(e) == e && e[|e|..] + rest == rest;
    JudgeCandidate(e, rest);
  }

  /** A stream of frames is delivered exactly, in order and without an error, as long as the noise between them does
      not contain the magic. */
  lemma {:induction false} ScanFramedStream(gaps: seq<seq<Byte>>, frames: seq<Frame>)
    requires |gaps| == |frames| + 1 && AllSendable(frames) && MagicFreeGaps(gaps)
    ensures Scan(Interleave(gaps, frames)) == Report(frames, 0)
    decreases |frames|
  {
    hide ChecksumMatches, Decode, Encode, FrameShaped;
    if frames == [] {
      SkipNoise(gaps[0], []);
      assert gaps[0] + [] == gaps[0];
    } else {
      var e := Encode(frames[0]);
      var rest := Interleave(gaps[1..], frames[1..]);
      ScanFrame(frames[0], rest);
      SkipNoise(gaps[0], e + rest);
      ScanFramedStream(gaps[1..], frames[1..]);
      assert [frames[0]] + frames[1..] == frames;
    }
  }

  // ----- a scan takes the leftmost frame

  /** A whole frame with a right checksum starts at position `i`. */
  predicate ValidAt(s: seq<Byte>, i: nat) {
    && i <= |s|
    && var u := s[i..];
    GoodHeader(u) && |u| >= 12 + PayloadLength(u) && ChecksumMatches(u[..12 + PayloadLength(u)])
  }

  /** A frame that starts at position `i` is not complete yet. */
  predicate WaitingAt(s: seq<Byte>, i: nat) {
    && i <= |s|
    && var u := s[i..];
    GoodHeader(u) && |u| < 12 + PayloadLength(u)
  }

  /** A whole frame with a wrong checksum starts at position `i`. */
  predicate WrongAt(s: seq<Byte>, i: nat) {
    && i <= |s|
    && var u := s[i..];
    GoodHeader(u) && |u| >= 12 + PayloadLength(u) && !ChecksumMatches(u[..12 + PayloadLength(u)])
  }

  /** How many of the first `n` positions start a whole frame with a wrong checksum. */
  function Mistakes(s: seq<Byte>, n: nat): nat {
    if n == 0 then 0 else Mistakes(s, n - 1) + if WrongAt(s, n - 1) then 1 else 0
  }

  lemma {:induction false} PassOver(s: seq<Byte>)
    requires s != [] && !ValidAt(s, 0) && !WaitingAt(s, 0)
    ensures Scan(s).frames == Scan(s[1..]).frames
    ensures Scan(s).crcErrors == Scan(s[1..]).crcErrors + if WrongAt(s, 0) then 1 else 0
  {
    hide ChecksumMatches, Decode;
    assert s[0..] == s;
  }

  lemma {:induction false} ScanLeftmost(s: seq<Byte>, i: nat)
    requires i <= |s| && forall j: nat :: j < i ==> !ValidAt(s, j) && !WaitingAt(s, j)
    ensures Scan(s).frames == Scan(s[i..]).frames && Scan(s).crcErrors == Mistakes(s, i) + Scan(s[i..]).crcErrors
    decreases i
  {
    hide Scan, GoodHeader, ChecksumMatches;
    if i == 0 {
      assert s[0..] == s;
    } else {
      ScanLeftmost(s, i - 1);
      var u := s[i - 1..];
      assert u[0..] == u && u[1..] == s[i..];
      assert !ValidAt(s, i - 1) && !WaitingAt(s, i - 1);
      PassOver(u);
    }
  }

  /** The first frame found is the leftmost one with a right checksum, unless an incomplete one comes before it; behind
      it the scan goes on. In front of an incomplete one nothing is found, and nothing where there is neither. Each
      position passed on the way that starts a whole frame with a wrong checksum counts as one error. */
  lemma {:induction false} ScanTakesLeftmost(s: seq<Byte>, i: nat)
    requires i <= |s| && forall j: nat :: j < i ==> !ValidAt(s, j) && !WaitingAt(s, j)
    ensures ValidAt(s, i) ==>
              var end := i + 12 + PayloadLength(s[i..]);
              end <= |s| && Scan(s) == Report([Decode(s[i..end])] + Scan(s[end..]).frames,
                                              Mistakes(s, i) + Scan(s[end..]).crcErrors)
    ensures WaitingAt(s, i) || i == |s| ==> Scan(s) == Report([], Mistakes(s, i))
  {
    hide ChecksumMatches, Decode, Scan, GoodHeader, PayloadLength;
    ScanLeftmost(s, i);
    ScanHere(s[i..]);
    if ValidAt(s, i) {
      var u := s[i..];
      var end := i + 12 + PayloadLength(u);
      assert u[..12 + PayloadLength(u)] == s[i..end] && u[12 + PayloadLength(u)..] == s[end..];
    }
  }

  lemma {:induction false} ScanHere(u: seq<Byte>)
    ensures GoodHeader(u) && |u| >= 12 + PayloadLength(u) && ChecksumMatches(u[..12 + PayloadLength(u)]) ==>
              var n := 12 + PayloadLength(u);
              Scan(u) == Report([Decode(u[..n])] + Scan(u[n..]).frames, Scan(u[n..]).crcErrors)
    ensures (GoodHeader(u) && |u| < 12 + PayloadLength(u)) || u == [] ==> Scan(u) == Report([], 0)
  {
    hide ChecksumMatches, Decode;
  }
}
