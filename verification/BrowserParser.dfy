/** The browser's SLVR/1 parser: chunks of any size go into a growing buffer that is rescanned after each of them. */
module BrowserParser {
  import opened Bytes
  import opened SlvrFrame
  import opened BrowserScan
  import Crc16

  const MAX_FRAME: nat := OVERHEAD + MAX_PAYLOAD

  class StreamParser {
    var buffer: array<Byte>
    var bufLen: nat
    var droppedBytes: nat
    var crcErrors: nat
    /** The frames handed to the callback, in order. */
    var delivered: seq<Frame>

    /** Everything fed since construction. */
    ghost var fed: seq<Byte>

    ghost function Buffered(): seq<Byte>
      requires bufLen <= buffer.Length
      reads this, buffer
    {
      buffer[..bufLen]
    }

    /** What holds at every point of a scan. */
    ghost predicate Consistent()
      reads this, buffer
    {
      && bufLen <= buffer.Length
      && Equivalent(fed, Report(delivered, crcErrors), Buffered())
      && droppedBytes + FrameBytes(delivered) + bufLen == |fed|
    }

    /** What holds between calls. */
    ghost predicate Valid()
      reads this, buffer
    {
      Consistent() && Waiting(Buffered()) && bufLen < MAX_FRAME
    }

    constructor ()
      ensures Valid() && fresh(buffer) && fed == [] && delivered == [] && crcErrors == 0 && droppedBytes == 0
    {
      buffer := new Byte[MAX_FRAME * 4](i => 0);
      bufLen, droppedBytes, crcErrors := 0, 0, 0;
      delivered, fed := [], [];
      new;
      forall t ensures Scan(fed + t) == Then(NOTHING, Scan(Buffered() + t)) {
        assert fed + t == Buffered() + t;
      }
    }

    /** Removes `k` bytes from the front of the buffer. */
    method Discard(k: nat)
      requires k <= bufLen <= buffer.Length
      modifies this`bufLen, buffer
      ensures bufLen == old(bufLen) - k && Buffered() == old(Buffered())[k..]
    {
      forall i | 0 <= i < bufLen - k {
        buffer[i] := buffer[i + k];
      }
      bufLen := bufLen - k;
    }

    /** Puts a chunk behind the buffered bytes, moving them to a larger array if there is not enough room. */
    method Append(chunk: seq<Byte>)
      requires Consistent()
      modifies this, buffer
      ensures Consistent() && (buffer == old(buffer) || fresh(buffer))
      ensures Buffered() == old(Buffered()) + chunk && fed == old(fed) + chunk
      ensures unchanged(`delivered, `crcErrors, `droppedBytes)
    {
      if bufLen + |chunk| > buffer.Length {
        var larger := new Byte[Max(buffer.Length * 2, bufLen + |chunk| + 1024)](i => 0);
        CopyInto(larger, 0, buffer[..bufLen]);
        assert larger[..bufLen] == buffer[..bufLen];
        buffer := larger;
      }
      ghost var before := buffer[..bufLen];
      CopyInto(buffer, bufLen, chunk);
      bufLen := bufLen + |chunk|;
      assert Buffered() == before + chunk;
      EquivalentAfterAppend(fed, Report(delivered, crcErrors), before, chunk);
      fed := fed + chunk;
    }

    /** The first position of the magic in the buffer, or -1. */
    method FindMagic() returns (index: int)
      requires 4 <= bufLen <= buffer.Length
      ensures -1 <= index <= bufLen - 4
      ensures index >= 0 ==> MagicAt(Buffered(), index)
      ensures forall i :: 0 <= i < (if index >= 0 then index else bufLen) ==> !MagicAt(Buffered(), i)
    {
      index := -1;
      var i := 0;
      while i <= bufLen - 4
        invariant 0 <= i <= bufLen - 3
        invariant forall j :: 0 <= j < i ==> !MagicAt(Buffered(), j)
      {
        if buffer[i] == 0x53 && buffer[i + 1] == 0x4C && buffer[i + 2] == 0x56 && buffer[i + 3] == 0x52 {
          return i;
        }
        i := i + 1;
      }
    }

    /** Drops `k` bytes at which no frame can start. */
    method Drop(k: nat)
      requires Consistent() && k <= bufLen
      requires forall t :: Scan(Buffered() + t) == Scan(Buffered()[k..] + t)
      modifies this`bufLen, this`droppedBytes, buffer
      ensures Consistent() && bufLen == old(bufLen) - k && Buffered() == old(Buffered())[k..]
    {
      hide Scan, Equivalent, FrameBytes;
      EquivalentAfterDrop(fed, Report(delivered, crcErrors), Buffered(), k);
      droppedBytes := droppedBytes + k;
      Discard(k);
    }

    /** One turn of the scanning loop; false when it has to wait for more bytes. */
    method ScanOnce() returns (more: bool)
      requires Consistent() && bufLen >= OVERHEAD
      modifies this`bufLen, this`droppedBytes, this`crcErrors, this`delivered, buffer
      ensures Consistent()
      ensures bufLen <= old(bufLen) && (more ==> bufLen < old(bufLen))
      ensures !more ==> Valid()
      ensures (forall i :: 0 <= i < old(bufLen) ==> !MagicAt(old(Buffered()), i)) ==>
                !more && Buffered() == old(Buffered())[old(bufLen) - 3..] && delivered == old(delivered)
    {
      hide Scan, Equivalent, FrameBytes;
      var index := FindMagic();
      if index == -1 {
        var keep := Min(3, bufLen);
        forall t ensures Scan(Buffered() + t) == Scan(Buffered()[bufLen - keep..] + t) {
          StepOverMany(Buffered(), bufLen - keep, t);
        }
        Drop(bufLen - keep);
        return false;
      }
      if index > 0 {
        forall t ensures Scan(Buffered() + t) == Scan(Buffered()[index..] + t) {
          StepOverMany(Buffered(), index, t);
        }
        Drop(index);
      }
      if bufLen < HEADER {
        return false;
      }
      more := ScanCandidate();
    }

    /** The magic is at the front of the buffer: look at the header, then at the whole frame. */
    method ScanCandidate() returns (more: bool)
      requires Consistent() && bufLen >= HEADER && MagicAt(Buffered(), 0)
      modifies this`bufLen, this`droppedBytes, this`crcErrors, this`delivered, buffer
      ensures Consistent()
      ensures bufLen <= old(bufLen) && (more ==> bufLen < old(bufLen))
      ensures !more ==> Valid()
    {
      hide ChecksumMatches, Decode;
      MagicAtStart(Buffered());
      var payloadLen := U16(buffer[8], buffer[9]);
      if buffer[4] != 0x01 || payloadLen > 512 {
        forall t ensures Scan(Buffered() + t) == Scan(Buffered()[1..] + t) {
          StepOver(Buffered(), t);
        }
        Drop(1);
        return true;
      }
      var total := OVERHEAD + payloadLen;
      if bufLen < total {
        return false;
      }
      Judge(payloadLen);
      return true;
    }

    /** A whole candidate is in the buffer: deliver it if its checksum is right, step into it if not. */
    method Judge(payloadLen: nat)
      requires Consistent() && bufLen >= OVERHEAD + payloadLen
      requires GoodHeader(Buffered()) && payloadLen == PayloadLength(Buffered())
      modifies this`bufLen, this`droppedBytes, this`crcErrors, this`delivered, buffer
      ensures Consistent() && bufLen < old(bufLen)
    {
      hide Scan, Equivalent, Decode, ChecksumMatches;
      ghost var c := Candidate(Buffered());
      EquivalentAfterJudging(fed, Report(delivered, crcErrors), Buffered());
      var crcExpected := U16(buffer[10 + payloadLen], buffer[11 + payloadLen]);
      var crcActual := Crc16.Compute(buffer[4..10 + payloadLen]);
      assert c[4..|c| - 2] == buffer[4..10 + payloadLen] && c[HEADER..|c| - 2] == buffer[10..10 + payloadLen];
      ChecksumWord(c);
      if crcExpected == Crc16.Word(crcActual) {
        var frame := Frame(buffer[4], buffer[5], buffer[6], buffer[7], buffer[10..10 + payloadLen]);
        DecodeFields(c, frame);
        Accept(frame);
      } else {
        Reject();
      }
    }

    method Accept(frame: Frame)
      requires Consistent() && OVERHEAD + |frame.payload| <= bufLen
      requires Equivalent(fed, Then(Report(delivered, crcErrors), Report([frame], 0)),
                          Buffered()[OVERHEAD + |frame.payload|..])
      modifies this`bufLen, this`delivered, buffer
      ensures Consistent() && bufLen < old(bufLen)
    {
      hide Scan, Equivalent;
      assert (delivered + [frame])[..|delivered|] == delivered;
      Discard(OVERHEAD + |frame.payload|);
      delivered := delivered + [frame];
    }

    method Reject()
      requires Consistent() && bufLen >= 1
      requires Equivalent(fed, Then(Report(delivered, crcErrors), Report([], 1)), Buffered()[1..])
      modifies this`bufLen, this`droppedBytes, this`crcErrors, buffer
      ensures Consistent() && bufLen < old(bufLen)
    {
      assert Then(Report(delivered, crcErrors), Report([], 1)) == Report(delivered, crcErrors + 1) by {
        assert delivered + [] == delivered;
      }
      hide Scan, Equivalent, FrameBytes, Then;
      crcErrors := crcErrors + 1;
      droppedBytes := droppedBytes + 1;
      Discard(1);
    }

    /** However the stream is cut, what has been delivered and counted is what one scan of all of it finds; every byte
        fed is accounted for; and less than one maximal frame stays in the buffer. */
    method Feed(chunk: seq<Byte>)
      requires Valid()
      modifies this, buffer
      ensures Valid() && (buffer == old(buffer) || fresh(buffer))
      ensures fed == old(fed) + chunk
      ensures Report(delivered, crcErrors) == Scan(fed)
      ensures droppedBytes + FrameBytes(delivered) + bufLen == |fed|
      ensures bufLen <= 523
      ensures old(bufLen) + |chunk| < 12 ==>
                && Buffered() == old(Buffered()) + chunk
                && droppedBytes == old(droppedBytes) && delivered == old(delivered)
      ensures old(bufLen) + |chunk| >= 12 && MagicFree(old(Buffered()) + chunk) ==>
                && Buffered() == (old(Buffered()) + chunk)[old(bufLen) + |chunk| - 3..]
                && droppedBytes == old(droppedBytes) + old(bufLen) + |chunk| - 3 && delivered == old(delivered)
    {
      hide Scan, Equivalent, FrameBytes, MagicFree, Waiting;
      if |chunk| == 0 {
        if bufLen >= 12 {
          WaitingHasMagic(Buffered());
        }
        assert Buffered() + chunk == Buffered() && fed + chunk == fed;
        Settled();
        return;
      }
      Append(chunk);
      ScanAll();
      Settled();
    }

    /** Turns of the scanning loop until it has to wait for more bytes. */
    method ScanAll()
      requires Consistent()
      modifies this`bufLen, this`droppedBytes, this`crcErrors, this`delivered, buffer
      ensures Valid()
      ensures old(bufLen) < 12 ==> Buffered() == old(Buffered()) && delivered == old(delivered)
      ensures old(bufLen) >= 12 && MagicFree(old(Buffered())) ==>
                Buffered() == old(Buffered())[old(bufLen) - 3..] && delivered == old(delivered)
    {
      hide Scan, Equivalent, FrameBytes;
      var more := true;
      while more && bufLen >= OVERHEAD
        invariant Consistent() && (!more ==> Valid())
        invariant old(bufLen) < OVERHEAD ==> more && Buffered() == old(Buffered()) && delivered == old(delivered)
        invariant old(bufLen) >= OVERHEAD && MagicFree(old(Buffered())) ==>
                    && delivered == old(delivered)
                    && Buffered() == if more then old(Buffered()) else old(Buffered())[old(bufLen) - 3..]
        decreases bufLen, more
      {
        more := ScanOnce();
      }
    }

    lemma {:induction false} Settled()
      requires Valid()
      ensures Report(delivered, crcErrors) == Scan(fed)
    {
      assert fed + [] == fed && Buffered() + [] == Buffered();
      assert Scan(fed + []) == Then(Report(delivered, crcErrors), Scan(Buffered() + []));
    }
  }

  lemma {:induction false} WaitingHasMagic(s: seq<Byte>)
    requires Waiting(s) && |s| >= 12
    ensures !MagicFree(s)
  {
    MagicAtStart(s);
  }

  lemma {:induction false} ChecksumWord(c: seq<Byte>)
    requires |c| >= OVERHEAD
    ensures ChecksumMatches(c) <==> U16(c[|c| - 2], c[|c| - 1]) == Crc16.Crc(c[4..|c| - 2])
  {
    hide Crc16.Crc;
    CrcWord(c[|c| - 2], c[|c| - 1], Crc16.Crc(c[4..|c| - 2]));
    assert c[|c| - 2..] == [c[|c| - 2], c[|c| - 1]];
  }

  lemma {:induction false} DecodeFields(c: seq<Byte>, f: Frame)
    requires |c| >= OVERHEAD
    requires f == Frame(c[4], c[5], c[6], c[7], c[HEADER..|c| - 2])
    ensures f == Decode(c)
  {
  }

  function Max(a: int, b: int): int {
    if a > b then a else b
  }

  function Min(a: int, b: int): int {
    if a < b then a else b
  }

  function Flatten(chunks: seq<seq<Byte>>): seq<Byte>
    decreases |chunks|
  {
    if chunks == [] then [] else Flatten(chunks[..|chunks| - 1]) + chunks[|chunks| - 1]
  }

  /** Two ways of cutting one stream into chunks deliver the same frames. */
  method FeedChunks(chunks: seq<seq<Byte>>) returns (frames: seq<Frame>, crcErrors: nat)
    ensures Report(frames, crcErrors) == Scan(Flatten(chunks))
  {
    var parser := new StreamParser();
    parser.Settled();
    for i := 0 to |chunks|
      invariant parser.Valid() && fresh(parser) && fresh(parser.buffer)
      invariant parser.fed == Flatten(chunks[..i])
      invariant Report(parser.delivered, parser.crcErrors) == Scan(parser.fed)
    {
      assert chunks[..i + 1][..i] == chunks[..i];
      parser.Feed(chunks[i]);
    }
    assert chunks[..|chunks|] == chunks;
    frames, crcErrors := parser.delivered, parser.crcErrors;
  }
}
