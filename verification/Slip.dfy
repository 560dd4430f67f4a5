/** SLIP framing (RFC 1055) and the boot loader's command packets. */
module Slip {
  import opened Bytes

  const END: Byte := 0xC0
  const ESC: Byte := 0xDB
  const ESC_END: Byte := 0xDC
  const ESC_ESC: Byte := 0xDD

  function Escape(b: Byte): seq<Byte> {
    if b == END then [ESC, ESC_END] else if b == ESC then [ESC, ESC_ESC] else [b]
  }

  function EscapeAll(data: seq<Byte>): seq<Byte>
    decreases |data|
  {
    if data == [] then [] else EscapeAll(data[..|data| - 1]) + Escape(data[|data| - 1])
  }

  function Encode(data: seq<Byte>): seq<Byte> {
    [END] + EscapeAll(data) + [END]
  }

  /** The decoder's state after some input: what it has produced, and whether an escape is pending. */
  datatype Decoder = Decoder(result: seq<Byte>, escaped: bool)

  function DecodeByte(d: Decoder, b: Byte): Decoder {
    if b == END then d
    else if d.escaped then
      Decoder(d.result + [if b == ESC_END then END else if b == ESC_ESC then ESC else b], false)
    else if b == ESC then d.(escaped := true)
    else d.(result := d.result + [b])
  }

  function Decoding(data: seq<Byte>): Decoder
    decreases |data|
  {
    if data == [] then Decoder([], false) else DecodeByte(Decoding(data[..|data| - 1]), data[|data| - 1])
  }

  method SlipEncode(data: seq<Byte>) returns (result: seq<Byte>)
    ensures result == Encode(data)
  {
    result := [END];
    for i := 0 to |data|
      invariant result == [END] + EscapeAll(data[..i])
    {
      assert data[..i + 1][..i] == data[..i];
      var b := data[i];
      if b == 0xC0 {
        result := result + [ESC];
        result := result + [ESC_END];
      } else if b == 0xDB {
        result := result + [ESC];
        result := result + [ESC_ESC];
      } else {
        result := result + [b];
      }
      assert result == [END] + (EscapeAll(data[..i]) + Escape(b));
    }
    assert data[..|data|] == data;
    result := result + [END];
  }

  method SlipDecode(data: seq<Byte>) returns (result: seq<Byte>)
    ensures result == Decoding(data).result
  {
    result := [];
    var escaped := false;
    for i := 0 to |data|
      invariant Decoder(result, escaped) == Decoding(data[..i])
    {
      assert data[..i + 1][..i] == data[..i];
      var b := data[i];
      if b == 0xC0 {
        continue;
      }
      if escaped {
        if b == 0xDC {
          result := result + [END];
        } else if b == 0xDD {
          result := result + [ESC];
        } else {
          result := result + [b];
        }
        escaped := false;
      } else if b == 0xDB {
        escaped := true;
      } else {
        result := result + [b];
      }
    }
    assert data[..|data|] == data;
  }

  // ----- the encoding and the decoder, byte by byte

  /** Only 0xC0 and 0xDB are escaped, by 0xDB and a code. */
  lemma {:induction false} EncodedBytes(data: seq<Byte>, b: Byte)
    ensures Encode([]) == [0xC0, 0xC0]
    ensures Encode(data + [b]) == Encode(data)[..|Encode(data)| - 1]
                                  + (if b == 0xC0 then [0xDB, 0xDC] else if b == 0xDB then [0xDB, 0xDD] else [b])
                                  + [0xC0]
  {
    EscapeSnoc(data, b);
    var e := Encode(data);
    assert e[..|e| - 1] == [END] + EscapeAll(data);
  }

  /** What each byte means to the decoder, in and out of an escape; an unknown code stands for itself, and 0xC0 is
      skipped even inside an escape. */
  lemma {:induction false} DecodedBytes(s: seq<Byte>, b: Byte)
    ensures Decoding([]) == Decoder([], false)
    ensures var d, d' := Decoding(s), Decoding(s + [b]);
            if b == 0xC0 then d' == d
            else if !d.escaped then d' == if b == 0xDB then Decoder(d.result, true) else Decoder(d.result + [b], false)
            else d' == Decoder(d.result + [if b == 0xDC then 0xC0 else if b == 0xDD then 0xDB else b], false)
  {
    DecodingSnoc(s, b);
  }

  // ----- the decoder undoes the encoder

  lemma {:induction false} DecodingSnoc(s: seq<Byte>, b: Byte)
    ensures Decoding(s + [b]) == DecodeByte(Decoding(s), b)
  {
    assert (s + [b])[..|s|] == s;
  }

  lemma {:induction false} DecodeStart()
    ensures Decoding([END] + EscapeAll([])) == Decoder([], false)
  {
    assert [END] + EscapeAll([]) == [END] && [END][..0] == [];
  }

  lemma {:induction false} EscapeSnoc(data: seq<Byte>, b: Byte)
    ensures EscapeAll(data + [b]) == EscapeAll(data) + Escape(b)
  {
    assert (data + [b])[..|data|] == data;
  }

  lemma {:induction false} DecodePrefix(data: seq<Byte>)
    ensures Decoding([END] + EscapeAll(data)) == Decoder(data, false)
    decreases |data|
  {
    hide Decoding, EscapeAll, Escape;
    if data == [] {
      DecodeStart();
    } else {
      var front, b := data[..|data| - 1], data[|data| - 1];
      DecodePrefix(front);
      EscapeSnoc(front, b);
      assert front + [b] == data;
      var sent := [END] + EscapeAll(front);
      assert [END] + EscapeAll(data) == sent + Escape(b);
      DecodeEscape(sent, b);
    }
  }

  lemma {:induction false} DecodeEscape(sent: seq<Byte>, b: Byte)
    requires !Decoding(sent).escaped
    ensures Decoding(sent + Escape(b)) == Decoder(Decoding(sent).result + [b], false)
  {
    if b == END || b == ESC {
      var code := if b == END then ESC_END else ESC_ESC;
      DecodingSnoc(sent, ESC);
      DecodingSnoc(sent + [ESC], code);
      assert sent + Escape(b) == sent + [ESC] + [code];
    } else {
      DecodingSnoc(sent, b);
    }
  }

  /** Decoding an encoding gives back every byte string. */
  lemma {:induction false} DecodeEncode(data: seq<Byte>)
    ensures Decoding(Encode(data)).result == data
  {
    DecodePrefix(data);
    DecodingSnoc([END] + EscapeAll(data), END);
  }

  /** END delimits: it occurs in an encoding as its first and its last byte and nowhere else. */
  lemma {:induction false} EndOnlyDelimits(data: seq<Byte>, i: nat)
    requires i < |Encode(data)|
    ensures Encode(data)[i] == END <==> i == 0 || i == |Encode(data)| - 1
  {
    NoEndInside(data);
    if 0 < i < |Encode(data)| - 1 {
      assert Encode(data)[i] == EscapeAll(data)[i - 1];
      assert EscapeAll(data)[i - 1] in EscapeAll(data);
    }
  }

  lemma {:induction false} NoEndInside(data: seq<Byte>)
    ensures END !in EscapeAll(data)
    decreases |data|
  {
    if data != [] {
      NoEndInside(data[..|data| - 1]);
    }
  }

  // ----- command packets

  function Packet(opcode: int, payload: seq<Byte>, checksum: int): seq<Byte> {
    [0, opcode % 256, |payload| % 256, |payload| / 256 % 256] + Le32(checksum) + payload
  }

  method FormatCommandPacket(opcode: int, payload: seq<Byte>, checksum: int) returns (packet: seq<Byte>)
    ensures packet == Encode(Packet(opcode, payload, checksum))
  {
    hide Encode, Le32;
    var bytes := new Byte[8 + |payload|](i => 0);
    CopyInto(bytes, 0, [0, opcode % 256, |payload| % 256, |payload| / 256 % 256]);
    CopyInto(bytes, 4, Le32(checksum));
    CopyInto(bytes, 8, payload);
    assert bytes[..] == Packet(opcode, payload, checksum);
    packet := SlipEncode(bytes[..]);
  }

  /** The receiver gets back the opcode modulo 256, the length modulo 65536, the 32 low bits of the checksum, and the
      payload itself. */
  lemma {:induction false} PacketRoundTrip(opcode: int, payload: seq<Byte>, checksum: int)
    ensures var d := Decoding(Encode(Packet(opcode, payload, checksum))).result;
            && |d| == 8 + |payload| && d[0] == 0 && d[1] == opcode % 256
            && d[2] as int + 256 * d[3] as int == |payload| % 65536
            && d[4] as int + 256 * d[5] as int + 65536 * d[6] as int + 16777216 * d[7] as int
               == checksum % 0x1_0000_0000
            && d[8..] == payload
  {
    DecodeEncode(Packet(opcode, payload, checksum));
    Le32RoundTrip(checksum);
    LengthRoundTrip(|payload|);
    hide Decoding, Encode, Le32;
    var d := Packet(opcode, payload, checksum);
    assert d[4] == Le32(checksum)[0] && d[5] == Le32(checksum)[1] && d[6] == Le32(checksum)[2]
      && d[7] == Le32(checksum)[3];
  }

  lemma {:induction false} LengthRoundTrip(n: nat)
    ensures U16(n / 256 % 256, n % 256) == n % 65536
  {
    assert n / 65536 == n / 256 / 256;
  }
}
