/** The VESC serial frame: a start byte (2 for a one-byte length, 3 for a
    two-byte big-endian length), the length, the payload, the big-endian
    CRC-16 of the payload, and the end byte 3. */
module Frame {
  import opened Bytes
  import opened Crc16
  import opened Serial

  const ShortFrame: byte := 2
  const LongFrame: byte := 3
  const EndByte: byte := 3

  /** The checksum bytes and end byte that close every frame. */
  function Trailer(payload: seq<byte>): (r: seq<byte>)
    ensures |r| == 3
  {
    UIntBytes(Checksum(payload), 2) + [EndByte]
  }

  /** The header with a one-byte length field. */
  function ShortHeader(payload: seq<byte>): seq<byte>
    requires |payload| < 256
  {
    [ShortFrame, |payload|]
  }

  /** The header with a two-byte length field; the length is kept modulo
      65536, as the source's `(length >> 8) & 0xFF, length & 0xFF` keeps it. */
  function LongHeader(payload: seq<byte>): seq<byte>
  {
    [LongFrame] + UIntBytes(|payload|, 2)
  }

  /** A frame with a one-byte length field. */
  function ShortForm(payload: seq<byte>): seq<byte>
    requires |payload| < 256
  {
    ShortHeader(payload) + payload + Trailer(payload)
  }

  /** A frame with a two-byte length field. */
  function LongForm(payload: seq<byte>): seq<byte>
  {
    LongHeader(payload) + payload + Trailer(payload)
  }

  /** The header the host sends: the short form below 256 payload bytes, the
      long form from 256 on. */
  function Header(payload: seq<byte>): (r: seq<byte>)
    ensures |r| == if |payload| < 256 then 2 else 3
  {
    if |payload| < 256 then ShortHeader(payload) else LongHeader(payload)
  }

  /** The frame the host sends for a payload. */
  function EncodeFrame(payload: seq<byte>): (r: seq<byte>)
    ensures |r| == |payload| + (if |payload| < 256 then 5 else 6)
  {
    Header(payload) + payload + Trailer(payload)
  }

  /** The source's `create_vesc_packet`: the frame assembled by appending to
      a buffer, with the checksum computed by the bit-loop routine. */
  method CreateVescPacket(payload: seq<byte>) returns (packet: seq<byte>)
    ensures packet == EncodeFrame(payload)
  {
    packet := [];
    var length := |payload|;
    if length < 256 {
      packet := packet + [ShortFrame];
      packet := packet + [length];
    } else {
      packet := packet + [LongFrame];
      packet := packet + [(length / 256) % 256];
      packet := packet + [length % 256];
      TwoBytes(length);
    }
    packet := packet + payload;
    var crc := ComputeCrc16(payload);
    packet := packet + [(crc / 256) % 256];
    packet := packet + [crc % 256];
    TwoBytes(crc);
    packet := packet + [EndByte];
  }

  /** The frame `build_packet` assembles around a payload: the length as one
      byte or packed as '>H' (struct.pack refuses lengths from 65536 on), then
      the checksum packed as '>H' and the end byte. */
  function PackedFrame(payload: seq<byte>): (r: seq<byte>)
    requires |payload| < 65536
    ensures r == EncodeFrame(payload)
  {
    var length := |payload|;
    var packet := if length < 256 then [ShortFrame, length] + payload
                  else [LongFrame] + UIntBytes(length, 2) + payload;
    packet + UIntBytes(Checksum(payload), 2) + [EndByte]
  }

  /** The source's `build_packet`: the frame of the one-byte payload [commandId]. */
  function BuildPacket(commandId: byte): (r: seq<byte>)
    ensures r == EncodeFrame([commandId])
  {
    PackedFrame([commandId])
  }

  /** The frame of the PARK_MODE command (200) is 02 01 C8 58 44 03. */
  lemma ParkModeFrame()
    ensures BuildPacket(200) == [0x02, 0x01, 0xC8, 0x58, 0x44, 0x03]
  {
    ParkModeVector();
    assert UIntBytes(0x5844, 2) == [0x58, 0x44] by { TwoBytes(0x5844); }
  }

  /** How reading a frame ends. ShortRead is the exception the source raises
      when the stream runs out inside the length, the payload or the checksum
      (an IndexError or a struct.error); a rejection is the source's None. */
  datatype FrameError = BadStart | BadEnd | BadCrc
  datatype ReadOutcome = Received(payload: seq<byte>) | Rejected(error: FrameError) | ShortRead

  /** A read outcome together with the number of stream bytes it consumed. */
  datatype Decoded = Decoded(outcome: ReadOutcome, consumed: nat)

  /** Length of the header that a start byte announces. */
  function HeaderLength(start: byte): nat
  {
    if start == ShortFrame then 2 else 3
  }

  /** What reading the rest of a frame does once its header announced n
      payload bytes: read n payload bytes (fewer when the stream ends), two
      checksum bytes and the end byte, then check the end byte and the
      checksum, in that order. `consumed` counts from the end of the header. */
  function DecodeBody(t: seq<byte>, n: nat): (r: Decoded)
    ensures r.consumed <= |t|
  {
    if |t| < n + 2 then Decoded(ShortRead, |t|)
    else if |t| == n + 2 || t[n + 2] != EndByte then Decoded(Rejected(BadEnd), Min(n + 3, |t|))
    else if Checksum(t[..n]) != UInt(t[n..n + 2]) then Decoded(Rejected(BadCrc), n + 3)
    else Decoded(Received(t[..n]), n + 3)
  }

  /** What the source's `read_packet` does to a stream: read the start byte
      and give up unless it is 2 or 3, read the length it announces, then
      read and check the body. */
  function DecodeFrame(s: seq<byte>): (r: Decoded)
    ensures r.consumed <= |s|
    ensures r.outcome == Rejected(BadStart) <==> |s| == 0 || (s[0] != ShortFrame && s[0] != LongFrame)
  {
    if |s| == 0 || (s[0] != ShortFrame && s[0] != LongFrame) then Decoded(Rejected(BadStart), Min(1, |s|))
    else
      var h := HeaderLength(s[0]);
      if |s| < h then Decoded(ShortRead, |s|)
      else
        var body := DecodeBody(s[h..], UInt(s[1..h]));
        Decoded(body.outcome, h + body.consumed)
  }

  /** The source's `read_packet` on the serial link: it consumes exactly what
      the frame decoder says and returns its outcome. */
  method ReadPacket(link: SerialLink) returns (outcome: ReadOutcome)
    modifies link
    ensures outcome == DecodeFrame(old(link.input)).outcome
    ensures link.input == old(link.input)[DecodeFrame(old(link.input)).consumed..]
    ensures link.written == old(link.written)
  {
    ghost var s := link.input;
    var start := link.Read(1);
    if start != [ShortFrame] && start != [LongFrame] {
      StartRejected(s, start);
      return Rejected(BadStart);
    }
    assert s[0] == start[0] && link.input == s[1..];
    var length: nat;
    var lengthBytes: seq<byte>;
    if start == [ShortFrame] {
      lengthBytes := link.Read(1);
      if |lengthBytes| < 1 {
        HeaderCut(s);
        return ShortRead;
      }
      length := lengthBytes[0];
      assert lengthBytes == [length];
      SingleByte(length);
    } else {
      lengthBytes := link.Read(2);
      if |lengthBytes| < 2 {
        HeaderCut(s);
        return ShortRead;
      }
      length := UInt(lengthBytes);
    }
    ghost var h := HeaderLength(s[0]);
    assert s[1..h] == lengthBytes && link.input == s[h..];
    HeaderSplit(s, lengthBytes);
    assert length == UInt(lengthBytes);
    ghost var body := DecodeBody(s[h..], length);
    outcome := ReadBody(link, length);
    DropDrop(s, h, body.consumed);
  }

  /** A stream that does not start with a start byte is rejected after one
      byte at most. */
  lemma StartRejected(s: seq<byte>, start: seq<byte>)
    requires start == s[..Min(1, |s|)] && start != [ShortFrame] && start != [LongFrame]
    ensures DecodeFrame(s) == Decoded(Rejected(BadStart), Min(1, |s|))
    ensures s[Min(1, |s|)..] == s[|start|..]
  {
    if |s| > 0 {
      assert start == [s[0]];
    }
  }

  /** A stream that ends inside the header makes the reader raise. */
  lemma HeaderCut(s: seq<byte>)
    requires |s| > 0 && (s[0] == ShortFrame || s[0] == LongFrame) && |s| < HeaderLength(s[0])
    ensures DecodeFrame(s) == Decoded(ShortRead, |s|)
  {
  }

  /** Dropping a bytes and then b bytes drops a + b bytes. */
  lemma DropDrop(s: seq<byte>, a: nat, b: nat)
    requires a + b <= |s|
    ensures s[a..][b..] == s[a + b..]
  {
  }

  /** The stream after a complete header is the body. */
  lemma HeaderSplit(s: seq<byte>, lengthBytes: seq<byte>)
    requires |s| > 0 && (s[0] == ShortFrame || s[0] == LongFrame)
    requires |s| >= HeaderLength(s[0]) && s[1..HeaderLength(s[0])] == lengthBytes
    ensures var h := HeaderLength(s[0]);
            DecodeFrame(s) == var b := DecodeBody(s[h..], UInt(lengthBytes)); Decoded(b.outcome, h + b.consumed)
  {
  }

  /** The part of `read_packet` after the length: payload, checksum, end byte
      and the two checks. */
  method ReadBody(link: SerialLink, length: nat) returns (outcome: ReadOutcome)
    modifies link
    ensures outcome == DecodeBody(old(link.input), length).outcome
    ensures link.input == old(link.input)[DecodeBody(old(link.input), length).consumed..]
    ensures link.written == old(link.written)
  {
    ghost var t := link.input;
    var payload := link.Read(length);
    var crcBytes := link.Read(2);
    if |crcBytes| < 2 {
      return ShortRead;
    }
    assert payload == t[..length] && crcBytes == t[length..length + 2];
    assert link.input == t[length + 2..];
    var crcReceived := UInt(crcBytes);
    var end := link.Read(1);
    if end != [EndByte] {
      return Rejected(BadEnd);
    }
    var crc := ComputeCrc16(payload);
    if crc != crcReceived {
      return Rejected(BadCrc);
    }
    return Received(payload);
  }

  /** The big-endian two-byte field of n, written out. */
  lemma TwoBytes(n: nat)
    ensures UIntBytes(n, 2) == [(n / 256) % 256, n % 256]
  {
    assert UIntBytes(n / 256 / 256, 0) == [];
  }

  lemma SingleByte(b: byte)
    ensures UInt([b]) == b
  {
    assert [b][..0] == [];
  }

  lemma TwoByteRange()
    ensures Pow256(2) == 65536
  {
  }

  /** Where the payload, checksum and end byte lie after the header. */
  lemma BodyFields(p: seq<byte>, rest: seq<byte>)
    ensures var t := p + Trailer(p) + rest;
            t[..|p|] == p && UInt(t[|p|..|p| + 2]) == Checksum(p) && t[|p| + 2] == EndByte
  {
    BodyChecksum(p, rest);
    BodyEnd(p, rest);
  }

  lemma BodyChecksum(p: seq<byte>, rest: seq<byte>)
    ensures UInt((p + Trailer(p) + rest)[|p|..|p| + 2]) == Checksum(p)
  {
    var t := p + Trailer(p) + rest;
    assert t[|p|..|p| + 2] == UIntBytes(Checksum(p), 2);
    TwoByteRange();
    UIntRoundTrip(Checksum(p), 2);
  }

  lemma BodyEnd(p: seq<byte>, rest: seq<byte>)
    ensures (p + Trailer(p) + rest)[|p| + 2] == EndByte
  {
    assert Trailer(p)[2] == EndByte;
  }

  /** The body of a frame, followed by anything, is read back whole. */
  lemma BodyRoundTrip(p: seq<byte>, rest: seq<byte>)
    ensures DecodeBody(p + Trailer(p) + rest, |p|) == Decoded(Received(p), |p| + 3)
  {
    BodyFields(p, rest);
  }

  /** After the header the host sends for p, whatever follows is read as the
      body of a frame of |p| payload bytes. */
  lemma HeaderRead(p: seq<byte>, t: seq<byte>)
    requires |p| < 65536
    ensures var b := DecodeBody(t, |p|);
            DecodeFrame(Header(p) + t) == Decoded(b.outcome, |Header(p)| + b.consumed)
  {
    var s := Header(p) + t;
    var h := |Header(p)|;
    assert s[h..] == t;
    if |p| < 256 {
      assert s[1..h] == [|p|];
      SingleByte(|p|);
    } else {
      assert s[1..h] == UIntBytes(|p|, 2);
      TwoByteRange();
      UIntRoundTrip(|p|, 2);
    }
  }

  /** Round trip: every frame the host can send, read back from the front of
      any stream, yields the payload and consumes exactly the frame. */
  lemma FrameRoundTrip(p: seq<byte>, rest: seq<byte>)
    requires |p| < 65536
    ensures DecodeFrame(EncodeFrame(p) + rest) == Decoded(Received(p), |EncodeFrame(p)|)
  {
    assert EncodeFrame(p) + rest == Header(p) + (p + Trailer(p) + rest);
    HeaderRead(p, p + Trailer(p) + rest);
    BodyRoundTrip(p, rest);
  }

  /** An accepted body is the payload followed by its trailer. */
  lemma AcceptedBody(t: seq<byte>, n: nat, p: seq<byte>)
    requires DecodeBody(t, n).outcome == Received(p)
    ensures |p| == n && DecodeBody(t, n).consumed == n + 3 && t[..n + 3] == p + Trailer(p)
  {
    UIntBytesOfUInt(t[n..n + 2]);
    assert t[..n + 3] == t[..n] + t[n..n + 2] + [t[n + 2]];
  }

  /** Soundness of the decoder: the bytes consumed for an accepted payload are
      exactly a short-form or long-form frame of that payload. */
  lemma AcceptedFrameIsWellFormed(s: seq<byte>, p: seq<byte>)
    requires DecodeFrame(s).outcome == Received(p)
    ensures s[0] == ShortFrame ==> |p| < 256 && s[..DecodeFrame(s).consumed] == ShortForm(p)
    ensures s[0] == LongFrame ==> |p| < 65536 && s[..DecodeFrame(s).consumed] == LongForm(p)
  {
    var h := HeaderLength(s[0]);
    var n := UInt(s[1..h]);
    AcceptedBody(s[h..], n, p);
    var t := s[..h + n + 3];
    assert t[h..] == p + Trailer(p);
    TwoByteRange();
    if s[0] == ShortFrame {
      assert s[1..2] == [s[1]];
      SingleByte(s[1]);
      assert t == [ShortFrame, n] + t[h..];
    } else {
      UIntBytesOfUInt(s[1..3]);
      assert t == [LongFrame] + s[1..3] + t[h..];
    }
  }

  /** A frame whose two checksum bytes are replaced by different ones is
      rejected for its checksum. */
  lemma CrcCorruptionRejected(p: seq<byte>, crc: seq<byte>, rest: seq<byte>)
    requires |p| < 65536 && |crc| == 2 && crc != UIntBytes(Checksum(p), 2)
    ensures DecodeFrame(Header(p) + p + crc + [EndByte] + rest).outcome == Rejected(BadCrc)
  {
    var t := p + crc + [EndByte] + rest;
    assert Header(p) + p + crc + [EndByte] + rest == Header(p) + t;
    HeaderRead(p, t);
    assert t[..|p|] == p && t[|p|..|p| + 2] == crc && t[|p| + 2] == EndByte;
    UIntBytesOfUInt(crc);
  }

  /** A frame whose end byte is replaced is rejected, and so is a frame cut
      off just before its end byte. */
  lemma EndCorruptionRejected(p: seq<byte>, e: byte, rest: seq<byte>)
    requires |p| < 65536 && e != EndByte
    ensures var crc := UIntBytes(Checksum(p), 2);
            DecodeFrame(Header(p) + p + crc + [e] + rest).outcome == Rejected(BadEnd) &&
            DecodeFrame(Header(p) + p + crc).outcome == Rejected(BadEnd)
  {
    var crc := UIntBytes(Checksum(p), 2);
    var t := p + crc + [e] + rest;
    assert Header(p) + p + crc + [e] + rest == Header(p) + t;
    HeaderRead(p, t);
    assert t[|p| + 2] == e;
    assert Header(p) + p + crc == Header(p) + (p + crc);
    HeaderRead(p, p + crc);
  }

  /** Changing any one payload byte of a frame, and leaving its checksum as
      sent, gets the frame rejected for its checksum. */
  lemma PayloadCorruptionRejected(p: seq<byte>, k: nat, v: byte, rest: seq<byte>)
    requires |p| < 65536 && k < |p| && v != p[k]
    ensures DecodeFrame(Header(p) + p[k := v] + Trailer(p) + rest).outcome == Rejected(BadCrc)
  {
    var q := p[k := v];
    var t := q + Trailer(p) + rest;
    assert Header(p) + q + Trailer(p) + rest == Header(p) + t;
    HeaderRead(p, t);
    assert t[..|p|] == q && t[|p|..|p| + 2] == UIntBytes(Checksum(p), 2) && t[|p| + 2] == EndByte;
    TwoByteRange();
    UIntRoundTrip(Checksum(p), 2);
    ByteChangeDetected(p, k, v);
  }

  /** A stream that ends inside the length field, the payload or the checksum
      of a frame makes the reader raise. */
  lemma TruncatedFrameRaises(p: seq<byte>, k: nat)
    requires |p| < 65536
    requires 1 <= k < |EncodeFrame(p)| - 1
    ensures DecodeFrame(EncodeFrame(p)[..k]).outcome == ShortRead
  {
    var f := EncodeFrame(p);
    var h := |Header(p)|;
    if k >= h {
      var t := (p + Trailer(p))[..k - h];
      assert f[..k] == Header(p) + t;
      HeaderRead(p, t);
    }
  }
}
