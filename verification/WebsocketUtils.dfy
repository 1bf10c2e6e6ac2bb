/** Frame headers: MakeWebsocketHeader (src/hpl_websocket_utils.cc) and the header reader of
    WebsocketConnection::Read (src/hpl_websocket_connection.cc), for the frames of sections
    5.2 and 5.3 of RFC 6455. */
module WebsocketUtils {
  import opened Octets

  const TYPE_CLOSE: byte := 0x8
  const TYPE_PING: byte := 0x9
  const TYPE_PONG: byte := 0xa

  // ---------- the writer ----------

  /** The header of an unmasked final frame. From 0xffff on only the three top bytes of the
      length are written, and one more byte of the array goes out as it happens to be. */
  function HeaderBytes(length: nat, frameType: byte, stale: byte): (r: seq<byte>)
    ensures |r| == if length < 126 then 2 else if length < 0xffff then 4 else 6
  {
    if length < 126 then [0x80 | frameType, ByteOf(length)]
    else if length < 0xffff then [0x80 | frameType, 126, ByteOf(length / 0x100), ByteOf(length)]
    else [0x80 | frameType, 127, ByteOf(length / 0x100_0000_0000_0000), ByteOf(length / 0x1_0000_0000_0000),
          ByteOf(length / 0x100_0000_0000), stale]
  }

  method MakeWebsocketHeader(length: nat, frameType: byte) returns (header: array<byte>, size: nat)
    ensures fresh(header) && header.Length == 16 && size <= 16
    ensures header[..size] == HeaderBytes(length, frameType, header[5])
  {
    header := new byte[16];
    header[0] := 0x80 | frameType;
    if length < 126 {
      header[1] := ByteOf(length);
      size := 2;
    } else if length < 0xffff {
      header[1] := 126;
      header[2] := ByteOf(length / 0x100);
      header[3] := ByteOf(length);
      size := 4;
    } else {
      header[1] := 127;
      header[2] := ByteOf(length / 0x100_0000_0000_0000);
      header[3] := ByteOf(length / 0x1_0000_0000_0000);
      header[4] := ByteOf(length / 0x100_0000_0000);
      size := 6;
    }
  }

  // ---------- the reader ----------

  function BigEndian16(s: seq<byte>): nat
    requires |s| == 2
  {
    s[0] as nat * 0x100 + s[1] as nat
  }

  function BigEndian32(s: seq<byte>): nat
    requires |s| == 4
  {
    BigEndian16(s[..2]) * 0x1_0000 + BigEndian16(s[2..])
  }

  predicate IsMasked(buf: seq<byte>)
    requires |buf| >= 2
  {
    buf[1] & 0x80 != 0
  }

  function Prefix(buf: seq<byte>): byte
    requires |buf| >= 2
  {
    buf[1] & 0x7f
  }

  /** Where the masking key or, without one, the payload starts. */
  function KeyOffset(buf: seq<byte>): nat
    requires |buf| >= 2
  {
    if Prefix(buf) == 126 then 4 else if Prefix(buf) == 127 then 10 else 2
  }

  function PayloadOffset(buf: seq<byte>): nat
    requires |buf| >= 2
  {
    KeyOffset(buf) + if IsMasked(buf) then 4 else 0
  }

  /** The payload length as the reader computes it: the two halves of the 64-bit form are
      taken in the wrong order. */
  function PayloadLength(buf: seq<byte>): nat
    requires |buf| >= 2 && |buf| >= KeyOffset(buf)
  {
    if Prefix(buf) == 126 then BigEndian16(buf[2..4])
    else if Prefix(buf) == 127 then BigEndian32(buf[6..10]) * 0x1_0000_0000 + BigEndian32(buf[2..6])
    else Prefix(buf) as nat
  }

  /** The buffer holds everything the reader touches. */
  predicate Complete(buf: seq<byte>) {
    |buf| >= 2 && |buf| >= PayloadOffset(buf) && |buf| >= PayloadOffset(buf) + PayloadLength(buf)
  }

  function FrameSize(buf: seq<byte>): nat
    requires Complete(buf)
  {
    PayloadOffset(buf) + PayloadLength(buf)
  }

  /** Octet i of the text is XORed with octet i mod 4 of the key. */
  function Mask(text: seq<byte>, key: seq<byte>): (r: seq<byte>)
    requires |key| == 4
    ensures |r| == |text|
  {
    seq(|text|, i requires 0 <= i < |text| => text[i] ^ key[i % 4])
  }

  datatype Frame = Frame(fin: bool, opcode: byte, payload: seq<byte>)

  /** The frame at the start of the buffer. */
  function Decode(buf: seq<byte>): Frame
    requires Complete(buf)
  {
    var at := PayloadOffset(buf);
    var raw := buf[at..at + PayloadLength(buf)];
    Frame(buf[0] & 0x80 != 0, buf[0] & 0x0f,
          if IsMasked(buf) then Mask(raw, buf[at - 4..at]) else raw)
  }
}
