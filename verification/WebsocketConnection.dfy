/** WebsocketConnection (src/hpl_websocket_connection.cc) with HPL_ENABLE_PING_PONG, as built:
    reading one frame, reassembling fragmented messages, answering pings. */
module WebsocketConnection {
  import opened Octets
  import Connection
  import opened WebsocketUtils

  /** A call of on_data_. */
  datatype Delivery = Delivery(opcode: byte, payload: seq<byte>)

  /** last_payload_, the calls of on_data_ and the bytes written to the socket so far. */
  datatype Session = Session(pending: seq<byte>, delivered: seq<Delivery>, out: seq<byte>)

  const NEW_SESSION := Session([], [], [])

  /** What Write sends, for a payload whose length the header can express. */
  function ServerFrame(frameType: byte, payload: seq<byte>): seq<byte> {
    HeaderBytes(|payload|, frameType, 0) + payload
  }

  /** The session behind one Read of a frame; the handler's answer does not touch it. */
  function Receive(s: Session, f: Frame): Session {
    var all := s.pending + f.payload;
    if f.opcode == TYPE_CLOSE then s.(pending := all)
    else if f.opcode == TYPE_PING then s.(pending := [], out := s.out + ServerFrame(TYPE_PONG, f.payload))
    else if f.opcode == TYPE_PONG then s.(pending := [])
    else if f.fin then s.(pending := [], delivered := s.delivered + [Delivery(f.opcode, all)])
    else s.(pending := all)
  }

  /** s with the elements from `at` on replaced by those of t. */
  function Replaced(s: seq<byte>, at: nat, t: seq<byte>): seq<byte>
    requires at + |t| <= |s|
  {
    s[..at] + t + s[at + |t|..]
  }

  class WebsocketConnection {
    var lastPayload: seq<byte>
    var delivered: seq<Delivery>
    var out: seq<byte>

    function Abs(): Session
      reads this
    {
      Session(lastPayload, delivered, out)
    }

    constructor ()
      ensures Abs() == NEW_SESSION
    {
      lastPayload, delivered, out := [], [], [];
    }

    method Write(frameType: byte, data: seq<byte>)
      modifies `out
      ensures |data| < 0xffff ==> out == old(out) + ServerFrame(frameType, data)
      ensures exists stale :: out == old(out) + (HeaderBytes(|data|, frameType, stale) + data)
    {
      var header, size := MakeWebsocketHeader(|data|, frameType);
      out := out + header[..size];
      out := out + data;
      ghost var stale := header[5];
      assert out == old(out) + (HeaderBytes(|data|, frameType, stale) + data);
    }

    /** The XOR loop over the payload, in place. */
    static method Unmask(buf: array<byte>, offset: nat, len: nat, key: seq<byte>)
      requires |key| == 4 && offset + len <= buf.Length
      modifies buf
      ensures buf[..] == Replaced(old(buf[..]), offset, Mask(old(buf[..])[offset..offset + len], key))
    {
      var i := 0;
      while i < len
        invariant 0 <= i <= len
        invariant forall k | 0 <= k < buf.Length && !(offset <= k < offset + i) :: buf[k] == old(buf[k])
        invariant forall k | 0 <= k < i :: buf[offset + k] == old(buf[offset + k]) ^ key[k % 4]
      {
        buf[offset + i] := buf[offset + i] ^ key[i % 4];
        i := i + 1;
      }
      assert forall k | offset <= k < offset + len :: buf[k] == old(buf[k]) ^ key[(k - offset) % 4] by {
        forall k | offset <= k < offset + len ensures buf[k] == old(buf[k]) ^ key[(k - offset) % 4] {
          assert buf[offset + (k - offset)] == buf[k];
        }
      }
    }

    /** Offset and length of the payload, step by step. */
    static method Locate(buf: array<byte>) returns (offset: nat, len: nat)
      requires Complete(buf[..])
      ensures offset == KeyOffset(buf[..]) && len == PayloadLength(buf[..])
    {
      ghost var s := buf[..];
      offset := 2;
      var prefix := buf[1] & 0x7f;
      len := prefix as nat;
      if prefix == 126 {
        len := BigEndian16(buf[2..4]);
        assert buf[2..4] == s[2..4];
        offset := 4;
      } else if prefix == 127 {
        var l := BigEndian32(buf[2..6]);
        var h := BigEndian32(buf[6..10]);
        assert buf[2..6] == s[2..6] && buf[6..10] == s[6..10];
        len := h * 0x1_0000_0000 + l;
        offset := 10;
      }
    }

    /** Decodes the frame in buf, unmasking its payload where it stands. */
    static method DecodeInPlace(buf: array<byte>) returns (f: Frame)
      requires Complete(buf[..])
      modifies buf
      ensures f == Decode(old(buf[..])) && PayloadOffset(old(buf[..])) + |f.payload| <= buf.Length
      ensures buf[..] == Replaced(old(buf[..]), PayloadOffset(old(buf[..])), f.payload)
    {
      ghost var was := buf[..];
      var fin, opcode := buf[0] & 0x80 != 0, buf[0] & 0x0f;
      var offset, len := Locate(buf);
      if buf[1] & 0x80 != 0 {
        var key := buf[offset..offset + 4];
        offset := offset + 4;
        KeySlice(buf, was, offset);
        Unmask(buf, offset, len, key);
        ReplacedSlice(was, offset, Mask(was[offset..offset + len], key));
      } else {
        ReplacedSame(was, offset, len);
      }
      PayloadOf(was, offset, len);
      f := Frame(fin, opcode, buf[offset..offset + len]);
      assert f.payload == buf[..][offset..offset + len];
    }

    static lemma PayloadOf(was: seq<byte>, at: nat, n: nat)
      requires Complete(was) && at == PayloadOffset(was) && n == PayloadLength(was)
      ensures Decode(was).payload == if IsMasked(was) then Mask(was[at..at + n], was[at - 4..at]) else was[at..at + n]
    {
    }

    static lemma KeySlice(buf: array<byte>, was: seq<byte>, offset: nat)
      requires buf[..] == was && 4 <= offset <= buf.Length
      ensures buf[offset - 4..offset] == was[offset - 4..offset]
    {
    }

    static lemma ReplacedSlice(s: seq<byte>, at: nat, t: seq<byte>)
      requires at + |t| <= |s|
      ensures Replaced(s, at, t)[at..at + |t|] == t && |Replaced(s, at, t)| == |s|
    {
    }

    static lemma ReplacedSame(s: seq<byte>, at: nat, n: nat)
      requires at + n <= |s|
      ensures Replaced(s, at, s[at..at + n]) == s
    {
    }

    /** Read, behind the system call: buf is what was read and holds one whole frame;
        onData is what the handler answers if it is called. */
    method Read(buf: array<byte>, onData: int) returns (ret: int)
      requires Complete(buf[..]) && buf.Length <= Connection.SMALL_MEMORY
      modifies this, buf
      ensures var f := Decode(old(buf[..]));
              && Abs() == Receive(old(Abs()), f)
              && ret == (if f.opcode == 0x8 then -1
                         else if f.opcode == 0x9 || f.opcode == 0xa then 0
                         else if f.fin then onData else 1)
    {
      var f := DecodeInPlace(buf);
      lastPayload := lastPayload + f.payload;
      if f.opcode == TYPE_CLOSE {
        return -1;
      }
      if f.opcode == TYPE_PING {
        Write(TYPE_PONG, f.payload);
        lastPayload := [];
        return 0;
      } else if f.opcode == TYPE_PONG {
        lastPayload := [];
        return 0;
      }
      if f.fin {
        delivered := delivered + [Delivery(f.opcode, lastPayload)];
        lastPayload := [];
        return onData;
      } else {
        return 1;
      }
    }
  }
}
