/** Frames survive the wire, and fragmented messages are put together again. */
module WebsocketLaws {
  import opened Octets
  import opened Sequences
  import opened Wrappers
  import opened WebsocketUtils

  // ---------- bytes ----------

  lemma Split16(n: nat)
    requires n < 0x1_0000
    ensures BigEndian16([ByteOf(n / 0x100), ByteOf(n)]) == n
  {
    ByteRoundTrip(n / 0x100);
    ByteRoundTrip(n);
  }

  lemma FirstByte(t: byte)
    requires t < 16
    ensures (0x80 | t) & 0x0f == t && (0x80 | t) & 0x80 != 0
    ensures t & 0x0f == t && t & 0x80 == 0
  {
  }

  lemma SmallByte(b: byte)
    requires b < 128
    ensures b & 0x7f == b && b & 0x80 == 0 && (0x80 | b) & 0x7f == b && (0x80 | b) & 0x80 != 0
  {
  }

  lemma SmallLength(n: nat)
    requires n < 128
    ensures ByteOf(n) < 128 && ByteOf(n) as nat == n
  {
    ByteRoundTrip(n);
  }

  lemma FormBytes()
    ensures (126 as byte) & 0x7f == 126 && (126 as byte) & 0x80 == 0
    ensures (127 as byte) & 0x7f == 127 && (127 as byte) & 0x80 == 0
    ensures (0x80 | 126 as byte) & 0x7f == 126 && (0x80 | 126 as byte) & 0x80 != 0
    ensures (0x80 | 127 as byte) & 0x7f == 127 && (0x80 | 127 as byte) & 0x80 != 0
  {
  }

  lemma MaskTwice(text: seq<byte>, key: seq<byte>)
    requires |key| == 4
    ensures Mask(Mask(text, key), key) == text
  {
    forall i | 0 <= i < |text| ensures (text[i] ^ key[i % 4]) ^ key[i % 4] == text[i] {
      XorTwice(text[i], key[i % 4]);
    }
  }

  lemma XorTwice(a: byte, b: byte)
    ensures (a ^ b) ^ b == a
  {
  }

  // ---------- frames the server sends ----------

  /** The server's frame, with whatever the header array held before. */
  function Wire(t: byte, payload: seq<byte>, stale: byte): seq<byte> {
    HeaderBytes(|payload|, t, stale) + payload
  }

  /** A frame whose header takes k octets and whose unmasked payload is the rest. */
  lemma DecodeUnmasked(w: seq<byte>, k: nat, payload: seq<byte>)
    requires |w| >= 2 && !IsMasked(w) && KeyOffset(w) == k && |w| == k + |payload|
    requires PayloadLength(w) == |payload| && w[k..] == payload
    ensures Complete(w) && FrameSize(w) == |w|
    ensures Decode(w) == Frame(w[0] & 0x80 != 0, w[0] & 0x0f, payload)
  {
    assert w[k..k + |payload|] == payload;
  }

  lemma DecodeWire(t: byte, payload: seq<byte>, stale: byte)
    requires t < 16 && |payload| < 0xffff
    ensures var w := Wire(t, payload, stale);
            Complete(w) && FrameSize(w) == |w| && Decode(w) == Frame(true, t, payload)
  {
    var n := |payload|;
    var h := HeaderBytes(n, t, stale);
    var w := Wire(t, payload, stale);
    FirstByte(t);
    HeaderReads(t, n, stale, payload);
    assert w[|h|..] == payload;
    DecodeUnmasked(w, |h|, payload);
  }

  lemma HeaderReads(t: byte, n: nat, stale: byte, payload: seq<byte>)
    requires n < 0xffff
    ensures var h := HeaderBytes(n, t, stale); var w := h + payload;
            && !IsMasked(w) && KeyOffset(w) == |h| && PayloadLength(w) == n && w[0] == 0x80 | t
  {
    var h := HeaderBytes(n, t, stale);
    var w := h + payload;
    assert w[0] == h[0] && w[1] == h[1];
    if n < 126 {
      SmallLength(n);
      SmallByte(ByteOf(n));
      SmallForm(n);
    } else {
      FormBytes();
      Split16(n);
      assert w[2..4] == [ByteOf(n / 0x100), ByteOf(n)];
    }
  }

  lemma SmallForm(n: nat)
    requires n < 126
    ensures ByteOf(n) != 126 && ByteOf(n) != 127
  {
    SmallLength(n);
  }

  /** The long form cannot decode to the payload: its first four octets are taken for half of
      the length, so what is read, if it can be read at all, is shorter. */
  lemma LongWireDiffers(t: byte, payload: seq<byte>, stale: byte)
    requires t < 16 && |payload| >= 0xffff
    ensures var w := Wire(t, payload, stale); Complete(w) ==> |Decode(w).payload| < |payload|
  {
    var w := Wire(t, payload, stale);
    FormBytes();
    assert w[1] == 127;
    assert |w| == 6 + |payload|;
  }

  /** Writing and reading a server frame gives back type, fin and payload exactly for payloads
      below 65535 octets; that is one short of what the 16-bit form could carry. */
  lemma ServerFrameRoundTripIff(t: byte, payload: seq<byte>, stale: byte)
    requires t < 16
    ensures var w := Wire(t, payload, stale);
            (Complete(w) && Decode(w) == Frame(true, t, payload)) <==> |payload| < 0xffff
  {
    if |payload| < 0xffff { DecodeWire(t, payload, stale); } else { LongWireDiffers(t, payload, stale); }
  }

  /** h is an unmasked header of just the octets its form takes, and is read as length n. */
  predicate HeaderFor(h: seq<byte>, n: nat) {
    |h| >= 2 && !IsMasked(h) && |h| == KeyOffset(h) && PayloadLength(h) == n
  }

  /** The header the server writes is read as the length, and is as short as any header that
      is, exactly for lengths below 65535: at 65535 the 16-bit form, which could still carry
      it, is not used. */
  lemma ShortestFormIff(t: byte, n: nat, stale: byte)
    ensures var h := HeaderBytes(n, t, stale);
            HeaderFor(h, n) && (forall g | HeaderFor(g, n) :: |h| <= |g|) <==> n < 0xffff
    ensures n == 0xffff ==> HeaderFor([0x80 | t, 126, 0xff, 0xff], n)
  {
    var h := HeaderBytes(n, t, stale);
    FormBytes();
    if n < 0xffff {
      HeaderReads(t, n, stale, []);
      assert h + [] == h;
    } else {
      assert KeyOffset(h) == 10;
    }
  }

  lemma SliceInFront(w: seq<byte>, more: seq<byte>, a: nat, b: nat)
    requires a <= b <= |w|
    ensures (w + more)[a..b] == w[a..b]
  {
  }

  lemma HeaderPrefix(w: seq<byte>, more: seq<byte>)
    requires |w| >= 2 && |w| >= PayloadOffset(w)
    ensures var s := w + more;
            && s[0] == w[0] && s[1] == w[1]
            && KeyOffset(s) == KeyOffset(w) && PayloadOffset(s) == PayloadOffset(w) && PayloadLength(s) == PayloadLength(w)
  {
    if Prefix(w) == 126 { SliceInFront(w, more, 2, 4); }
    if Prefix(w) == 127 { SliceInFront(w, more, 2, 6); SliceInFront(w, more, 6, 10); }
  }

  /** Frames with the same header and the same octets behind it decode alike. */
  lemma DecodeAlike(s: seq<byte>, w: seq<byte>)
    requires Complete(s) && Complete(w) && s[0] == w[0] && s[1] == w[1]
    requires PayloadOffset(s) == PayloadOffset(w) && PayloadLength(s) == PayloadLength(w)
    requires var at, n := PayloadOffset(w), PayloadLength(w);
             s[at..at + n] == w[at..at + n] && (IsMasked(w) ==> s[at - 4..at] == w[at - 4..at])
    ensures Decode(s) == Decode(w)
  {
  }

  /** Octets behind a frame do not change what is read. */
  lemma DecodePrefix(w: seq<byte>, more: seq<byte>)
    requires Complete(w)
    ensures Complete(w + more) && FrameSize(w + more) == FrameSize(w) && Decode(w + more) == Decode(w)
  {
    HeaderPrefix(w, more);
    var at, n := PayloadOffset(w), PayloadLength(w);
    SliceInFront(w, more, at, at + n);
    if IsMasked(w) { SliceInFront(w, more, at - 4, at); }
    DecodeAlike(w + more, w);
  }

  /** The frames of a stream, one after the other. */
  function DecodeAll(s: seq<byte>): Option<seq<Frame>>
    decreases |s|
  {
    if s == [] then Some([])
    else if !Complete(s) then None
    else match DecodeAll(s[FrameSize(s)..])
      case None => None
      case Some(fs) => Some([Decode(s)] + fs)
  }

  lemma DecodeStep(s: seq<byte>, fs: seq<Frame>)
    requires s != [] && Complete(s) && DecodeAll(s[FrameSize(s)..]) == Some(fs)
    ensures DecodeAll(s) == Some([Decode(s)] + fs)
  {
  }

  lemma DecodeOne(w: seq<byte>)
    requires Complete(w) && FrameSize(w) == |w|
    ensures DecodeAll(w) == Some([Decode(w)])
  {
    assert w[|w|..] == [];
    DecodeStep(w, []);
    assert [Decode(w)] + [] == [Decode(w)];
  }

  lemma {:induction false} DecodeOneMore(s: seq<byte>, fs: seq<Frame>, w: seq<byte>)
    requires DecodeAll(s) == Some(fs) && Complete(w) && FrameSize(w) == |w|
    ensures DecodeAll(s + w) == Some(fs + [Decode(w)])
    decreases |s|
  {
    if s == [] {
      assert s + w == w && fs + [Decode(w)] == [Decode(w)];
      DecodeOne(w);
    } else {
      var k := FrameSize(s);
      var rest := DecodeAll(s[k..]).value;
      DecodePrefix(s, w);
      SuffixFirst(s, k, w);
      DecodeOneMore(s[k..], rest, w);
      DecodeStep(s + w, rest + [Decode(w)]);
      Assoc([Decode(s)], rest, [Decode(w)]);
    }
  }

  lemma SuffixFirst(s: seq<byte>, k: nat, w: seq<byte>)
    requires k <= |s|
    ensures (s + w)[k..] == s[k..] + w
  {
  }

  /** Of a long header the first five octets are those of section 5.2; the other five of the
      length are not written, but one octet of the array is. */
  lemma LongHeaderIsCut(t: byte, n: nat, stale: byte)
    requires 0xffff <= n
    ensures HeaderBytes(n, t, stale) == [0x80 | t, 127] + BytesOf32(n / 0x1_0000_0000)[..3] + [stale]
  {
  }

  /** The key is used octet by octet, over and over: masking by rotating it. */
  function Rotating(text: seq<byte>, key: seq<byte>): seq<byte>
    requires |key| == 4
  {
    if text == [] then [] else [text[0] ^ key[0]] + Rotating(text[1..], [key[1], key[2], key[3], key[0]])
  }

  lemma NextOfKey(key: seq<byte>, i: nat)
    requires |key| == 4
    ensures [key[1], key[2], key[3], key[0]][i % 4] == key[(i + 1) % 4]
  {
  }

  lemma MaskCons(text: seq<byte>, key: seq<byte>)
    requires |key| == 4 && text != []
    ensures Mask(text, key) == [text[0] ^ key[0]] + Mask(text[1..], [key[1], key[2], key[3], key[0]])
  {
    var m := Mask(text[1..], [key[1], key[2], key[3], key[0]]);
    forall i | 0 <= i < |m| ensures m[i] == Mask(text, key)[i + 1] { NextOfKey(key, i); }
  }

  lemma {:induction false} MaskRotates(text: seq<byte>, key: seq<byte>)
    requires |key| == 4
    ensures Mask(text, key) == Rotating(text, key)
  {
    if text != [] {
      MaskCons(text, key);
      MaskRotates(text[1..], [key[1], key[2], key[3], key[0]]);
    }
  }

  const HELLO: seq<byte> := [0x48, 0x65, 0x6c, 0x6c, 0x6f]
  const HELLO_KEY: seq<byte> := [0x37, 0xfa, 0x21, 0x3d]
  const HELLO_MASKED: seq<byte> := [0x7f, 0x9f, 0x4d, 0x51, 0x58]

  lemma HelloMask()
    ensures Mask(HELLO_MASKED, HELLO_KEY) == HELLO
  {
    assert 0x7f ^ 0x37 == 0x48 as byte && 0x9f ^ 0xfa == 0x65 as byte && 0x4d ^ 0x21 == 0x6c as byte;
    assert 0x51 ^ 0x3d == 0x6c as byte && 0x58 ^ 0x37 == 0x6f as byte;
  }

  lemma FirstOctets(a: byte, b: byte)
    requires a == 0x81 && b == 0x85
    ensures a & 0x80 != 0 && a & 0x0f == 1 && b & 0x80 != 0 && b & 0x7f == 5
  {
  }

  /** The single-frame examples of section 5.7: "Hello", unmasked and masked. */
  lemma HelloUnmasked()
    ensures HeaderBytes(5, 0x1, 0) + HELLO == [0x81, 0x05] + HELLO
  {
    ByteRoundTrip(5);
  }

  lemma HelloFromClient()
    ensures var w := [0x81, 0x85] + (HELLO_KEY + HELLO_MASKED); Complete(w) && Decode(w) == Frame(true, 0x1, HELLO)
  {
    var w: seq<byte> := [0x81, 0x85] + (HELLO_KEY + HELLO_MASKED);
    FirstOctets(w[0], w[1]);
    assert w[2..6] == HELLO_KEY && w[6..11] == HELLO_MASKED;
    HelloMask();
  }

  // ---------- frames a client sends ----------

  function BytesOf32(n: nat): seq<byte> {
    [ByteOf(n / 0x100_0000), ByteOf(n / 0x1_0000), ByteOf(n / 0x100), ByteOf(n)]
  }

  /** The length field of section 5.2: 7 bits, 7+16 bits or 7+64 bits, in network order. */
  function LengthField(n: nat): seq<byte> {
    if n < 126 then [0x80 | ByteOf(n)]
    else if n < 0x1_0000 then [0x80 | 126, ByteOf(n / 0x100), ByteOf(n)]
    else [0x80 | 127] + BytesOf32(n / 0x1_0000_0000) + BytesOf32(n % 0x1_0000_0000)
  }

  /** A masked frame as section 5.2 lays it out. */
  function ClientFrame(f: Frame, key: seq<byte>): seq<byte>
    requires |key| == 4
  {
    [if f.fin then 0x80 | f.opcode else f.opcode] + LengthField(|f.payload|) + key + Mask(f.payload, key)
  }

  /** The four octets as two halves. */
  lemma Halves32(n: nat)
    ensures var s := BytesOf32(n); var hi, lo := n / 0x1_0000, n % 0x1_0000;
            && s[..2] == [ByteOf(hi / 0x100), ByteOf(hi)] && s[2..] == [ByteOf(lo / 0x100), ByteOf(lo)]
  {
    HighBytes(n);
    LowBytes(n);
  }

  lemma HighBytes(n: nat)
    ensures n / 0x100_0000 == n / 0x1_0000 / 0x100
  {
    var q, r := n / 0x100_0000, n % 0x100_0000;
    assert n == 0x100_0000 * q + r;
    assert n / 0x1_0000 == 0x100 * q + r / 0x1_0000;
  }

  lemma Join32(n: nat)
    requires n < 0x1_0000_0000
    ensures BigEndian32(BytesOf32(n)) == n
  {
    Halves32(n);
    Split16(n / 0x1_0000);
    Split16(n % 0x1_0000);
  }

  lemma LowBytes(n: nat)
    ensures (n / 0x100) % 256 == ((n % 0x1_0000) / 0x100) % 256
    ensures n % 256 == (n % 0x1_0000) % 256
  {
    var q, r := n / 0x1_0000, n % 0x1_0000;
    assert n == 0x1_0000 * q + r;
    assert n / 0x100 == 0x100 * q + r / 0x100;
  }

  lemma KeySlices(w: seq<byte>, k: nat, key: seq<byte>, text: seq<byte>)
    requires k <= |w| && |key| == 4 && w[k..] == key + text
    ensures |w| == k + 4 + |text| && w[k..k + 4] == key && w[k + 4..k + 4 + |text|] == text
  {
    assert w == w[..k] + (key + text);
  }

  /** The bytes of a frame with a masked payload. */
  lemma DecodeMasked(w: seq<byte>, k: nat, key: seq<byte>, payload: seq<byte>)
    requires |w| >= 2 && IsMasked(w) && KeyOffset(w) == k && |key| == 4 && |w| == k + 4 + |payload|
    requires PayloadLength(w) == |payload| && w[k..] == key + Mask(payload, key)
    ensures Complete(w) && FrameSize(w) == |w|
    ensures Decode(w) == Frame(w[0] & 0x80 != 0, w[0] & 0x0f, payload)
  {
    KeySlices(w, k, key, Mask(payload, key));
    assert PayloadOffset(w) == k + 4 && w[k + 4 - 4..k + 4] == key;
    MaskTwice(payload, key);
  }

  /** The length a client's 64-bit field is read as: its halves swapped. */
  function Swapped(n: nat): nat {
    n % 0x1_0000_0000 * 0x1_0000_0000 + n / 0x1_0000_0000
  }

  /** The reader finds its way through the length field of a masked frame. */
  predicate Reads(w: seq<byte>, first: byte, rest: seq<byte>, length: nat) {
    && |w| >= 2 && IsMasked(w) && w[0] == first
    && |w| >= KeyOffset(w) && w[KeyOffset(w)..] == rest && PayloadLength(w) == length
  }

  lemma ShortFieldReads(n: nat, first: byte, rest: seq<byte>)
    requires n < 126
    ensures Reads([first] + LengthField(n) + rest, first, rest, n)
  {
    SmallLength(n);
    SmallByte(ByteOf(n));
    SmallForm(n);
  }

  lemma MediumFieldReads(n: nat, first: byte, rest: seq<byte>)
    requires 126 <= n < 0x1_0000
    ensures Reads([first] + LengthField(n) + rest, first, rest, n)
  {
    var w := [first] + LengthField(n) + rest;
    FormBytes();
    Split16(n);
    assert w[2..4] == [ByteOf(n / 0x100), ByteOf(n)];
  }

  lemma LongFieldReads(n: nat, first: byte, rest: seq<byte>)
    requires 0x1_0000 <= n < 0x8000_0000_0000_0000
    ensures Reads([first] + LengthField(n) + rest, first, rest, Swapped(n))
  {
    var hi, lo := n / 0x1_0000_0000, n % 0x1_0000_0000;
    FormBytes();
    Join32(hi);
    Join32(lo);
    LongSlices(first, BytesOf32(hi), BytesOf32(lo), rest);
  }

  lemma LongSlices(first: byte, high: seq<byte>, low: seq<byte>, rest: seq<byte>)
    requires |high| == |low| == 4
    ensures var w := [first] + ([0x80 | 127] + high + low) + rest;
            w[0] == first && w[1] == 0x80 | 127 && w[2..6] == high && w[6..10] == low && w[10..] == rest
  {
  }

  function LengthAsRead(n: nat): nat { if n < 0x1_0000 then n else Swapped(n) }

  lemma LengthFieldReads(n: nat, first: byte, rest: seq<byte>)
    requires n < 0x8000_0000_0000_0000
    ensures Reads([first] + LengthField(n) + rest, first, rest, LengthAsRead(n))
  {
    if n < 126 { ShortFieldReads(n, first, rest); }
    else if n < 0x1_0000 { MediumFieldReads(n, first, rest); }
    else { LongFieldReads(n, first, rest); }
  }

  /** Such a frame decodes to its payload exactly if its length was read right. */
  lemma MaskedReads(w: seq<byte>, first: byte, key: seq<byte>, payload: seq<byte>, length: nat)
    requires |key| == 4 && Reads(w, first, key + Mask(payload, key), length)
    ensures (Complete(w) && Decode(w) == Frame(first & 0x80 != 0, first & 0x0f, payload)) <==> length == |payload|
  {
    assert w == w[..KeyOffset(w)] + (key + Mask(payload, key));
    if length == |payload| {
      DecodeMasked(w, KeyOffset(w), key, payload);
    } else if Complete(w) {
      assert |Decode(w).payload| == length;
    }
  }

  /** For any key, a frame masked as section 5.3 prescribes is read back exactly when its
      length fits the 16-bit form, or survives the swap of the two halves of the long form. */
  lemma ClientFrameRoundTripIff(f: Frame, key: seq<byte>)
    requires |key| == 4 && f.opcode < 16 && |f.payload| < 0x8000_0000_0000_0000
    ensures var w := ClientFrame(f, key); var n := |f.payload|;
            (Complete(w) && Decode(w) == f) <==> (n < 0x1_0000 || Swapped(n) == n)
  {
    var n := |f.payload|;
    var first := if f.fin then 0x80 | f.opcode else f.opcode;
    var rest := key + Mask(f.payload, key);
    Assoc([first] + LengthField(n), key, Mask(f.payload, key));
    FirstByte(f.opcode);
    LengthFieldReads(n, first, rest);
    MaskedReads([first] + LengthField(n) + rest, first, key, f.payload, LengthAsRead(n));
  }

  /** One Read of the built server takes a client's frame whole, and reads it back, exactly up to
      1016 octets of payload: header and key take eight of the 1024. */
  lemma FrameInOneReadIff(f: Frame, key: seq<byte>)
    requires |key| == 4 && f.opcode < 16 && |f.payload| < 0x8000_0000_0000_0000
    ensures var w := ClientFrame(f, key);
            (|w| <= 1024 && Complete(w) && Decode(w) == f) <==> |f.payload| <= 1016
  {
    ClientFrameRoundTripIff(f, key);
  }
}
