/** A decoder written from section 4 of RFC 4648, and the round trip through it. */
module Base64Laws {
  import opened Sequences
  import opened Octets
  import opened Wrappers
  import opened Base64

  /** Table 1: the value of a letter. */
  function Value(c: char): Option<nat> {
    if 'A' <= c <= 'Z' then Some(c as int - 'A' as int)
    else if 'a' <= c <= 'z' then Some(c as int - 'a' as int + 26)
    else if '0' <= c <= '9' then Some(c as int - '0' as int + 52)
    else if c == '+' then Some(62)
    else if c == '/' then Some(63)
    else None
  }

  function Sextet(c: char): Option<byte> {
    match Value(c)
    case None => None
    case Some(n) => Some(n as byte)
  }

  /** Four sextets are one 24-bit group, which is three octets. */
  function Group(v0: byte, v1: byte, v2: byte, v3: byte): bv24 {
    (v0 as bv24 << 18) | (v1 as bv24 << 12) | (v2 as bv24 << 6) | v3 as bv24
  }

  function Octet(g: bv24, i: nat): byte
    requires i < 3
  {
    if i == 0 then (g >> 16) as byte
    else if i == 1 then ((g >> 8) & 0xff) as byte
    else (g & 0xff) as byte
  }

  /** Decodes groups of four letters. One or two `=` may end the text, behind a group whose
      unused bits are zero. */
  function Decode(s: string): Option<seq<byte>>
    decreases |s|
  {
    if s == "" then Some([])
    else if |s| < 4 then None
    else
      var v0, v1, v2, v3 := Sextet(s[0]), Sextet(s[1]), Sextet(s[2]), Sextet(s[3]);
      if v0.None? || v1.None? then None
      else if s[2] == '=' then
        if s[3..] == "=" && v1.value & 15 == 0
        then Some([Octet(Group(v0.value, v1.value, 0, 0), 0)]) else None
      else if v2.None? then None
      else if s[3] == '=' then
        var g := Group(v0.value, v1.value, v2.value, 0);
        if |s| == 4 && v2.value & 3 == 0 then Some([Octet(g, 0), Octet(g, 1)]) else None
      else if v3.None? then None
      else
        var g := Group(v0.value, v1.value, v2.value, v3.value);
        match Decode(s[4..])
        case None => None
        case Some(rest) => Some([Octet(g, 0), Octet(g, 1), Octet(g, 2)] + rest)
  }

  // ---------- letters ----------

  lemma UpperLetter(n: nat)
    requires n < 26
    ensures UPPER[n] as int == 'A' as int + n
  {
  }

  lemma LowerLetter(n: nat)
    requires n < 26
    ensures LOWER[n] as int == 'a' as int + n
  {
  }

  lemma DigitLetter(n: nat)
    requires n < 10
    ensures DIGITS[n] as int == '0' as int + n
  {
  }

  lemma LetterAt(n: nat)
    requires n < 64
    ensures ALPHABET[n] == if n < 26 then UPPER[n] else if n < 52 then LOWER[n - 26]
                           else if n < 62 then DIGITS[n - 52] else "+/"[n - 62]
  {
  }

  /** The letter as the inverse of Value. */
  function LetterOf(n: nat): char
    requires n < 64
  {
    if n < 26 then ('A' as int + n) as char
    else if n < 52 then ('a' as int + n - 26) as char
    else if n < 62 then ('0' as int + n - 52) as char
    else if n == 62 then '+' else '/'
  }

  lemma AlphabetIs(n: nat)
    requires n < 64
    ensures ALPHABET[n] == LetterOf(n)
  {
    LetterAt(n);
    if n < 26 { UpperLetter(n); } else if n < 52 { LowerLetter(n - 26); } else if n < 62 { DigitLetter(n - 52); }
  }

  lemma ValueOfLetter(n: nat)
    requires n < 64
    ensures Value(ALPHABET[n]) == Some(n)
  {
    AlphabetIs(n);
  }

  /** Letters and six-bit values correspond. */
  lemma SextetOfLetter(v: byte)
    requires v < 64
    ensures Sextet(Letter(v)) == Some(v) && Letter(v) != '='
  {
    SextetInRange(v);
    ValueOfLetter(v as nat);
  }

  // ---------- bits ----------

  /** The three octets come back from their four sextets. */
  lemma GroupRoundTrip(a: byte, b: byte, c: byte)
    ensures var g := Group(Sextet0(a), Sextet1(a, b), Sextet2(b, c), Sextet3(c));
            Octet(g, 0) == a && Octet(g, 1) == b && Octet(g, 2) == c
  {
  }

  /** Missing octets leave zero bits, which the padded forms drop. */
  lemma PaddedGroups(a: byte, b: byte)
    ensures Sextet1(a, 0) & 15 == 0 && Octet(Group(Sextet0(a), Sextet1(a, 0), 0, 0), 0) == a
    ensures Sextet2(b, 0) & 3 == 0
    ensures var g := Group(Sextet0(a), Sextet1(a, b), Sextet2(b, 0), 0); Octet(g, 0) == a && Octet(g, 1) == b
  {
  }

  // ---------- the round trip ----------

  lemma PaddingByRemainder(n: nat)
    ensures Padding(n) == if n % 4 == 0 then "" else if n % 4 == 3 then "=" else if n % 4 == 2 then "==" else "==="
  {
    if n % 4 == 2 {
      assert Padding(n + 1) == "=";
    } else if n % 4 == 1 {
      assert Padding(n + 2) == "=" && Padding(n + 1) == "==";
    }
  }

  lemma PaddingModulo(n: nat)
    ensures Padding(n + 4) == Padding(n)
  {
    PaddingByRemainder(n);
    PaddingByRemainder(n + 4);
  }

  lemma EncodeGroup(src: seq<byte>)
    requires |src| >= 3
    ensures Encode(src) == Letters(src[..3]) + Encode(src[3..])
  {
    var rest := src[3..];
    if rest == [] {
      assert src[..3] == src;
      assert Raw(rest) == "";
    }
    assert Raw(src) == Letters(src[..3]) + Raw(rest);
    PaddingModulo(|Raw(rest)|);
    Assoc(Letters(src[..3]), Raw(rest), Padding(|Raw(rest)|));
  }

  /** A whole group of letters decodes to its octets. */
  lemma FourDecode(s: string, v0: byte, v1: byte, v2: byte, v3: byte, more: string, rest: seq<byte>)
    requires |s| == 4 && s[2] != '=' && s[3] != '=' && Decode(more) == Some(rest)
    requires Sextet(s[0]) == Some(v0) && Sextet(s[1]) == Some(v1) && Sextet(s[2]) == Some(v2) && Sextet(s[3]) == Some(v3)
    ensures var g := Group(v0, v1, v2, v3);
            Decode(s + more) == Some([Octet(g, 0), Octet(g, 1), Octet(g, 2)] + rest)
  {
    assert (s + more)[4..] == more;
  }

  lemma LettersDecode(src: seq<byte>, more: string, rest: seq<byte>)
    requires |src| == 3 && Decode(more) == Some(rest)
    ensures Decode(Letters(src) + more) == Some(src + rest)
  {
    var a, b, c := src[0], src[1], src[2];
    SextetsSmall(a, b, c);
    var v0, v1, v2, v3 := Sextet0(a), Sextet1(a, b), Sextet2(b, c), Sextet3(c);
    SextetOfLetter(v0);
    SextetOfLetter(v1);
    SextetOfLetter(v2);
    SextetOfLetter(v3);
    FourDecode(Letters(src), v0, v1, v2, v3, more, rest);
    GroupRoundTrip(a, b, c);
    assert src == [a, b, c];
  }

  lemma LastGroupDecodes(src: seq<byte>)
    requires 0 < |src| < 3
    ensures Decode(Encode(src)) == Some(src)
  {
    var a := src[0];
    var b := if |src| > 1 then src[1] else 0;
    SextetsSmall(a, b, 0);
    SextetOfLetter(Sextet0(a));
    SextetOfLetter(Sextet1(a, b));
    SextetOfLetter(Sextet2(b, 0));
    PaddedGroups(a, b);
    if |src| == 1 {
      assert src == [a];
      EncodeOne(a);
      assert Encode(src)[3..] == "=";
    } else {
      assert src == [a, b];
      EncodeTwo(a, b);
    }
  }

  /** Every byte sequence comes back from its encoding. */
  lemma {:induction false} Base64RoundTrip(src: seq<byte>)
    ensures Decode(Encode(src)) == Some(src)
    decreases |src|
  {
    if |src| >= 3 {
      Base64RoundTrip(src[3..]);
      EncodeGroup(src);
      LettersDecode(src[..3], Encode(src[3..]), src[3..]);
      assert src == src[..3] + src[3..];
    } else if src != [] {
      LastGroupDecodes(src);
    }
  }

  /** How many `=` end the text of n bytes. */
  function Pads(n: nat): nat { (3 - n % 3) % 3 }

  /** Four letters for every three bytes begun, the last of them `=` as often as bytes lack. */
  lemma EncodedShape(src: seq<byte>)
    ensures |Encode(src)| == ExpectedLength(|src|) - 1 == |Raw(src)| + Pads(|src|)
    ensures Encode(src)[|Raw(src)|..] == if Pads(|src|) == 0 then "" else if Pads(|src|) == 1 then "=" else "=="
  {
    EncodedLength(src);
    PadsOf(src);
    Behind(Raw(src), Padding(|Raw(src)|));
  }

  lemma PadsOf(src: seq<byte>)
    ensures Padding(|Raw(src)|) == if Pads(|src|) == 0 then "" else if Pads(|src|) == 1 then "=" else "=="
  {
    LettersModulo(|src|, |Raw(src)|);
    PaddingByRemainder(|Raw(src)|);
  }

  lemma LettersModulo(n: nat, letters: nat)
    requires letters == n / 3 * 4 + (if n % 3 == 0 then 0 else n % 3 + 1)
    ensures letters % 4 == if Pads(n) == 0 then 0 else if Pads(n) == 1 then 3 else 2
  {
    ThreesAndFours(n);
  }

  lemma Behind(a: string, b: string)
    ensures (a + b)[|a|..] == b
  {
  }

  /** The handshake key: the 20 bytes of a digest take 28 letters, one of them padding, and
      the buffer of 40 that GetWsAcceptByKey offers is large enough. */
  lemma AcceptKeyShape(digest: seq<byte>)
    requires |digest| == 20
    ensures |Encode(digest)| == 28 && ExpectedLength(20) - 1 == 28 && ExpectedLength(20) <= 40
    ensures Encode(digest)[27..] == "=" && Decode(Encode(digest)) == Some(digest)
  {
    EncodedShape(digest);
    Base64RoundTrip(digest);
  }

  /** Asking for the length and asking again succeeds: what was answered is enough. */
  method EncodeWithRetry(src: seq<byte>, dst: array<char>) returns (again: array<char>)
    modifies dst
    ensures |Encode(src)| < again.Length && again[..|Encode(src)|] == Encode(src) && again[|Encode(src)|] == '\0'
  {
    EncodedShape(src);
    var ret, len := Base64Encode(src, dst, Some(dst.Length));
    again := dst;
    if ret == 0 {
      again := new char[len.value];
      ret, len := Base64Encode(src, again, Some(len.value));
    }
    TextAndNul(again[..], Encode(src));
  }

  lemma TextAndNul(s: string, text: string)
    requires |text| < |s| && text + ['\0'] <= s
    ensures s[..|text|] == text && s[|text|] == '\0'
  {
    assert (text + ['\0'])[|text|] == '\0';
  }

  // ---------- and back: only encodings decode ----------

  lemma ByteBelow64(n: nat)
    requires n < 64
    ensures n as byte < 64 && n as byte as nat == n
  {
    OctetRoundTrip(n);
  }

  lemma LetterOfValue(c: char)
    requires Value(c).Some?
    ensures Value(c).value < 64 && LetterOf(Value(c).value) == c
  {
  }

  lemma LetterOfSextet(c: char)
    requires Sextet(c).Some?
    ensures Sextet(c).value < 64 && Letter(Sextet(c).value) == c
  {
    var n := Value(c).value;
    LetterOfValue(c);
    ByteBelow64(n);
    AlphabetIs(n);
  }

  lemma SextetsOfGroup(v0: byte, v1: byte, v2: byte, v3: byte)
    requires v0 < 64 && v1 < 64 && v2 < 64 && v3 < 64
    ensures var g := Group(v0, v1, v2, v3); var a, b, c := Octet(g, 0), Octet(g, 1), Octet(g, 2);
            && Sextet0(a) == v0 && Sextet1(a, b) == v1 && Sextet2(b, c) == v2 && Sextet3(c) == v3
  {
  }

  lemma SextetsOfPadded(v0: byte, v1: byte, v2: byte)
    requires v0 < 64 && v1 < 64 && v2 < 64
    ensures v1 & 15 == 0 ==> var a := Octet(Group(v0, v1, 0, 0), 0); Sextet0(a) == v0 && Sextet1(a, 0) == v1
    ensures v2 & 3 == 0 ==> var g := Group(v0, v1, v2, 0); var a, b := Octet(g, 0), Octet(g, 1);
                            Sextet0(a) == v0 && Sextet1(a, b) == v1 && Sextet2(b, 0) == v2
  {
  }

  lemma EncodeOne(a: byte)
    ensures Sextet0(a) < 64 && Sextet1(a, 0) < 64
    ensures Encode([a]) == [Letter(Sextet0(a)), Letter(Sextet1(a, 0)), '=', '=']
  {
    SextetsSmall(a, 0, 0);
    PaddingByRemainder(2);
  }

  lemma EncodeTwo(a: byte, b: byte)
    ensures Sextet0(a) < 64 && Sextet1(a, b) < 64 && Sextet2(b, 0) < 64
    ensures Encode([a, b]) == [Letter(Sextet0(a)), Letter(Sextet1(a, b)), Letter(Sextet2(b, 0)), '=']
  {
    SextetsSmall(a, b, 0);
    PaddingByRemainder(3);
  }

  /** The sextets of a text that decodes, by its padding. */
  lemma TwoLetters(s: string) returns (v0: byte, v1: byte)
    requires |s| >= 4 && Decode(s).Some? && s[2] == '='
    ensures v0 < 64 && v1 < 64 && v1 & 15 == 0 && s == [Letter(v0), Letter(v1), '=', '=']
    ensures Decode(s) == Some([Octet(Group(v0, v1, 0, 0), 0)])
  {
    LetterOfSextet(s[0]);
    LetterOfSextet(s[1]);
    v0, v1 := Sextet(s[0]).value, Sextet(s[1]).value;
    assert s[3..] == "=" && s[3] == s[3..][0];
  }

  lemma OneOctetEncodes(s: string)
    requires |s| >= 4 && Decode(s).Some? && s[2] == '='
    ensures Encode(Decode(s).value) == s
  {
    var v0, v1 := TwoLetters(s);
    SextetsOfPadded(v0, v1, 0);
    EncodeOne(Octet(Group(v0, v1, 0, 0), 0));
  }

  lemma ThreeLetters(s: string) returns (v0: byte, v1: byte, v2: byte)
    requires |s| >= 4 && Decode(s).Some? && s[2] != '=' && s[3] == '='
    ensures v0 < 64 && v1 < 64 && v2 < 64 && v2 & 3 == 0 && s == [Letter(v0), Letter(v1), Letter(v2), '=']
    ensures var g := Group(v0, v1, v2, 0); Decode(s) == Some([Octet(g, 0), Octet(g, 1)])
  {
    LetterOfSextet(s[0]);
    LetterOfSextet(s[1]);
    LetterOfSextet(s[2]);
    v0, v1, v2 := Sextet(s[0]).value, Sextet(s[1]).value, Sextet(s[2]).value;
  }

  lemma TwoOctetsEncode(s: string)
    requires |s| >= 4 && Decode(s).Some? && s[2] != '=' && s[3] == '='
    ensures Encode(Decode(s).value) == s
  {
    var v0, v1, v2 := ThreeLetters(s);
    SextetsOfPadded(v0, v1, v2);
    var g := Group(v0, v1, v2, 0);
    EncodeTwo(Octet(g, 0), Octet(g, 1));
  }

  lemma FourSextets(s: string, rest: seq<byte>) returns (v0: byte, v1: byte, v2: byte, v3: byte)
    requires |s| >= 4 && s[2] != '=' && s[3] != '=' && Decode(s).Some? && Decode(s[4..]) == Some(rest)
    ensures Sextet(s[0]) == Some(v0) && Sextet(s[1]) == Some(v1) && Sextet(s[2]) == Some(v2) && Sextet(s[3]) == Some(v3)
    ensures var g := Group(v0, v1, v2, v3); Decode(s) == Some([Octet(g, 0), Octet(g, 1), Octet(g, 2)] + rest)
  {
    v0, v1, v2, v3 := Sextet(s[0]).value, Sextet(s[1]).value, Sextet(s[2]).value, Sextet(s[3]).value;
  }

  lemma FourLetters(s: string, v0: byte, v1: byte, v2: byte, v3: byte)
    requires |s| == 4
    requires Sextet(s[0]) == Some(v0) && Sextet(s[1]) == Some(v1) && Sextet(s[2]) == Some(v2) && Sextet(s[3]) == Some(v3)
    ensures v0 < 64 && v1 < 64 && v2 < 64 && v3 < 64 && s == [Letter(v0), Letter(v1), Letter(v2), Letter(v3)]
  {
    LetterOfSextet(s[0]);
    LetterOfSextet(s[1]);
    LetterOfSextet(s[2]);
    LetterOfSextet(s[3]);
  }

  lemma GroupEncodes(s: string, rest: seq<byte>)
    requires |s| >= 4 && s[2] != '=' && s[3] != '=' && Decode(s).Some? && Decode(s[4..]) == Some(rest)
    ensures |Decode(s).value| >= 3 && Letters(Decode(s).value[..3]) == s[..4] && Decode(s).value[3..] == rest
  {
    var v0, v1, v2, v3 := FourSextets(s, rest);
    FourLetters(s[..4], v0, v1, v2, v3);
    SextetsOfGroup(v0, v1, v2, v3);
    var g := Group(v0, v1, v2, v3);
    var octets := [Octet(g, 0), Octet(g, 1), Octet(g, 2)];
    assert (octets + rest)[..3] == octets && (octets + rest)[3..] == rest;
  }

  /** Every text the decoder accepts is the encoding of what it decodes to. */
  lemma {:induction false} OnlyEncodingsDecode(s: string)
    requires Decode(s).Some?
    ensures Encode(Decode(s).value) == s
    decreases |s|
  {
    if s == "" {
    } else if s[2] == '=' {
      OneOctetEncodes(s);
    } else if s[3] == '=' {
      TwoOctetsEncode(s);
    } else {
      OnlyEncodingsDecode(s[4..]);
      GroupEncodes(s, Decode(s[4..]).value);
      EncodeGroup(Decode(s).value);
      assert s == s[..4] + s[4..];
    }
  }
}
