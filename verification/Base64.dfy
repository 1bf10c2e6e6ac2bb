/** base64_encode (src/external_helpers.h), the encoding of section 4 of RFC 4648. */
module Base64 {
  import opened Octets
  import opened Sequences
  import opened Wrappers

  const UPPER := "ABCDEFGHIJKLMNOPQRSTUVWXYZ"
  const LOWER := "abcdefghijklmnopqrstuvwxyz"
  const DIGITS := "0123456789"
  const ALPHABET := UPPER + LOWER + DIGITS + "+/"

  function Letter(v: byte): char
    requires v < 64
  {
    SextetInRange(v);
    ALPHABET[v as nat]
  }

  lemma SextetInRange(v: byte)
    requires v < 64
    ensures v as nat < 64
  {
  }

  function Sextet0(a: byte): byte { a >> 2 }
  function Sextet1(a: byte, b: byte): byte { ((a & 3) << 4) | (b >> 4) }
  function Sextet2(b: byte, c: byte): byte { ((b & 15) << 2) | (c >> 6) }
  function Sextet3(c: byte): byte { c & 63 }

  lemma SextetsSmall(a: byte, b: byte, c: byte)
    ensures Sextet0(a) < 64 && Sextet1(a, b) < 64 && Sextet2(b, c) < 64 && Sextet3(c) < 64
  {
  }

  /** The letters of one round: one more than there are source bytes, at most four. */
  function Letters(src: seq<byte>): (r: string)
    requires src != []
    ensures |r| == if |src| == 1 then 2 else if |src| == 2 then 3 else 4
  {
    var a := src[0];
    var b := if |src| > 1 then src[1] else 0;
    var c := if |src| > 2 then src[2] else 0;
    SextetsSmall(a, b, c);
    [Letter(Sextet0(a)), Letter(Sextet1(a, b))]
      + (if |src| > 1 then [Letter(Sextet2(b, c))] else [])
      + (if |src| > 2 then [Letter(Sextet3(c))] else [])
  }

  /** All letters, three bytes a round. */
  function Raw(src: seq<byte>): (r: string)
    ensures |r| == |src| / 3 * 4 + (if |src| % 3 == 0 then 0 else |src| % 3 + 1)
    decreases |src|
  {
    if src == [] then ""
    else if |src| <= 3 then Letters(src)
    else Letters(src[..3]) + Raw(src[3..])
  }

  function Padding(n: nat): (r: string)
    ensures |r| == (4 - n % 4) % 4
    decreases (4 - n % 4) % 4
  {
    if n % 4 == 0 then "" else "=" + Padding(n + 1)
  }

  function Encode(src: seq<byte>): string { Raw(src) + Padding(|Raw(src)|) }

  /** Four letters for three bytes, rounded up, and the terminating NUL. */
  function ExpectedLength(n: nat): nat { (n + 2) / 3 * 4 + 1 }

  /** src_len is |src|; dstLen is *dst_len, or None for a null pointer. */
  method Base64Encode(src: seq<byte>, dst: array<char>, dstLen: Option<nat>)
    returns (ret: int, newLen: Option<nat>)
    requires dstLen.Some? ==> dstLen.value <= dst.Length
    requires dstLen.None? ==> ExpectedLength(|src|) <= dst.Length
    modifies dst
    ensures newLen == if dstLen.Some? then Some(ExpectedLength(|src|)) else None
    ensures ret == if dstLen.Some? && dstLen.value < ExpectedLength(|src|) then 0 else -1
    ensures ret == 0 ==> dst[..] == if dstLen.value > 0 then ['\0'] + old(dst[1..]) else old(dst[..])
    ensures ret == -1 ==> ExpectedLength(|src|) <= dst.Length
                          && dst[..] == Encode(src) + ['\0'] + old(dst[ExpectedLength(|src|)..])
  {
    if dstLen.Some? {
      var expectedLen := (|src| + 2) / 3 * 4 + 1;
      if dstLen.value < expectedLen {
        if dstLen.value > 0 {
          dst[0] := '\0';
        }
        return 0, Some(expectedLen);
      }
    }
    var j := EncodeInto(src, dst);
    ret, newLen := -1, if dstLen.Some? then Some(j) else None;
  }

  lemma ThreesAndFours(n: nat)
    ensures var letters := n / 3 * 4 + (if n % 3 == 0 then 0 else n % 3 + 1);
            && letters + (3 - n % 3) % 3 == (n + 2) / 3 * 4
            && letters % 4 == (if n % 3 == 0 then 0 else n % 3 + 1)
  {
    var q, r := n / 3, n % 3;
    assert n == 3 * q + r;
    assert (n + 2) / 3 == q + (r + 2) / 3;
  }

  lemma EncodedLength(src: seq<byte>)
    ensures |Encode(src)| + 1 == ExpectedLength(|src|)
  {
    ThreesAndFours(|src|);
  }

  /** Letters, padding and the terminating NUL. */
  method EncodeInto(src: seq<byte>, dst: array<char>) returns (j: nat)
    requires ExpectedLength(|src|) <= dst.Length
    modifies dst
    ensures j == ExpectedLength(|src|) && dst[..] == Encode(src) + ['\0'] + old(dst[j..])
  {
    EncodedLength(src);
    ghost var s0 := dst[..];
    var k := WriteLetters(src, dst);
    ghost var s1 := dst[..];
    j := WritePadding(dst, k);
    SameTail(s0, s1, k, j);
    ghost var s2 := dst[..];
    Terminated(s2, s0, j, Encode(src));
    dst[j] := '\0';
    assert dst[..] == s2[j := '\0'];
    j := j + 1;
  }

  lemma SameTail(s: string, t: string, i: nat, j: nat)
    requires i <= j <= |s| == |t| && s[i..] == t[i..]
    ensures s[j..] == t[j..]
  {
    assert s[j..] == s[i..][j - i..] && t[j..] == t[i..][j - i..];
  }

  lemma Terminated(s: string, was: string, j: nat, text: string)
    requires j < |s| == |was| && s[..j] == text && s[j..] == was[j..]
    ensures s[j := '\0'] == text + ['\0'] + was[j + 1..]
  {
    assert s[j + 1..] == s[j..][1..] && was[j + 1..] == was[j..][1..];
  }

  /** The padding loop. */
  method WritePadding(dst: array<char>, start: nat) returns (j: nat)
    requires start + |Padding(start)| <= dst.Length
    modifies dst
    ensures j == start + |Padding(start)|
    ensures dst[..j] == old(dst[..start]) + Padding(start) && dst[j..] == old(dst[j..])
  {
    j := start;
    while j % 4 != 0
      invariant start <= j <= dst.Length
      invariant j + |Padding(j)| == start + |Padding(start)|
      invariant dst[..j] + Padding(j) == old(dst[..start]) + Padding(start)
      invariant dst[j..] == old(dst[j..])
      decreases |Padding(j)|
    {
      Assoc(dst[..j], "=", Padding(j + 1));
      dst[j] := '=';
      assert dst[..j + 1] == dst[..j] + "=";
      j := j + 1;
    }
    assert dst[..j] + "" == dst[..j];
  }

  /** The loop over the source. */
  method WriteLetters(src: seq<byte>, dst: array<char>) returns (j: nat)
    requires ExpectedLength(|src|) <= dst.Length
    modifies dst
    ensures j == |Raw(src)| < ExpectedLength(|src|)
    ensures dst[..j] == Raw(src) && dst[j..] == old(dst[j..])
  {
    j := 0;
    var i := 0;
    while i < |src|
      invariant 0 <= i && j <= dst.Length
      invariant i <= |src| ==> j + |Raw(src[i..])| == |Raw(src)| && dst[..j] + Raw(src[i..]) == Raw(src)
      invariant i > |src| ==> j == |Raw(src)| && dst[..j] == Raw(src)
      invariant dst[j..] == old(dst[j..])
    {
      ghost var before := dst[..j];
      ghost var e := if i + 3 <= |src| then i + 3 else |src|;
      RoundSplits(src, i);
      var b := if i + 1 >= |src| then 0 else src[i + 1];
      var c := if i + 2 >= |src| then 0 else src[i + 2];
      j := WriteRound(src[i], b, c, |src| - i, dst, j, src[i..e]);
      Assoc(before, Letters(src[i..e]), Raw(src[e..]));
      i := i + 3;
    }
  }

  /** dst[j++] = letter. */
  method WriteLetter(dst: array<char>, j: nat, letter: char) returns (k: nat)
    requires j < dst.Length
    modifies dst
    ensures k == j + 1 && dst[..k] == old(dst[..j]) + [letter]
    ensures forall i | k <= i < dst.Length :: dst[i] == old(dst[i])
  {
    dst[j] := letter;
    k := j + 1;
    assert dst[..k] == dst[..j] + [letter];
  }

  /** One round: the letters of the bytes a, b and c, of which `left` are there. */
  method WriteRound(a: byte, b: byte, c: byte, left: nat, dst: array<char>, start: nat, ghost group: seq<byte>)
    returns (j: nat)
    requires left > 0 && |group| == (if left < 3 then left else 3) && start + |Letters(group)| <= dst.Length
    requires group[0] == a && (left > 1 ==> group[1] == b) && (left > 2 ==> group[2] == c)
    requires (left < 2 ==> b == 0) && (left < 3 ==> c == 0)
    modifies dst
    ensures j == start + |Letters(group)|
    ensures dst[..j] == old(dst[..start]) + Letters(group) && dst[j..] == old(dst[j..])
  {
    SextetsSmall(a, b, c);
    ghost var front, two := dst[..start], [Letter(Sextet0(a)), Letter(Sextet1(a, b))];
    j := WriteLetter(dst, start, Letter(Sextet0(a)));
    j := WriteLetter(dst, j, Letter(Sextet1(a, b)));
    assert dst[..j] == front + two;
    if left > 1 {
      j := WriteLetter(dst, j, Letter(Sextet2(b, c)));
      Assoc(front, two, [Letter(Sextet2(b, c))]);
    }
    if left > 2 {
      j := WriteLetter(dst, j, Letter(Sextet3(c)));
      Assoc(front, two + [Letter(Sextet2(b, c))], [Letter(Sextet3(c))]);
    }
  }

  /** One round of letters, then the rest. */
  lemma RoundSplits(src: seq<byte>, i: nat)
    requires i < |src|
    ensures var e := if i + 3 <= |src| then i + 3 else |src|;
            Raw(src[i..]) == Letters(src[i..e]) + Raw(src[e..])
  {
    var s := src[i..];
    if |s| > 3 {
      assert s[..3] == src[i..i + 3] && s[3..] == src[i + 3..];
    } else {
      assert src[i..|src|] == s;
    }
  }
}
