/** What the header parser reads back from a printed head. */
module ResponseLaws {
  import opened Sequences
  import opened Str
  import opened Wrappers
  import opened Http
  import opened HeaderParser
  import opened HeaderParserLaws
  import opened ConnectionLaws
  import opened Response

  // ---------- numbers ----------

  lemma {:induction false} DecimalDigits(n: nat)
    ensures Decimal(n) != "" && forall c | c in Decimal(n) :: IsDigit(c)
    ensures DecimalValue(Decimal(n)) == n
  {
    if n >= 10 {
      DecimalDigits(n / 10);
      var front := Decimal(n / 10);
      assert Decimal(n)[..|Decimal(n)| - 1] == front;
    }
  }

  /** The digits d stand in s at off, and end there. */
  predicate DigitsAt(s: string, off: nat, d: string) {
    && d != "" && (forall i | 0 <= i < |d| :: IsDigit(d[i]))
    && off + |d| < |s| && s[off..off + |d|] == d && !IsDigit(s[off + |d|])
  }

  lemma LeadingDigitsAt(s: string, off: nat, d: string)
    requires DigitsAt(s, off, d)
    ensures LeadingDigits(s, off) == d && IndexFrom(s, off, NotCSpace) == off
    ensures s[off] != '-' && s[off] != '+'
  {
    forall k | off <= k < off + |d| ensures IsDigit(s[k]) {
      assert s[k] == s[off..off + |d|][k - off] == d[k - off];
    }
    IndexFromUnique(s, off, off + |d|, NotDigit);
  }

  /** What an unsigned keeps of a strtol that saturates at 2^63 - 1. */
  function Kept(n: nat): nat { if n <= 0x7fff_ffff_ffff_ffff then n % 0x1_0000_0000 else 0xffff_ffff }

  /** And of its negative, which saturates at -2^63. */
  function KeptNegative(n: nat): nat {
    if n <= 0x8000_0000_0000_0000 then (0 - n) % 0x1_0000_0000 else 0
  }

  /** atoi reads the digits that stand at off, up to the first other character. */
  lemma AtoiOfDigits(s: string, off: nat, d: string)
    requires DigitsAt(s, off, d) && forall c | c in d :: IsDigit(c)
    ensures AtoiUnsigned(s, off) == Kept(DecimalValue(d))
  {
    LeadingDigitsAt(s, off, d);
  }

  lemma KeptSmall(n: nat)
    requires n < 0x1_0000_0000
    ensures Kept(n) == n
  {
  }

  lemma DecimalAt(pre: string, d: string, post: string)
    requires post != "" && !IsDigit(post[0]) && d != "" && forall c | c in d :: IsDigit(c)
    ensures DigitsAt(pre + d + post, |pre|, d)
  {
    Middle(pre, d, post);
  }

  /** atoi inverts decimal printing for every number that an unsigned can hold, and cuts larger
      ones down. */
  lemma AtoiInvertsDecimal(pre: string, n: nat, post: string)
    requires post != "" && !IsDigit(post[0])
    ensures AtoiUnsigned(pre + Decimal(n) + post, |pre|) == if n < 0x1_0000_0000 then n else Kept(n)
  {
    DecimalDigits(n);
    DecimalAt(pre, Decimal(n), post);
    AtoiOfDecimal(pre + Decimal(n) + post, |pre|, n);
    if n < 0x1_0000_0000 { KeptSmall(n); }
  }

  lemma AtoiOfDecimal(s: string, off: nat, n: nat)
    requires DigitsAt(s, off, Decimal(n))
    ensures AtoiUnsigned(s, off) == Kept(n)
  {
    DecimalDigits(n);
    AtoiOfDigits(s, off, Decimal(n));
  }

  /** A minus sign wraps the number around. */
  lemma AtoiOfNegative(pre: string, n: nat, post: string)
    requires post != "" && !IsDigit(post[0])
    ensures AtoiUnsigned(pre + "-" + Decimal(n) + post, |pre|) == KeptNegative(n)
  {
    DecimalDigits(n);
    var d := Decimal(n);
    var s := pre + "-" + d + post;
    Middle(pre + "-", d, post);
    LeadingDigitsAt(s, |pre| + 1, d);
    assert s[|pre|] == '-';
    IndexFromUnique(s, |pre|, |pre|, NotCSpace);
    NegativeIs(s, |pre|, n);
  }

  lemma SaturateNegative(n: nat)
    ensures Saturate(0 - n) % UINT_MODULUS == KeptNegative(n)
  {
  }

  lemma NegativeIs(s: string, off: nat, n: nat)
    requires off + 1 < |s| && s[off] == '-' && IndexFrom(s, off, NotCSpace) == off
    requires DecimalValue(LeadingDigits(s, off + 1)) == n
    ensures AtoiUnsigned(s, off) == KeptNegative(n)
  {
    SaturateNegative(n);
    MinusRead(s, off);
  }

  lemma MinusRead(s: string, off: nat)
    requires off + 1 < |s| && s[off] == '-'
    ensures Strtol(s, off) == Saturate(0 - DecimalValue(LeadingDigits(s, off + 1)))
  {
  }

  lemma Middle(pre: string, d: string, post: string)
    ensures (pre + d + post)[|pre|..|pre| + |d|] == d
    ensures post != "" ==> (pre + d + post)[|pre| + |d|] == post[0]
  {
  }

  // ---------- names the parser keeps for itself ----------

  const RESERVED := ["content-length:", "upgrade:", "host:", "connection:", "user-agent:"]

  /** The name t is taken for the reserved one: it equals it in some letter case or, when it
      holds a NUL, what stands before the NUL begins it. */
  predicate Shadows(t: string, name: string) {
    if '\0' in t then IcasePrefix(name, CString(t, 0))
    else |t| + 1 == |name| && IcasePrefix(t + ":", name)
  }

  function DropBlanks(s: string): string { s[IndexFrom(s, 0, NotSpace)..] }

  predicate IsReserved(key: string) {
    exists name | name in RESERVED :: Shadows(DropBlanks(key), name)
  }

  /** A header the parser can give back: what a caller can check before printing it. */
  predicate EntryOk(e: (string, string)) {
    && ':' !in e.0 && !HasCrlf(e.0) && !IsReserved(e.0)
    && '\r' !in e.1 && '\n' !in e.1 && (e.1 != "" ==> e.1[0] != ' ')
  }

  predicate IsName(name: string) {
    name != "" && name[|name| - 1] == ':' && forall i | 0 <= i < |name| - 1 :: Lower(name[i]) != ':'
  }

  lemma ReservedAreNames()
    ensures forall name | name in RESERVED :: IsName(name)
  {
  }

  lemma {:induction false} CStringSuffix(s: string, off: nat)
    requires off <= |s|
    ensures CString(s, off) == CString(s[off..], 0)
    decreases |s| - off
  {
    if off < |s| && s[off] != '\0' {
      CStringSuffix(s, off + 1);
      CStringSuffix(s[off..], 1);
      assert s[off..][1..] == s[off + 1..];
    }
  }

  /** A C string of two parts ends in the first NUL. */
  lemma {:induction false} CStringOfParts(t: string, x: string)
    ensures CString(t + x, 0) == if '\0' in t then CString(t, 0) else t + CString(x, 0)
  {
    if t == "" {
      assert t + x == x;
    } else if t[0] != '\0' {
      var r := t[1..];
      CStringTail(t, x);
      CStringTail(t, "");
      assert t + "" == t && r + "" == r;
      CStringOfParts(r, x);
      assert t == [t[0]] + r;
      Assoc([t[0]], r, CString(x, 0));
    }
  }

  lemma CStringTail(t: string, x: string)
    requires t != "" && t[0] != '\0'
    ensures CString(t + x, 0) == [t[0]] + CString(t[1..] + x, 0)
  {
    CStringSuffix(t + x, 1);
    assert (t + x)[1..] == t[1..] + x;
  }

  lemma {:induction false} CStringSubset(t: string, c: char)
    requires c in CString(t, 0)
    ensures c in t
  {
    CStringSuffix(t, 1);
    if c != t[0] { CStringSubset(t[1..], c); }
  }

  lemma ShadowsWithNul(u: string, name: string)
    requires IsName(name) && ':' !in u
    ensures IcaseCmp(u, name) == IcasePrefix(name, u)
  {
    assert |name| <= |u| ==> u[|name| - 1] != ':';
  }

  lemma ShadowsWithoutNul(t: string, w: string, name: string)
    requires IsName(name) && ':' !in t
    ensures IcaseCmp(t + ":" + w, name) == (|t| + 1 == |name| && IcasePrefix(t + ":", name))
  {
    var s := t + ":" + w;
    assert s[|t|] == ':';
    forall i | 0 <= i <= |t| ensures s[i] == (t + ":")[i] {}
    assert |name| <= |t| ==> s[|name| - 1] != ':';
    if IcaseCmp(s, name) {
      assert Lower(name[|t|]) == ':';
    }
  }

  /** The source's test of one reserved name on a line t ":" x. */
  lemma CompareReserved(t: string, x: string, name: string)
    requires IsName(name) && ':' !in t
    ensures IcaseCmp(CString(t + ":" + x, 0), name) == Shadows(t, name)
  {
    Assoc(t, ":", x);
    CStringOfParts(t, ":" + x);
    if '\0' in t {
      if ':' in CString(t, 0) { CStringSubset(t, ':'); }
      ShadowsWithNul(CString(t, 0), name);
    } else {
      CStringOfParts(":", x);
      Assoc(t, ":", CString(x, 0));
      ShadowsWithoutNul(t, CString(x, 0), name);
    }
  }

  /** A scan that stops inside a, or right behind it, does not see what follows. */
  lemma IndexInFront(a: string, b: string, off: nat, pred: char -> bool)
    requires off <= |a| && (IndexFrom(a, off, pred) < |a| || (b != "" && pred(b[0])))
    ensures IndexFrom(a + b, off, pred) == IndexFrom(a, off, pred)
  {
    var i := IndexFrom(a, off, pred);
    assert i == |a| ==> (a + b)[i] == b[0];
    IndexFromUnique(a + b, off, i, pred);
  }

  lemma NameStart(key: string, x: string)
    ensures IndexFrom(key + ":" + x, 0, NotSpace) == IndexFrom(key, 0, NotSpace)
  {
    assert key + ":" + x == key + (":" + x);
    IndexInFront(key, ":" + x, 0, NotSpace);
  }

  lemma NameEnd(key: string, x: string, k: nat)
    requires ':' !in key && k <= |key|
    ensures IndexFrom(key + ":" + x, k, IsColon) == |key|
  {
    assert key + ":" + x == key + (":" + x);
    IndexFromUnique(key, k, |key|, IsColon);
    IndexInFront(key, ":" + x, k, IsColon);
  }

  lemma ClassifyOther(s: string)
    ensures Classify(s) == OtherHeader <==> forall name | name in RESERVED :: !IcaseCmp(s, name)
  {
    assert RESERVED[0] == CONTENT_LENGTH_KEY && RESERVED[1] == UPGRADE_KEY && RESERVED[2] == HOST_KEY
        && RESERVED[3] == CONNECTION_KEY && RESERVED[4] == USER_AGENT_KEY;
  }

  /** A line is read as an ordinary header exactly when its name is not reserved. */
  lemma ClassifyLine(key: string, x: string)
    requires ':' !in key
    ensures var line := key + ":" + x; var k := IndexFrom(line, 0, NotSpace);
            && k <= |key| && IndexFrom(line, k, IsColon) == |key|
            && (Classify(CString(line, k)) == OtherHeader <==> !IsReserved(key))
  {
    NameStart(key, x);
    var line := key + ":" + x;
    var k := IndexFrom(line, 0, NotSpace);
    NameEnd(key, x, k);
    var t := DropBlanks(key);
    assert line[k..] == t + ":" + x;
    CStringSuffix(line, k);
    ReservedAreNames();
    forall name | name in RESERVED ensures IcaseCmp(CString(line, k), name) == Shadows(t, name) {
      CompareReserved(t, x, name);
    }
    ClassifyOther(CString(line, k));
  }

  // ---------- one header ----------

  /** The value field of a printed line. */
  lemma FieldOfLine(key: string, value: string)
    requires '\r' !in value && '\n' !in value && (value != "" ==> value[0] != ' ')
    ensures Field(HeaderLine((key, value)), |key| + 1) == value
  {
    var line := HeaderLine((key, value));
    var b := |key| + 2;
    assert line[|key| + 1] == ' ' && line[b..] == value + "\r\n";
    forall i | 0 <= i < |value| ensures line[b + i] == value[i] { assert line[b..][i] == value[i]; }
    assert line[b + |value|] == '\r' by { assert line[b..][|value|] == '\r'; }
    IndexFromUnique(line, |key| + 1, b, NotSpace);
    IndexFromUnique(line, b, b + |value|, IsEol);
    assert line[b..b + |value|] == value;
  }

  /** Printing and parsing one header. */
  lemma ParsedHeader(p: Parser, e: (string, string))
    requires p.state == Headers && EntryOk(e)
    ensures Push(p, HeaderLine(e)) == p.(headers := Emplace(p.headers, e.0, e.1))
  {
    var line := HeaderLine(e);
    LineSplitsAtColon(e);
    var k := IndexFrom(line, 0, NotSpace);
    TakesBranch(p, line);
    OtherBranch(p, line, k, e);
  }

  lemma OtherBranch(p: Parser, line: string, k: nat, e: (string, string))
    requires p.state == Headers && NameAndValue(line, k) == Some(e)
    ensures Branch(p, line, k, OtherHeader) == p.(headers := Emplace(p.headers, e.0, e.1))
  {
  }

  lemma LineClassified(e: (string, string))
    requires EntryOk(e)
    ensures var line := HeaderLine(e); var k := IndexFrom(line, 0, NotSpace);
            && |line| >= 4 && Classify(CString(line, k)) == OtherHeader && IndexFrom(line, k, IsColon) == |e.0|
  {
    var x := " " + e.1 + "\r\n";
    LineParts(e);
    ClassifyLine(e.0, x);
  }

  lemma LineParts(e: (string, string))
    ensures var line := HeaderLine(e);
            && line == e.0 + ":" + (" " + e.1 + "\r\n")
            && |line| == |e.0| + |e.1| + 4 && line[..|e.0|] == e.0
  {
  }

  lemma LineSplitsAtColon(e: (string, string))
    requires EntryOk(e)
    ensures var line := HeaderLine(e); var k := IndexFrom(line, 0, NotSpace);
            && line != "\r\n" && Classify(CString(line, k)) == OtherHeader
            && NameAndValue(line, k) == Some(e)
  {
    LineClassified(e);
    LineParts(e);
    FieldOfLine(e.0, e.1);
  }

  /** A text without CR LF, printed as a line, is cut off exactly behind its CR LF. */
  lemma FirstLineEnds(t: string, rest: string)
    requires !HasCrlf(t)
    ensures CrlfIndex(t + "\r\n" + rest) == |t|
    ensures (t + "\r\n" + rest)[..|t| + 2] == t + "\r\n" && (t + "\r\n" + rest)[|t| + 2..] == rest
  {
    var s := t + "\r\n" + rest;
    assert s[|t|] == '\r' && s[|t| + 1] == '\n';
    forall i | 0 <= i < |t| ensures !CrlfAt(s, i) {
      assert !CrlfAt(t, i);
      assert s[i] == t[i];
    }
    CrlfIndexUnique(s, |t|);
  }

  /** So it is the next line of the head. */
  lemma RunLine(p: Parser, t: string, rest: string)
    requires InHead(p) && !HasCrlf(t)
    ensures RunHead(p, t + "\r\n" + rest) == RunHead(Push(p, t + "\r\n"), rest)
  {
    FirstLineEnds(t, rest);
  }

  lemma HeaderHasNoCrlf(e: (string, string))
    requires EntryOk(e)
    ensures !HasCrlf(e.0 + ": " + e.1)
  {
    var t := e.0 + ": " + e.1;
    forall i | |e.0| <= i < |t| ensures t[i] != '\r' {
      assert i >= |e.0| + 2 ==> t[i] in e.1;
    }
    forall i | 0 <= i < |e.0| ensures !CrlfAt(t, i) {
      assert !CrlfAt(e.0, i);
      assert t[i] == e.0[i] && t[i + 1] == if i + 1 < |e.0| then e.0[i + 1] else ':';
    }
  }

  // ---------- the whole head ----------

  predicate AllOk(entries: Entries) { forall e | e in entries :: EntryOk(e) }

  /** The entries of a map: no key twice. */
  predicate DistinctKeys(entries: Entries) {
    forall i, j | 0 <= i < j < |entries| :: entries[i].0 != entries[j].0
  }

  function ToMap(entries: Entries): (m: map<string, string>)
    ensures forall k :: k in m <==> exists i :: 0 <= i < |entries| && entries[i].0 == k
  {
    if entries == [] then map[]
    else
      var m := ToMap(entries[1..]);
      assert forall i | 0 < i < |entries| :: entries[i] == entries[1..][i - 1];
      assert forall i | 0 <= i < |entries| - 1 :: entries[1..][i] == entries[i + 1];
      m[entries[0].0 := entries[0].1]
  }

  lemma OneHeader(p: Parser, e: (string, string), more: string)
    requires p.state == Headers && EntryOk(e) && e.0 !in p.headers
    ensures RunHead(p, HeaderLine(e) + more) == RunHead(p.(headers := p.headers[e.0 := e.1]), more)
  {
    ParsedHeader(p, e);
    HeaderHasNoCrlf(e);
    RunLine(p, e.0 + ": " + e.1, more);
  }

  lemma RestOfEntries(entries: Entries)
    requires entries != [] && AllOk(entries) && DistinctKeys(entries)
    ensures EntryOk(entries[0]) && AllOk(entries[1..]) && DistinctKeys(entries[1..])
    ensures forall e | e in entries[1..] :: e in entries && e.0 != entries[0].0
  {
    assert entries[0] in entries;
    var rest := entries[1..];
    forall e | e in rest ensures e in entries && e.0 != entries[0].0 {
      var i :| 0 <= i < |rest| && rest[i] == e;
      assert entries[i + 1] == e;
    }
    forall i, j | 0 <= i < j < |rest| ensures rest[i].0 != rest[j].0 {
      assert rest[i] == entries[i + 1] && rest[j] == entries[j + 1];
    }
  }

  /** The parser with the entries of a map added to its headers. */
  function WithEntries(p: Parser, entries: Entries): Parser {
    p.(headers := p.headers + ToMap(entries))
  }

  lemma WithNoEntries(p: Parser)
    ensures WithEntries(p, []) == p
  {
    assert p.headers + map[] == p.headers;
  }

  lemma LinesCons(entries: Entries, tail: string)
    requires entries != []
    ensures HeaderLines(entries) + tail == HeaderLine(entries[0]) + (HeaderLines(entries[1..]) + tail)
  {
    Assoc(HeaderLine(entries[0]), HeaderLines(entries[1..]), tail);
  }

  predicate NewKeys(m: map<string, string>, entries: Entries) {
    forall e | e in entries :: e.0 !in m
  }

  lemma NewKeysRest(m: map<string, string>, entries: Entries)
    requires entries != [] && AllOk(entries) && DistinctKeys(entries) && NewKeys(m, entries)
    ensures entries[0].0 !in m && NewKeys(m[entries[0].0 := entries[0].1], entries[1..])
  {
    assert entries[0] in entries;
    RestOfEntries(entries);
  }

  lemma NoLines(tail: string)
    ensures HeaderLines([]) + tail == tail
  {
  }

  lemma {:induction false} HeadersParsed(p: Parser, entries: Entries, tail: string)
    requires p.state == Headers && AllOk(entries) && DistinctKeys(entries) && NewKeys(p.headers, entries)
    ensures RunHead(p, HeaderLines(entries) + tail) == RunHead(WithEntries(p, entries), tail)
    decreases |entries|
  {
    if entries == [] {
      NoLines(tail);
      WithNoEntries(p);
    } else {
      var e := entries[0];
      RestOfEntries(entries);
      NewKeysRest(p.headers, entries);
      LinesCons(entries, tail);
      OneHeader(p, e, HeaderLines(entries[1..]) + tail);
      HeadersParsed(p.(headers := p.headers[e.0 := e.1]), entries[1..], tail);
      MergeEntry(p.headers, entries);
    }
  }

  lemma MergeEntry(m: map<string, string>, entries: Entries)
    requires entries != [] && DistinctKeys(entries)
    ensures m[entries[0].0 := entries[0].1] + ToMap(entries[1..]) == m + ToMap(entries)
  {
    var rest := entries[1..];
    forall i | 0 <= i < |rest| ensures rest[i].0 != entries[0].0 {
      assert rest[i] == entries[i + 1];
    }
  }

  /** The head's end: the announced length is the body's size, and the body is what is left. */
  lemma TailParsed(p: Parser, body: string)
    requires p.state == Headers && p.contentLength == None && |body| < 0x8000_0000
    ensures RunHead(p, Tail(body)) == (HeadDone(p, body), body)
  {
    if body == "" {
      assert Tail(body) == "" + "\r\n" + "";
      RunLine(p, "", "");
    } else {
      var t := "Content-Length: " + Decimal(|body|);
      var more := "" + "\r\n" + body;
      assert Tail(body) == t + "\r\n" + more;
      ContentLengthParsed(p, |body|);
      ContentLengthIsPlain(|body|);
      RunLine(p, t, more);
      RunLine(p.(contentLength := Some(|body|)), "", body);
    }
  }

  lemma ContentLengthIsPlain(n: nat)
    ensures !HasCrlf("Content-Length: " + Decimal(n))
  {
    var t := "Content-Length: " + Decimal(n);
    DecimalDigits(n);
    forall i | 16 <= i < |t| ensures IsDigit(t[i]) {
      assert t[i] == Decimal(n)[i - 16] && Decimal(n)[i - 16] in Decimal(n);
    }
  }

  /** The parser behind the blank line of a response head. */
  function HeadDone(p: Parser, body: string): Parser {
    if body == "" then p.(state := Done) else p.(contentLength := Some(|body|), state := Body)
  }

  lemma StartsWithName(a: string, w: string, name: string)
    requires |a| == |name| && IcasePrefix(a, name)
    ensures IcaseCmp(a + w, name)
  {
    forall i | 0 <= i < |name| ensures Lower((a + w)[i]) == Lower(name[i]) { assert (a + w)[i] == a[i]; }
  }

  lemma ContentLengthName()
    ensures |"Content-Length:"| == |CONTENT_LENGTH_KEY| && IcasePrefix("Content-Length:", CONTENT_LENGTH_KEY)
    ensures '\0' !in "Content-Length:"
  {
  }

  lemma ContentLengthClassified(x: string)
    ensures Classify(CString("Content-Length:" + x, 0)) == ContentLengthHeader
  {
    ContentLengthName();
    CStringOfParts("Content-Length:", x);
    StartsWithName("Content-Length:", CString(x, 0), CONTENT_LENGTH_KEY);
  }

  lemma ContentLengthNumber(n: nat)
    requires n < 0x8000_0000
    ensures Number("Content-Length: " + Decimal(n) + "\r\n", 15) == n
  {
    var pre := "Content-Length: ";
    var line := pre + Decimal(n) + "\r\n";
    DecimalDigits(n);
    assert line[15] == ' ' && line[16] == Decimal(n)[0] && Decimal(n)[0] in Decimal(n);
    IndexFromUnique(line, 15, 16, NotSpace);
    AtoiInvertsDecimal(pre, n, "\r\n");
  }

  lemma ContentLengthBranch(p: Parser, line: string, n: nat)
    requires p.state == Headers && Number(line, 15) == n
    ensures Branch(p, line, 0, ContentLengthHeader) == p.(contentLength := Some(n))
  {
    assert |CONTENT_LENGTH_KEY| == 15;
  }

  lemma ContentLengthParts(digits: string)
    ensures var line := "Content-Length: " + digits + "\r\n";
            && line == "Content-Length:" + (" " + digits + "\r\n")
            && line != "\r\n" && IndexFrom(line, 0, NotSpace) == 0
  {
    var line := "Content-Length: " + digits + "\r\n";
    assert line[0] == 'C';
    IndexFromUnique(line, 0, 0, NotSpace);
  }

  lemma ContentLengthParsed(p: Parser, n: nat)
    requires p.state == Headers && n < 0x8000_0000
    ensures Push(p, "Content-Length: " + Decimal(n) + "\r\n") == p.(contentLength := Some(n))
  {
    var line := "Content-Length: " + Decimal(n) + "\r\n";
    ContentLengthParts(Decimal(n));
    ContentLengthClassified(" " + Decimal(n) + "\r\n");
    ContentLengthNumber(n);
    TakesBranch(p, line);
    ContentLengthBranch(p, line, n);
  }

  /** The codes that have a place in the table of messages. */
  predicate Listed(code: int) {
    100 <= code <= 103 || 200 <= code <= 208 || 300 <= code <= 308 || 400 <= code <= 412 || 500 <= code <= 511
  }

  /** A code is printed as itself exactly if it is listed, and as 500 otherwise. */
  lemma NormalStatusIff(code: int)
    ensures NormalStatus(code) == if Listed(code) then code else 500
    ensures NormalStatus(code) == code <==> Listed(code)
  {
    if 100 <= code <= 599 {
      var row := code / 100 - 1;
      assert row == 0 || row == 1 || row == 2 || row == 3 || row == 4;
    }
  }

  /** What stands between the first two blanks of a text. */
  function SecondWord(s: string): string {
    var a := IndexFrom(s, 0, IsBlank);
    if a == |s| then "" else s[a + 1..IndexFrom(s, a + 1, IsBlank)]
  }

  lemma SecondWordIs(a: string, b: string, c: string)
    requires ' ' !in a && ' ' !in b
    ensures SecondWord(a + " " + b + " " + c) == b
  {
    var s := a + " " + b + " " + c;
    Assoc(a + " " + b, " ", c);
    Middle(a + " ", b, " " + c);
    forall k | 0 <= k < |a| ensures s[k] != ' ' { assert s[k] == a[k]; }
    IndexFromUnique(s, 0, |a|, IsBlank);
    forall k | |a| + 1 <= k < |a| + 1 + |b| ensures s[k] != ' ' { assert s[k] == b[k - |a| - 1]; }
    IndexFromUnique(s, |a| + 1, |a| + 1 + |b|, IsBlank);
  }

  /** The second word of a printed status line is decimal digits, and their number is the code
      for the listed codes and 500 for all others. */
  lemma StatusLineTells(code: int, version: HttpVersion)
    ensures var d := SecondWord(StatusLine(code, version));
            && d != "" && (forall c | c in d :: IsDigit(c))
            && DecimalValue(d) == if Listed(code) then code else 500
  {
    var status := NormalStatus(code);
    NormalStatusIff(code);
    DecimalDigits(status);
    var message := STATUS_MESSAGES[status / 100 - 1][status % 100];
    Assoc(HttpVersionToString(version) + " " + Decimal(status) + " ", message, "\r\n");
    VersionHasNoBlank(version);
    SecondWordIs(HttpVersionToString(version), Decimal(status), message + "\r\n");
  }

  lemma VersionHasNoBlank(version: HttpVersion)
    ensures ' ' !in HttpVersionToString(version)
  {
  }

  lemma Decimal101()
    ensures Decimal(101) == "101"
  {
    assert Decimal(10) == Decimal(1) + "0" && Decimal(101) == Decimal(10) + "1";
  }

  lemma SwitchingMessage()
    ensures STATUS_MESSAGES[101 / 100 - 1][101 % 100] == "Switching Protocols" && NormalStatus(101) == 101
  {
  }

  lemma SwitchingProtocols()
    ensures StatusLine(101, HTTP_1_1) == "HTTP/1.1" + " " + "101" + " " + "Switching Protocols" + "\r\n"
  {
    Decimal101();
    SwitchingMessage();
  }

  lemma ThreeLines(a: (string, string), b: (string, string), c: (string, string))
    ensures HeaderLines([a, b, c]) == HeaderLine(a) + (HeaderLine(b) + HeaderLine(c))
  {
    assert [a, b, c][1..] == [b, c] && [b, c][1..] == [c] && [c][1..] == [];
    assert HeaderLine(c) + "" == HeaderLine(c);
    assert HeaderLines([c]) == HeaderLine(c);
    assert HeaderLines([b, c]) == HeaderLine(b) + HeaderLine(c);
  }

  /** The answer to a handshake, to the letter. */
  lemma HandshakeText(accept: string)
    ensures ResponseText(101, HTTP_1_1,
                         [("Connection", "Upgrade"), ("Sec-WebSocket-Accept", accept), ("Upgrade", "websocket")], "") ==
            "HTTP/1.1" + " " + "101" + " " + "Switching Protocols" + "\r\n" +
            (("Connection: Upgrade\r\n" +
              (("Sec-WebSocket-Accept: " + accept + "\r\n") +
               "Upgrade: websocket\r\n")) +
             "\r\n")
  {
    SwitchingProtocols();
    ThreeLines(("Connection", "Upgrade"), ("Sec-WebSocket-Accept", accept), ("Upgrade", "websocket"));
    assert HeaderLine(("Connection", "Upgrade")) == "Connection: Upgrade\r\n";
    assert HeaderLine(("Upgrade", "websocket")) == "Upgrade: websocket\r\n";
    assert HeaderLine(("Sec-WebSocket-Accept", accept)) == "Sec-WebSocket-Accept: " + accept + "\r\n";
  }

  /** The status line without its CR LF. */
  function StatusText(code: int, version: HttpVersion): string {
    var status := NormalStatus(code);
    HttpVersionToString(version) + " " + Decimal(status) + " " + STATUS_MESSAGES[status / 100 - 1][status % 100]
  }

  lemma NotAtStart(line: string, word: string)
    requires line != "" && word != "" && line[0] != word[0]
    ensures !WordAt(line, 0, word)
  {
    if |word| <= |line| { assert line[0..|word|][0] == line[0]; }
  }

  lemma NoMethod(line: string)
    requires line != "" && line[0] != 'G' && line[0] != 'P'
    ensures Push(FRESH, line) == FRESH.(state := Headers)
  {
    NotAtStart(line, "GET");
    NotAtStart(line, "PUT");
    NotAtStart(line, "POST");
  }

  /** A status line names no method, so it only takes the parser to its header state. */
  lemma StatusLineParsed(code: int, version: HttpVersion)
    ensures Push(FRESH, StatusLine(code, version)) == FRESH.(state := Headers)
  {
    StatusLineStarts(code, version);
    NoMethod(StatusLine(code, version));
  }

  lemma StatusLineStarts(code: int, version: HttpVersion)
    ensures var line := StatusLine(code, version); line != "" && line[0] != 'G' && line[0] != 'P'
  {
    assert StatusLine(code, version)[0] == HttpVersionToString(version)[0];
  }

  lemma StatusLineIsPlain(code: int, version: HttpVersion)
    ensures !HasCrlf(StatusText(code, version)) && StatusLine(code, version) == StatusText(code, version) + "\r\n"
  {
    var status := NormalStatus(code);
    var v, d := HttpVersionToString(version), Decimal(status);
    var m := STATUS_MESSAGES[status / 100 - 1][status % 100];
    DecimalDigits(status);
    MessagesArePlain(status / 100 - 1, status % 100);
    var t := v + " " + d + " " + m;
    forall i | 0 <= i < |t| ensures t[i] != '\r' { PlainParts(v, d, m, i); }
  }

  lemma PlainParts(v: string, d: string, m: string, i: nat)
    requires '\r' !in v && '\r' !in m && (forall c | c in d :: IsDigit(c))
    requires i < |v + " " + d + " " + m|
    ensures (v + " " + d + " " + m)[i] != '\r'
  {
    var t := v + " " + d + " " + m;
    assert t[i] in v || t[i] == ' ' || t[i] in d || t[i] in m;
  }

  lemma InformationalIsPlain(i: nat)
    requires i < |INFORMATIONAL|
    ensures '\r' !in INFORMATIONAL[i]
  {
  }

  lemma SuccessfulIsPlain(i: nat)
    requires i < |SUCCESSFUL|
    ensures '\r' !in SUCCESSFUL[i]
  {
  }

  lemma RedirectionIsPlain(i: nat)
    requires i < |REDIRECTION|
    ensures '\r' !in REDIRECTION[i]
  {
  }

  lemma ClientErrorIsPlain(i: nat)
    requires i < |CLIENT_ERROR|
    ensures '\r' !in CLIENT_ERROR[i]
  {
  }

  lemma ServerErrorIsPlain(i: nat)
    requires i < |SERVER_ERROR|
    ensures '\r' !in SERVER_ERROR[i]
  {
    if i < 4 {} else if i < 8 {} else {}
  }

  lemma MessagesArePlain(row: nat, i: nat)
    requires row < 5 && i < |STATUS_MESSAGES[row]|
    ensures '\r' !in STATUS_MESSAGES[row][i]
  {
    if row == 0 { InformationalIsPlain(i); }
    else if row == 1 { SuccessfulIsPlain(i); }
    else if row == 2 { RedirectionIsPlain(i); }
    else if row == 3 { ClientErrorIsPlain(i); }
    else { ServerErrorIsPlain(i); }
  }

  // ---------- the round trip ----------

  /** The parser a response leaves behind: the map, the body's size, and nothing else. */
  function Reread(entries: Entries, body: string): Parser {
    HeadDone(WithEntries(FRESH.(state := Headers), entries), body)
  }

  lemma RereadKeepsMap(entries: Entries, body: string)
    ensures var q := Reread(entries, body);
            && q.headers == ToMap(entries)
            && q.contentLength == (if body == "" then None else Some(|body|)) && q.bodyLength == 0
            && q.state == if body == "" then Done else Body
  {
    assert map[] + ToMap(entries) == ToMap(entries);
  }

  /** Printing and parsing a response: the headers come back as the same map, the announced
      length is the body's size and exactly the body is left over. */
  lemma ResponseRoundTrip(code: int, version: HttpVersion, entries: Entries, body: string)
    requires DistinctKeys(entries) && AllOk(entries) && |body| < 0x8000_0000
    ensures RunHead(FRESH, ResponseText(code, version, entries, body)) == (Reread(entries, body), body)
  {
    var p := FRESH.(state := Headers);
    StatusLineParsed(code, version);
    StatusLineIsPlain(code, version);
    RunLine(FRESH, StatusText(code, version), HeaderLines(entries) + Tail(body));
    HeadersParsed(p, entries, Tail(body));
    TailParsed(WithEntries(p, entries), body);
  }

  // ---------- and what can never come back ----------

  /** Every stored header is one that printing would preserve. */
  predicate ParsedOk(m: map<string, string>) {
    forall k | k in m :: EntryOk((k, m[k]))
  }

  /** What PopLine hands out. */
  predicate OneLine(line: string) {
    |line| >= 2 && CrlfIndex(line) == |line| - 2
  }

  lemma StoredNameOk(line: string, k: nat, c: nat)
    requires OneLine(line) && k == IndexFrom(line, 0, NotSpace) && c == IndexFrom(line, k, IsColon) && c < |line|
    requires Classify(CString(line, k)) == OtherHeader
    ensures ':' !in line[..c] && !HasCrlf(line[..c]) && !IsReserved(line[..c])
  {
    var key := line[..c];
    forall i | 0 <= i < c ensures key[i] != ':' {
      assert key[i] == line[i];
      assert i < k ==> !NotSpace(line[i]);
    }
    forall i | 0 <= i < |key| ensures !CrlfAt(key, i) {
      if CrlfAt(key, i) {
        assert CrlfAt(line, i);
      }
    }
    assert line == key + ":" + line[c + 1..];
    ClassifyLine(key, line[c + 1..]);
  }

  lemma StoredValueOk(line: string, off: nat)
    ensures var v := Field(line, off);
            '\r' !in v && '\n' !in v && (v != "" ==> v[0] != ' ')
  {
    var b := IndexFrom(line, off, NotSpace);
    var e := IndexFrom(line, b, IsEol);
    var v := Field(line, off);
    forall i | 0 <= i < |v| ensures v[i] != '\r' && v[i] != '\n' {
      assert v[i] == line[b + i] && !IsEol(line[b + i]);
    }
  }

  /** Only an ordinary header line touches the map. */
  lemma OtherPushes(p: Parser, line: string)
    ensures Push(p, line).headers != p.headers ==>
            p.state == Headers && line != "\r\n" && Classify(CString(line, IndexFrom(line, 0, NotSpace))) == OtherHeader
  {
  }

  lemma EmplaceOk(m: map<string, string>, k: string, v: string)
    requires ParsedOk(m) && EntryOk((k, v))
    ensures ParsedOk(Emplace(m, k, v))
  {
  }

  lemma HeaderStoresOk(p: Parser, line: string, k: nat)
    requires p.state == Headers && ParsedOk(p.headers) && OneLine(line)
    requires k == IndexFrom(line, 0, NotSpace) && Classify(CString(line, k)) == OtherHeader
    ensures ParsedOk(Branch(p, line, k, OtherHeader).headers)
  {
    var c := IndexFrom(line, k, IsColon);
    if c < |line| {
      StoredNameOk(line, k, c);
      StoredValueOk(line, c + 1);
      EmplaceOk(p.headers, line[..c], Field(line, c + 1));
    }
  }

  lemma PushStoresOk(p: Parser, line: string)
    requires ParsedOk(p.headers) && OneLine(line)
    ensures ParsedOk(Push(p, line).headers)
  {
    OtherPushes(p, line);
    if Push(p, line).headers != p.headers {
      TakesBranch(p, line);
      HeaderStoresOk(p, line, IndexFrom(line, 0, NotSpace));
    }
  }

  lemma {:induction false} HeadStoresOk(p: Parser, s: string)
    requires ParsedOk(p.headers)
    ensures ParsedOk(RunHead(p, s).0.headers)
    decreases |s|
  {
    var i := CrlfIndex(s);
    if InHead(p) && i < |s| {
      var line := s[..i + 2];
      assert CrlfAt(line, i);
      forall k | 0 <= k < i ensures !CrlfAt(line, k) { assert !CrlfAt(s, k); }
      CrlfIndexUnique(line, i);
      PushStoresOk(p, line);
      HeadStoresOk(Push(p, line), s[i + 2..]);
    }
  }

  lemma {:induction false} EntriesOfMap(entries: Entries, i: nat)
    requires DistinctKeys(entries) && i < |entries|
    ensures entries[i].0 in ToMap(entries) && ToMap(entries)[entries[i].0] == entries[i].1
    decreases |entries|
  {
    if i > 0 {
      var rest := entries[1..];
      assert rest[i - 1] == entries[i];
      forall x, y | 0 <= x < y < |rest| ensures rest[x].0 != rest[y].0 {
        assert rest[x] == entries[x + 1] && rest[y] == entries[y + 1];
      }
      EntriesOfMap(rest, i - 1);
    }
  }

  /** The printed headers come back unchanged exactly when every one of them can be checked
      beforehand to be printable: no colon and no CR LF in the name, no reserved name, and a
      value that neither starts with a blank nor holds a CR or LF. */
  lemma HeadersRoundTripIff(code: int, version: HttpVersion, entries: Entries, body: string)
    requires DistinctKeys(entries) && |body| < 0x8000_0000
    ensures RunHead(FRESH, ResponseText(code, version, entries, body)).0.headers == ToMap(entries) <==> AllOk(entries)
  {
    if AllOk(entries) {
      ResponseRoundTrip(code, version, entries, body);
      RereadKeepsMap(entries, body);
    } else {
      var e :| e in entries && !EntryOk(e);
      var i :| 0 <= i < |entries| && entries[i] == e;
      EntriesOfMap(entries, i);
      HeadStoresOk(FRESH, ResponseText(code, version, entries, body));
    }
  }
}
