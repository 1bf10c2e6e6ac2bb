/** What each kind of header line does, said on its text. */
module FieldLaws {
  import opened Str
  import opened Wrappers
  import opened HeaderParser
  import opened HeaderParserLaws
  import opened Response
  import opened ResponseLaws

  /** Where the name of a header stands: behind the leading blanks. */
  function Indent(line: string): nat { IndexFrom(line, 0, NotSpace) }

  lemma IndentInside(line: string)
    requires ProperLine(line)
    ensures Indent(line) < |line|
  {
    assert line[|line| - 2..][0] == '\r';
    assert line[|line| - 2] == '\r' && NotSpace(line[|line| - 2]);
  }

  /** The line is called by this name, in any case. */
  predicate Called(line: string, name: string) { IcasePrefix(line[Indent(line)..], name) }

  /** The branch a proper line takes is decided by its name. */
  lemma BranchByName(line: string)
    requires ProperLine(line)
    ensures Classify(CString(line, Indent(line))) ==
            if Called(line, "content-length:") then ContentLengthHeader
            else if Called(line, "upgrade:") then UpgradeHeader
            else if Called(line, "host:") then HostHeader
            else if Called(line, "connection:") then ConnectionHeader
            else if Called(line, "user-agent:") then UserAgentHeader
            else OtherHeader
  {
    var k := Indent(line);
    IndentInside(line);
    CompareOnProperLine(line, k, CONTENT_LENGTH_KEY);
    CompareOnProperLine(line, k, UPGRADE_KEY);
    CompareOnProperLine(line, k, HOST_KEY);
    CompareOnProperLine(line, k, CONNECTION_KEY);
    CompareOnProperLine(line, k, USER_AGENT_KEY);
  }

  /** A line has at most one of two names that differ at position i. */
  lemma OneName(line: string, a: string, b: string, i: nat)
    requires i < |a| && i < |b| && Lower(a[i]) != Lower(b[i])
    ensures !(Called(line, a) && Called(line, b))
  {
    if Called(line, a) { assert Lower(line[Indent(line)..][i]) == Lower(a[i]); }
  }

  // ---------- values ----------

  /** From position off on the line reads: blanks, the value, the end of the line. */
  predicate ValueAt(line: string, off: nat, blanks: string, v: string, rest: string) {
    && off <= |line| && line[off..] == blanks + (v + rest)
    && (forall c | c in blanks :: c == ' ')
    && '\r' !in v && '\n' !in v && (v != "" ==> v[0] != ' ')
    && rest != "" && (rest[0] == '\r' || rest[0] == '\n')
  }

  lemma Behind(s: string, off: nat, blanks: string, v: string, rest: string)
    requires off <= |s| && s[off..] == blanks + (v + rest)
    ensures off + |blanks| + |v| <= |s|
    ensures forall i | 0 <= i < |blanks| :: s[off + i] == blanks[i]
    ensures forall i | 0 <= i < |v| :: s[off + |blanks| + i] == v[i]
    ensures rest != "" ==> off + |blanks| + |v| < |s| && s[off + |blanks| + |v|] == rest[0]
    ensures s[off + |blanks|..off + |blanks| + |v|] == v
  {
    var t := s[off..];
    forall i | 0 <= i < |t| ensures s[off + i] == t[i] {}
    forall i | 0 <= i < |v| ensures s[off + |blanks| + i] == v[i] { assert t[|blanks| + i] == v[i]; }
    if rest != "" { assert t[|blanks| + |v|] == rest[0]; }
  }

  /** After the blanks. */
  lemma ValueStarts(line: string, off: nat, blanks: string, v: string, rest: string)
    requires ValueAt(line, off, blanks, v, rest)
    ensures IndexFrom(line, off, NotSpace) == off + |blanks|
  {
    Behind(line, off, blanks, v, rest);
    forall k | off <= k < off + |blanks| ensures line[k] == ' ' {
      assert line[off + (k - off)] == blanks[k - off] && blanks[k - off] in blanks;
    }
    if v != "" { assert line[off + |blanks| + 0] == v[0]; }
    IndexFromUnique(line, off, off + |blanks|, NotSpace);
  }

  lemma FieldIs(line: string, off: nat, blanks: string, v: string, rest: string)
    requires ValueAt(line, off, blanks, v, rest)
    ensures Field(line, off) == v
  {
    ValueStarts(line, off, blanks, v, rest);
    Behind(line, off, blanks, v, rest);
    var b := off + |blanks|;
    forall k | b <= k < b + |v| ensures !IsEol(line[k]) {
      assert line[b + (k - b)] == v[k - b] && v[k - b] in v;
    }
    IndexFromUnique(line, b, b + |v|, IsEol);
  }

  // ---------- the branches ----------

  lemma HostKind(line: string)
    requires ProperLine(line) && Called(line, "host:")
    ensures Classify(CString(line, Indent(line))) == HostHeader && line != "\r\n"
  {
    NotBlankLine(line, "host:");
    OneName(line, "host:", "content-length:", 0);
    OneName(line, "host:", "upgrade:", 0);
    BranchByName(line);
  }

  /** A Host line, with its name in any case, sets the host to its value and nothing else. */
  lemma HostLine(p: Parser, line: string, blanks: string, v: string, rest: string)
    requires p.state == Headers && ProperLine(line) && Called(line, "host:")
    requires ValueAt(line, Indent(line) + 5, blanks, v, rest)
    ensures Push(p, line) == p.(host := v)
  {
    HostKind(line);
    FieldIs(line, Indent(line) + 5, blanks, v, rest);
    TakesBranch(p, line);
    HostBranch(p, line, Indent(line), v);
  }

  lemma NotBlankLine(line: string, name: string)
    requires Called(line, name) && |name| > 2
    ensures line != "\r\n"
  {
  }

  lemma HostBranch(p: Parser, line: string, k: nat, v: string)
    requires p.state == Headers && Field(line, k + 5) == v
    ensures Branch(p, line, k, HostHeader) == p.(host := v)
  {
    assert |HOST_KEY| == 5;
  }

  lemma UserAgentKind(line: string)
    requires ProperLine(line) && Called(line, "user-agent:")
    ensures Classify(CString(line, Indent(line))) == UserAgentHeader && line != "\r\n"
  {
    NotBlankLine(line, "user-agent:");
    OneName(line, "user-agent:", "content-length:", 0);
    OneName(line, "user-agent:", "upgrade:", 1);
    OneName(line, "user-agent:", "host:", 0);
    OneName(line, "user-agent:", "connection:", 0);
    BranchByName(line);
  }

  /** And a User-Agent line the user agent. */
  lemma UserAgentLine(p: Parser, line: string, blanks: string, v: string, rest: string)
    requires p.state == Headers && ProperLine(line) && Called(line, "user-agent:")
    requires ValueAt(line, Indent(line) + 11, blanks, v, rest)
    ensures Push(p, line) == p.(userAgent := v)
  {
    UserAgentKind(line);
    FieldIs(line, Indent(line) + 11, blanks, v, rest);
    TakesBranch(p, line);
    UserAgentBranch(p, line, Indent(line), v);
  }

  lemma UserAgentBranch(p: Parser, line: string, k: nat, v: string)
    requires p.state == Headers && Field(line, k + 11) == v
    ensures Branch(p, line, k, UserAgentHeader) == p.(userAgent := v)
  {
    assert |USER_AGENT_KEY| == 11;
  }

  /** A Content-Length line, with its name in any case, sets the announced length to the number
      its digits denote, cut to 32 bits. */
  lemma ContentLengthLine(p: Parser, line: string, blanks: string, n: nat, rest: string)
    requires p.state == Headers && ProperLine(line) && Called(line, "content-length:")
    requires Indent(line) + 15 <= |line| && line[Indent(line) + 15..] == blanks + (Decimal(n) + rest)
    requires (forall c | c in blanks :: c == ' ') && rest != "" && !IsDigit(rest[0])
    ensures Push(p, line) == p.(contentLength := Some(Kept(n)))
  {
    var k := Indent(line);
    NotBlankLine(line, "content-length:");
    BranchByName(line);
    NumberIs(line, k + 15, blanks, n, rest);
    TakesBranch(p, line);
    ContentLengthBranch(p, line, k, Kept(n));
  }

  lemma ContentLengthBranch(p: Parser, line: string, k: nat, n: nat)
    requires p.state == Headers && Number(line, k + 15) == n
    ensures Branch(p, line, k, ContentLengthHeader) == p.(contentLength := Some(n))
  {
    assert |CONTENT_LENGTH_KEY| == 15;
  }

  lemma NumberIs(line: string, off: nat, blanks: string, n: nat, rest: string)
    requires off <= |line| && line[off..] == blanks + (Decimal(n) + rest)
    requires (forall c | c in blanks :: c == ' ') && rest != "" && !IsDigit(rest[0])
    ensures Number(line, off) == Kept(n)
  {
    DecimalDigits(n);
    BlanksThenDigits(line, off, blanks, Decimal(n), rest);
    NumberFrom(line, off, off + |blanks|, n);
  }

  lemma NumberFrom(line: string, off: nat, at: nat, n: nat)
    requires at == IndexFrom(line, off, NotSpace) && DigitsAt(line, at, Decimal(n))
    ensures Number(line, off) == Kept(n)
  {
    AtoiOfDecimal(line, at, n);
  }

  lemma BlanksThenDigits(line: string, off: nat, blanks: string, d: string, rest: string)
    requires off <= |line| && line[off..] == blanks + (d + rest) && d != "" && (forall c | c in d :: IsDigit(c))
    requires (forall c | c in blanks :: c == ' ') && rest != "" && !IsDigit(rest[0])
    ensures IndexFrom(line, off, NotSpace) == off + |blanks| && DigitsAt(line, off + |blanks|, d)
  {
    Behind(line, off, blanks, d, rest);
    forall k | off <= k < off + |blanks| ensures line[k] == ' ' {
      assert line[off + (k - off)] == blanks[k - off] && blanks[k - off] in blanks;
    }
    assert line[off + |blanks| + 0] == d[0] && d[0] in d;
    IndexFromUnique(line, off, off + |blanks|, NotSpace);
  }

  /** A header that is given again keeps its first value. */
  lemma FirstValueStays(p: Parser, e: (string, string))
    requires p.state == Headers && EntryOk(e) && e.0 in p.headers
    ensures Push(p, HeaderLine(e)) == p
  {
    ParsedHeader(p, e);
  }

  /** A header line without a colon behind its name is ignored. */
  lemma NoColonLine(p: Parser, line: string)
    requires p.state == Headers && ProperLine(line) && line != "\r\n" && ':' !in line
    ensures Push(p, line) == p
  {
    NoName(line, "content-length:", 14);
    NoName(line, "upgrade:", 7);
    NoName(line, "host:", 4);
    NoName(line, "connection:", 10);
    NoName(line, "user-agent:", 10);
    BranchByName(line);
    TakesBranch(p, line);
    IndentInside(line);
    IndexFromUnique(line, Indent(line), |line|, IsColon);
  }

  lemma NoName(line: string, name: string, i: nat)
    requires ':' !in line && i < |name| && name[i] == ':'
    ensures !Called(line, name)
  {
    var s := line[Indent(line)..];
    if i < |s| {
      assert s[i] in line;
      SameLetterIff(s[i], ':');
    }
  }
}
