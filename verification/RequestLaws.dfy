/** Requests as clients write them: what the parser makes of their first line and their head. */
module RequestLaws {
  import opened Sequences
  import opened Str
  import opened Http
  import opened Wrappers
  import opened HeaderParser
  import opened HeaderParserLaws
  import opened ConnectionLaws
  import opened Response
  import opened ResponseLaws
  import opened FieldLaws

  // ---------- the first line ----------

  /** The methods the source recognises. */
  predicate Known(m: HttpMethod) { m == GET || m == PUT || m == POST }

  function MethodText(m: HttpMethod): string
    requires Known(m)
  {
    match m
    case GET => "GET"
    case PUT => "PUT"
    case POST => "POST"
  }

  /** What stands behind the method: the URI, and the text in which the version is looked for. */
  function Target(uri: string, tail: string): string { " " + (uri + (" " + tail)) }

  function RequestLine(m: HttpMethod, uri: string, v: HttpVersion): string
    requires Known(m)
  {
    MethodText(m) + Target(uri, HttpVersionToString(v) + "\r\n")
  }

  lemma MethodRead(m: HttpMethod, more: string)
    requires Known(m)
    ensures ParseHttpMethod(MethodText(m) + more, 0) == (m, |MethodText(m)|)
  {
    var line := MethodText(m) + more;
    assert line[..|MethodText(m)|] == MethodText(m);
    assert line[0] == MethodText(m)[0] && line[1] == MethodText(m)[1];
    if m == POST {
      assert line[..3][1] == 'O';
    }
  }

  /** A piece in the middle of a text. */
  lemma Middle(a: string, b: string, c: string)
    ensures var s := a + (b + c);
            && s[|a|..|a| + |b|] == b && s[|a| + |b|..] == c
            && forall k | 0 <= k < |b| :: s[|a| + k] == b[k]
  {
  }

  lemma VersionIsPlain(v: HttpVersion)
    ensures var t := HttpVersionToString(v); t != "" && ' ' !in t && '\0' !in t && '\r' !in t
  {
  }

  /** Between blanks a word without blanks is found. */
  lemma WordRead(line: string, at: nat, word: string)
    requires word != "" && ' ' !in word && at + |word| + 1 < |line| && line[at + 1..at + 1 + |word|] == word
    requires line[at] == ' ' && line[at + 1 + |word|] == ' '
    ensures IndexFrom(line, at, NotSpace) == at + 1 && IndexFrom(line, at + 1, IsBlank) == at + 1 + |word|
  {
    assert forall k | 0 <= k < |word| :: line[at + 1 + k] == word[k];
    IndexFromUnique(line, at, at + 1, NotSpace);
    forall k | at + 1 <= k < at + 1 + |word| ensures line[k] != ' ' {
      assert line[k] == word[k - at - 1];
    }
    IndexFromUnique(line, at + 1, at + 1 + |word|, IsBlank);
  }

  /** Where the parts of the target stand behind a method. */
  lemma TargetPlaces(w: string, uri: string, tail: string)
    ensures var line := w + Target(uri, tail); var at := |w| + 1 + |uri|;
            && at < |line| && line[|w|] == ' ' && line[|w| + 1..at] == uri && line[at] == ' '
            && line[at..] == " " + tail
  {
    Assoc(w, " ", uri + (" " + tail));
    Middle(w + " ", uri, " " + tail);
    var line := w + Target(uri, tail);
    assert line[|w| + 1 + |uri|] == (" " + tail)[0];
  }

  lemma TailRead(line: string, at: nat, tail: string)
    requires at <= |line| && line[at..] == " " + tail && '\0' !in tail
    ensures CString(line, at + 1) == tail
  {
    assert line[at + 1..] == line[at..][1..] == tail;
    CStringNulFree(line, at + 1);
  }

  /** Whatever the line, the URI that is read holds no blank. */
  lemma NoBlankInUri(line: string)
    ensures ' ' !in ParseFirstLine(line).1
  {
  }

  /** An empty URI is taken for a missing one: what follows is read in its place. */
  lemma EmptyUri(m: HttpMethod, tail: string)
    requires Known(m) && tail != "" && tail[0] != ' '
    ensures ParseFirstLine(MethodText(m) + Target("", tail)).1 != ""
  {
    MethodRead(m, Target("", tail));
    TwoBlanks(MethodText(m), tail);
  }

  lemma TwoBlanks(w: string, tail: string)
    requires tail != "" && tail[0] != ' '
    ensures var line := w + Target("", tail);
            var start := IndexFrom(line, |w|, NotSpace);
            start < |line| && IndexFrom(line, start, IsBlank) > start
  {
    var line := w + Target("", tail);
    assert Target("", tail) == "  " + tail;
    Middle(w, "  ", tail);
    assert line[|w| + 2] == tail[0];
    IndexFromUnique(line, |w|, |w| + 2, NotSpace);
  }

  lemma PartsRead(line: string, m: HttpMethod, pos: nat, start: nat, next: nat)
    requires m != UNKNOWN_METHOD && ParseHttpMethod(line, 0) == (m, pos)
    requires start == IndexFrom(line, pos, NotSpace) && next == IndexFrom(line, start, IsBlank) < |line|
    ensures ParseFirstLine(line) == (m, line[start..next], ParseHttpVersion(CString(line, next + 1)))
  {
  }

  lemma LineRead(line: string, at: nat, m: HttpMethod, uri: string, tail: string)
    requires m != UNKNOWN_METHOD && ParseHttpMethod(line, 0) == (m, at)
    requires uri != "" && ' ' !in uri && at + 1 + |uri| < |line| && line[at] == ' ' && line[at + 1..at + 1 + |uri|] == uri
    requires line[at + 1 + |uri|] == ' ' && line[at + 1 + |uri|..] == " " + tail && '\0' !in tail
    ensures ParseFirstLine(line) == (m, uri, ParseHttpVersion(tail))
  {
    WordRead(line, at, uri);
    TailRead(line, at + 1 + |uri|, tail);
    PartsRead(line, m, at, at + 1, at + 1 + |uri|);
  }

  /** A method, a URI without blanks and anything: the version is what the rest begins with. */
  lemma FirstLineRead(m: HttpMethod, uri: string, tail: string)
    requires Known(m) && uri != "" && ' ' !in uri && '\0' !in tail
    ensures ParseFirstLine(MethodText(m) + Target(uri, tail)) == (m, uri, ParseHttpVersion(tail))
  {
    MethodRead(m, Target(uri, tail));
    TargetPlaces(MethodText(m), uri, tail);
    LineRead(MethodText(m) + Target(uri, tail), |MethodText(m)|, m, uri, tail);
  }

  /** Method, URI and version of a request line come back exactly if the URI is not empty and
      holds no blank, and the version is not WS. */
  lemma RequestLineIff(m: HttpMethod, uri: string, v: HttpVersion)
    requires Known(m)
    ensures ParseFirstLine(RequestLine(m, uri, v)) == (m, uri, v) <==> uri != "" && ' ' !in uri && v != WS
  {
    var tail := HttpVersionToString(v) + "\r\n";
    VersionIsPlain(v);
    if uri == "" {
      EmptyUri(m, tail);
    } else if ' ' in uri {
      NoBlankInUri(RequestLine(m, uri, v));
    } else {
      FirstLineRead(m, uri, tail);
      VersionRoundTrip(v, "\r\n");
      assert "\r\n"[0..2][0] != "S/"[0];
    }
  }

  /** Without a known method at its start nothing of the line is kept. */
  lemma NoKnownMethod(line: string)
    requires !("GET" <= line) && !("PUT" <= line) && !("POST" <= line)
    ensures ParseFirstLine(line) == (UNKNOWN_METHOD, "", UNKNOWN_VERSION)
  {
    MethodReadIff(line);
  }

  /** Without a second blank all that is left of the line, its end included, becomes the URI, and
      the version is unknown. */
  lemma NoSecondBlank(m: HttpMethod, uri: string)
    requires Known(m) && ' ' !in uri
    ensures ParseFirstLine(MethodText(m) + (" " + (uri + "\r\n"))) == (m, uri + "\r\n", UNKNOWN_VERSION)
  {
    var w, rest := MethodText(m), uri + "\r\n";
    var line := w + (" " + rest);
    MethodRead(m, " " + rest);
    Middle(w, " ", rest);
    assert line[|w| + 1..] == rest && line[|w| + 1] == rest[0] && ' ' !in rest;
    IndexFromUnique(line, |w|, |w| + 1, NotSpace);
    forall k | |w| + 1 <= k < |line| ensures line[k] != ' ' { assert line[|w| + 1..][k - |w| - 1] in rest; }
    IndexFromUnique(line, |w| + 1, |line|, IsBlank);
    NoVersionAtMethod(m, line);
    ToTheEnd(line, |w| + 1);
  }

  lemma ToTheEnd(s: string, i: nat)
    requires i <= |s|
    ensures s[i..|s|] == s[i..]
  {
  }

  lemma NoVersionAtMethod(m: HttpMethod, line: string)
    requires Known(m) && MethodText(m) <= line
    ensures ParseHttpVersion(CString(line, 0)) == UNKNOWN_VERSION
  {
    assert line[0] == MethodText(m)[0];
    var s := CString(line, 0);
    assert s[0] == line[0];
    NotAtStart(s, "HTTP/");
    NotAtStart(s, "WSS/");
  }

  // ---------- the head ----------

  /** A request with the entries as headers and, if it has a body, its length. */
  function RequestText(m: HttpMethod, uri: string, v: HttpVersion, entries: Entries, body: string): string
    requires Known(m)
  {
    RequestLine(m, uri, v) + (HeaderLines(entries) + Tail(body))
  }

  /** The name is this word, in any case. */
  predicate IsWord(name: string, word: string) { |name| == |word| && IcasePrefix(name, word) }

  /** A header as a request may carry it: one for the map, or a Host or User-Agent header. */
  predicate FieldOk(e: (string, string)) {
    EntryOk(e) ||
    ((IsWord(e.0, "host") || IsWord(e.0, "user-agent"))
     && '\r' !in e.1 && '\n' !in e.1 && '\0' !in e.1 && (e.1 != "" ==> e.1[0] != ' '))
  }

  predicate AllFieldsOk(entries: Entries) { forall e | e in entries :: FieldOk(e) }

  predicate RequestOk(m: HttpMethod, uri: string, v: HttpVersion, entries: Entries, body: string) {
    && Known(m) && uri != "" && ' ' !in uri && !HasCrlf(uri) && v != WS
    && DistinctKeys(entries) && AllFieldsOk(entries) && |body| < 0x8000_0000
  }

  /** The headers for the map. */
  function Ordinary(entries: Entries): Entries {
    if entries == [] then []
    else (if IsWord(entries[0].0, "host") || IsWord(entries[0].0, "user-agent") then [] else [entries[0]]) + Ordinary(entries[1..])
  }

  /** v is the value of the last header of that name or, if there is none, what was before. */
  predicate LastOr(entries: Entries, word: string, before: string, v: string) {
    || (v == before && forall i | 0 <= i < |entries| :: !IsWord(entries[i].0, word))
    || exists i | 0 <= i < |entries| && IsWord(entries[i].0, word) ::
         v == entries[i].1 && forall j | i < j < |entries| :: !IsWord(entries[j].0, word)
  }

  predicate LastNamed(entries: Entries, word: string, v: string) { LastOr(entries, word, "", v) }

  /** The parser behind the lines of these headers. */
  function FieldsRead(p: Parser, entries: Entries): Parser
    decreases |entries|
  {
    if entries == [] then p else FieldsRead(FieldRead(p, entries[0]), entries[1..])
  }

  function FieldRead(p: Parser, e: (string, string)): Parser {
    if IsWord(e.0, "host") then p.(host := e.1)
    else if IsWord(e.0, "user-agent") then p.(userAgent := e.1)
    else p.(headers := p.headers[e.0 := e.1])
  }

  /** The parser a request leaves behind. */
  function RequestRead(m: HttpMethod, uri: string, v: HttpVersion, entries: Entries, body: string): Parser {
    HeadDone(FieldsRead(FRESH.(state := Headers, httpMethod := m, uri := uri, version := v), entries), body)
  }

  /** The last of the values, or what was there before. */
  function LastOf(entries: Entries, word: string, before: string): string
    decreases |entries|
  {
    if entries == [] then before
    else LastOf(entries[1..], word, if IsWord(entries[0].0, word) then entries[0].1 else before)
  }

  lemma {:induction false} LastOfIs(entries: Entries, word: string, before: string)
    ensures LastOr(entries, word, before, LastOf(entries, word, before))
    decreases |entries|
  {
    if entries != [] {
      var e, rest := entries[0], entries[1..];
      var now := if IsWord(e.0, word) then e.1 else before;
      LastOfIs(rest, word, now);
      LastOrCons(e, rest, word, before, LastOf(rest, word, now));
      assert entries == [e] + rest;
    }
  }

  lemma LastOrCons(e: (string, string), rest: Entries, word: string, before: string, v: string)
    requires LastOr(rest, word, if IsWord(e.0, word) then e.1 else before, v)
    ensures LastOr([e] + rest, word, before, v)
  {
    var all := [e] + rest;
    assert forall i | 0 <= i < |rest| :: all[i + 1] == rest[i];
    if i :| 0 <= i < |rest| && IsWord(rest[i].0, word) && v == rest[i].1
            && forall j | i < j < |rest| :: !IsWord(rest[j].0, word)
    {
      assert IsWord(all[i + 1].0, word) && v == all[i + 1].1;
      forall j | i + 1 < j < |all| ensures !IsWord(all[j].0, word) { assert all[j] == rest[j - 1]; }
    } else {
      forall j | 0 < j < |all| ensures !IsWord(all[j].0, word) { assert all[j] == rest[j - 1]; }
      assert all[0] == e;
    }
  }

  lemma LastValue(entries: Entries, word: string)
    ensures LastNamed(entries, word, LastOf(entries, word, ""))
  {
    LastOfIs(entries, word, "");
  }

  lemma OrdinaryCons(e: (string, string), rest: Entries)
    ensures Ordinary([e] + rest) ==
            if IsWord(e.0, "host") || IsWord(e.0, "user-agent") then Ordinary(rest) else [e] + Ordinary(rest)
  {
    assert ([e] + rest)[1..] == rest;
  }

  lemma {:induction false} OrdinaryWithin(entries: Entries)
    ensures forall e | e in Ordinary(entries) :: e in entries
  {
    if entries != [] {
      OrdinaryWithin(entries[1..]);
      assert entries == [entries[0]] + entries[1..];
    }
  }

  lemma HostIsNotAgent(name: string)
    ensures !(IsWord(name, "host") && IsWord(name, "user-agent"))
  {
  }

  lemma MergeOne(m: map<string, string>, e: (string, string), rest: Entries)
    requires forall x | x in rest :: x.0 != e.0
    ensures m[e.0 := e.1] + ToMap(rest) == m + ToMap([e] + rest)
  {
    var all := [e] + rest;
    assert all[1..] == rest;
    forall i | 0 <= i < |rest| ensures rest[i].0 != e.0 { assert rest[i] in rest; }
  }

  lemma {:induction false} FieldsReadIs(p: Parser, entries: Entries)
    requires DistinctKeys(entries)
    ensures FieldsRead(p, entries) ==
            p.(headers := p.headers + ToMap(Ordinary(entries)),
               host := LastOf(entries, "host", p.host), userAgent := LastOf(entries, "user-agent", p.userAgent))
    decreases |entries|
  {
    if entries == [] {
      assert p.headers + map[] == p.headers;
    } else {
      var e, rest := entries[0], entries[1..];
      assert entries == [e] + rest;
      DistinctRest(entries);
      HostIsNotAgent(e.0);
      FieldsReadIs(FieldRead(p, e), rest);
      OrdinaryCons(e, rest);
      OrdinaryWithin(rest);
      MergeOne(p.headers, e, Ordinary(rest));
    }
  }

  lemma DistinctRest(entries: Entries)
    requires entries != [] && DistinctKeys(entries)
    ensures DistinctKeys(entries[1..]) && forall x | x in entries[1..] :: x.0 != entries[0].0
  {
    var rest := entries[1..];
    forall i, j | 0 <= i < j < |rest| ensures rest[i].0 != rest[j].0 {
      assert rest[i] == entries[i + 1] && rest[j] == entries[j + 1];
    }
    forall x | x in rest ensures x.0 != entries[0].0 {
      var i :| 0 <= i < |rest| && rest[i] == x;
      assert entries[i + 1] == x;
    }
  }

  // ---------- the lines ----------

  lemma SpecialLine(p: Parser, e: (string, string), word: string)
    requires p.state == Headers && IsWord(e.0, word) && (word == "host" || word == "user-agent")
    requires '\r' !in e.1 && '\n' !in e.1 && '\0' !in e.1 && (e.1 != "" ==> e.1[0] != ' ')
    ensures Push(p, HeaderLine(e)) == if word == "host" then p.(host := e.1) else p.(userAgent := e.1)
    ensures !HasCrlf(e.0 + ": " + e.1)
  {
    var line := HeaderLine(e);
    WordIsPlain(e.0, word);
    LineParts(e);
    SpecialText(e);
    SpecialName(e, word);
    ValueOfLine(e);
    if word == "host" { HostLine(p, line, " ", e.1, "\r\n"); } else { UserAgentLine(p, line, " ", e.1, "\r\n"); }
  }

  lemma ValueOfLine(e: (string, string))
    requires '\r' !in e.1 && '\n' !in e.1 && (e.1 != "" ==> e.1[0] != ' ')
    ensures ValueAt(HeaderLine(e), |e.0| + 1, " ", e.1, "\r\n")
  {
    assert HeaderLine(e)[|e.0| + 1..] == " " + (e.1 + "\r\n");
  }

  lemma WordIsPlain(name: string, word: string)
    requires IsWord(name, word) && (word == "host" || word == "user-agent")
    ensures name != "" && ' ' !in name && '\r' !in name && '\n' !in name && '\0' !in name
  {
    forall c | c in name ensures c != ' ' && c != '\r' && c != '\n' && c != '\0' {
      var i :| 0 <= i < |name| && name[i] == c;
      assert Lower(c) == Lower(word[i]);
      assert word[i] in word;
      SameLetterIff(c, word[i]);
    }
  }

  lemma SpecialText(e: (string, string))
    requires '\r' !in e.0 && '\n' !in e.0 && '\0' !in e.0 && '\r' !in e.1 && '\n' !in e.1 && '\0' !in e.1
    ensures ProperLine(HeaderLine(e)) && !HasCrlf(e.0 + ": " + e.1)
  {
    var t := e.0 + ": " + e.1;
    forall c | c in t ensures c != '\r' && c != '\0' { assert c in e.0 || c in ": " || c in e.1; }
    assert HeaderLine(e) == t + "\r\n";
    forall i | 0 <= i < |t| ensures !CrlfAt(t, i) { assert t[i] in t; }
  }

  lemma SpecialName(e: (string, string), word: string)
    requires IsWord(e.0, word) && e.0 != "" && ' ' !in e.0
    ensures Indent(HeaderLine(e)) == 0 && Called(HeaderLine(e), word + ":")
  {
    var line := HeaderLine(e);
    LineParts(e);
    assert line[0] == e.0[0] && e.0[0] in e.0;
    IndexFromUnique(line, 0, 0, NotSpace);
    assert line[0..] == line;
    forall i | 0 <= i < |word| + 1 ensures Lower(line[i]) == Lower((word + ":")[i]) {
      if i < |word| { assert line[i] == e.0[i]; }
    }
  }

  lemma OneField(p: Parser, e: (string, string), more: string)
    requires p.state == Headers && FieldOk(e) && e.0 !in p.headers
    ensures RunHead(p, HeaderLine(e) + more) == RunHead(FieldRead(p, e), more)
  {
    HostIsNotAgent(e.0);
    if IsWord(e.0, "host") {
      NotOrdinary(e, "host");
      SpecialLine(p, e, "host");
      RunLine(p, e.0 + ": " + e.1, more);
    } else if IsWord(e.0, "user-agent") {
      NotOrdinary(e, "user-agent");
      SpecialLine(p, e, "user-agent");
      RunLine(p, e.0 + ": " + e.1, more);
    } else {
      OneHeader(p, e, more);
    }
  }

  /** A Host or User-Agent header is reserved. */
  lemma NotOrdinary(e: (string, string), word: string)
    requires IsWord(e.0, word) && (word == "host" || word == "user-agent")
    ensures !EntryOk(e)
  {
    WordIsPlain(e.0, word);
    assert e.0[0] in e.0;
    IndexFromUnique(e.0, 0, 0, NotSpace);
    assert DropBlanks(e.0) == e.0;
    assert word + ":" in RESERVED by { assert RESERVED[2] == "host" + ":" && RESERVED[4] == "user-agent" + ":"; }
    assert Shadows(e.0, word + ":");
  }

  lemma {:induction false} FieldsParsed(p: Parser, entries: Entries, tail: string)
    requires p.state == Headers && AllFieldsOk(entries) && DistinctKeys(entries) && NewKeys(p.headers, entries)
    ensures RunHead(p, HeaderLines(entries) + tail) == RunHead(FieldsRead(p, entries), tail)
    decreases |entries|
  {
    if entries == [] {
      NoLines(tail);
    } else {
      var e, rest := entries[0], entries[1..];
      assert e in entries && forall x | x in rest :: x in entries;
      DistinctRest(entries);
      LinesCons(entries, tail);
      OneField(p, e, HeaderLines(rest) + tail);
      FieldsParsed(FieldRead(p, e), rest, tail);
    }
  }

  lemma RequestReadIs(m: HttpMethod, uri: string, v: HttpVersion, entries: Entries, body: string)
    requires DistinctKeys(entries)
    ensures var q := RequestRead(m, uri, v, entries, body);
            && q.httpMethod == m && q.uri == uri && q.version == v && q.headers == ToMap(Ordinary(entries))
            && LastNamed(entries, "host", q.host) && LastNamed(entries, "user-agent", q.userAgent)
            && q.contentLength == (if body == "" then None else Some(|body|))
            && q.upgradeFlags == {} && q.connectionFlags == {}
            && q.state == if body == "" then Done else Body
  {
    var p := FRESH.(state := Headers, httpMethod := m, uri := uri, version := v);
    FieldsReadIs(p, entries);
    LastValue(entries, "host");
    LastValue(entries, "user-agent");
    assert map[] + ToMap(Ordinary(entries)) == ToMap(Ordinary(entries));
  }

  /** Text around a piece without line ends, itself without carriage returns and line feeds. */
  lemma NoLineEndAround(a: string, s: string, b: string)
    requires !HasCrlf(s) && '\r' !in a && '\r' !in b && '\n' !in b
    ensures !HasCrlf(a + (s + b))
  {
    var t := a + (s + b);
    forall i | 0 <= i < |t| ensures !CrlfAt(t, i) {
      assert i < |a| ==> t[i] == a[i];
      assert i >= |a| + |s| ==> t[i] == b[i - |a| - |s|];
      if |a| <= i < |a| + |s| {
        assert t[i] == s[i - |a|] && !CrlfAt(s, i - |a|);
        assert i + 1 == |a| + |s| < |t| ==> t[i + 1] == b[0];
      }
    }
  }

  lemma Regroup(w: string, x: string, uri: string, y: string, t: string, e: string)
    ensures w + (x + (uri + (y + (t + e)))) == ((w + x) + (uri + (y + t))) + e
  {
    Assoc(y, t, e);
    Assoc(uri, y + t, e);
    Assoc(w, x, uri + ((y + t) + e));
    Assoc(w + x, uri + (y + t), e);
  }

  /** The request line holds no line end before its own. */
  lemma RequestLineIsOne(m: HttpMethod, uri: string, v: HttpVersion)
    requires Known(m) && !HasCrlf(uri)
    ensures var line := RequestLine(m, uri, v); var t := line[..|line| - 2];
            !HasCrlf(t) && line == t + "\r\n"
  {
    var a, b := MethodText(m) + " ", " " + HttpVersionToString(v);
    VersionIsPlain(v);
    NoLineEndAround(a, uri, b);
    var line := RequestLine(m, uri, v);
    Regroup(MethodText(m), " ", uri, " ", HttpVersionToString(v), "\r\n");
    assert line[..|line| - 2] == a + (uri + b);
  }

  /** Splitting and pushing a request gives back method, URI, version, map and length, and leaves
      exactly the body. */
  lemma RequestRoundTrip(m: HttpMethod, uri: string, v: HttpVersion, entries: Entries, body: string)
    requires RequestOk(m, uri, v, entries, body)
    ensures RunHead(FRESH, RequestText(m, uri, v, entries, body)) == (RequestRead(m, uri, v, entries, body), body)
  {
    var p := FRESH.(state := Headers, httpMethod := m, uri := uri, version := v);
    var line := RequestLine(m, uri, v);
    RequestLineIff(m, uri, v);
    RequestLineIsOne(m, uri, v);
    assert Push(FRESH, line) == p;
    RunLine(FRESH, line[..|line| - 2], HeaderLines(entries) + Tail(body));
    FieldsParsed(p, entries, Tail(body));
    FieldsReadIs(p, entries);
    TailParsed(FieldsRead(p, entries), body);
  }
}
