/** From the text of a head to the table of connections: which requests become WebSockets. */
module UpgradeLaws {
  import opened Sequences
  import opened Str
  import opened Wrappers
  import opened Http
  import opened HeaderParser
  import opened HeaderParserLaws
  import opened Connection
  import opened ConnectionLaws
  import opened FieldLaws
  import opened RequestLaws
  import opened Server

  // ---------- the flags behind the lines of a head ----------

  /** A header line of a head: one proper line, and not the blank one. */
  predicate HeaderText(line: string) {
    ProperLine(line) && line != "\r\n" && CrlfIndex(line) == |line| - 2
  }

  /** An Upgrade line that mentions "websocket" behind the character that follows its colon. */
  predicate SaysWebsocket(line: string) {
    Called(line, "upgrade:") && Occurs(line, "websocket", Indent(line) + 9)
  }

  /** A Connection line of which some part names "upgrade". */
  predicate SaysUpgrade(line: string) {
    Called(line, "connection:") && Indent(line) + 12 <= |line|
    && exists part | part in Parts(line, Indent(line) + 12) :: Names(part, "upgrade")
  }

  lemma OneLineFlags(p: Parser, line: string)
    requires p.state == Headers && HeaderText(line) && Push(p, line).state == Headers
    ensures var q := Push(p, line);
            && (UpgradeWebSocket in q.upgradeFlags <==> UpgradeWebSocket in p.upgradeFlags || SaysWebsocket(line))
            && (ConnectionUpgrade in q.connectionFlags <==> ConnectionUpgrade in p.connectionFlags || SaysUpgrade(line))
            && q.version == p.version
  {
    var k := Indent(line);
    IndentInside(line);
    OneName(line, "upgrade:", "connection:", 0);
    if Called(line, "upgrade:") {
      UpgradeLine(p, line, k);
    } else if Called(line, "connection:") {
      ConnectionLine(p, line, k);
    } else {
      BranchByName(line);
      TakesBranch(p, line);
      OtherFlags(p, line, k, Classify(CString(line, k)));
    }
  }

  lemma OtherFlags(p: Parser, line: string, k: nat, kind: HeaderKind)
    requires p.state == Headers && kind != UpgradeHeader && kind != ConnectionHeader
    ensures var q := Branch(p, line, k, kind);
            q.upgradeFlags == p.upgradeFlags && q.connectionFlags == p.connectionFlags && q.version == p.version
  {
  }

  function PushLines(p: Parser, lines: seq<string>): Parser
    decreases |lines|
  {
    if lines == [] then p else PushLines(Push(p, lines[0]), lines[1..])
  }

  /** A line that hangs is the last one. */
  lemma {:induction false} HungStays(p: Parser, lines: seq<string>)
    requires p.state == Hung
    ensures PushLines(p, lines).state == Hung
    decreases |lines|
  {
    if lines != [] { HungStays(Push(p, lines[0]), lines[1..]); }
  }

  lemma FirstStaysInHead(p: Parser, lines: seq<string>)
    requires p.state == Headers && lines != [] && HeaderText(lines[0]) && PushLines(p, lines).state == Headers
    ensures Push(p, lines[0]).state == Headers
  {
    var q := Push(p, lines[0]);
    assert q.state == Headers || q.state == Hung;
    if q.state == Hung { HungStays(q, lines[1..]); }
  }

  lemma {:induction false} HeadFlags(p: Parser, lines: seq<string>)
    requires p.state == Headers && (forall line | line in lines :: HeaderText(line)) && PushLines(p, lines).state == Headers
    ensures var q := PushLines(p, lines);
            && (UpgradeWebSocket in q.upgradeFlags <==>
                UpgradeWebSocket in p.upgradeFlags || exists line | line in lines :: SaysWebsocket(line))
            && (ConnectionUpgrade in q.connectionFlags <==>
                ConnectionUpgrade in p.connectionFlags || exists line | line in lines :: SaysUpgrade(line))
            && q.version == p.version
    decreases |lines|
  {
    if lines != [] {
      var line, rest := lines[0], lines[1..];
      assert line in lines && forall x :: x in lines <==> x == line || x in rest;
      FirstStaysInHead(p, lines);
      OneLineFlags(p, line);
      HeadFlags(Push(p, line), rest);
    }
  }

  // ---------- the text of a head ----------

  function Flat(lines: seq<string>): string { if lines == [] then "" else lines[0] + Flat(lines[1..]) }

  lemma {:induction false} LinesRead(p: Parser, lines: seq<string>, rest: string)
    requires p.state == Headers && (forall line | line in lines :: HeaderText(line)) && PushLines(p, lines).state == Headers
    ensures RunHead(p, Flat(lines) + rest) == RunHead(PushLines(p, lines), rest)
    decreases |lines|
  {
    if lines == [] {
      assert "" + rest == rest;
    } else {
      var line, more := lines[0], Flat(lines[1..]) + rest;
      assert line in lines && forall x | x in lines[1..] :: x in lines;
      FirstStaysInHead(p, lines);
      LinesRead(Push(p, line), lines[1..], rest);
      Assoc(line, Flat(lines[1..]), rest);
      OneLineFirst(line, more);
      StepHead(p, line + more, line, more);
    }
  }

  lemma OneLineFirst(line: string, more: string)
    requires |line| >= 2 && CrlfIndex(line) == |line| - 2
    ensures SplitsInto(line + more, line, more)
  {
    assert line[..|line|] == line && line[|line|..] == "" && "" + more == more;
    SplitMore(line, line, "", more);
  }

  /** A request line: method, URI, and a text in which the version is looked for. */
  predicate FirstOk(m: HttpMethod, uri: string, tail: string) {
    && Known(m) && uri != "" && ' ' !in uri && '\0' !in tail
    && |tail| >= 2 && CrlfIndex(MethodText(m) + Target(uri, tail)) == |MethodText(m) + Target(uri, tail)| - 2
  }

  /** The parser when the blank line is due. */
  function BeforeBlank(m: HttpMethod, uri: string, tail: string, lines: seq<string>): Parser
    requires Known(m)
  {
    PushLines(Push(FRESH, MethodText(m) + Target(uri, tail)), lines)
  }

  /** Its lines can be read: each is one proper line, and none of them hangs. */
  predicate Readable(m: HttpMethod, uri: string, tail: string, lines: seq<string>) {
    FirstOk(m, uri, tail) && (forall line | line in lines :: HeaderText(line)) && BeforeBlank(m, uri, tail, lines).state == Headers
  }

  lemma FirstPushed(m: HttpMethod, uri: string, tail: string)
    requires FirstOk(m, uri, tail)
    ensures Push(FRESH, MethodText(m) + Target(uri, tail)) ==
            FRESH.(state := Headers, httpMethod := m, uri := uri, version := ParseHttpVersion(tail))
  {
    FirstLineRead(m, uri, tail);
  }

  /** Splitting the text of such a head and pushing its lines leaves that parser, behind the blank
      line, and what follows it. */
  lemma HeadRead(m: HttpMethod, uri: string, tail: string, lines: seq<string>, rest: string)
    requires Readable(m, uri, tail, lines)
    ensures var text := (MethodText(m) + Target(uri, tail)) + (Flat(lines) + ("\r\n" + rest));
            RunHead(FRESH, text) == (Push(BeforeBlank(m, uri, tail, lines), "\r\n"), rest)
  {
    var first := MethodText(m) + Target(uri, tail);
    var more := Flat(lines) + ("\r\n" + rest);
    FirstPushed(m, uri, tail);
    assert |first| >= 2;
    OneLineFirst(first, more);
    StepHead(FRESH, first + more, first, more);
    LinesRead(Push(FRESH, first), lines, "\r\n" + rest);
    BlankRead(BeforeBlank(m, uri, tail, lines), rest);
  }

  lemma BlankRead(p: Parser, rest: string)
    requires p.state == Headers
    ensures RunHead(p, "\r\n" + rest) == (Push(p, "\r\n"), rest)
  {
    assert CrlfAt("\r\n", 0);
    CrlfIndexUnique("\r\n", 0);
    OneLineFirst("\r\n", rest);
    StepHead(p, "\r\n" + rest, "\r\n", rest);
    HeadStops(Push(p, "\r\n"), rest);
  }

  // ---------- the upgrade ----------

  /** The parser of a request with this head, however much of its body has been pushed. */
  predicate HasHead(p: Parser, m: HttpMethod, uri: string, tail: string, lines: seq<string>) {
    Readable(m, uri, tail, lines)
    && p.(state := Headers, bodyLength := 0) == BeforeBlank(m, uri, tail, lines).(bodyLength := 0)
  }

  /** However the kernel cuts a stream that begins with such a head, this is the parser behind it. */
  lemma HeadInAnyCut(script: Script, m: HttpMethod, uri: string, tail: string, lines: seq<string>, rest: string)
    requires Readable(m, uri, tail, lines) && Benign(script) && LinesFit(FRESH, Bytes(script))
    requires Bytes(script) == (MethodText(m) + Target(uri, tail)) + (Flat(lines) + ("\r\n" + rest))
    ensures var after := Drive(Opened(script)).1; HasHead(after.parser, m, uri, tail, lines) && Ahead(after) == rest
  {
    HeadOfStream(script);
    HeadRead(m, uri, tail, lines, rest);
  }

  /** The text of the head asks for a WebSocket. */
  predicate AsksForWebsocket(tail: string, lines: seq<string>) {
    && ("HTTP/1.0" <= tail || "HTTP/1.1" <= tail)
    && (exists line | line in lines :: SaysWebsocket(line))
    && (exists line | line in lines :: SaysUpgrade(line))
  }

  lemma VersionAsks(tail: string)
    ensures var v := ParseHttpVersion(tail); v == HTTP_1_1 || v == HTTP_1_0 <==> "HTTP/1.0" <= tail || "HTTP/1.1" <= tail
  {
    VersionReadIff(tail);
    assert "HTTP/" + "1.0" == "HTTP/1.0" && "HTTP/" + "1.1" == "HTTP/1.1";
  }

  lemma HeadAsks(m: HttpMethod, uri: string, tail: string, lines: seq<string>)
    requires Readable(m, uri, tail, lines)
    ensures var q := BeforeBlank(m, uri, tail, lines);
            && (UpgradeWebSocket in q.upgradeFlags <==> exists line | line in lines :: SaysWebsocket(line))
            && (ConnectionUpgrade in q.connectionFlags <==> exists line | line in lines :: SaysUpgrade(line))
            && q.version == ParseHttpVersion(tail)
  {
    FirstPushed(m, uri, tail);
    HeadFlags(Push(FRESH, MethodText(m) + Target(uri, tail)), lines);
  }

  lemma SameFields(p: Parser, q: Parser)
    requires p.(state := Headers, bodyLength := 0) == q.(bodyLength := 0)
    ensures p.upgradeFlags == q.upgradeFlags && p.connectionFlags == q.connectionFlags && p.version == q.version
    ensures p.httpMethod == q.httpMethod
  {
  }

  lemma WantsUpgradeIff(p: Parser, m: HttpMethod, uri: string, tail: string, lines: seq<string>)
    requires HasHead(p, m, uri, tail, lines)
    ensures WantsUpgrade(p) <==> AsksForWebsocket(tail, lines)
  {
    HeadAsks(m, uri, tail, lines);
    VersionAsks(tail);
    SameFields(p, BeforeBlank(m, uri, tail, lines));
  }

  lemma {:induction false} ClosingKeepsUpgraded(t: Table, cs: seq<Conn>)
    ensures CloseAll(t, cs).Some? ==> CloseAll(t, cs).value.upgraded == t.upgraded
    decreases |cs|
  {
    if cs != [] { ClosingKeepsUpgraded(Close(t, cs[0]), cs[1..]); }
  }

  lemma AnswerKeepsUpgraded(t: Table, c: Conn, r: Request)
    ensures Answer(t, c, r).Some? ==> Answer(t, c, r).value.upgraded == t.upgraded
  {
    ClosingKeepsUpgraded(t, r.closes);
    var o := CloseAll(t, r.closes);
    if o.Some? { ClosingKeepsUpgraded(o.value, r.readyCloses); }
  }

  /** A routed request on a connection that is no WebSocket yet makes it one exactly if its first
      line names HTTP/1.0 or HTTP/1.1, some Upgrade line mentions "websocket" and some part of a
      Connection line names "upgrade". */
  lemma UpgradesIff(t: Table, e: Event, m: HttpMethod, uri: string, tail: string, lines: seq<string>)
    requires e.Readable? && e.conn in t.pending && e.conn !in t.upgraded && e.http.Arrived? && e.http.request.routed
    requires HasHead(e.http.request.parser, m, uri, tail, lines) && Dispatch(t, e).Some?
    ensures e.conn in Dispatch(t, e).value.upgraded <==> AsksForWebsocket(tail, lines)
  {
    WantsUpgradeIff(e.http.request.parser, m, uri, tail, lines);
    AnswerKeepsUpgraded(Noted(t, e), e.conn, e.http.request);
  }

  /** A nonempty value under one of the three names of the key. */
  predicate HasKey(headers: map<string, string>) {
    || ("Sec-WebSocket-Key" in headers && headers["Sec-WebSocket-Key"] != "")
    || ("Sec-WebSocket-Key1" in headers && headers["Sec-WebSocket-Key1"] != "")
    || ("Sec-WebSocket-Key2" in headers && headers["Sec-WebSocket-Key2"] != "")
  }

  lemma KeyIsThere(p: Parser)
    ensures WebsocketKey(p) != "" <==> HasKey(p.headers)
  {
  }

  lemma GreetQuietly(t: Table, c: Conn, r: Request)
    requires c in t.pending && r.closes == [] && r.readyCloses == []
    ensures Greet(t, c, r).Some?
  {
  }

  /** Such a request is handled, by hooks that close nothing, exactly if it brings a key. */
  lemma UpgradeNeedsKey(t: Table, e: Event, m: HttpMethod, uri: string, tail: string, lines: seq<string>)
    requires e.Readable? && e.conn in t.pending && e.conn !in t.upgraded && e.http.Arrived? && e.http.request.routed
    requires HasHead(e.http.request.parser, m, uri, tail, lines) && AsksForWebsocket(tail, lines)
    requires e.http.request.closes == [] && e.http.request.readyCloses == []
    ensures Dispatch(t, e).Some? <==> HasKey(e.http.request.parser.headers)
  {
    WantsUpgradeIff(e.http.request.parser, m, uri, tail, lines);
    KeyIsThere(e.http.request.parser);
    GreetQuietly(Noted(t, e), e.conn, e.http.request);
  }

  /** A request that does not ask for a WebSocket goes to the plain handler. */
  lemma OthersArePlain(t: Table, e: Event, m: HttpMethod, uri: string, tail: string, lines: seq<string>)
    requires e.Readable? && e.conn in t.pending && e.conn !in t.upgraded && e.http.Arrived? && e.http.request.routed
    requires HasHead(e.http.request.parser, m, uri, tail, lines) && !AsksForWebsocket(tail, lines)
    requires e.http.request.closes == []
    ensures Dispatch(t, e) ==
            Some(if e.http.request.handlerRet == -1 then Close(Noted(t, e), e.conn) else Noted(t, e))
  {
    WantsUpgradeIff(e.http.request.parser, m, uri, tail, lines);
    SameFields(e.http.request.parser, BeforeBlank(m, uri, tail, lines));
    KeepsMethod(Push(FRESH, MethodText(m) + Target(uri, tail)), lines);
    FirstPushed(m, uri, tail);
  }

  lemma SameMethod(p: Parser, line: string)
    requires p.state == Headers
    ensures Push(p, line).httpMethod == p.httpMethod
  {
  }

  lemma {:induction false} KeepsMethod(p: Parser, lines: seq<string>)
    requires p.state == Headers && (forall line | line in lines :: HeaderText(line)) && PushLines(p, lines).state == Headers
    ensures PushLines(p, lines).httpMethod == p.httpMethod
    decreases |lines|
  {
    if lines != [] {
      assert lines[0] in lines && forall x | x in lines[1..] :: x in lines;
      FirstStaysInHead(p, lines);
      SameMethod(p, lines[0]);
      KeepsMethod(Push(p, lines[0]), lines[1..]);
    }
  }
}
