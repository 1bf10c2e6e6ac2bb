/** Whole requests and responses sent through the input pipeline. */
module EndToEnd {
  import opened Str
  import opened Wrappers
  import opened Http
  import opened HeaderParser
  import opened Connection
  import opened ConnectionLaws
  import opened BodyLaws
  import opened CutLaws
  import opened Response
  import opened ResponseLaws
  import opened RequestLaws
  import Server

  // ---------- requests ----------

  /** However the kernel cuts a request, the calls up to the end of its head give method, URI,
      version, the map, host and user agent and the length, and leave exactly the body ahead;
      unless a line does not fit the buffer. */
  lemma RequestInAnyCut(script: Script, m: HttpMethod, uri: string, v: HttpVersion, entries: Entries, body: string)
    requires RequestOk(m, uri, v, entries, body)
    requires Benign(script) && Bytes(script) == RequestText(m, uri, v, entries, body)
    ensures var (o, after) := Drive(Opened(script)); var q := after.parser;
            if LinesFit(FRESH, Bytes(script))
            then && q == RequestRead(m, uri, v, entries, body) && Ahead(after) == body
                 && q.httpMethod == m && q.uri == uri && q.version == v && q.headers == ToMap(Ordinary(entries))
                 && LastNamed(entries, "host", q.host) && LastNamed(entries, "user-agent", q.userAgent)
                 && q.contentLength == (if body == "" then None else Some(|body|))
                 && o == (if body == "" then Complete else PartialBody)
            else o == Closed
  {
    HeadOfStream(script);
    RequestRoundTrip(m, uri, v, entries, body);
    RequestReadIs(m, uri, v, entries, body);
  }

  /** Calls of ProcessDataIn as long as they answer -1 and the kernel has something new. */
  method ReadHead(conn: Connection) returns (ret: int)
    requires |conn.buffer| <= 1024 && Drive(conn.Abs()).0 != Hangs
    modifies conn, conn.socket, conn.parser
    ensures |conn.buffer| <= 1024 && conn.Abs() == Drive(old(conn.Abs())).1
    ensures ret == -2 <==> Drive(old(conn.Abs())).0 == Closed
    ensures ret != -2 ==> ret == if conn.parser.state == Done then 1 else if conn.parser.state == Body then 0 else -1
  {
    while true
      invariant |conn.buffer| <= 1024
      invariant Drive(conn.Abs()) == Drive(old(conn.Abs()))
      decreases ScriptSize(conn.socket.script)
    {
      ghost var c := conn.Abs();
      var before := conn.socket.script;
      DriveOnce(c);
      ret := conn.ProcessDataIn();
      if ret != -1 || ScriptSize(conn.socket.script) >= ScriptSize(before) {
        return;
      }
    }
  }

  lemma DriveOnce(c: Pipeline)
    ensures var (o, after) := Process(c);
            && (o != Closed ==> o == StateOutcome(after.parser.state))
            && Drive(c) == if o == Incomplete && ScriptSize(after.script) < ScriptSize(c.script) then Drive(after) else (o, after)
  {
    OutcomeIsState(c);
  }

  /** Of a request, in any cut, the number behind its head is 1 exactly if it has no body and 0 if
      it has one; it is -2 if a line does not fit. */
  method ReadRequest(conn: Connection, ghost m: HttpMethod, ghost uri: string, ghost v: HttpVersion,
                     ghost entries: Entries, ghost body: string) returns (ret: int)
    requires RequestOk(m, uri, v, entries, body) && conn.Abs() == Opened(conn.socket.script)
    requires Benign(conn.socket.script) && Bytes(conn.socket.script) == RequestText(m, uri, v, entries, body)
    modifies conn, conn.socket, conn.parser
    ensures ret == if !LinesFit(FRESH, RequestText(m, uri, v, entries, body)) then -2 else if body == "" then 1 else 0
    ensures ret != -2 ==>
              && conn.parser.httpMethod == m && conn.parser.uri == uri && conn.parser.version == v
              && conn.parser.headers == ToMap(Ordinary(entries))
              && LastNamed(entries, "host", conn.parser.host) && LastNamed(entries, "user-agent", conn.parser.userAgent)
              && conn.buffer + Bytes(conn.socket.script) == body
  {
    RequestInAnyCut(conn.socket.script, m, uri, v, entries, body);
    RequestReadIs(m, uri, v, entries, body);
    ret := ReadHead(conn);
  }

  /** So a request with a body is a stream with a body. */
  lemma RequestHasBody(m: HttpMethod, uri: string, v: HttpVersion, entries: Entries, body: string)
    requires RequestOk(m, uri, v, entries, body) && body != ""
    ensures var s := RequestText(m, uri, v, entries, body);
            (HasBody(s, |body|) <==> LinesFit(FRESH, s)) && Behind(s) == body
            && RunHead(FRESH, s).0 == RequestRead(m, uri, v, entries, body)
  {
    RequestRoundTrip(m, uri, v, entries, body);
    RequestReadIs(m, uri, v, entries, body);
  }

  /** A request completes, in any cut, exactly if the reads behind its head bring its body in
      time. */
  lemma RequestCompletesIff(script: Script, m: HttpMethod, uri: string, v: HttpVersion, entries: Entries, body: string)
    requires RequestOk(m, uri, v, entries, body) && body != ""
    requires Benign(script) && Bytes(script) == RequestText(m, uri, v, entries, body) && LinesFit(FRESH, Bytes(script))
    ensures var c := AtBody(script);
            Reaches(Opened(script)) <==> InTime(c.buffer, Taken(c.buffer, c.script), |body|)
  {
    RequestHasBody(m, uri, v, entries, body);
    CompletesIff(script, Bytes(script), |body|);
  }

  /** The lines of a head fit if all of the stream does. */
  lemma {:induction false} ShortLinesFit(p: Parser, s: string)
    requires |s| <= SMALL_MEMORY && !InHead(RunHead(p, s).0)
    ensures LinesFit(p, s)
    decreases |s|
  {
    if InHead(p) && HasCrlf(s) {
      var n := CrlfIndex(s) + 2;
      StepHead(p, s, s[..n], s[n..]);
      ShortLinesFit(Push(p, s[..n]), s[n..]);
    } else {
      HeadStops(p, s);
    }
  }

  /** A request with a body that arrives in one read never completes: its method, URI and headers
      are known and its whole body is in the buffer, but no further call looks at it. */
  lemma RequestStalls(m: HttpMethod, uri: string, v: HttpVersion, entries: Entries, body: string, k: nat)
    requires RequestOk(m, uri, v, entries, body) && body != ""
    requires |RequestText(m, uri, v, entries, body)| <= SMALL_MEMORY
    ensures var c := AtBody([Data(RequestText(m, uri, v, entries, body))]);
            && c.parser == RequestRead(m, uri, v, entries, body) && c.buffer == body
            && Calls(c, k) == c && Process(c).0 == PartialBody
  {
    var s := RequestText(m, uri, v, entries, body);
    RequestRoundTrip(m, uri, v, entries, body);
    RequestReadIs(m, uri, v, entries, body);
    ShortLinesFit(FRESH, s);
    RequestHasBody(m, uri, v, entries, body);
    NotEmpty(m, uri, v, entries, body);
    StallsInOneRead(s, |body|, k);
    OneRead(s);
    AtBodyIs([Data(s)], s, |body|);
  }

  lemma NotEmpty(m: HttpMethod, uri: string, v: HttpVersion, entries: Entries, body: string)
    requires Known(m)
    ensures RequestText(m, uri, v, entries, body) != ""
  {
    assert RequestLine(m, uri, v) != "";
  }

  /** The server goes on calling: a handler that answers such a request, complete or not, without
      -1 keeps its connection. */
  lemma RequestKeepsConnection(t: Server.Table, c: Server.Conn, r: Server.Request,
                               m: HttpMethod, uri: string, v: HttpVersion, entries: Entries, body: string)
    requires RequestOk(m, uri, v, entries, body) && r.parser == RequestRead(m, uri, v, entries, body)
    requires r.routed && r.closes == []
    ensures r.handlerRet != -1 ==> Server.Answer(t, c, r) == Some(t)
  {
    RequestReadIs(m, uri, v, entries, body);
  }

  // ---------- responses ----------

  /** However the kernel cuts a response, the calls up to the end of its head rebuild the map
      and leave exactly the body ahead; unless a line does not fit the buffer. */
  lemma ResponseInAnyCut(script: Script, code: int, version: HttpVersion, entries: Entries, body: string)
    requires Benign(script) && Bytes(script) == ResponseText(code, version, entries, body)
    requires DistinctKeys(entries) && AllOk(entries) && |body| < 0x8000_0000
    ensures var (o, after) := Drive(Opened(script));
            if LinesFit(FRESH, Bytes(script))
            then && after.parser == Reread(entries, body) && Ahead(after) == body
                 && o == (if body == "" then Complete else PartialBody)
            else o == Closed
  {
    HeadOfStream(script);
    ResponseRoundTrip(code, version, entries, body);
    RereadKeepsMap(entries, body);
  }

  lemma ResponseHasBody(code: int, version: HttpVersion, entries: Entries, body: string)
    requires DistinctKeys(entries) && AllOk(entries) && 0 < |body| < 0x8000_0000
    ensures var s := ResponseText(code, version, entries, body);
            (HasBody(s, |body|) <==> LinesFit(FRESH, s)) && Behind(s) == body
  {
    ResponseRoundTrip(code, version, entries, body);
    RereadKeepsMap(entries, body);
  }

  /** A printed response completes, in any cut, exactly if the reads behind its head bring its
      body in time. */
  lemma ResponseCompletesIff(script: Script, code: int, version: HttpVersion, entries: Entries, body: string)
    requires DistinctKeys(entries) && AllOk(entries) && 0 < |body| < 0x8000_0000
    requires Benign(script) && Bytes(script) == ResponseText(code, version, entries, body) && LinesFit(FRESH, Bytes(script))
    ensures var c := AtBody(script);
            Reaches(Opened(script)) <==> InTime(c.buffer, Taken(c.buffer, c.script), |body|)
  {
    ResponseHasBody(code, version, entries, body);
    CompletesIff(script, Bytes(script), |body|);
  }
}
