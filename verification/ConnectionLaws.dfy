/** What the input pipeline does over whole runs, for every way the kernel cuts the stream. */
module ConnectionLaws {
  import opened Sequences
  import opened Str
  import opened Wrappers
  import opened HeaderParser
  import opened Connection

  // ---------- the reference: split the whole stream into lines ----------

  predicate InHead(p: Parser) { p.state == FirstLine || p.state == Headers }

  /** Pushes line after line of s until the head is over or no complete line is left;
      returns the parser and what was not consumed. */
  function RunHead(p: Parser, s: string): (Parser, string)
    decreases |s|
  {
    var i := CrlfIndex(s);
    if InHead(p) && i < |s| then RunHead(Push(p, s[..i + 2]), s[i + 2..]) else (p, s)
  }

  /** Every line RunHead meets, and an unfinished one left over, fits the buffer. */
  predicate LinesFit(p: Parser, s: string)
    decreases |s|
  {
    var i := CrlfIndex(s);
    if !InHead(p) then true
    else if i < |s| then i + 2 <= SMALL_MEMORY && LinesFit(Push(p, s[..i + 2]), s[i + 2..])
    else |s| < SMALL_MEMORY
  }

  /** One line of a text, and what follows it. */
  predicate SplitsInto(s: string, line: string, rest: string) {
    HasCrlf(s) && s[..CrlfIndex(s) + 2] == line && s[CrlfIndex(s) + 2..] == rest
  }

  lemma StepHead(p: Parser, s: string, line: string, rest: string)
    requires InHead(p) && SplitsInto(s, line, rest)
    ensures RunHead(p, s) == RunHead(Push(p, line), rest)
    ensures LinesFit(p, s) == (|line| <= SMALL_MEMORY && LinesFit(Push(p, line), rest))
  {
  }

  lemma SplitMore(s: string, line: string, rest: string, more: string)
    requires SplitsInto(s, line, rest)
    ensures SplitsInto(s + more, line, rest + more)
  {
    CrlfIndexAppend(s, more);
  }

  lemma HeadStops(p: Parser, s: string)
    requires !InHead(p) || !HasCrlf(s)
    ensures RunHead(p, s) == (p, s)
  {
  }

  // ---------- runs ----------

  /** No read error and no end of stream before the script ends. */
  predicate Benign(script: Script) {
    forall e | e in script :: e != Failed && (e.Data? ==> e.bytes != "")
  }

  /** Calls ProcessDataIn again as long as it answers -1 and the kernel has something new. */
  function Drive(c: Pipeline): (Outcome, Pipeline)
    decreases ScriptSize(c.script)
  {
    var (o, c') := Process(c);
    if o == Incomplete && ScriptSize(c'.script) < ScriptSize(c.script) then Drive(c') else (o, c')
  }

  function Opened(script: Script): Pipeline { Pipeline(script, "", "", FRESH, []) }

  /** The bytes a pipeline still has in front of it: buffered ones, then unread ones. */
  function Ahead(c: Pipeline): string { c.buffer + Bytes(c.script) }

  // ---------- one read ----------

  lemma BytesCons(e: ReadEvent, rest: Script)
    ensures Bytes([e] + rest) == (if e.Data? then e.bytes else "") + Bytes(rest)
  {
    assert ([e] + rest)[1..] == rest;
  }

  lemma SplitText(s: string, n: nat, rest: string)
    requires n <= |s|
    ensures s[..n] + (s[n..] + rest) == s + rest
  {
    assert s == s[..n] + s[n..];
  }

  lemma KernelKeepsBytes(script: Script, len: nat)
    ensures var (e, later) := KernelRead(script, len);
            (if e.Data? then e.bytes else "") + Bytes(later) == Bytes(script)
  {
    if len > 0 && script != [] && script[0].Data? && |script[0].bytes| > len {
      var bytes := script[0].bytes;
      BytesCons(Data(bytes[len..]), script[1..]);
      SplitText(bytes, len, Bytes(script[1..]));
    }
  }

  lemma KernelStaysBenign(script: Script, len: nat)
    requires Benign(script)
    ensures var (e, later) := KernelRead(script, len);
            Benign(later) && (len > 0 ==> e != Failed && (e.Data? ==> e.bytes != ""))
  {
    if script != [] {
      assert script[0] in script;
      assert forall x :: x in script[1..] ==> x in script;
    }
  }

  lemma ReadStaysBenign(c: Pipeline)
    requires |c.buffer| <= SMALL_MEMORY && Benign(c.script)
    ensures var (r, c') := ReadStep(c); Benign(c'.script) && (r == -1 ==> |c.buffer| == SMALL_MEMORY)
  {
    KernelStaysBenign(c.script, SMALL_MEMORY - |c.buffer|);
  }

  lemma ReadConserves(c: Pipeline)
    requires |c.buffer| <= SMALL_MEMORY
    ensures Ahead(ReadStep(c).1) == Ahead(c)
  {
    var len := SMALL_MEMORY - |c.buffer|;
    KernelKeepsBytes(c.script, len);
    var (e, later) := KernelRead(c.script, len);
    var bytes := if e.Data? then e.bytes else "";
    Assoc(c.buffer, bytes, Bytes(later));
  }

  lemma ReadFrame(c: Pipeline)
    requires |c.buffer| <= SMALL_MEMORY
    ensures var (r, c') := ReadStep(c);
            && |c'.buffer| <= SMALL_MEMORY
            && c' == c.(buffer := c'.buffer, script := c'.script)
            && (|c.buffer| == SMALL_MEMORY ==> r == -1)
            && (r == 0 ==> c'.buffer == c.buffer)
            && (r == 0 && c.script != [] ==> ScriptSize(c'.script) < ScriptSize(c.script))
  {
  }

  lemma ReadKeepsBytes(c: Pipeline)
    requires |c.buffer| <= SMALL_MEMORY
    ensures var (r, c') := ReadStep(c);
            && |c'.buffer| <= SMALL_MEMORY
            && Ahead(c') == Ahead(c)
            && c' == c.(buffer := c'.buffer, script := c'.script)
            && (Benign(c.script) ==> Benign(c'.script))
            && (Benign(c.script) && r == -1 ==> |c.buffer| == SMALL_MEMORY)
            && (|c.buffer| == SMALL_MEMORY ==> r == -1)
            && (r == 0 ==> c'.buffer == c.buffer)
            && (r == 0 && c.script != [] ==> ScriptSize(c'.script) < ScriptSize(c.script))
  {
    ReadConserves(c);
    ReadFrame(c);
    if Benign(c.script) { ReadStaysBenign(c); }
  }

  // ---------- the head ----------

  /** Between two calls, before the head is complete. */
  predicate Idle(c: Pipeline) {
    InHead(c.parser) && !HasCrlf(c.buffer) && |c.buffer| <= SMALL_MEMORY && Benign(c.script)
  }

  /** What one call makes of a parser p with the bytes s ahead of it. */
  predicate HeadCall(p: Parser, s: string, o: Outcome, after: Pipeline) {
    match o
    case Closed => !LinesFit(p, s)
    case Incomplete =>
      && Idle(after) && (after.script == [] ==> |after.buffer| < SMALL_MEMORY)
      && RunHead(after.parser, Ahead(after)) == RunHead(p, s)
      && LinesFit(after.parser, Ahead(after)) == LinesFit(p, s)
    case _ =>
      && RunHead(p, s) == (after.parser, Ahead(after)) && LinesFit(p, s)
      && !InHead(after.parser) && o == StateOutcome(after.parser.state)
      && |after.buffer| <= SMALL_MEMORY - 2 && Benign(after.script)
  }

  /** A full buffer without a line end is an overlong line. */
  lemma FullBufferDoesNotFit(p: Parser, buffer: string, rest: string)
    requires InHead(p) && !HasCrlf(buffer) && |buffer| == SMALL_MEMORY
    ensures !LinesFit(p, buffer + rest)
  {
    if CrlfIndex(buffer + rest) + 2 <= SMALL_MEMORY {
      CrlfIndexWithin(buffer, rest);
    }
  }

  /** The line in the buffer is the next line of the stream. */
  lemma LineByLine(p: Parser, buffer: string, more: string)
    requires InHead(p) && HasCrlf(buffer) && |buffer| <= SMALL_MEMORY
    ensures var n := CrlfIndex(buffer) + 2; var q := Push(p, buffer[..n]);
            && RunHead(p, buffer + more) == RunHead(q, buffer[n..] + more)
            && LinesFit(p, buffer + more) == LinesFit(q, buffer[n..] + more)
  {
    var n := CrlfIndex(buffer) + 2;
    SplitMore(buffer, buffer[..n], buffer[n..], more);
    StepHead(p, buffer + more, buffer[..n], buffer[n..] + more);
  }

  /** The pipeline after the first line of its buffer has been pushed. */
  function AfterLine(c: Pipeline): Pipeline
    requires HasCrlf(c.buffer)
  {
    var n := CrlfIndex(c.buffer) + 2;
    Feed(c.(buffer := c.buffer[n..]), c.buffer[..n])
  }

  lemma CutLine(c: Pipeline)
    requires HasCrlf(c.buffer)
    ensures var n := CrlfIndex(c.buffer) + 2; CutText(c) == (Some(c.buffer[..n]), c.(buffer := c.buffer[n..]))
  {
  }

  lemma ReturnsBehindHead(p: Parser)
    ensures Returns(p.state) <==> !InHead(p)
  {
  }

  lemma DrainOneLine(c: Pipeline)
    requires InHead(c.parser) && HasCrlf(c.buffer)
    ensures var c1 := AfterLine(c);
            Drain(c) == if InHead(c1.parser) then Drain(c1) else (StateOutcome(c1.parser.state), c1)
  {
    CutLine(c);
    ReturnsBehindHead(AfterLine(c).parser);
  }

  lemma DrainLine(c: Pipeline)
    requires InHead(c.parser) && HasCrlf(c.buffer) && |c.buffer| <= SMALL_MEMORY
    ensures var c1 := AfterLine(c);
            && |c1.buffer| <= |c.buffer| - 2 && c1.script == c.script
            && RunHead(c.parser, Ahead(c)) == RunHead(c1.parser, Ahead(c1))
            && LinesFit(c.parser, Ahead(c)) == LinesFit(c1.parser, Ahead(c1))
            && Drain(c) == if InHead(c1.parser) then Drain(c1) else (StateOutcome(c1.parser.state), c1)
  {
    LineByLine(c.parser, c.buffer, Bytes(c.script));
    DrainOneLine(c);
  }

  lemma HeadOver(c: Pipeline)
    requires !InHead(c.parser) && |c.buffer| <= SMALL_MEMORY - 2 && Benign(c.script)
    ensures HeadCall(c.parser, Ahead(c), StateOutcome(c.parser.state), c)
  {
  }

  lemma SameHead(p: Parser, s: string, q: Parser, t: string, o: Outcome, after: Pipeline)
    requires RunHead(p, s) == RunHead(q, t) && LinesFit(p, s) == LinesFit(q, t)
    requires HeadCall(q, t, o, after)
    ensures HeadCall(p, s, o, after)
  {
  }

  lemma {:induction false} ProcessHead(c: Pipeline)
    requires Idle(c)
    ensures var (o, after) := Process(c);
            && HeadCall(c.parser, Ahead(c), o, after)
            && (o == Incomplete && c.script != [] ==> ScriptSize(after.script) < ScriptSize(c.script))
    decreases ScriptSize(c.script), 0
  {
    ReadKeepsBytes(c);
    var (r, c1) := ReadStep(c);
    if r == -1 {
      FullBufferDoesNotFit(c.parser, c.buffer, Bytes(c.script));
    } else if r == 1 {
      DrainHead(c1);
    }
  }

  lemma {:induction false} DrainHead(c: Pipeline)
    requires InHead(c.parser) && |c.buffer| <= SMALL_MEMORY && Benign(c.script)
    ensures var (o, after) := Drain(c);
            && HeadCall(c.parser, Ahead(c), o, after)
            && ScriptSize(after.script) <= ScriptSize(c.script)
    decreases ScriptSize(c.script), |c.buffer| + 1
  {
    if HasCrlf(c.buffer) {
      DrainLine(c);
      var c1 := AfterLine(c);
      if InHead(c1.parser) {
        DrainHead(c1);
      } else {
        HeadOver(c1);
      }
      var (o, after) := Drain(c);
      SameHead(c.parser, Ahead(c), c1.parser, Ahead(c1), o, after);
    } else {
      ProcessHead(c);
      ProcessShrinks(c);
    }
  }

  lemma NothingLeft(script: Script)
    ensures ScriptSize(script) == 0 ==> script == []
  {
  }

  lemma {:induction false} ProcessShrinks(c: Pipeline)
    ensures ScriptSize(Process(c).1.script) <= ScriptSize(c.script)
    decreases ScriptSize(c.script), 0
  {
    var (r, c1) := ReadStep(c);
    if r == 1 { DrainShrinks(c1); }
  }

  lemma {:induction false} DrainShrinks(c: Pipeline)
    ensures ScriptSize(Drain(c).1.script) <= ScriptSize(c.script)
    decreases ScriptSize(c.script), |c.buffer| + 1
  {
    var (text, c1) := CutText(c);
    if text.None? { ProcessShrinks(c); }
    else if !Returns(Feed(c1, text.value).parser.state) { DrainShrinks(Feed(c1, text.value)); }
  }

  /** A call that does not close the connection tells the state it leaves. */
  lemma {:induction false} OutcomeIsState(c: Pipeline)
    ensures var (o, after) := Process(c); o == Closed || o == StateOutcome(after.parser.state)
    decreases ScriptSize(c.script), 0
  {
    var (r, c1) := ReadStep(c);
    if r == 1 { DrainOutcome(c1); }
  }

  lemma {:induction false} DrainOutcome(c: Pipeline)
    ensures var (o, after) := Drain(c); o == Closed || o == StateOutcome(after.parser.state)
    decreases ScriptSize(c.script), |c.buffer| + 1
  {
    var (text, c1) := CutText(c);
    if text.None? { OutcomeIsState(c); }
    else if !Returns(Feed(c1, text.value).parser.state) { DrainOutcome(Feed(c1, text.value)); }
  }

  /** The calls ended as splitting the whole of s does; or closed it, if a line does not fit.
      Behind the head, the line that ended it is gone from the buffer. */
  predicate EndsAsSplit(p: Parser, s: string, o: Outcome, after: Pipeline) {
    var (q, rest) := RunHead(p, s);
    if LinesFit(p, s)
    then
      && o == StateOutcome(q.state) && after.parser == q && Ahead(after) == rest && Benign(after.script)
      && if InHead(q) then after.script == [] && |after.buffer| < SMALL_MEMORY
         else InHead(p) ==> |after.buffer| <= SMALL_MEMORY - 2
    else o == Closed
  }

  lemma {:induction false} DriveFromIdle(c: Pipeline)
    requires Idle(c)
    ensures var (o, after) := Drive(c); EndsAsSplit(c.parser, Ahead(c), o, after)
    decreases ScriptSize(c.script)
  {
    ProcessHead(c);
    var (o, after) := Process(c);
    if o == Incomplete {
      if ScriptSize(after.script) < ScriptSize(c.script) {
        DriveFromIdle(after);
      } else {
        ProcessShrinks(c);
        assert c.script == [];
        NothingLeft(after.script);
        assert Ahead(after) == after.buffer;
      }
    }
  }

  /** Chunk independence: for every script without errors, however it cuts the stream, the
      calls up to the end of the head end exactly as splitting the whole stream into lines
      does, having consumed exactly the head. They close the connection instead exactly when
      some line does not fit the buffer. */
  lemma HeadOfStream(script: Script)
    requires Benign(script)
    ensures var (o, after) := Drive(Opened(script)); EndsAsSplit(FRESH, Bytes(script), o, after)
  {
    var c := Opened(script);
    assert Ahead(c) == Bytes(script);
    DriveFromIdle(c);
  }

  /** The same, comparing two ways of cutting one stream. */
  lemma ChunkIndependence(cut1: Script, cut2: Script)
    requires Benign(cut1) && Benign(cut2) && Bytes(cut1) == Bytes(cut2)
    ensures var (o1, after1) := Drive(Opened(cut1)); var (o2, after2) := Drive(Opened(cut2));
            o1 == o2 && (o1 != Closed ==> after1.parser == after2.parser && Ahead(after1) == Ahead(after2))
  {
    HeadOfStream(cut1);
    HeadOfStream(cut2);
    var (o1, after1) := Drive(Opened(cut1));
    SplitDetermines(FRESH, Bytes(cut1), o1, after1, Drive(Opened(cut2)).0, Drive(Opened(cut2)).1);
  }

  lemma SplitDetermines(p: Parser, s: string, o1: Outcome, after1: Pipeline, o2: Outcome, after2: Pipeline)
    requires EndsAsSplit(p, s, o1, after1) && EndsAsSplit(p, s, o2, after2)
    ensures o1 == o2 && (o1 != Closed ==> after1.parser == after2.parser && Ahead(after1) == Ahead(after2))
  {
  }

  // ---------- conservation, in every state and for every script ----------

  function Concat(texts: seq<string>): string {
    if texts == [] then "" else Concat(texts[..|texts| - 1]) + texts[|texts| - 1]
  }

  function PushAll(p: Parser, texts: seq<string>): Parser {
    if texts == [] then p else Push(PushAll(p, texts[..|texts| - 1]), texts[|texts| - 1])
  }

  /** How many bytes were pushed while the parser was in state Body. */
  function BodyBytes(p: Parser, texts: seq<string>): nat {
    if texts == [] then 0
    else BodyBytes(p, texts[..|texts| - 1])
         + if PushAll(p, texts[..|texts| - 1]).state == Body then |texts[|texts| - 1]| else 0
  }

  /** n calls of ProcessDataIn. */
  function Calls(c: Pipeline, n: nat): Pipeline
    decreases n
  {
    if n == 0 then c else Calls(Process(c).1, n - 1)
  }

  /** Every byte the kernel delivers is pushed once, in order, or still buffered. */
  function Stream(c: Pipeline): string { Concat(c.pushed) + c.buffer + Bytes(c.script) }

  /** What every call keeps: the buffer bound, and the parser as the fold of its history. */
  predicate Kept(p: Parser, c: Pipeline, after: Pipeline) {
    && |after.buffer| <= SMALL_MEMORY
    && Stream(after) == Stream(c)
    && (PushAll(p, c.pushed) == c.parser ==> PushAll(p, after.pushed) == after.parser)
  }

  lemma StreamIsAhead(c: Pipeline)
    ensures Stream(c) == Concat(c.pushed) + Ahead(c)
  {
  }

  lemma FeedKeeps(p: Parser, c: Pipeline)
    requires |c.buffer| <= SMALL_MEMORY && CutText(c).0.Some?
    ensures Kept(p, c, Feed(CutText(c).1, CutText(c).0.value))
  {
    var (text, c1) := CutText(c);
    var c2 := Feed(c1, text.value);
    assert c2.pushed[..|c2.pushed| - 1] == c.pushed;
    assert c.buffer == text.value + c1.buffer;
    Assoc(Concat(c.pushed), text.value, c1.buffer);
  }

  lemma {:induction false} ProcessKeeps(p: Parser, c: Pipeline)
    requires |c.buffer| <= SMALL_MEMORY
    ensures Kept(p, c, Process(c).1)
    decreases ScriptSize(c.script), 0
  {
    ReadKeepsBytes(c);
    var (r, c1) := ReadStep(c);
    StreamIsAhead(c);
    StreamIsAhead(c1);
    if r == 1 { DrainKeeps(p, c1); }
  }

  lemma {:induction false} DrainKeeps(p: Parser, c: Pipeline)
    requires |c.buffer| <= SMALL_MEMORY
    ensures Kept(p, c, Drain(c).1)
    decreases ScriptSize(c.script), |c.buffer| + 1
  {
    var (text, c1) := CutText(c);
    if text.None? {
      ProcessKeeps(p, c);
    } else {
      FeedKeeps(p, c);
      var c2 := Feed(c1, text.value);
      if !Returns(c2.parser.state) { DrainKeeps(p, c2); }
    }
  }

  lemma PushBodyLength(p: Parser, text: string)
    ensures Push(p, text).bodyLength ==
            if p.state == Body then (p.bodyLength + |text|) % UINT_MODULUS else p.bodyLength
  {
  }

  lemma ModAdd(a: nat, b: nat)
    ensures (a % UINT_MODULUS + b) % UINT_MODULUS == (a + b) % UINT_MODULUS
  {
    assert a == UINT_MODULUS * (a / UINT_MODULUS) + a % UINT_MODULUS;
  }

  lemma CountOne(p: Parser, text: string, count: nat)
    requires p.bodyLength == count % UINT_MODULUS
    ensures Push(p, text).bodyLength == (count + if p.state == Body then |text| else 0) % UINT_MODULUS
  {
    PushBodyLength(p, text);
    ModAdd(count, |text|);
  }

  lemma {:induction false} BodyLengthCounts(p: Parser, texts: seq<string>)
    requires p.bodyLength == 0
    ensures PushAll(p, texts).bodyLength == BodyBytes(p, texts) % UINT_MODULUS
  {
    if texts != [] {
      var front := texts[..|texts| - 1];
      BodyLengthCounts(p, front);
      CountOne(PushAll(p, front), texts[|texts| - 1], BodyBytes(p, front));
    }
  }

  lemma {:induction false} CallsKeep(p: Parser, c: Pipeline, n: nat)
    requires |c.buffer| <= SMALL_MEMORY
    ensures Kept(p, c, Calls(c, n))
    decreases n
  {
    if n > 0 {
      ProcessKeeps(p, c);
      CallsKeep(p, Process(c).1, n - 1);
    }
  }

  /** Conservation over whole runs: after any number of calls on any script, the bytes
      delivered so far are the texts pushed, in order, followed by the buffer, which never
      exceeds 1024 bytes; the parser is what these pushes make of a fresh one; and its body
      length is the number of bytes pushed in state Body, modulo 2^32. */
  lemma Conservation(script: Script, n: nat)
    ensures var c := Calls(Opened(script), n);
            && Concat(c.pushed) + c.buffer + Bytes(c.script) == Bytes(script)
            && |c.buffer| <= 1024
            && c.parser == PushAll(FRESH, c.pushed)
            && c.parser.bodyLength == BodyBytes(FRESH, c.pushed) % UINT_MODULUS
  {
    var c0 := Opened(script);
    assert Stream(c0) == Bytes(script);
    CallsKeep(FRESH, c0, n);
    BodyLengthCounts(FRESH, Calls(c0, n).pushed);
  }

  // ---------- the body ----------

  /** The kernel holds nothing that would make the next call look at its buffer. */
  predicate Starved(script: Script, buffer: string) {
    script == [] || script[0] == WouldBlock ||
    (script[0] == Interrupted && buffer == "" && Starved(script[1..], buffer))
  }

  /** The call pushed exactly one piece, of at least one and at most 1024 bytes. A piece that is a
      line is counted, but only other ones are kept for the handler. */
  predicate PushedOne(c: Pipeline, o: Outcome, after: Pipeline, piece: string) {
    && 1 <= |piece| <= SMALL_MEMORY
    && after.pushed == c.pushed + [piece]
    && Ahead(c) == piece + Ahead(after)
    && after.parser == Push(c.parser, piece)
    && after.partialBody == (if HasCrlf(piece) then c.partialBody else piece)
    && o == StateOutcome(after.parser.state)
    && |after.buffer| < SMALL_MEMORY && Benign(after.script)
  }

  lemma CutKeeps(c: Pipeline)
    requires CutText(c).0.Some?
    ensures var (text, c1) := CutText(c);
            c.buffer == text.value + c1.buffer && |text.value| > 0 && Ahead(c) == text.value + Ahead(c1)
  {
    var (text, c1) := CutText(c);
    SplitText(c.buffer, |text.value|, Bytes(c.script));
  }

  lemma LineOrPart(c: Pipeline)
    requires c.parser.state == Body && 0 < |c.buffer| <= SMALL_MEMORY
    ensures var (text, c1) := CutText(c);
            text.Some? && c1.partialBody == if HasCrlf(text.value) then c.partialBody else text.value
  {
    var i := CrlfIndex(c.buffer);
    if i < |c.buffer| {
      assert CrlfAt(c.buffer[..i + 2], i);
    } else {
      assert c.buffer[..|c.buffer|] == c.buffer;
    }
  }

  lemma BodyPush(c: Pipeline)
    requires c.parser.state == Body && 0 < |c.buffer| <= SMALL_MEMORY && Benign(c.script)
    ensures CutText(c).0.Some?
    ensures var (text, c1) := CutText(c); var c2 := Feed(c1, text.value);
            Drain(c) == (StateOutcome(c2.parser.state), c2) && PushedOne(c, StateOutcome(c2.parser.state), c2, text.value)
  {
    CutKeeps(c);
    var (text, c1) := CutText(c);
    LineOrPart(c);
    assert Returns(Push(c.parser, text.value).state);
  }

  /** One call in state Body. Starved, it answers 0 and touches nothing, whatever the buffer
      holds; otherwise it pushes exactly one piece. */
  lemma {:induction false} BodyCall(c: Pipeline)
    requires c.parser.state == Body && |c.buffer| < SMALL_MEMORY && Benign(c.script)
    ensures var (o, after) := Process(c);
            if Starved(c.script, c.buffer)
            then o == PartialBody && after == c.(script := after.script) && Benign(after.script)
            else |after.pushed| > 0 && PushedOne(c, o, after, after.pushed[|after.pushed| - 1])
    decreases ScriptSize(c.script)
  {
    ReadKeepsBytes(c);
    var (r, c1) := ReadStep(c);
    if r == 1 {
      if c1.buffer == "" { BodyCall(c1); } else { BodyPush(c1); }
    }
  }

  /** The body can stall: once everything was read, no further call looks at the buffered
      part of the body, even when it completes the request. */
  lemma {:induction false} StalledBody(c: Pipeline, n: nat)
    requires c.parser.state == Body && |c.buffer| < SMALL_MEMORY && c.script == []
    ensures Calls(c, n) == c && Process(Calls(c, n)).0 == PartialBody
  {
    BodyCall(c);
    if n > 0 { StalledBody(c, n - 1); }
  }

  /** Nothing more is parsed. */
  predicate Ended(p: Parser) { p.state == Done || p.state == Hung }

  lemma {:induction false} EndedStays(c: Pipeline)
    requires Ended(c.parser)
    ensures Ended(Process(c).1.parser)
    decreases ScriptSize(c.script)
  {
    var (r, c1) := ReadStep(c);
    if r == 1 && CutText(c1).0.None? { EndedStays(c1); }
  }

  /** In the body, with room in the buffer and no error ahead. */
  predicate Roomy(c: Pipeline) { c.parser.state == Body && |c.buffer| < SMALL_MEMORY && Benign(c.script) }

  /** Between two calls, with no line ahead that does not fit. */
  predicate Fed(c: Pipeline) { Roomy(c) || (Idle(c) && LinesFit(c.parser, Ahead(c))) }

  lemma FedCall(c: Pipeline)
    requires Fed(c)
    ensures |c.buffer| < SMALL_MEMORY
    ensures var (o, after) := Process(c); o != Closed && (Ended(after.parser) || Fed(after))
  {
    if Roomy(c) {
      BodyCall(c);
    } else {
      ProcessHead(c);
      if |c.buffer| == SMALL_MEMORY { FullBufferDoesNotFit(c.parser, c.buffer, Bytes(c.script)); }
    }
  }

  predicate Going(c: Pipeline) { Ended(c.parser) || Fed(c) }

  lemma GoingOn(c: Pipeline)
    requires Going(c)
    ensures Going(Process(c).1)
  {
    if Fed(c) { FedCall(c); } else { EndedStays(c); }
  }

  lemma {:induction false} GoingForever(c: Pipeline, n: nat)
    requires Going(c)
    ensures Going(Calls(c, n))
    decreases n
  {
    if n > 0 {
      GoingOn(c);
      GoingForever(Process(c).1, n - 1);
    }
  }

  /** No starvation: if every line fits the buffer, then over every error-free run each call
      before Done finds room in the buffer and does not close the connection. A read that asked
      for no byte would close it, so every read asks for at least one. */
  lemma NoStarvation(script: Script, n: nat)
    requires Benign(script) && LinesFit(FRESH, Bytes(script))
    ensures var d := Calls(Opened(script), n);
            Ended(d.parser) || (|d.buffer| < SMALL_MEMORY && Process(d).0 != Closed)
  {
    var c := Opened(script);
    assert Ahead(c) == Bytes(script);
    GoingForever(c, n);
    if !Ended(Calls(c, n).parser) { FedCall(Calls(c, n)); }
  }

  /** Body means fewer than n bytes counted; Done comes with less than one piece too many. */
  predicate BodyInBounds(p: Parser, n: nat) {
    p.contentLength == Some(n) &&
    ((p.state == Body && p.bodyLength < n) || (p.state == Done && n <= p.bodyLength <= n + SMALL_MEMORY - 1))
  }

  /** Up to the largest exact length a piece is counted without wrapping around. */
  lemma PushCounts(p: Parser, piece: string, n: nat)
    requires p.state == Body && p.contentLength == Some(n) && n <= UINT_MODULUS - SMALL_MEMORY
    requires p.bodyLength <= n && |piece| <= SMALL_MEMORY && p.bodyLength + |piece| < UINT_MODULUS
    ensures var total := p.bodyLength + |piece|;
            Push(p, piece) == p.(bodyLength := total, state := if total >= n then Done else Body)
  {
  }

  lemma PushInBounds(p: Parser, piece: string, n: nat)
    requires BodyInBounds(p, n) && n <= UINT_MODULUS - SMALL_MEMORY && |piece| <= SMALL_MEMORY
    ensures BodyInBounds(Push(p, piece), n)
    ensures p.state == Body ==> (Push(p, piece).state == Done <==> p.bodyLength + |piece| >= n)
  {
    if p.state == Body { PushCounts(p, piece, n); }
  }

  lemma {:induction false} ProcessInBounds(c: Pipeline, n: nat)
    requires BodyInBounds(c.parser, n) && n <= UINT_MODULUS - SMALL_MEMORY && |c.buffer| <= SMALL_MEMORY
    ensures BodyInBounds(Process(c).1.parser, n)
    decreases ScriptSize(c.script), 0
  {
    ReadKeepsBytes(c);
    var (r, c1) := ReadStep(c);
    if r == 1 {
      var (text, c2) := CutText(c1);
      if text.None? { ProcessInBounds(c1, n); } else { PushInBounds(c1.parser, text.value, n); }
    }
  }

  /** Over every run that starts in the body, for any script: the count is below the
      announced length until Done, and then exceeds it by at most 1023. */
  lemma {:induction false} BodyOvershoot(c: Pipeline, n: nat, calls: nat)
    requires BodyInBounds(c.parser, n) && n <= UINT_MODULUS - SMALL_MEMORY && |c.buffer| <= SMALL_MEMORY
    ensures BodyInBounds(Calls(c, calls).parser, n) && |Calls(c, calls).buffer| <= SMALL_MEMORY
    decreases calls
  {
    if calls > 0 {
      ProcessInBounds(c, n);
      ProcessKeeps(FRESH, c);
      BodyOvershoot(Process(c).1, n, calls - 1);
    }
  }

  /** Reads that the body phase takes whole: data of at most 1024 bytes whose first CR LF, if
      any, is at its end. */
  predicate WholePieces(script: Script) {
    forall e | e in script ::
      e.Data? && 1 <= |e.bytes| <= SMALL_MEMORY && CrlfIndex(e.bytes) >= |e.bytes| - 2
  }

  lemma CutWhole(c: Pipeline)
    requires c.parser.state == Body && 1 <= |c.buffer| <= SMALL_MEMORY && CrlfIndex(c.buffer) >= |c.buffer| - 2
    ensures CutText(c).0 == Some(c.buffer) && CutText(c).1.buffer == ""
  {
    var i := CrlfIndex(c.buffer);
    if i < |c.buffer| {
      assert CrlfAt(c.buffer, i);
      assert c.buffer[..i + 2] == c.buffer;
    } else {
      assert c.buffer[..|c.buffer|] == c.buffer;
    }
  }

  lemma ReadWhole(c: Pipeline)
    requires c.buffer == "" && c.script != [] && WholePieces(c.script)
    ensures var e := c.script[0];
            e.Data? && 1 <= |e.bytes| <= SMALL_MEMORY && CrlfIndex(e.bytes) >= |e.bytes| - 2
            && ReadStep(c) == (1, c.(script := c.script[1..], buffer := e.bytes))
  {
    assert c.script[0] in c.script;
    assert "" + c.script[0].bytes == c.script[0].bytes;
  }

  lemma DrainWhole(c: Pipeline)
    requires c.parser.state == Body && 1 <= |c.buffer| <= SMALL_MEMORY && CrlfIndex(c.buffer) >= |c.buffer| - 2
    ensures var after := Drain(c).1;
            after.buffer == "" && after.script == c.script && after.parser == Push(c.parser, c.buffer)
  {
    CutWhole(c);
    assert Returns(Push(c.parser, c.buffer).state);
  }

  /** One such read is pushed in one piece. */
  lemma WholePiece(c: Pipeline)
    requires c.parser.state == Body && c.buffer == "" && c.script != [] && WholePieces(c.script)
    ensures c.script[0].Data?
    ensures var after := Process(c).1;
            && after.buffer == "" && after.script == c.script[1..]
            && after.parser == Push(c.parser, c.script[0].bytes)
  {
    ReadWhole(c);
    DrainWhole(c.(script := c.script[1..], buffer := c.script[0].bytes));
  }

  lemma BytesOfPieces(script: Script)
    requires script != [] && WholePieces(script)
    ensures script[0].Data? && 1 <= |script[0].bytes| <= SMALL_MEMORY
    ensures |Bytes(script)| == |script[0].bytes| + |Bytes(script[1..])|
    ensures WholePieces(script[1..])
    ensures |script| > 1 ==> |Bytes(script[1..])| > 0
  {
    assert script[0] in script;
    assert forall e :: e in script[1..] ==> e in script;
    if |script| > 1 { assert script[1..][0] in script; }
  }

  /** The count after the first of several reads: Done exactly if nothing is left. */
  lemma CountPiece(p: Parser, script: Script, n: nat)
    requires p.state == Body && p.contentLength == Some(n) && n <= UINT_MODULUS - SMALL_MEMORY
    requires script != [] && WholePieces(script) && p.bodyLength + |Bytes(script)| == n
    ensures script[0].Data?
    ensures var q := Push(p, script[0].bytes);
            && q.contentLength == Some(n) && q.bodyLength + |Bytes(script[1..])| == n
            && q.state == if |script| == 1 then Done else Body
  {
    BytesOfPieces(script);
    PushCounts(p, script[0].bytes, n);
    assert |script| == 1 ==> Bytes(script[1..]) == "";
  }

  /** A body delivered in such reads behind a consumed head completes with its last byte. */
  lemma {:induction false} BodyInPieces(c: Pipeline, n: nat)
    requires c.parser.state == Body && c.parser.contentLength == Some(n) && n <= UINT_MODULUS - SMALL_MEMORY
    requires c.buffer == "" && c.script != [] && WholePieces(c.script)
    requires c.parser.bodyLength + |Bytes(c.script)| == n
    ensures var last := Calls(c, |c.script|);
            last.parser.state == Done && last.parser.bodyLength == n && last.buffer == ""
    ensures forall k | 0 <= k < |c.script| :: Calls(c, k).parser.state == Body
    decreases |c.script|
  {
    WholePiece(c);
    CountPiece(c.parser, c.script, n);
    BytesOfPieces(c.script);
    var c1 := Process(c).1;
    if |c.script| > 1 {
      BodyInPieces(c1, n);
    }
  }
}
