/** Streams whose head announces a body, whatever its lines are: how the cut into reads decides
    whether the body completes. */
module CutLaws {
  import opened Sequences
  import opened Str
  import opened HeaderParser
  import opened Connection
  import opened ConnectionLaws
  import opened BodyLaws
  import opened AppendLaws
  import opened Wrappers

  // ---------- calls that meet a whole head ----------

  /** A head that is complete in the buffer is drained without another read. */
  lemma {:induction false} DrainCompleteHead(c: Pipeline)
    requires InHead(c.parser) && |c.buffer| <= SMALL_MEMORY && !InHead(RunHead(c.parser, c.buffer).0)
    ensures var (o, after) := Drain(c); var (q, rest) := RunHead(c.parser, c.buffer);
            o == StateOutcome(q.state) && after.parser == q && after.buffer == rest && after.script == c.script
    decreases |c.buffer|
  {
    var c1 := AfterLine(c);
    DrainLine(c);
    if InHead(c1.parser) {
      DrainCompleteHead(c1);
    }
  }

  lemma FirstRead(text: string, more: Script)
    requires 0 < |text| <= SMALL_MEMORY
    ensures ReadStep(Opened([Data(text)] + more)) == (1, Pipeline(more, text, "", FRESH, []))
  {
    var script := [Data(text)] + more;
    assert script[1..] == more;
    assert KernelRead(script, SMALL_MEMORY) == (Data(text), more);
    assert "" + text == text;
  }

  lemma CallIsDrain(c: Pipeline, c1: Pipeline)
    requires ReadStep(c) == (1, c1)
    ensures Process(c) == Drain(c1)
  {
  }

  lemma DriveStops(c: Pipeline)
    ensures Process(c).0 != Incomplete ==> Drive(c) == Process(c)
  {
  }

  lemma DriveIsDrain(c: Pipeline, c1: Pipeline)
    requires ReadStep(c) == (1, c1) && Drain(c1).0 != Incomplete
    ensures Drive(c) == Drain(c1)
  {
    CallIsDrain(c, c1);
    DriveStops(c);
  }

  /** So a call that reads a whole head into an empty buffer consumes just that. */
  lemma CallTakesHead(c: Pipeline, c1: Pipeline)
    requires ReadStep(c) == (1, c1)
    requires InHead(c1.parser) && |c1.buffer| <= SMALL_MEMORY && !InHead(RunHead(c1.parser, c1.buffer).0)
    ensures var (o, after) := Drive(c); var (q, rest) := RunHead(c1.parser, c1.buffer);
            o == StateOutcome(q.state) && after.parser == q && after.buffer == rest && after.script == c1.script
  {
    DrainCompleteHead(c1);
    DriveIsDrain(c, c1);
  }

  // ---------- streams with a body ----------

  /** The lines of the stream fit the buffer and end in a head that announces n bytes. */
  predicate HasBody(s: string, n: nat) {
    var q := RunHead(FRESH, s).0;
    LinesFit(FRESH, s) && q.state == Body && q.contentLength == Some(n) && n <= UINT_MODULUS - SMALL_MEMORY
  }

  /** What the stream holds behind its head, or behind the last line of an incomplete one. */
  function Behind(s: string): string { RunHead(FRESH, s).1 }

  /** How much of it must be pushed: at least one byte, even if none is announced. */
  function Needed(n: nat): nat { if n == 0 then 1 else n }

  predicate Delivers(script: Script, s: string, n: nat) {
    Benign(script) && Bytes(script) == s && HasBody(s, n)
  }

  /** The pipeline when the head has been parsed. */
  function AtBody(script: Script): Pipeline { Drive(Opened(script)).1 }

  lemma HeadCountsNothing(p: Parser, line: string)
    requires InHead(p)
    ensures Push(p, line).bodyLength == p.bodyLength
    ensures Push(p, line).state == Body ==> p.state == Headers && line == "\r\n"
  {
  }

  lemma {:induction false} BodyNotCounted(p: Parser, s: string)
    ensures RunHead(p, s).0.bodyLength == p.bodyLength
    decreases |s|
  {
    if InHead(p) && HasCrlf(s) {
      var n := CrlfIndex(s) + 2;
      StepHead(p, s, s[..n], s[n..]);
      HeadCountsNothing(p, s[..n]);
      BodyNotCounted(Push(p, s[..n]), s[n..]);
    } else {
      HeadStops(p, s);
    }
  }

  lemma AtBodyIs(script: Script, s: string, n: nat)
    requires Delivers(script, s, n)
    ensures var c := AtBody(script);
            && InBody(c, n) && Missing(c.parser, n) == Needed(n) && c.parser == RunHead(FRESH, s).0
            && Ahead(c) == Behind(s) && |c.buffer| <= SMALL_MEMORY - 2
  {
    HeadOfStream(script);
    BodyNotCounted(FRESH, s);
  }

  lemma {:induction false} ReachesDrive(c: Pipeline)
    requires Idle(c)
    ensures Reaches(c) <==> Reaches(Drive(c).1)
    decreases ScriptSize(c.script)
  {
    var (o, c1) := Process(c);
    ReachesNext(c);
    ProcessHead(c);
    if o == Incomplete && ScriptSize(c1.script) < ScriptSize(c.script) { ReachesDrive(c1); }
  }

  lemma ReachesFromBody(script: Script)
    requires Benign(script)
    ensures Reaches(Opened(script)) <==> Reaches(AtBody(script))
  {
    ReachesDrive(Opened(script));
  }

  // ---------- which streams complete ----------

  /** Of every stream with a body, of any length and cut in any way, the calls get to Done exactly
      if the reads behind the head bring the body in time; for a body in one piece, exactly if
      the head did not take the last read that can return. */
  lemma CompletesIff(script: Script, s: string, n: nat)
    requires Delivers(script, s, n)
    ensures var c := AtBody(script);
            && (Reaches(Opened(script)) <==> InTime(c.buffer, Taken(c.buffer, c.script), Needed(n)))
            && (OnePiece(Behind(s), Needed(n)) ==> (Reaches(Opened(script)) <==> Wakes(c.script)))
  {
    AtBodyIs(script, s, n);
    ReachesFromBody(script);
    BodyCompletesIff(AtBody(script), n);
    if OnePiece(Behind(s), Needed(n)) { OnePieceBodyIff(AtBody(script), n); }
  }

  /** Delivered in one read, no stream with a body completes, however often ProcessDataIn is
      called again: what follows the head stays in the buffer. */
  lemma StallsInOneRead(s: string, n: nat, k: nat)
    requires HasBody(s, n) && 0 < |s| <= SMALL_MEMORY
    ensures var c := AtBody([Data(s)]);
            c.buffer == Behind(s) && Calls(c, k) == c && Process(c).0 == PartialBody
  {
    assert [Data(s)] + [] == [Data(s)];
    FirstRead(s, []);
    CallTakesHead(Opened([Data(s)]), Pipeline([], s, "", FRESH, []));
    OneRead(s);
    AtBodyIs([Data(s)], s, n);
    Stalled(AtBody([Data(s)]), k);
  }

  lemma Stalled(c: Pipeline, k: nat)
    requires Roomy(c) && c.script == []
    ensures Calls(c, k) == c && Process(c).0 == PartialBody
  {
    StalledBody(c, k);
    StalledBody(c, 0);
  }

  lemma {:induction false} SilentHasNoBytes(script: Script)
    requires !Wakes(script)
    ensures Bytes(script) == ""
  {
    if script != [] {
      WakesCons(script);
      SilentHasNoBytes(script[1..]);
    }
  }

  /** A head that is complete in `first` is parsed before anything behind it is read. */
  lemma HeadInFirst(first: Script, more: Script)
    requires Benign(first) && Benign(more) && LinesFit(FRESH, Bytes(first)) && !InHead(RunHead(FRESH, Bytes(first)).0)
    ensures AtBody(first + more) == More(AtBody(first), more)
  {
    HeadOfStream(first);
    DriveMore(Opened(first), more);
  }

  /** If `first` does not complete the head, a read that is taken whole completes it with all
      that is there, and nothing is left to read. */
  lemma HeadInLast(first: Script, last: string)
    requires Benign(first) && last != "" && LinesFit(FRESH, Bytes(first)) && InHead(RunHead(FRESH, Bytes(first)).0)
    requires |Behind(Bytes(first))| + |last| <= SMALL_MEMORY && !InHead(RunHead(FRESH, Bytes(first) + last).0)
    ensures AtBody(first + [Data(last)]).script == []
  {
    HeadOfStream(first);
    DriveMore(Opened(first), [Data(last)]);
    RunHeadMore(FRESH, Bytes(first), last);
    var after := AtBody(first);
    assert Ahead(after) == after.buffer;
    assert [] + [Data(last)] == [Data(last)];
    ReadLast(after, last);
    NothingMore(More(after, [Data(last)]), after.(buffer := after.buffer + last));
  }

  lemma ReadLast(c: Pipeline, last: string)
    requires last != "" && c.script == [] && |c.buffer| + |last| <= SMALL_MEMORY
    ensures ReadStep(c.(script := [Data(last)])) == (1, c.(buffer := c.buffer + last))
  {
    assert KernelRead([Data(last)], SMALL_MEMORY - |c.buffer|) == (Data(last), []);
  }

  lemma NothingMore(c: Pipeline, c1: Pipeline)
    requires ReadStep(c) == (1, c1) && c1.script == []
    requires InHead(c1.parser) && |c1.buffer| <= SMALL_MEMORY && !InHead(RunHead(c1.parser, c1.buffer).0)
    ensures Drive(c).1.script == []
  {
    CallTakesHead(c, c1);
  }

  /** Whether a body in one piece completes is decided by the last read, if the buffer has room
      for all of it: it does exactly if that read brings nothing of the head. */
  lemma LastReadDecides(first: Script, last: string, s: string, n: nat)
    requires Delivers(first + [Data(last)], s, n) && OnePiece(Behind(s), Needed(n))
    requires |last| <= |Behind(s)| || |Behind(Bytes(first))| + |last| <= SMALL_MEMORY
    ensures Reaches(Opened(first + [Data(last)])) <==> |last| <= |Behind(s)|
  {
    var script := first + [Data(last)];
    LastBytes(first, last);
    BenignConcat(first, [Data(last)]);
    assert Data(last) in script;
    CompletesIff(script, s, n);
    LinesFitFront(FRESH, Bytes(first), last);
    HeadSplit(Bytes(first), last, RunHead(FRESH, s).0, Behind(s));
    if |last| <= |Behind(s)| {
      HeadInFirst(first, [Data(last)]);
      assert Data(last) in AtBody(script).script;
    } else {
      HeadInLast(first, last);
    }
  }

  lemma LastBytes(first: Script, last: string)
    ensures Bytes(first + [Data(last)]) == Bytes(first) + last
  {
    BytesConcat(first, [Data(last)]);
    BytesCons(Data(last), []);
    assert [Data(last)] + [] == [Data(last)];
  }

  /** A front of a text holds the whole head exactly if what is cut off is no longer than what
      is left behind the head. */
  lemma HeadSplit(s: string, more: string, q: Parser, left: string)
    requires RunHead(FRESH, s + more) == (q, left) && !InHead(q)
    ensures !InHead(RunHead(FRESH, s).0) <==> |more| <= |left|
    ensures |more| <= |left| ==> RunHead(FRESH, s) == (q, left[..|left| - |more|])
  {
    RunHeadMore(FRESH, s, more);
    RestOfHead(FRESH, s);
    var (p, t) := RunHead(FRESH, s);
    if InHead(p) {
      RestBehindLine(p, t, more);
    } else {
      assert left == t + more;
      assert left[..|left| - |more|] == t;
    }
  }

  /** To end the head a line must end in what is added. */
  lemma RestBehindLine(p: Parser, t: string, more: string)
    requires InHead(p) && !HasCrlf(t) && !InHead(RunHead(p, t + more).0)
    ensures |RunHead(p, t + more).1| < |more|
  {
    var s := t + more;
    NoLineEnd(t, more);
    var n := CrlfIndex(s) + 2;
    StepHead(p, s, s[..n], s[n..]);
    RestOfHead(Push(p, s[..n]), s[n..]);
  }

  // ---------- how much the cut matters ----------

  lemma {:induction false} TakenSkips(silent: Script, b: Script)
    requires Benign(silent) && Benign(b) && Bytes(silent) == ""
    ensures Left("", Taken("", silent + b)) == Left("", Taken("", b))
  {
    if silent == [] {
      assert silent + b == b;
    } else {
      var rest := silent[1..];
      assert silent[0] in silent && forall e | e in rest :: e in silent;
      assert (silent + b)[1..] == rest + b;
      TakenSkips(rest, b);
    }
  }

  lemma CutAtHead(a: Script, b: Script, s: string, n: nat)
    requires Delivers(a + b, s, n) && Bytes(b) == Behind(s)
    ensures Benign(b)
    ensures var c := AtBody(a);
            AtBody(a + b) == More(c, b) && c.buffer == "" && Bytes(c.script) == "" && Benign(c.script)
  {
    BenignConcat(a, b);
    BytesConcat(a, b);
    LinesFitFront(FRESH, Bytes(a), Bytes(b));
    HeadSplit(Bytes(a), Bytes(b), RunHead(FRESH, s).0, Behind(s));
    HeadInFirst(a, b);
    HeadOfStream(a);
    assert Ahead(AtBody(a)) == "";
  }

  lemma FromEmptyBuffer(c: Pipeline, b: Script, n: nat)
    requires c.buffer == "" && Bytes(c.script) == "" && Benign(c.script) && Benign(b) && InBody(More(c, b), n)
    ensures Reaches(More(c, b)) <==> |LeftBy("", b)| + Missing(c.parser, n) <= |Ahead(More(c, b))|
  {
    ReachesIff(More(c, b), n);
    TakenSkips(c.script, b);
  }

  lemma CutBehindHeadLeft(a: Script, b: Script, s: string, n: nat)
    requires Delivers(a + b, s, n) && Bytes(b) == Behind(s)
    ensures Reaches(Opened(a + b)) <==> |LeftBy("", b)| + Needed(n) <= |Behind(s)|
  {
    CutAtHead(a, b, s, n);
    AtBodyIs(a + b, s, n);
    ReachesFromBody(a + b);
    FromEmptyBuffer(AtBody(a), b, n);
  }

  /** Cut behind its head, in whatever reads head and body come, a stream completes exactly if
      the reads of the body bring it in time. */
  lemma CutBehindHeadIff(a: Script, b: Script, s: string, n: nat)
    requires Delivers(a + b, s, n) && Bytes(b) == Behind(s)
    ensures Reaches(Opened(a + b)) <==> InTime("", Taken("", b), Needed(n))
  {
    CutBehindHeadLeft(a, b, s, n);
    BenignConcat(a, b);
    TakenText("", b);
    InTimeIff("", Taken("", b), Needed(n));
  }

  /** Complete lines that do not end the head. */
  predicate HeadLines(p: Parser, lines: string) {
    InHead(RunHead(p, lines).0) && RunHead(p, lines).1 == ""
  }

  lemma FirstLineOf(s: string) returns (line: string, tail: string)
    requires HasCrlf(s)
    ensures SplitsInto(s, line, tail) && SplitsInto(line, line, "") && s == line + tail
  {
    var n := CrlfIndex(s) + 2;
    line, tail := s[..n], s[n..];
    assert s == line + tail;
    CrlfIndexWithin(line, tail);
  }

  lemma LineMore(p: Parser, line: string, lines: string)
    requires InHead(p) && SplitsInto(line, line, "") && HeadLines(Push(p, line), lines)
    ensures HeadLines(p, line + lines)
  {
    SplitMore(line, line, "", lines);
    assert "" + lines == lines;
    StepHead(p, line + lines, line, lines);
  }

  /** The first line of a head with a body: the blank one, or one with more of the head behind. */
  lemma FirstOfHead(p: Parser, s: string, line: string, tail: string, q: Parser, rest: string)
    requires InHead(p) && RunHead(p, s) == (q, rest) && q.state == Body && SplitsInto(s, line, tail)
    ensures RunHead(Push(p, line), tail) == (q, rest)
    ensures !InHead(Push(p, line)) ==> p.state == Headers && line == "\r\n" && tail == rest
  {
    StepHead(p, s, line, tail);
    HeadCountsNothing(p, line);
    if !InHead(Push(p, line)) { HeadStops(Push(p, line), tail); }
  }

  /** The head of a stream with a body is complete lines and a blank one. */
  lemma {:induction false} BlankLine(p: Parser, s: string, q: Parser, rest: string) returns (lines: string)
    requires InHead(p) && RunHead(p, s) == (q, rest) && q.state == Body
    ensures s == lines + ("\r\n" + rest) && HeadLines(p, lines) && (p.state == FirstLine ==> lines != "")
    decreases |s|
  {
    if !HasCrlf(s) { HeadStops(p, s); }
    var line, tail := FirstLineOf(s);
    FirstOfHead(p, s, line, tail, q, rest);
    if InHead(Push(p, line)) {
      var more := BlankLine(Push(p, line), tail, q, rest);
      LineMore(p, line, more);
      Assoc(line, more, "\r\n" + rest);
      lines := line + more;
    } else {
      HeadStops(p, "");
      lines := "";
    }
  }

  /** Every stream with a whole body has a cut that completes it: one read for the head, and one
      for each byte behind it. */
  lemma SomeCutCompletes(s: string, n: nat)
    requires HasBody(s, n) && Needed(n) <= |Behind(s)|
    ensures exists script :: Delivers(script, s, n) && Reaches(Opened(script))
  {
    var rest := Behind(s);
    var lines := BlankLine(FRESH, s, RunHead(FRESH, s).0, rest);
    var a, b := [Data(lines + "\r\n")], OneByOne(rest);
    OneByOneBytes(rest);
    OneReadMore(lines + "\r\n", b);
    Assoc(lines, "\r\n", rest);
    CutBehindHeadLeft(a, b, s, n);
  }

  lemma OneReadMore(s: string, more: Script)
    requires s != "" && Benign(more)
    ensures Bytes([Data(s)] + more) == s + Bytes(more) && Benign([Data(s)] + more)
  {
    OneRead(s);
    BytesCons(Data(s), more);
    BenignConcat([Data(s)], more);
  }

  /** A stream whose body is one piece stalls in some cut exactly if all that is behind the head
      fits one read together with the blank line in front of it; a longer rest is always
      completed by the reads it needs itself. */
  lemma BodyDependsOnCutIff(s: string, n: nat)
    requires HasBody(s, n) && OnePiece(Behind(s), Needed(n))
    ensures (exists script :: Delivers(script, s, n) && !Reaches(Opened(script))) <==> |Behind(s)| <= 1022
  {
    if |Behind(s)| <= SMALL_MEMORY - 2 { StallingCut(s, n); }
    forall script | Delivers(script, s, n) && |Behind(s)| > SMALL_MEMORY - 2
      ensures Reaches(Opened(script))
    {
      AtBodyIs(script, s, n);
      CompletesIff(script, s, n);
      if !Wakes(AtBody(script).script) { SilentHasNoBytes(AtBody(script).script); }
    }
  }

  lemma StallingCut(s: string, n: nat)
    requires HasBody(s, n) && OnePiece(Behind(s), Needed(n)) && |Behind(s)| <= SMALL_MEMORY - 2
    ensures exists script :: Delivers(script, s, n) && !Reaches(Opened(script))
  {
    var lines := BlankLine(FRESH, s, RunHead(FRESH, s).0, Behind(s));
    var first, last := [Data(lines)], "\r\n" + Behind(s);
    OneRead(lines);
    LastBytes(first, last);
    BenignConcat(first, [Data(last)]);
    assert Delivers(first + [Data(last)], s, n);
    LastReadDecides(first, last, s, n);
  }

  lemma OneRead(s: string)
    requires s != ""
    ensures Bytes([Data(s)]) == s && Benign([Data(s)])
  {
    BytesCons(Data(s), []);
    assert [Data(s)] + [] == [Data(s)];
  }
}
