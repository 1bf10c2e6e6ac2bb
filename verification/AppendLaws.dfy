/** What a run up to the end of the head does when the kernel has more in store. */
module AppendLaws {
  import opened Sequences
  import opened Str
  import opened HeaderParser
  import opened Connection
  import opened ConnectionLaws
  import opened BodyLaws

  // ---------- the reference ----------

  /** Splitting goes on where it stopped. */
  lemma {:induction false} RunHeadMore(p: Parser, s: string, more: string)
    ensures var (q, t) := RunHead(p, s); RunHead(p, s + more) == RunHead(q, t + more)
    decreases |s|
  {
    if InHead(p) && HasCrlf(s) {
      var n := CrlfIndex(s) + 2;
      var line, rest := s[..n], s[n..];
      SplitMore(s, line, rest, more);
      StepHead(p, s, line, rest);
      StepHead(p, s + more, line, rest + more);
      RunHeadMore(Push(p, line), rest, more);
    } else {
      HeadStops(p, s);
    }
  }

  lemma {:induction false} LinesFitFront(p: Parser, s: string, more: string)
    requires LinesFit(p, s + more)
    ensures LinesFit(p, s)
    decreases |s|
  {
    if InHead(p) && HasCrlf(s) {
      var n := CrlfIndex(s) + 2;
      var line, rest := s[..n], s[n..];
      SplitMore(s, line, rest, more);
      StepHead(p, s, line, rest);
      StepHead(p, s + more, line, rest + more);
      LinesFitFront(Push(p, line), rest, more);
    } else if InHead(p) {
      NoLineEnd(s, more);
    }
  }

  /** What is left ends no line, and it is a suffix. */
  lemma {:induction false} RestOfHead(p: Parser, s: string)
    ensures var (q, t) := RunHead(p, s); |t| <= |s| && s[|s| - |t|..] == t && (InHead(q) ==> !HasCrlf(t))
    decreases |s|
  {
    if InHead(p) && HasCrlf(s) {
      var n := CrlfIndex(s) + 2;
      StepHead(p, s, s[..n], s[n..]);
      RestOfHead(Push(p, s[..n]), s[n..]);
    }
  }

  lemma StillComplete(s: string, n: nat)
    requires 2 <= n < |s| && CrlfAt(s, n - 2) && CrlfAt(s, |s| - 2)
    ensures |s[n..]| >= 2 && CrlfAt(s[n..], |s[n..]| - 2)
  {
    assert s[n - 1] == '\n' && s[|s| - 2] == '\r';
  }

  /** A text whose last line is complete leaves nothing, as long as the head is not over. */
  lemma {:induction false} CompleteLines(p: Parser, s: string)
    requires s == "" || (|s| >= 2 && CrlfAt(s, |s| - 2))
    ensures var (q, t) := RunHead(p, s); InHead(q) ==> t == ""
    decreases |s|
  {
    if InHead(p) && s != "" {
      var n := CrlfIndex(s) + 2;
      var line, rest := s[..n], s[n..];
      StepHead(p, s, line, rest);
      if rest != "" { StillComplete(s, n); }
      CompleteLines(Push(p, line), rest);
    } else {
      HeadStops(p, s);
    }
  }

  // ---------- scripts ----------

  lemma BenignConcat(a: Script, b: Script)
    ensures Benign(a + b) <==> Benign(a) && Benign(b)
  {
    assert forall e :: e in a + b <==> e in a || e in b;
  }

  lemma {:induction false} BytesConcat(a: Script, b: Script)
    ensures Bytes(a + b) == Bytes(a) + Bytes(b)
  {
    if a == [] {
      assert a + b == b;
    } else {
      assert (a + b)[1..] == a[1..] + b;
      BytesConcat(a[1..], b);
    }
  }

  lemma {:induction false} ScriptSizeConcat(a: Script, b: Script)
    ensures ScriptSize(a + b) == ScriptSize(a) + ScriptSize(b)
  {
    if a == [] {
      assert a + b == b;
    } else {
      assert (a + b)[1..] == a[1..] + b;
      ScriptSizeConcat(a[1..], b);
    }
  }

  // ---------- runs ----------

  function More(c: Pipeline, more: Script): Pipeline { c.(script := c.script + more) }

  lemma KernelMore(script: Script, more: Script, len: nat)
    requires script != []
    ensures var (e, later) := KernelRead(script, len); KernelRead(script + more, len) == (e, later + more)
  {
    assert (script + more)[1..] == script[1..] + more;
    if script[0].Data? && |script[0].bytes| > len {
      Assoc([Data(script[0].bytes[len..])], script[1..], more);
    }
  }

  lemma ReadMore(c: Pipeline, more: Script)
    requires c.script != []
    ensures var (r, c1) := ReadStep(c); ReadStep(More(c, more)) == (r, More(c1, more))
  {
    KernelMore(c.script, more, if |c.buffer| <= SMALL_MEMORY then SMALL_MEMORY - |c.buffer| else 0);
  }

  /** The call with more in store does the same; or it goes on where the first one found
      nothing to read. */
  predicate SameOrGoesOn(c: Pipeline, more: Script, o: Outcome, after: Pipeline, longer: (Outcome, Pipeline)) {
    || longer == (o, More(after, more))
    || (o == Incomplete && after.script == [] && longer == Process(More(after, more)))
  }

  lemma {:induction false} ProcessMore(c: Pipeline, more: Script)
    requires InHead(c.parser)
    ensures SameOrGoesOn(c, more, Process(c).0, Process(c).1, Process(More(c, more)))
    decreases ScriptSize(c.script), 0
  {
    if c.script == [] {
      assert [] + more == more;
    } else {
      ReadMore(c, more);
      var (r, c1) := ReadStep(c);
      if r == 1 { DrainMore(c1, more); }
    }
  }

  lemma {:induction false} DrainMore(c: Pipeline, more: Script)
    requires InHead(c.parser)
    ensures SameOrGoesOn(c, more, Drain(c).0, Drain(c).1, Drain(More(c, more)))
    decreases ScriptSize(c.script), |c.buffer| + 1
  {
    var (text, c1) := CutText(c);
    if text.None? {
      ProcessMore(c, more);
    } else {
      var c2 := Feed(c1, text.value);
      assert Feed(CutText(More(c, more)).1, text.value) == More(c2, more);
      if !Returns(c2.parser.state) { DrainMore(c2, more); }
    }
  }

  lemma IdleWaits(c: Pipeline)
    requires Idle(c) && c.script == [] && |c.buffer| < SMALL_MEMORY
    ensures Process(c) == (Incomplete, c) && Drive(c) == (Incomplete, c)
  {
  }

  /** Two pipelines with the same next call end alike. */
  lemma SameCall(x: Pipeline, y: Pipeline)
    requires Process(x) == Process(y) && Idle(y) && ScriptSize(y.script) < ScriptSize(x.script)
    requires y.script == [] ==> |y.buffer| < SMALL_MEMORY
    ensures Drive(x) == Drive(y)
  {
    ProcessHead(y);
    if y.script == [] { IdleWaits(y); }
  }

  /** The calls up to the end of the head: with more in store they do the same, or go on from
      where they had to stop. */
  lemma {:induction false} DriveMore(c: Pipeline, more: Script)
    requires Idle(c) && Benign(more)
    ensures var (o, after) := Drive(c);
            if o == Incomplete then after.script == [] && Drive(More(c, more)) == Drive(More(after, more))
            else Drive(More(c, more)) == (o, More(after, more))
    decreases ScriptSize(c.script)
  {
    var (o, c1) := Process(c);
    ProcessMore(c, more);
    ProcessHead(c);
    if o == Incomplete {
      if c.script == [] {
        NotFull(c);
        IdleWaits(c);
      } else if Process(More(c, more)) == (o, More(c1, more)) {
        ScriptSizeConcat(c.script, more);
        ScriptSizeConcat(c1.script, more);
        DriveMore(c1, more);
      } else {
        IdleWaits(c1);
        IdleMore(c1, more);
        ScriptSizeConcat(c.script, more);
        ScriptSizeConcat(c1.script, more);
        SameCall(More(c, more), More(c1, more));
      }
    }
  }

  lemma NotFull(c: Pipeline)
    requires Idle(c) && Process(c).0 == Incomplete && c.script == []
    ensures |c.buffer| < SMALL_MEMORY
  {
  }

  lemma IdleMore(c: Pipeline, more: Script)
    requires Idle(c) && Benign(more)
    ensures Idle(More(c, more))
  {
    BenignConcat(c.script, more);
  }
}
