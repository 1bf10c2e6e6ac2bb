/** When the body of a request completes. Each read that returns wakes the body phase once, and
    each time it pushes one piece: a line, or all that is buffered if that holds no line end.
    So the pieces queue up behind the reads, and what is left of the queue when the reads run
    out is never looked at again. */
module BodyLaws {
  import opened Sequences
  import opened Str
  import opened Wrappers
  import opened HeaderParser
  import opened Connection
  import opened ConnectionLaws

  // ---------- pieces ----------

  /** What is left of a buffer when its first piece is gone. */
  function Rest(s: string): string {
    var i := CrlfIndex(s);
    if i < |s| then s[i + 2..] else ""
  }

  /** The number of pieces to take off until no more than `extra` bytes are left: one for each
      line, and one for an unfinished line. */
  function Pieces(s: string, extra: nat): nat
    decreases |s|
  {
    if |s| <= extra then 0 else 1 + Pieces(Rest(s), extra)
  }

  /** The buffer behind these reads. */
  function Left(buffer: string, arrivals: seq<string>): string
    decreases |arrivals|
  {
    if arrivals == [] then buffer else Left(Rest(buffer + arrivals[0]), arrivals[1..])
  }

  function Text(arrivals: seq<string>): string {
    if arrivals == [] then "" else arrivals[0] + Text(arrivals[1..])
  }

  /** The reads keep up with the pieces: all of them with what is buffered and arrives, and the
      last ones, however many, with what they bring themselves. The last `extra` bytes do not
      matter. */
  predicate KeepsUp(buffer: string, arrivals: seq<string>, extra: nat) {
    && Pieces(buffer + Text(arrivals), extra) <= |arrivals|
    && SuffixesKeepUp(arrivals, extra)
  }

  predicate SuffixesKeepUp(arrivals: seq<string>, extra: nat) {
    forall j | 0 < j <= |arrivals| :: Pieces(Text(arrivals[j..]), extra) <= |arrivals| - j
  }

  /** The reads bring the missing bytes, and keep up with the pieces that hold them. */
  predicate InTime(buffer: string, arrivals: seq<string>, missing: nat) {
    var total := |buffer| + |Text(arrivals)|;
    missing <= total && KeepsUp(buffer, arrivals, total - missing)
  }

  lemma NoLineEnd(s: string, t: string)
    requires !HasCrlf(s)
    ensures CrlfIndex(s + t) >= |s| + |t| || CrlfIndex(s + t) >= |s| - 1
  {
    var i := CrlfIndex(s + t);
    if i + 2 <= |s| { CrlfIndexWithin(s, t); }
  }

  /** Line ends move with the text. */
  lemma CrlfIndexBehind(s: string, t: string)
    requires CrlfIndex(s + t) >= |s|
    ensures CrlfIndex(s + t) == |s| + CrlfIndex(t)
  {
    var i, k := CrlfIndex(s + t), CrlfIndex(t);
    assert forall j | 0 <= j :: CrlfAt(t, j) == CrlfAt(s + t, |s| + j);
    if k < |t| {
      assert CrlfAt(s + t, |s| + k);
    }
    if i < |s + t| {
      assert CrlfAt(t, i - |s|);
    }
  }

  lemma RestBehind(s: string, t: string)
    requires CrlfIndex(s + t) >= |s|
    ensures Rest(s + t) == Rest(t)
  {
    CrlfIndexBehind(s, t);
  }

  /** A line feed in front of a text is no piece of its own. */
  lemma LineFeedFirst(t: string, extra: nat)
    requires t != "" && t[0] == '\n'
    ensures Pieces(t, extra) <= 1 + Pieces(t[1..], extra)
  {
    assert t == t[..1] + t[1..] && !CrlfAt(t, 0);
    RestBehind(t[..1], t[1..]);
    RestIsShorter(t[1..]);
  }

  lemma RestIsShorter(s: string)
    ensures |Rest(s)| <= |s|
  {
  }

  /** Of two texts that leave the same, the shorter has no more pieces. */
  lemma PiecesSameRest(s: string, t: string, extra: nat)
    requires Rest(s) == Rest(t) && |t| <= |s|
    ensures Pieces(t, extra) <= Pieces(s, extra)
  {
  }

  /** Without its first character a text has no more pieces. */
  lemma PiecesOfTail(s: string, extra: nat)
    requires s != ""
    ensures Pieces(s[1..], extra) <= Pieces(s, extra)
  {
    var t := s[1..];
    assert s == s[..1] + t;
    if CrlfIndex(s) >= 1 {
      RestBehind(s[..1], t);
      PiecesSameRest(s, t, extra);
    } else {
      LineFeedFirst(t, extra);
      EmptyLineFirst(s, extra);
    }
  }

  lemma EmptyLineFirst(s: string, extra: nat)
    requires s != "" && CrlfIndex(s) == 0
    ensures |s| >= 2 && s[1] == '\n' && s[1..][1..] == s[2..]
    ensures Pieces(s, extra) == if |s| <= extra then 0 else 1 + Pieces(s[2..], extra)
  {
    assert CrlfAt(s, 0);
  }

  lemma {:induction false} PiecesFrom(s: string, j: nat, extra: nat)
    requires j <= |s|
    ensures Pieces(s[j..], extra) <= Pieces(s, extra)
  {
    if j == 0 {
      assert s[0..] == s;
    } else {
      PiecesFrom(s, j - 1, extra);
      PiecesOfTail(s[j - 1..], extra);
      assert s[j - 1..][1..] == s[j..];
    }
  }

  lemma PiecesOfSuffix(s: string, t: string, extra: nat)
    ensures Pieces(t, extra) <= Pieces(s + t, extra)
  {
    PiecesFrom(s + t, |s|, extra);
    assert (s + t)[|s|..] == t;
  }

  /** A carriage return in front of a line feed ends a line. */
  lemma JoinedLineEnd(s: string, t: string)
    requires CrlfIndex(s + t) == |s| - 1 && t != ""
    ensures Rest(s + t) == t[1..]
  {
    var u := s + t;
    assert u[|s| + 1..] == t[1..];
  }

  /** An unfinished line in front adds at most one piece. */
  lemma UnfinishedInFront(s: string, t: string, extra: nat)
    requires !HasCrlf(s)
    ensures Pieces(s + t, extra) <= 1 + Pieces(t, extra)
  {
    if t == "" {
      assert s + t == s;
    } else {
      NoLineEnd(s, t);
      if CrlfIndex(s + t) >= |s| {
        RestBehind(s, t);
        RestIsShorter(t);
      } else {
        JoinedLineEnd(s, t);
        PiecesOfTail(t, extra);
      }
    }
  }

  /** Popping a piece off the front of a longer text. */
  lemma RestInFront(s: string, t: string)
    requires HasCrlf(s)
    ensures Rest(s + t) == Rest(s) + t
  {
    CrlfIndexAppend(s, t);
  }

  // ---------- the queue ----------

  /** One read: the pieces are kept up with before it exactly if they are behind it. */
  lemma FirstPiece(s: string, t: string, extra: nat, count: nat)
    requires Pieces(t, extra) <= count
    ensures Pieces(s + t, extra) <= 1 + count <==> Pieces(Rest(s) + t, extra) <= count
  {
    if HasCrlf(s) {
      RestInFront(s, t);
    } else {
      UnfinishedInFront(s, t, extra);
      assert Rest(s) + t == t;
    }
  }

  lemma SuffixesCons(d: string, rest: seq<string>, extra: nat)
    ensures SuffixesKeepUp([d] + rest, extra) <==> Pieces(Text(rest), extra) <= |rest| && SuffixesKeepUp(rest, extra)
  {
    var arrivals := [d] + rest;
    assert arrivals[1..] == rest;
    forall j | 0 < j <= |rest| ensures rest[j..] == arrivals[j + 1..] {
    }
    if SuffixesKeepUp(arrivals, extra) {
      assert Pieces(Text(arrivals[1..]), extra) <= |arrivals| - 1;
      forall j | 0 < j <= |rest| ensures Pieces(Text(rest[j..]), extra) <= |rest| - j {
        assert Pieces(Text(arrivals[j + 1..]), extra) <= |arrivals| - (j + 1);
      }
    }
    if Pieces(Text(rest), extra) <= |rest| && SuffixesKeepUp(rest, extra) {
      forall j | 0 < j <= |arrivals| ensures Pieces(Text(arrivals[j..]), extra) <= |arrivals| - j {
        if j > 1 { assert arrivals[j..] == rest[j - 1..]; }
      }
    }
  }

  lemma KeepsUpCons(buffer: string, d: string, rest: seq<string>, extra: nat)
    ensures KeepsUp(buffer, [d] + rest, extra) <==> KeepsUp(Rest(buffer + d), rest, extra)
  {
    var s, t := buffer + d, Text(rest);
    TextCons(d, rest);
    Assoc(buffer, d, t);
    SuffixesCons(d, rest, extra);
    PiecesOfSuffix(Rest(s), t, extra);
    if Pieces(t, extra) <= |rest| { FirstPiece(s, t, extra, |rest|); }
  }

  lemma TextCons(d: string, arrivals: seq<string>)
    ensures Text([d] + arrivals) == d + Text(arrivals)
  {
  }

  lemma LeftCons(buffer: string, d: string, arrivals: seq<string>)
    ensures Left(buffer, [d] + arrivals) == Left(Rest(buffer + d), arrivals)
  {
  }

  /** No more than `extra` bytes are left exactly if the reads keep up. */
  lemma {:induction false} LeftIff(buffer: string, arrivals: seq<string>, extra: nat)
    ensures |Left(buffer, arrivals)| <= extra <==> KeepsUp(buffer, arrivals, extra)
    decreases |arrivals|
  {
    if arrivals == [] {
      assert buffer + "" == buffer;
    } else {
      var d, rest := arrivals[0], arrivals[1..];
      assert arrivals == [d] + rest;
      KeepsUpCons(buffer, d, rest, extra);
      LeftIff(Rest(buffer + d), rest, extra);
    }
  }

  /** The missing bytes leave the buffer exactly if the reads bring them in time. */
  lemma InTimeIff(buffer: string, arrivals: seq<string>, missing: nat)
    ensures |Left(buffer, arrivals)| + missing <= |buffer| + |Text(arrivals)| <==> InTime(buffer, arrivals, missing)
  {
    var total := |buffer| + |Text(arrivals)|;
    if missing <= total { LeftIff(buffer, arrivals, total - missing); }
  }

  lemma {:induction false} LeftIsShorter(buffer: string, arrivals: seq<string>)
    ensures |Left(buffer, arrivals)| <= |buffer| + |Text(arrivals)|
    decreases |arrivals|
  {
    if arrivals != [] {
      RestIsShorter(buffer + arrivals[0]);
      LeftIsShorter(Rest(buffer + arrivals[0]), arrivals[1..]);
    }
  }

  // ---------- the reads of a run ----------

  /** The reads that return in the body phase, as the kernel and the room in the buffer cut them.
      An interrupted read returns too, without a byte. */
  function Taken(buffer: string, script: Script): seq<string>
    decreases ScriptSize(script)
  {
    if script == [] || |buffer| >= SMALL_MEMORY then []
    else
      var (e, later) := KernelRead(script, SMALL_MEMORY - |buffer|);
      match e
      case Data(bytes) => if bytes == "" then [] else [bytes] + Taken(Rest(buffer + bytes), later)
      case Interrupted => [""] + Taken(Rest(buffer), later)
      case WouldBlock => Taken(buffer, later)
      case Failed => []
  }

  /** Between two calls in a body of announced length n, at most 2^32 - 1024. */
  predicate InBody(c: Pipeline, n: nat) {
    && Roomy(c) && c.parser.contentLength == Some(n) && n <= UINT_MODULUS - SMALL_MEMORY
    && (c.parser.bodyLength < n || c.parser.bodyLength == n == 0)
  }

  /** The bytes still to be pushed. An announced length of 0 is not noticed before one byte is. */
  function Missing(p: Parser, n: nat): nat {
    if p.bodyLength < n then n - p.bodyLength else 1
  }

  ghost predicate Reaches(c: Pipeline) { exists k: nat :: Calls(c, k).parser.state == Done }

  lemma ReachesNext(c: Pipeline)
    requires c.parser.state != Done
    ensures Reaches(c) <==> Reaches(Process(c).1)
  {
    if Reaches(c) {
      var k: nat :| Calls(c, k).parser.state == Done;
      assert Calls(Process(c).1, k - 1).parser.state == Done;
    }
    if Reaches(Process(c).1) {
      var k: nat :| Calls(Process(c).1, k).parser.state == Done;
      assert Calls(c, k + 1).parser.state == Done;
    }
  }

  lemma CutIsRest(c: Pipeline)
    requires c.parser.state == Body && 0 < |c.buffer| <= SMALL_MEMORY
    ensures CutText(c).0.Some? && CutText(c).1.buffer == Rest(c.buffer)
  {
  }

  lemma CountBody(p: Parser, piece: string, n: nat)
    requires p.state == Body && p.contentLength == Some(n) && n <= UINT_MODULUS - SMALL_MEMORY
    requires p.bodyLength < n || p.bodyLength == n == 0
    requires 0 < |piece| <= SMALL_MEMORY
    ensures var q := Push(p, piece);
            if Missing(p, n) <= |piece| then q.state == Done
            else q == p.(bodyLength := p.bodyLength + |piece|) && Missing(q, n) == Missing(p, n) - |piece|
  {
    PushCounts(p, piece, n);
  }

  /** A piece is taken off the buffer and pushed; Done comes with the last missing byte. */
  lemma PushFirst(c: Pipeline, n: nat)
    requires InBody(c.(buffer := ""), n) && 0 < |c.buffer| <= SMALL_MEMORY
    ensures var c2 := Drain(c).1; var count := |Ahead(c)| - |Ahead(c2)|;
            && c2.buffer == Rest(c.buffer) && c2.script == c.script && count > 0
            && if Missing(c.parser, n) <= count then c2.parser.state == Done
               else InBody(c2, n) && Missing(c2.parser, n) == Missing(c.parser, n) - count
                    && c2.parser.bodyLength == c.parser.bodyLength + count
  {
    BodyPush(c);
    CutIsRest(c);
    CountBody(c.parser, CutText(c).0.value, n);
  }

  /** The first read of a script, whether it wakes the body phase, and the script behind it. */
  lemma TakenFirst(buffer: string, script: Script) returns (wakes: bool, bytes: string, later: Script)
    requires |buffer| < SMALL_MEMORY && Benign(script) && script != []
    ensures var (e, l) := KernelRead(script, SMALL_MEMORY - |buffer|);
            wakes == (e != WouldBlock) && bytes == (if e.Data? then e.bytes else "") && later == l
    ensures bytes + Bytes(later) == Bytes(script) && Benign(later) && ScriptSize(later) < ScriptSize(script)
    ensures |buffer + bytes| <= SMALL_MEMORY && (!wakes ==> bytes == "")
    ensures Taken(buffer, script) ==
            if wakes then [bytes] + Taken(Rest(buffer + bytes), later) else Taken(buffer, later)
  {
    var len := SMALL_MEMORY - |buffer|;
    KernelKeepsBytes(script, len);
    KernelStaysBenign(script, len);
    assert buffer + "" == buffer;
    var (e, l) := KernelRead(script, len);
    wakes, bytes, later := e != WouldBlock, if e.Data? then e.bytes else "", l;
  }

  /** The reads carry all bytes of the script. */
  lemma {:induction false} TakenText(buffer: string, script: Script)
    requires |buffer| < SMALL_MEMORY && Benign(script)
    ensures Text(Taken(buffer, script)) == Bytes(script)
    decreases ScriptSize(script)
  {
    if script != [] {
      var wakes, bytes, later := TakenFirst(buffer, script);
      if wakes {
        TakenText(Rest(buffer + bytes), later);
        TextCons(bytes, Taken(Rest(buffer + bytes), later));
      } else {
        TakenText(buffer, later);
        assert "" + Bytes(later) == Bytes(later);
      }
    }
  }

  /** What the reads of a run leave in the buffer. */
  function LeftBy(buffer: string, script: Script): string { Left(buffer, Taken(buffer, script)) }

  lemma LeftByIsShorter(c: Pipeline)
    requires Roomy(c)
    ensures |LeftBy(c.buffer, c.script)| <= |Ahead(c)|
  {
    TakenText(c.buffer, c.script);
    LeftIsShorter(c.buffer, Taken(c.buffer, c.script));
  }

  /** One read: what the call goes on with, and what is left of it in the end. */
  lemma ReadInBody(c: Pipeline, n: nat)
    requires InBody(c, n) && c.script != []
    ensures var (r, c1) := ReadStep(c);
            && (r == 0 || r == 1) && |c1.buffer| <= SMALL_MEMORY && Ahead(c1) == Ahead(c) && c1.parser == c.parser
            && InBody(c1.(buffer := ""), n) && ScriptSize(c1.script) < ScriptSize(c.script)
            && (r == 0 ==> c1.buffer == c.buffer)
            && LeftBy(c.buffer, c.script) == LeftBy(if r == 0 then c.buffer else Rest(c1.buffer), c1.script)
  {
    ReadConserves(c);
    var wakes, bytes, later := TakenFirst(c.buffer, c.script);
    ReadIs(c, wakes, bytes, later);
    if wakes { LeftCons(c.buffer, bytes, Taken(Rest(c.buffer + bytes), later)); }
  }

  lemma ReadIs(c: Pipeline, wakes: bool, bytes: string, later: Script)
    requires Roomy(c) && c.script != []
    requires var (e, l) := KernelRead(c.script, SMALL_MEMORY - |c.buffer|);
             wakes == (e != WouldBlock) && bytes == (if e.Data? then e.bytes else "") && later == l
    ensures ReadStep(c) == (if wakes then 1 else 0, c.(script := later, buffer := c.buffer + bytes))
  {
    KernelStaysBenign(c.script, SMALL_MEMORY - |c.buffer|);
    assert c.buffer + "" == c.buffer;
  }

  lemma {:induction false} ReachesIff(c: Pipeline, n: nat)
    requires InBody(c, n)
    ensures Reaches(c) <==> |LeftBy(c.buffer, c.script)| + Missing(c.parser, n) <= |Ahead(c)|
    decreases ScriptSize(c.script)
  {
    if c.script == [] {
      forall k: nat ensures Calls(c, k).parser.state == Body { StalledBody(c, k); }
      assert Ahead(c) == c.buffer;
    } else {
      ReadInBody(c, n);
      ReachesNext(c);
      var (r, c1) := ReadStep(c);
      if r == 0 {
        ReachesIff(c1, n);
      } else if c1.buffer == "" {
        ReachesNext(c1);
        ReachesIff(c1, n);
      } else {
        ReachesByPush(c1, n);
        var c2 := Drain(c1).1;
        if c2.parser.state != Done { ReachesIff(c2, n); }
      }
    }
  }

  /** A push gets to Done at once, or leaves the question to the rest. */
  lemma ReachesByPush(c: Pipeline, n: nat)
    requires InBody(c.(buffer := ""), n) && 0 < |c.buffer| <= SMALL_MEMORY
    ensures var c2 := Drain(c).1;
            && c2.buffer == Rest(c.buffer) && c2.script == c.script
            && if c2.parser.state == Done
               then Reaches(c2) && |LeftBy(c2.buffer, c2.script)| + Missing(c.parser, n) <= |Ahead(c)|
               else InBody(c2, n) && Missing(c.parser, n) - |Ahead(c)| == Missing(c2.parser, n) - |Ahead(c2)|
  {
    PushFirst(c, n);
    var c2 := Drain(c).1;
    if c2.parser.state == Done {
      assert Calls(c2, 0).parser.state == Done;
      RestHasRoom(c.buffer);
      LeftByIsShorter(c2.(parser := c.parser));
    }
  }

  lemma RestHasRoom(s: string)
    requires 0 < |s|
    ensures |Rest(s)| < |s|
  {
  }

  /** For every error-free script and every body, whatever line ends it holds and whatever comes
      behind it: the calls get to Done exactly if enough bytes come and the reads keep up with
      the pieces that hold them. */
  lemma BodyCompletesIff(c: Pipeline, n: nat)
    requires InBody(c, n)
    ensures Reaches(c) <==> InTime(c.buffer, Taken(c.buffer, c.script), Missing(c.parser, n))
  {
    ReachesIff(c, n);
    TakenText(c.buffer, c.script);
    InTimeIff(c.buffer, Taken(c.buffer, c.script), Missing(c.parser, n));
  }

  // ---------- Done comes with the last byte ----------

  /** n bytes of the body have been pushed since c0, or all of them. */
  predicate Counted(c0: Pipeline, c: Pipeline, n: nat) {
    var count := |Ahead(c0)| - |Ahead(c)|;
    && count >= 0 && |c.buffer| <= SMALL_MEMORY
    && if count < Missing(c0.parser, n) then InBody(c, n) && c.parser.bodyLength == c0.parser.bodyLength + count
       else c.parser.state == Done
  }

  lemma {:induction false} ProcessBody(c: Pipeline, n: nat)
    requires InBody(c, n)
    ensures Counted(c, Process(c).1, n)
    decreases ScriptSize(c.script)
  {
    if c.script != [] {
      ReadInBody(c, n);
      var (r, c1) := ReadStep(c);
      if r == 1 && c1.buffer == "" {
        ProcessBody(c1, n);
      } else if r == 1 {
        PushFirst(c1, n);
      }
    }
  }

  /** Once Done, calls only take bytes away. */
  lemma {:induction false} DoneTakes(c: Pipeline)
    requires c.parser.state == Done && |c.buffer| <= SMALL_MEMORY
    ensures var after := Process(c).1;
            after.parser.state == Done && |after.buffer| <= SMALL_MEMORY && |Ahead(after)| <= |Ahead(c)|
    decreases ScriptSize(c.script)
  {
    ReadKeepsBytes(c);
    var (r, c1) := ReadStep(c);
    if r == 1 {
      if CutText(c1).0.None? { DoneTakes(c1); } else { CutKeeps(c1); }
    }
  }

  lemma CountedMore(c0: Pipeline, c: Pipeline, n: nat)
    requires InBody(c0, n) && Counted(c0, c, n)
    ensures Counted(c0, Process(c).1, n)
  {
    if c.parser.state == Done { DoneTakes(c); } else { ProcessBody(c, n); }
  }

  /** n calls, and one more behind them. */
  lemma {:induction false} CallsSnoc(c: Pipeline, n: nat)
    ensures Calls(c, n + 1) == Process(Calls(c, n)).1
    decreases n
  {
    if n > 0 { CallsSnoc(Process(c).1, n - 1); }
  }

  /** After any number of calls the state is Body, with all bytes counted, exactly until the
      missing ones are pushed, and Done from then on. */
  lemma {:induction false} DoneWithLastByte(c: Pipeline, n: nat, k: nat)
    requires InBody(c, n)
    ensures Counted(c, Calls(c, k), n)
    decreases k
  {
    if k > 0 {
      DoneWithLastByte(c, n, k - 1);
      CallsSnoc(c, k - 1);
      CountedMore(c, Calls(c, k - 1), n);
    }
  }

  // ---------- conditions on the script ----------

  predicate Wakes(script: Script) { exists e :: e in script && e != WouldBlock }

  lemma WakesCons(script: Script)
    requires script != []
    ensures Wakes(script) <==> script[0] != WouldBlock || Wakes(script[1..])
  {
    assert script[0] in script && forall e :: e in script <==> e == script[0] || e in script[1..];
    if Wakes(script[1..]) {
      var e :| e in script[1..] && e != WouldBlock;
      assert e in script;
    }
  }

  /** Some read is taken exactly if some read can return. */
  lemma {:induction false} TakenWakes(buffer: string, script: Script)
    requires |buffer| < SMALL_MEMORY && Benign(script)
    ensures Taken(buffer, script) != [] <==> Wakes(script)
    decreases ScriptSize(script)
  {
    if script != [] {
      WakesCons(script);
      KernelStaysBenign(script, SMALL_MEMORY - |buffer|);
      if script[0] == WouldBlock { TakenWakes(buffer, script[1..]); }
    }
  }

  lemma {:induction false} TextOfSuffix(arrivals: seq<string>, j: nat)
    requires j <= |arrivals|
    ensures exists front :: Text(arrivals) == front + Text(arrivals[j..])
  {
    if j == 0 {
      assert arrivals[0..] == arrivals && Text(arrivals) == "" + Text(arrivals[0..]);
    } else {
      TextOfSuffix(arrivals[1..], j - 1);
      var front :| Text(arrivals[1..]) == front + Text(arrivals[1..][j - 1..]);
      assert arrivals[1..][j - 1..] == arrivals[j..];
      assert Text(arrivals) == (arrivals[0] + front) + Text(arrivals[j..]);
    }
  }

  /** A text of one piece is kept up with by any read at all. */
  lemma OnePieceKeepsUp(buffer: string, arrivals: seq<string>, extra: nat)
    requires Pieces(buffer + Text(arrivals), extra) == 1
    ensures KeepsUp(buffer, arrivals, extra) <==> arrivals != []
  {
    forall j | 0 < j <= |arrivals| ensures Pieces(Text(arrivals[j..]), extra) <= 1 {
      SuffixOfOnePiece(buffer, arrivals, extra, j);
    }
    assert arrivals[|arrivals|..] == [];
  }

  lemma SuffixOfOnePiece(buffer: string, arrivals: seq<string>, extra: nat, j: nat)
    requires Pieces(buffer + Text(arrivals), extra) == 1 && j <= |arrivals|
    ensures Pieces(Text(arrivals[j..]), extra) <= 1
  {
    TextOfSuffix(arrivals, j);
    var t := Text(arrivals[j..]);
    var front :| Text(arrivals) == front + t;
    assert buffer + (front + t) == (buffer + front) + t;
    PiecesOfSuffix(buffer + front, t, extra);
  }

  /** The missing bytes are there, and no CR LF ends before the last of them. */
  predicate OnePiece(s: string, missing: nat) { missing <= |s| && CrlfIndex(s) + 2 >= missing }

  lemma OnePieceIsOne(s: string, missing: nat)
    requires OnePiece(s, missing) && missing > 0
    ensures Pieces(s, |s| - missing) == 1
  {
    assert |Rest(s)| <= |s| - missing;
  }

  lemma OnePieceInTime(buffer: string, arrivals: seq<string>, missing: nat)
    requires OnePiece(buffer + Text(arrivals), missing) && missing > 0
    ensures InTime(buffer, arrivals, missing) <==> arrivals != []
  {
    OnePieceIsOne(buffer + Text(arrivals), missing);
    OnePieceKeepsUp(buffer, arrivals, |buffer| + |Text(arrivals)| - missing);
  }

  /** A body without inner line ends, whatever its length and whatever comes behind it, completes
      exactly if any read can still return: what is buffered already is pushed with it. */
  lemma OnePieceBodyIff(c: Pipeline, n: nat)
    requires InBody(c, n) && OnePiece(Ahead(c), Missing(c.parser, n))
    ensures Reaches(c) <==> Wakes(c.script)
  {
    BodyCompletesIff(c, n);
    TakenText(c.buffer, c.script);
    TakenWakes(c.buffer, c.script);
    OnePieceInTime(c.buffer, Taken(c.buffer, c.script), Missing(c.parser, n));
  }

  /** What the events of a script bring, if none is cut. */
  function Arrivals(script: Script): seq<string> {
    if script == [] then []
    else (match script[0]
      case Data(bytes) => [bytes]
      case Interrupted => [""]
      case _ => []) + Arrivals(script[1..])
  }

  lemma BytesFirst(script: Script)
    requires script != []
    ensures |Bytes(script)| == (if script[0].Data? then |script[0].bytes| else 0) + |Bytes(script[1..])|
  {
  }

  lemma {:induction false} TakenWhole(buffer: string, script: Script)
    requires |buffer| + |Bytes(script)| <= SMALL_MEMORY && |buffer| < SMALL_MEMORY && Benign(script)
    ensures Taken(buffer, script) == Arrivals(script)
    decreases |script|
  {
    if script != [] {
      var e, later := script[0], script[1..];
      assert e in script && forall x | x in later :: x in script;
      BytesFirst(script);
      assert KernelRead(script, SMALL_MEMORY - |buffer|) == (e, later);
      match e
      case Data(bytes) => TakenWhole(Rest(buffer + bytes), later);
      case Interrupted => TakenWhole(Rest(buffer), later);
      case WouldBlock => TakenWhole(buffer, later);
    }
  }

  /** If all that is ahead fits the buffer the condition is one on the script. */
  lemma SmallBodyIff(c: Pipeline, n: nat)
    requires InBody(c, n) && |Ahead(c)| <= SMALL_MEMORY
    ensures Reaches(c) <==> InTime(c.buffer, Arrivals(c.script), Missing(c.parser, n))
  {
    BodyCompletesIff(c, n);
    TakenWhole(c.buffer, c.script);
  }

  // ---------- byte by byte ----------

  function OneByOne(s: string): Script {
    if s == "" then [] else [Data(s[..1])] + OneByOne(s[1..])
  }

  lemma {:induction false} OneByOneBytes(s: string)
    ensures Bytes(OneByOne(s)) == s && Benign(OneByOne(s))
    ensures Left("", Taken("", OneByOne(s))) == ""
  {
    if s != "" {
      var rest := OneByOne(s[1..]);
      OneByOneBytes(s[1..]);
      BytesCons(Data(s[..1]), rest);
      assert s == s[..1] + s[1..];
      var script := OneByOne(s);
      assert script[1..] == rest && KernelRead(script, SMALL_MEMORY) == (Data(s[..1]), rest);
      assert "" + s[..1] == s[..1] && Rest(s[..1]) == "";
      LeftCons("", s[..1], Taken("", rest));
    }
  }
}
