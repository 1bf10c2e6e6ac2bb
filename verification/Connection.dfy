/** Connection (src/hpl_connection.cc) in the built configuration SMALL_MEMORY=1024: the
    bounded reassembly buffer between the socket and the header parser. The kernel is a
    script of read results; `pushed` is the history of the texts given to PushLine. */
module Connection {
  import opened Str
  import opened Wrappers
  import opened HeaderParser

  const SMALL_MEMORY: nat := 1024

  /** What the kernel has in store. Data without bytes is the end of the stream. */
  datatype ReadEvent = Data(bytes: string) | WouldBlock | Interrupted | Failed

  type Script = seq<ReadEvent>

  datatype Pipeline = Pipeline(
    script: Script, buffer: string, partialBody: string, parser: Parser, pushed: seq<string>)

  /** What ProcessDataIn tells its caller; Hangs marks a call that never returns. */
  datatype Outcome = Closed | Incomplete | PartialBody | Complete | Hangs

  // ---------- read(2) ----------

  /** read: at most len bytes; asking for none yields none; an idle socket would block. */
  function KernelRead(script: Script, len: nat): (r: (ReadEvent, Script))
    ensures r.0.Data? ==> |r.0.bytes| <= len
    ensures r.0.Interrupted? || (r.0.Data? && r.0.bytes != "") ==> ScriptSize(r.1) < ScriptSize(script)
    ensures ScriptSize(r.1) <= ScriptSize(script)
  {
    if len == 0 then (Data(""), script)
    else if script == [] then (WouldBlock, [])
    else if script[0].Data? && |script[0].bytes| > len then
      var later := [Data(script[0].bytes[len..])] + script[1..];
      assert later[1..] == script[1..];
      (Data(script[0].bytes[..len]), later)
    else (script[0], script[1..])
  }

  function ScriptSize(script: Script): nat {
    if script == [] then 0
    else (if script[0].Data? then 1 + |script[0].bytes| else 1) + ScriptSize(script[1..])
  }

  /** The bytes a script still delivers. */
  function Bytes(script: Script): string {
    if script == [] then ""
    else (if script[0].Data? then script[0].bytes else "") + Bytes(script[1..])
  }

  // ---------- the calls of the source, on values ----------

  /** Connection::Read, with its result -1, 0 or 1. */
  function ReadStep(c: Pipeline): (r: (int, Pipeline))
    ensures r.0 == 1 ==> ScriptSize(r.1.script) < ScriptSize(c.script)
  {
    var len := if |c.buffer| <= SMALL_MEMORY then SMALL_MEMORY - |c.buffer| else 0;
    var (e, later) := KernelRead(c.script, len);
    var c' := c.(script := later);
    match e
    case Data(bytes) => if bytes == "" then (-1, c') else (1, c'.(buffer := c.buffer + bytes))
    case WouldBlock => (0, c')
    case Interrupted => (1, c')
    case Failed => (-1, c')
  }

  function StateOutcome(s: ParserState): Outcome {
    match s
    case Body => PartialBody
    case Done => Complete
    case Hung => Hangs
    case _ => Incomplete
  }

  /** The text the inner loop pushes next, and the buffer without it. */
  function CutText(c: Pipeline): (r: (Option<string>, Pipeline))
    ensures r.0.None? ==> r.1 == c
    ensures r.0.Some? ==> |r.1.buffer| < |c.buffer| && r.1.script == c.script
  {
    var i := CrlfIndex(c.buffer);
    if i < |c.buffer| then (Some(c.buffer[..i + 2]), c.(buffer := c.buffer[i + 2..]))
    else if c.buffer == "" || c.parser.state != Body then (None, c)
    else
      var n := if |c.buffer| < 1024 then |c.buffer| else 1024;
      (Some(c.buffer[..n]), c.(partialBody := c.buffer[..n], buffer := c.buffer[n..]))
  }

  function Feed(c: Pipeline, text: string): Pipeline {
    c.(parser := Push(c.parser, text), pushed := c.pushed + [text])
  }

  /** A result that ends ProcessDataIn at once. */
  predicate Returns(s: ParserState) { s == Body || s == Done || s == Hung }

  /** ProcessDataIn from the top of the outer loop. */
  function Process(c: Pipeline): (Outcome, Pipeline)
    decreases ScriptSize(c.script), 0
  {
    var (ret, c1) := ReadStep(c);
    if ret == -1 then (Closed, c1)
    else if ret == 0 then (StateOutcome(c1.parser.state), c1)
    else Drain(c1)
  }

  /** ProcessDataIn from the top of the inner loop. */
  function Drain(c: Pipeline): (Outcome, Pipeline)
    decreases ScriptSize(c.script), |c.buffer| + 1
  {
    match CutText(c)
    case (None, _) => Process(c)
    case (Some(text), c1) =>
      var c2 := Feed(c1, text);
      if Returns(c2.parser.state) then (StateOutcome(c2.parser.state), c2) else Drain(c2)
  }

  // ---------- the class ----------

  /** The read failed, ended the stream, or was not given room for a byte. */
  predicate Bad(len: nat, e: ReadEvent) { len == 0 || e.Failed? || (e.Data? && e.bytes == "") }

  class Socket {
    var script: Script

    /** All reads so far: what was asked for, and what came. */
    ghost var log: seq<(nat, ReadEvent)>

    constructor (s: Script)
      ensures script == s && log == []
    {
      script, log := s, [];
    }

    method Read(len: nat) returns (e: ReadEvent)
      modifies this
      ensures (e, script) == KernelRead(old(script), len)
      ensures log == old(log) + [(len, e)]
    {
      var (r, later) := KernelRead(script, len);
      e, script, log := r, later, log + [(len, r)];
    }

    /** The last read was a bad one. */
    ghost predicate LastBad()
      reads this
    {
      log != [] && Bad(log[|log| - 1].0, log[|log| - 1].1)
    }
  }

  class Connection {
    const socket: Socket
    const parser: HttpHeaderParser
    var buffer: string
    var partialBody: string
    ghost var pushed: seq<string>

    ghost function Abs(): Pipeline
      reads this, socket, parser
    {
      Pipeline(socket.script, buffer, partialBody, parser.View(), pushed)
    }

    constructor (s: Socket)
      ensures socket == s && fresh(parser)
      ensures Abs() == Pipeline(s.script, "", "", FRESH, [])
    {
      socket := s;
      parser := new HttpHeaderParser();
      buffer, partialBody, pushed := "", "", [];
    }

    /** Cuts the buffer behind its first CR LF. */
    method PopLine() returns (line: Option<string>)
      modifies this`buffer
      ensures line.None? ==> buffer == old(buffer) && !HasCrlf(buffer)
      ensures line.Some? ==> old(buffer) == line.value + buffer
      ensures line.Some? ==> |line.value| >= 2 && CrlfIndex(old(buffer)) == |line.value| - 2
    {
      if |buffer| < 2 {
        return None;
      }
      var idx := 0;
      while idx < |buffer| - 1
        invariant 0 <= idx <= |buffer| - 1
        invariant forall k | 0 <= k < idx :: !CrlfAt(buffer, k)
      {
        if buffer[idx] == '\r' && buffer[idx + 1] == '\n' {
          break;
        }
        idx := idx + 1;
      }
      if idx >= |buffer| - 1 {
        return None;
      }
      CrlfIndexUnique(buffer, idx);
      line := Some(buffer[..idx + 2]);
      buffer := buffer[idx + 2..];
    }

    method Read() returns (r: int)
      requires |buffer| <= SMALL_MEMORY
      modifies this`buffer, socket
      ensures (r, Abs()) == ReadStep(old(Abs()))
      ensures |socket.log| == |old(socket.log)| + 1
      ensures var (len, e) := socket.log[|old(socket.log)|];
              && len == SMALL_MEMORY - |old(buffer)|
              && r == (if Bad(len, e) then -1 else if e == WouldBlock then 0 else 1)
              && buffer == old(buffer) + if r == 1 && e.Data? then e.bytes else ""
    {
      var e := socket.Read(SMALL_MEMORY - |buffer|);
      match e
      case Data(bytes) =>
        if bytes == "" {
          return -1;
        }
        buffer := buffer + bytes;
        return 1;
      case WouldBlock => return 0;
      case Interrupted => return 1;
      case Failed => return -1;
    }

    /** The text for the next PushLine: a line or, in the body, what the buffer holds. */
    method NextText() returns (text: Option<string>)
      modifies this`buffer, this`partialBody
      ensures (text, Abs()) == CutText(old(Abs()))
    {
      text := PopLine();
      if text.None? {
        if buffer == "" || parser.state != Body {
          return None;
        }
        var n := if |buffer| < 1024 then |buffer| else 1024;
        partialBody := buffer[..n];
        buffer := buffer[n..];
        return Some(partialBody);
      }
    }

    /** The inner loop. None: it broke off for another read. */
    method DrainBuffer() returns (ret: Option<int>)
      requires |buffer| <= SMALL_MEMORY
      requires Drain(Abs()).0 != Hangs
      modifies this, parser
      ensures |buffer| <= SMALL_MEMORY
      ensures ret.None? ==> Process(Abs()) == Drain(old(Abs()))
      ensures ret.Some? ==> Drain(old(Abs())) == (StateOutcome(parser.state), Abs())
      ensures ret.Some? ==> ret.value == (if parser.state == Done then 1 else 0) && (parser.state == Done || parser.state == Body)
    {
      while true
        invariant |buffer| <= SMALL_MEMORY
        invariant Drain(Abs()) == Drain(old(Abs()))
        decreases |buffer|
      {
        var text := NextText();
        if text.None? {
          return None;
        }
        var s := parser.PushLine(text.value);
        pushed := pushed + [text.value];
        if s == Done || s == Body {
          var answer := StateRet(s);
          return Some(answer);
        }
      }
    }

    /** The lambda state_ret. */
    static method StateRet(s: ParserState) returns (ret: int)
      ensures s == Done ==> ret == 1
      ensures s == Body ==> ret == 0
      ensures s != Done && s != Body ==> ret == -1
    {
      match s
      case Body => return 0;
      case Done => return 1;
      case _ => return -1;
    }

    /** -2 exactly if the last read was a bad one; otherwise the number tells the state. */
    method ProcessDataIn() returns (ret: int)
      requires |buffer| <= SMALL_MEMORY
      requires Process(Abs()).0 != Hangs
      modifies this, socket, parser
      ensures |buffer| <= SMALL_MEMORY
      ensures Abs() == Process(old(Abs())).1
      ensures ret == -2 <==> Process(old(Abs())).0 == Closed
      ensures ret == -2 <==> socket.LastBad()
      ensures ret == -2 || ret == -1 || ret == 0 || ret == 1
      ensures ret == 1 ==> parser.state == Done
      ensures ret == 0 ==> parser.state == Body
      ensures ret == -1 ==> parser.state == FirstLine || parser.state == Headers
    {
      while true
        invariant |buffer| <= SMALL_MEMORY
        invariant Process(Abs()) == Process(old(Abs()))
        decreases ScriptSize(socket.script)
      {
        var r := Read();
        if r == -1 {
          return -2;
        } else if r == 0 {
          ret := StateRet(parser.state);
          return;
        }
        var done := DrainBuffer();
        if done.Some? {
          return done.value;
        }
      }
    }
  }
}
