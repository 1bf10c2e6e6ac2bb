/** HttpHeaderParser (src/hpl_header_parser.cc): the four-state line parser. */
module HeaderParser {
  import opened Str
  import opened Http
  import opened Wrappers

  /** Hung is not an enumerator of the source: it marks a PushLine that never returns. */
  datatype ParserState = FirstLine | Headers | Body | Done | Hung

  /** The bits of connection_flags_ and upgrade_flags_; a flag word is the set of its bits. */
  datatype ConnectionFlag = ConnectionClose | ConnectionKeepAlive | ConnectionUpgrade
  datatype UpgradeFlag = UpgradeWebSocket

  datatype Parser = Parser(
    state: ParserState,
    httpMethod: HttpMethod, uri: string, version: HttpVersion,
    headers: map<string, string>,
    connectionFlags: set<ConnectionFlag>, upgradeFlags: set<UpgradeFlag>,
    host: string, userAgent: string,
    contentLength: Option<nat>, bodyLength: nat)

  const FRESH := Parser(FirstLine, UNKNOWN_METHOD, "", UNKNOWN_VERSION, map[], {}, {}, "", "", None, 0)

  const UINT_MODULUS: nat := 0x1_0000_0000

  const CONTENT_LENGTH_KEY := "content-length:"
  const HOST_KEY := "host:"
  const CONNECTION_KEY := "connection:"
  const UPGRADE_KEY := "upgrade:"
  const USER_AGENT_KEY := "user-agent:"
  const UPGRADE_WS := "websocket"

  // ---------- atoi ----------

  predicate IsCSpace(c: char) { c == ' ' || '\t' <= c <= '\r' }
  predicate NotCSpace(c: char) { !IsCSpace(c) }
  predicate IsDigit(c: char) { '0' <= c <= '9' }
  predicate NotDigit(c: char) { !IsDigit(c) }

  /** The number a string of digits denotes. */
  function DecimalValue(ds: string): nat
    requires forall c | c in ds :: IsDigit(c)
  {
    if ds == "" then 0
    else assert IsDigit(ds[|ds| - 1]); 10 * DecimalValue(ds[..|ds| - 1]) + (ds[|ds| - 1] as int - '0' as int)
  }

  function LeadingDigits(s: string, off: nat): (r: string)
    ensures forall c | c in r :: IsDigit(c)
  {
    if off >= |s| then "" else s[off..IndexFrom(s, off, NotDigit)]
  }

  const LONG_MAX: int := 0x7fff_ffff_ffff_ffff

  function Saturate(v: int): int {
    if v > LONG_MAX then LONG_MAX else if v < -LONG_MAX - 1 then -LONG_MAX - 1 else v
  }

  /** The signed number at position i, saturated. */
  function Strtol(s: string, i: nat): int {
    var negative := i < |s| && s[i] == '-';
    var j := if i < |s| && (s[i] == '-' || s[i] == '+') then i + 1 else i;
    var v := DecimalValue(LeadingDigits(s, j));
    Saturate(if negative then 0 - v as int else v)
  }

  /** atoi as glibc computes it, a saturating strtol cut down to int, stored in an unsigned. */
  function AtoiUnsigned(s: string, off: nat): (r: nat)
    ensures r < UINT_MODULUS
  {
    Strtol(s, IndexFrom(s, off, NotCSpace)) % UINT_MODULUS
  }

  // ---------- the first line ----------

  /** ParseFirstLine: method, URI, version. Without a second blank the URI is the whole rest
      of the line and the version is looked for at the start of the line. */
  function ParseFirstLine(line: string): (HttpMethod, string, HttpVersion) {
    var (m, pos) := ParseHttpMethod(line, 0);
    if m == UNKNOWN_METHOD then (UNKNOWN_METHOD, "", UNKNOWN_VERSION)
    else
      var start := IndexFrom(line, pos, NotSpace);
      var next := IndexFrom(line, start, IsBlank);
      (m, line[start..next],
       ParseHttpVersion(CString(line, if next == |line| then 0 else next + 1)))
  }

  predicate IsBlank(c: char) { c == ' ' }

  // ---------- the header branches ----------

  /** The value from off on: leading blanks dropped, cut at the first CR or LF. */
  function Field(line: string, off: nat): string {
    var b := IndexFrom(line, off, NotSpace);
    line[b..IndexFrom(line, b, IsEol)]
  }

  /** The number from off on. */
  function Number(line: string, off: nat): nat {
    AtoiUnsigned(line, IndexFrom(line, off, NotSpace))
  }

  /** Name, from the very start of the line, and value; None without a colon from k on. */
  function NameAndValue(line: string, k: nat): Option<(string, string)> {
    var colon := IndexFrom(line, k, IsColon);
    if colon == |line| then None else Some((line[..colon], Field(line, colon + 1)))
  }

  predicate WebsocketAt(line: string, i: nat) {
    IcaseCmp(CString(line, i), UPGRADE_WS)
  }

  /** "websocket" stands at some position of the line from `from` on. */
  predicate MentionsWebsocket(line: string, from: nat) {
    exists i | from <= i < |line| :: WebsocketAt(line, i)
  }

  /** The token that stands for a flag on the wire. */
  function TokenText(f: ConnectionFlag): (r: string)
    ensures |r| > 0
  {
    match f
    case ConnectionUpgrade => "upgrade"
    case ConnectionKeepAlive => "keep-alive"
    case ConnectionClose => "close"
  }

  /** The token the Connection loop recognises in a text, if any. */
  function TokenOf(text: string): Option<ConnectionFlag> {
    if IcaseCmp(text, TokenText(ConnectionUpgrade)) then Some(ConnectionUpgrade)
    else if IcaseCmp(text, TokenText(ConnectionKeepAlive)) then Some(ConnectionKeepAlive)
    else if IcaseCmp(text, TokenText(ConnectionClose)) then Some(ConnectionClose)
    else None
  }

  /** One round of the Connection loop from position pos: the line is used up, a token is
      found and the scan goes on behind the next comma, or nothing is recognised and the
      next round starts where this one stopped. */
  datatype Round = Finished | Found(flag: ConnectionFlag, next: nat) | Unrecognised(next: nat)

  function ConnectionRound(line: string, pos: nat): (r: Round)
    ensures r.Found? ==> pos < |line| && pos < r.next
    ensures r.Unrecognised? ==> pos <= r.next < |line|
  {
    var i := IndexFrom(line, pos, NotSpace);
    if i == |line| then Finished
    else match TokenOf(CString(line, i))
      case None => Unrecognised(i)
      case Some(t) => Found(t, IndexFrom(line, i + |TokenText(t)|, IsComma) + 1)
  }

  /** The flags the Connection loop adds from pos on; None when it never leaves the loop. */
  function ConnectionFlagsFrom(line: string, pos: nat): Option<set<ConnectionFlag>>
    decreases if pos <= |line| then |line| - pos else 0
  {
    match ConnectionRound(line, pos)
    case Finished => Some({})
    case Unrecognised(_) => None
    case Found(t, next) =>
      match ConnectionFlagsFrom(line, next)
      case None => None
      case Some(flags) => Some({t} + flags)
  }

  /** std::map::emplace: an existing key keeps its value. */
  function Emplace(m: map<string, string>, k: string, v: string): map<string, string> {
    if k in m then m else m[k := v]
  }

  /** The chain of header-name tests, in the order of the source. */
  datatype HeaderKind = ContentLengthHeader | UpgradeHeader | HostHeader | ConnectionHeader | UserAgentHeader | OtherHeader

  function Classify(key: string): HeaderKind {
    if IcaseCmp(key, CONTENT_LENGTH_KEY) then ContentLengthHeader
    else if IcaseCmp(key, UPGRADE_KEY) then UpgradeHeader
    else if IcaseCmp(key, HOST_KEY) then HostHeader
    else if IcaseCmp(key, CONNECTION_KEY) then ConnectionHeader
    else if IcaseCmp(key, USER_AGENT_KEY) then UserAgentHeader
    else OtherHeader
  }

  /** The branch taken for a line whose name starts at position k. */
  function Branch(p: Parser, line: string, k: nat, kind: HeaderKind): (q: Parser)
    requires p.state == Headers
    ensures q.state == Headers || q.state == Hung
  {
    match kind
    case ContentLengthHeader =>
      p.(contentLength := Some(Number(line, k + |CONTENT_LENGTH_KEY|)))
    case UpgradeHeader =>
      p.(upgradeFlags := p.upgradeFlags +
                         if MentionsWebsocket(line, k + |UPGRADE_KEY| + 1) then {UpgradeWebSocket} else {})
    case HostHeader => p.(host := Field(line, k + |HOST_KEY|))
    case ConnectionHeader =>
      (match ConnectionFlagsFrom(line, k + |CONNECTION_KEY| + 1)
       case None => p.(state := Hung)
       case Some(flags) => p.(connectionFlags := p.connectionFlags + flags))
    case UserAgentHeader => p.(userAgent := Field(line, k + |USER_AGENT_KEY|))
    case OtherHeader =>
      (match NameAndValue(line, k)
       case None => p
       case Some((name, value)) => p.(headers := Emplace(p.headers, name, value)))
  }

  function PushHeader(p: Parser, line: string): (q: Parser)
    requires p.state == Headers
    ensures q.state == Headers || q.state == Hung
  {
    var k := IndexFrom(line, 0, NotSpace);
    Branch(p, line, k, Classify(CString(line, k)))
  }

  /** One PushLine. */
  function Push(p: Parser, line: string): Parser {
    match p.state
    case FirstLine =>
      var (m, u, v) := ParseFirstLine(line);
      p.(httpMethod := m, uri := u, version := v, state := Headers)
    case Headers =>
      if line == "\r\n" then p.(state := if p.contentLength.Some? then Body else Done)
      else PushHeader(p, line)
    case Body =>
      var n := (p.bodyLength + |line|) % UINT_MODULUS;
      p.(bodyLength := n,
         state := if p.contentLength.Some? && n >= p.contentLength.value then Done else Body)
    case Done => p
    case Hung => p
  }

  class HttpHeaderParser {
    var state: ParserState
    var httpMethod: HttpMethod
    var uri: string
    var version: HttpVersion
    var headers: map<string, string>
    var connectionFlags: set<ConnectionFlag>
    var upgradeFlags: set<UpgradeFlag>
    var host: string
    var userAgent: string
    var contentLength: Option<nat>
    var bodyLength: nat

    function View(): Parser
      reads this
    {
      Parser(state, httpMethod, uri, version, headers, connectionFlags, upgradeFlags,
             host, userAgent, contentLength, bodyLength)
    }

    constructor ()
      ensures View() == FRESH
    {
      state, httpMethod, uri, version := FirstLine, UNKNOWN_METHOD, "", UNKNOWN_VERSION;
      headers, connectionFlags, upgradeFlags := map[], {}, {};
      host, userAgent, contentLength, bodyLength := "", "", None, 0;
    }

    /** The loop of the Upgrade branch: after a hit it jumps to the next comma. */
    static method ScanUpgrade(line: string, start: nat, upgradeFlags: set<UpgradeFlag>)
      returns (flags: set<UpgradeFlag>)
      ensures flags == upgradeFlags + if MentionsWebsocket(line, start + 1) then {UpgradeWebSocket} else {}
    {
      flags := upgradeFlags;
      var iter := start;
      ghost var hit := false;
      while true
        invariant flags == upgradeFlags + if hit then {UpgradeWebSocket} else {}
        invariant hit ==> MentionsWebsocket(line, start + 1)
        invariant start <= iter
        invariant !hit ==> forall i | start < i <= iter && i < |line| :: !WebsocketAt(line, i)
        decreases |line| - iter
      {
        iter := if iter + 1 >= |line| then |line| else iter + 1;
        if iter == |line| {
          break;
        }
        if WebsocketAt(line, iter) {
          flags := flags + {UpgradeWebSocket};
          hit := true;
          iter := NextChar(line, iter + 1, IsComma);
        }
        if iter == |line| {
          break;
        }
      }
    }

    /** One round of the Connection loop. */
    static method ScanConnectionRound(line: string, start: nat) returns (r: Round)
      ensures r == ConnectionRound(line, start)
    {
      var i := NextChar(line, start, NotSpace);
      if i == |line| {
        return Finished;
      }
      var t := TokenOf(CString(line, i));
      if t == None {
        return Unrecognised(i);
      }
      var comma := NextChar(line, i + |TokenText(t.value)|, IsComma);
      return Found(t.value, comma + 1);
    }

    /** The loop of the Connection branch. */
    static method ScanConnection(line: string, start: nat, connectionFlags: set<ConnectionFlag>)
      returns (flags: set<ConnectionFlag>)
      requires ConnectionFlagsFrom(line, start).Some?
      ensures flags == connectionFlags + ConnectionFlagsFrom(line, start).value
    {
      flags := connectionFlags;
      var iter := start;
      while true
        invariant ConnectionFlagsFrom(line, iter).Some?
        invariant flags + ConnectionFlagsFrom(line, iter).value
                  == connectionFlags + ConnectionFlagsFrom(line, start).value
        decreases if iter <= |line| then |line| - iter else 0
      {
        var r := ScanConnectionRound(line, iter);
        if r.Finished? {
          break;
        }
        flags := flags + {r.flag};
        iter := r.next;
      }
    }

    static method ReadFirstLine(line: string) returns (m: HttpMethod, u: string, v: HttpVersion)
      ensures (m, u, v) == ParseFirstLine(line)
    {
      var (found, pos) := ParseHttpMethod(line, 0);
      if found == UNKNOWN_METHOD {
        return UNKNOWN_METHOD, "", UNKNOWN_VERSION;
      }
      var start := NextChar(line, pos, NotSpace);
      var next := NextChar(line, start, IsBlank);
      m, u := found, line[start..next];
      v := ParseHttpVersion(CString(line, if next == |line| then 0 else next + 1));
    }

    static method ReadField(line: string, start: nat) returns (value: string)
      ensures value == Field(line, start)
    {
      var b := NextChar(line, start, NotSpace);
      var e := NextChar(line, b, IsEol);
      value := line[b..e];
    }

    static method ReadNumber(line: string, start: nat) returns (n: nat)
      ensures n == Number(line, start)
    {
      var iter := NextChar(line, start, NotSpace);
      n := AtoiUnsigned(line, iter);
    }

    static method ReadNameAndValue(line: string, start: nat) returns (r: Option<(string, string)>)
      ensures r == NameAndValue(line, start)
    {
      var iter := NextChar(line, start, IsColon);
      if iter == |line| {
        return None;
      }
      var value := ReadField(line, iter + 1);
      r := Some((line[..iter], value));
    }

    /** The branches that keep text of the line. */
    method TakeTextBranch(line: string, iter: nat, kind: HeaderKind)
      requires state == Headers && (kind.HostHeader? || kind.UserAgentHeader? || kind.OtherHeader?)
      modifies this
      ensures View() == Branch(old(View()), line, iter, kind)
    {
      if kind.HostHeader? {
        host := ReadField(line, iter + |HOST_KEY|);
      } else if kind.UserAgentHeader? {
        userAgent := ReadField(line, iter + |USER_AGENT_KEY|);
      } else {
        var r := ReadNameAndValue(line, iter);
        if r.Some? {
          headers := Emplace(headers, r.value.0, r.value.1);
        }
      }
    }

    method TakeBranch(line: string, iter: nat, kind: HeaderKind)
      requires state == Headers && Branch(View(), line, iter, kind).state != Hung
      modifies this
      ensures View() == Branch(old(View()), line, iter, kind)
    {
      if kind.ContentLengthHeader? {
        var n := ReadNumber(line, iter + |CONTENT_LENGTH_KEY|);
        contentLength := Some(n);
      } else if kind.UpgradeHeader? {
        upgradeFlags := ScanUpgrade(line, iter + |UPGRADE_KEY|, upgradeFlags);
      } else if kind.ConnectionHeader? {
        connectionFlags := ScanConnection(line, iter + |CONNECTION_KEY| + 1, connectionFlags);
      } else {
        TakeTextBranch(line, iter, kind);
      }
    }

    method PushHeaderLine(line: string)
      requires state == Headers && PushHeader(View(), line).state != Hung
      modifies this
      ensures View() == PushHeader(old(View()), line)
    {
      var iter := NextChar(line, 0, NotSpace);
      TakeBranch(line, iter, Classify(CString(line, iter)));
    }

    method PushLine(line: string) returns (s: ParserState)
      requires Push(View(), line).state != Hung
      modifies this
      ensures View() == Push(old(View()), line)
      ensures s == state
    {
      if state == FirstLine {
        httpMethod, uri, version := ReadFirstLine(line);
        state := Headers;
      } else if state == Headers {
        if line == "\r\n" {
          state := if contentLength.Some? then Body else Done;
          return state;
        }
        PushHeaderLine(line);
      } else if state == Body {
        bodyLength := (bodyLength + |line|) % UINT_MODULUS;
        if contentLength.Some? && bodyLength >= contentLength.value {
          state := Done;
          return state;
        }
      }
      return state;
    }
  }
}
