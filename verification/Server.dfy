/** The connection table of Server (src/hpl_server.cc): Poll dispatches one batch of epoll
    events, handlers close connections, and connections become WebSockets. What the kernel,
    the peers and the handlers decide comes with the events. */
module Server {
  import opened Http
  import opened HeaderParser
  import opened Wrappers

  /** A connection object; no number is used twice. */
  type Conn = nat

  const SERVER_CONN: Conn := 0

  datatype Accepted = NoConnection | AddFailed | Added(conn: Conn)

  /** A request as the parser holds it, whether a route matches it, and what the handlers run
      for it answer and close: the HTTP handler or ws_connect_hook, and ws_ready_hook. Without
      an HTTP handler for the method the answer is -1. */
  datatype Request = Request(
    parser: Parser, routed: bool,
    connectRet: int, readyRet: int, handlerRet: int,
    closes: seq<Conn>, readyCloses: seq<Conn>)

  /** Connection::ShouldUpgradeWebsocket, for a connection that is not a WebSocket yet. */
  predicate WantsUpgrade(p: Parser) {
    UpgradeWebSocket in p.upgradeFlags && ConnectionUpgrade in p.connectionFlags
    && (p.version == HTTP_1_1 || p.version == HTTP_1_0)
  }

  function GetHeader(p: Parser, key: string): string {
    if key in p.headers then p.headers[key] else ""
  }

  /** The key UpgradeToWebsocket looks for under three names; without one it returns null. */
  function WebsocketKey(p: Parser): string {
    if GetHeader(p, "Sec-WebSocket-Key") != "" then GetHeader(p, "Sec-WebSocket-Key")
    else if GetHeader(p, "Sec-WebSocket-Key1") != "" then GetHeader(p, "Sec-WebSocket-Key1")
    else GetHeader(p, "Sec-WebSocket-Key2")
  }

  /** The results -2, -1 and 0 or 1 of ProcessDataIn. */
  datatype DataIn = Lost | NeedMore | Arrived(request: Request)

  datatype Event =
    | Accepting(accepted: Accepted)
    | Readable(conn: Conn, wsRet: int, wsCloses: seq<Conn>, http: DataIn)
    | Silent(conn: Conn)

  datatype Entry = HttpRead(conn: Conn) | WsRead(conn: Conn) | Upgrade(conn: Conn)

  /** epoll's interest list, pending_conns_, the connections with ws_conn_, every connection
      so far, and the history of dispatches. */
  datatype Table = Table(
    registered: set<Conn>, pending: seq<Conn>, upgraded: set<Conn>, known: set<Conn>, log: seq<Entry>)

  const NEW_TABLE := Table({SERVER_CONN}, [], {}, {SERVER_CONN}, [])

  function Remove(s: seq<Conn>, c: Conn): seq<Conn> {
    if s == [] then [] else (if s[0] == c then [] else [s[0]]) + Remove(s[1..], c)
  }

  /** The connection object exists. */
  predicate Alive(t: Table, c: Conn) { c == SERVER_CONN || c in t.pending }

  /** CloseConn, for a connection that exists: nothing happens if epoll does not know it. */
  function Close(t: Table, c: Conn): Table {
    if c !in t.registered then t else t.(registered := t.registered - {c}, pending := Remove(t.pending, c))
  }

  /** What a handler closes, in order. None: it closes a connection that is destroyed already. */
  function CloseAll(t: Table, cs: seq<Conn>): Option<Table>
    decreases |cs|
  {
    if cs == [] then Some(t) else if !Alive(t, cs[0]) then None else CloseAll(Close(t, cs[0]), cs[1..])
  }

  /** Behind a handler Poll uses c again. None: c is destroyed. */
  function Use(o: Option<Table>, c: Conn): Option<Table> {
    if o.Some? && !Alive(o.value, c) then None else o
  }

  /** A result of -1 closes c; any other result leaves c alone, destroyed or not. */
  function Finish(o: Option<Table>, c: Conn, ret: int): Option<Table> {
    if o.None? || ret != -1 then o else if Alive(o.value, c) then Some(Close(o.value, c)) else None
  }

  /** The event makes its connection a WebSocket. */
  predicate Upgrades(upgraded: set<Conn>, e: Event) {
    e.Readable? && e.conn !in upgraded && e.http.Arrived? && e.http.request.routed && WantsUpgrade(e.http.request.parser)
  }

  function Entries(upgraded: set<Conn>, e: Event): seq<Entry> {
    if !e.Readable? then []
    else if e.conn in upgraded then [WsRead(e.conn)]
    else [HttpRead(e.conn)] + if Upgrades(upgraded, e) then [Upgrade(e.conn)] else []
  }

  /** The upgrade and the history of a readable event. */
  function Noted(t: Table, e: Event): Table
    requires e.Readable?
  {
    t.(upgraded := if Upgrades(t.upgraded, e) then t.upgraded + {e.conn} else t.upgraded,
       log := t.log + Entries(t.upgraded, e))
  }

  /** The hooks around the answer to an upgrade: behind the first the connection is used again,
      behind the second only to be closed. */
  function Greet(t: Table, c: Conn, r: Request): Option<Table> {
    match Use(CloseAll(t, r.closes), c)
    case None => None
    case Some(t1) => if r.connectRet == -1 then Some(Close(t1, c)) else Finish(CloseAll(t1, r.readyCloses), c, r.readyRet)
  }

  /** A request that has arrived. None also for an upgrade without a key, whose WebSocket is
      null, and for a method that has no place in the handler table. */
  function Answer(t: Table, c: Conn, r: Request): Option<Table> {
    if !r.routed then Some(Close(t, c))
    else if WantsUpgrade(r.parser) then if WebsocketKey(r.parser) == "" then None else Greet(t, c, r)
    else if r.parser.httpMethod == UNKNOWN_METHOD then None
    else Finish(CloseAll(t, r.closes), c, r.handlerRet)
  }

  /** A readable event. WebsocketConnection::Read uses its connection behind on_data_. */
  function Serve(t: Table, e: Event): Option<Table>
    requires e.Readable?
  {
    var t1 := Noted(t, e);
    if e.conn in t.upgraded then Finish(Use(CloseAll(t1, e.wsCloses), e.conn), e.conn, e.wsRet)
    else match e.http
      case Lost => Some(Close(t1, e.conn))
      case NeedMore => Some(t1)
      case Arrived(r) => Answer(t1, e.conn, r)
  }

  /** One event. None: Poll, or a handler it calls, uses an object that is not there. */
  function Dispatch(t: Table, e: Event): Option<Table> {
    match e
    case Accepting(Added(c)) =>
      Some(t.(registered := t.registered + {c}, pending := t.pending + [c], known := t.known + {c}))
    case Accepting(_) => Some(t)
    case Silent(c) => if c in t.pending then Some(t) else None
    case Readable(c, _, _, _) => if c in t.pending then Serve(t, e) else None
  }

  predicate EndsBatch(e: Event) { e == Accepting(AddFailed) }

  /** The events of one epoll_wait, in order; a failing epoll_ctl drops the rest. */
  function RunBatch(t: Table, es: seq<Event>): Option<Table>
    decreases |es|
  {
    if es == [] || EndsBatch(es[0]) then Some(t)
    else match Dispatch(t, es[0])
      case None => None
      case Some(t1) => RunBatch(t1, es[1..])
  }

  class Server {
    var registered: set<Conn>
    var pendingConns: seq<Conn>
    var upgraded: set<Conn>
    ghost var known: set<Conn>
    ghost var log: seq<Entry>

    ghost function Abs(): Table
      reads this
    {
      Table(registered, pendingConns, upgraded, known, log)
    }

    constructor ()
      ensures Abs() == NEW_TABLE
    {
      registered, pendingConns, upgraded := {SERVER_CONN}, [], {};
      known, log := {SERVER_CONN}, [];
    }

    /** The caller holds a pointer to conn, so conn must exist. */
    method CloseConn(conn: Conn) returns (ret: int)
      requires Alive(Abs(), conn)
      modifies this
      ensures Abs() == Close(old(Abs()), conn)
      ensures ret == if conn in old(registered) then 0 else -1
    {
      if conn !in registered {
        return -1;
      }
      registered := registered - {conn};
      var kept := [];
      for i := 0 to |pendingConns|
        invariant kept + Remove(pendingConns[i..], conn) == Remove(pendingConns, conn)
      {
        var c := pendingConns[i];
        assert pendingConns[i..][1..] == pendingConns[i + 1..];
        ghost var more := Remove(pendingConns[i + 1..], conn);
        if c != conn {
          assert (kept + [c]) + more == kept + ([c] + more);
          kept := kept + [c];
        } else {
          assert [] + more == more;
        }
      }
      assert kept + [] == kept;
      pendingConns := kept;
      return 0;
    }

    /** A handler that closes cs. */
    method RunCloses(cs: seq<Conn>)
      requires CloseAll(Abs(), cs).Some?
      modifies this
      ensures Some(Abs()) == CloseAll(old(Abs()), cs)
    {
      for i := 0 to |cs|
        invariant CloseAll(Abs(), cs[i..]) == CloseAll(old(Abs()), cs)
      {
        assert cs[i..][1..] == cs[i + 1..];
        var _ := CloseConn(cs[i]);
      }
    }

    /** The branch for an upgrade: hooks around the answer. */
    method ServeUpgrade(conn: Conn, r: Request)
      requires Greet(Abs(), conn, r).Some?
      modifies this
      ensures Some(Abs()) == Greet(old(Abs()), conn, r)
    {
      RunCloses(r.closes);
      if r.connectRet == -1 {
        var _ := CloseConn(conn);
        return;
      }
      RunCloses(r.readyCloses);
      if r.readyRet == -1 {
        var _ := CloseConn(conn);
      }
    }

    /** The branch for a plain connection; ProcessDataIn has answered. */
    method ServeHttp(e: Event)
      requires e.Readable? && e.conn !in upgraded && e.conn in pendingConns
      requires Serve(Abs(), e).Some?
      modifies this
      ensures Some(Abs()) == Serve(old(Abs()), e)
    {
      var conn := e.conn;
      log := log + Entries(upgraded, e);
      if e.http.Lost? {
        var _ := CloseConn(conn);
      } else if e.http.Arrived? {
        var r := e.http.request;
        if !r.routed {
          var _ := CloseConn(conn);
        } else if WantsUpgrade(r.parser) {
          upgraded := upgraded + {conn};
          ServeUpgrade(conn, r);
        } else {
          RunCloses(r.closes);
          if r.handlerRet == -1 {
            var _ := CloseConn(conn);
          }
        }
      }
    }

    /** The branch for a WebSocket. */
    method ServeWebsocket(e: Event)
      requires e.Readable? && e.conn in upgraded && Serve(Abs(), e).Some?
      modifies this
      ensures Some(Abs()) == Serve(old(Abs()), e)
    {
      log := log + Entries(upgraded, e);
      RunCloses(e.wsCloses);
      if e.wsRet == -1 {
        var _ := CloseConn(e.conn);
      }
    }

    method Poll(events: seq<Event>) returns (ret: int)
      requires RunBatch(Abs(), events).Some?
      modifies this
      ensures Abs() == RunBatch(old(Abs()), events).value
      ensures ret == if Accepting(AddFailed) in events then -4 else |events|
    {
      for i := 0 to |events|
        invariant RunBatch(Abs(), events[i..]).Some?
        invariant RunBatch(Abs(), events[i..]) == RunBatch(old(Abs()), events)
        invariant Accepting(AddFailed) !in events[..i]
      {
        var e := events[i];
        assert events[i..][1..] == events[i + 1..];
        if e == Accepting(AddFailed) {
          return -4;
        } else if e.Accepting? {
          if e.accepted.Added? {
            registered := registered + {e.accepted.conn};
            pendingConns := pendingConns + [e.accepted.conn];
            known := known + {e.accepted.conn};
          }
        } else if e.Readable? {
          if e.conn in upgraded {
            ServeWebsocket(e);
          } else {
            ServeHttp(e);
          }
        }
      }
      return |events|;
    }
  }
}
