/** The connection table over every run of batches. */
module ServerLaws {
  import opened Wrappers
  import opened Http
  import opened Server

  predicate NoDuplicates(s: seq<Conn>) { forall i, j | 0 <= i < j < |s| :: s[i] != s[j] }

  /** epoll watches exactly the server connection and the pending ones, each listed once. */
  ghost predicate TableOk(t: Table) {
    && NoDuplicates(t.pending)
    && (forall c :: c in t.registered <==> c == SERVER_CONN || c in t.pending)
    && SERVER_CONN !in t.pending
    && SERVER_CONN in t.known && (forall c | c in t.pending :: c in t.known)
    && (forall c | c in t.upgraded :: c in t.known)
  }

  /** In the history a connection upgrades at most once; from then on its readable events go
      to WebsocketConnection::Read only, and before they never do. */
  predicate HistoryOk(log: seq<Entry>) {
    && (forall i, j | 0 <= i < j < |log| && log[i].Upgrade? :: log[j].conn == log[i].conn ==> log[j].WsRead?)
    && (forall j | 0 <= j < |log| && log[j].WsRead? :: Upgrade(log[j].conn) in log[..j])
  }

  ghost predicate Inv(t: Table) {
    && TableOk(t) && HistoryOk(t.log)
    && (forall c :: c in t.upgraded <==> Upgrade(c) in t.log)
    && (forall x | x in t.log :: x.conn in t.known)
  }

  // ---------- closing ----------

  lemma {:induction false} RemoveKeepsOthers(s: seq<Conn>, c: Conn)
    ensures forall x :: x in Remove(s, c) <==> x in s && x != c
    ensures NoDuplicates(s) ==> NoDuplicates(Remove(s, c))
  {
    if s != [] {
      var rest := s[1..];
      RemoveKeepsOthers(rest, c);
      assert s == [s[0]] + rest;
      if NoDuplicates(s) {
        assert forall i, j | 0 <= i < j < |rest| :: rest[i] == s[i + 1] && rest[j] == s[j + 1];
        assert NoDuplicates(rest);
        assert s[0] !in rest;
      }
    }
  }

  lemma CloseKeeps(t: Table, c: Conn)
    requires Inv(t) && c != SERVER_CONN
    ensures Inv(Close(t, c))
    ensures forall x :: x in Close(t, c).pending <==> x in t.pending && x != c
  {
    RemoveKeepsOthers(t.pending, c);
  }

  /** A handler may close the connections that exist, each once. */
  predicate Closable(t: Table, cs: seq<Conn>) {
    NoDuplicates(cs) && forall c | c in cs :: c in t.pending
  }

  lemma ClosableCons(t: Table, c: Conn, cs: seq<Conn>)
    requires Inv(t) && c != SERVER_CONN && c in t.pending
    ensures Closable(t, [c] + cs) <==> Closable(Close(t, c), cs)
  {
    CloseKeeps(t, c);
    var all := [c] + cs;
    assert forall x :: x in all <==> x == c || x in cs;
    assert forall i | 0 <= i < |cs| :: all[i + 1] == cs[i];
    if Closable(t, all) {
      assert all[0] == c && c !in cs;
    }
  }

  lemma {:induction false} CloseAllIff(t: Table, cs: seq<Conn>)
    requires Inv(t) && SERVER_CONN !in cs
    ensures CloseAll(t, cs).Some? <==> Closable(t, cs)
    ensures CloseAll(t, cs).Some? ==>
            var t' := CloseAll(t, cs).value;
            && Inv(t') && t'.upgraded == t.upgraded && t'.known == t.known
            && forall x :: x in t'.pending <==> x in t.pending && x !in cs
    decreases |cs|
  {
    if cs != [] {
      assert cs[0] in cs && forall x :: x in cs <==> x == cs[0] || x in cs[1..];
      assert cs == [cs[0]] + cs[1..];
      if cs[0] in t.pending {
        CloseKeeps(t, cs[0]);
        ClosableCons(t, cs[0], cs[1..]);
        CloseAllIff(Close(t, cs[0]), cs[1..]);
      }
    }
  }

  // ---------- one event ----------

  lemma HistoryOneMore(log: seq<Entry>, x: Entry)
    requires HistoryOk(log)
    requires x.WsRead? <==> Upgrade(x.conn) in log
    ensures HistoryOk(log + [x])
  {
    var all := log + [x];
    forall i, j | 0 <= i < j < |all| && all[i].Upgrade? && all[j].conn == all[i].conn ensures all[j].WsRead? {
      if j == |log| { assert log[i] in log; }
    }
    forall j | 0 <= j < |all| && all[j].WsRead? ensures Upgrade(all[j].conn) in all[..j] {
      if j < |log| { assert all[..j] == log[..j]; } else { assert all[..j] == log; }
    }
  }

  lemma ReadKeeps(t: Table, x: Entry)
    requires Inv(t) && x.conn in t.known && !x.Upgrade? && (x.WsRead? <==> x.conn in t.upgraded)
    ensures Inv(t.(log := t.log + [x]))
  {
    HistoryOneMore(t.log, x);
    assert forall y :: y in t.log + [x] <==> y in t.log || y == x;
  }

  lemma UpgradeKeeps(t: Table, c: Conn)
    requires Inv(t) && c in t.known && c !in t.upgraded
    ensures Inv(t.(log := t.log + [Upgrade(c)], upgraded := t.upgraded + {c}))
  {
    HistoryOneMore(t.log, Upgrade(c));
    assert forall y :: y in t.log + [Upgrade(c)] <==> y in t.log || y == Upgrade(c);
  }

  lemma NotedKeeps(t: Table, e: Event)
    requires Inv(t) && e.Readable? && e.conn in t.pending
    ensures Inv(Noted(t, e)) && Noted(t, e).pending == t.pending
    ensures forall c | c != e.conn :: c in Noted(t, e).upgraded <==> c in t.upgraded
  {
    var c := e.conn;
    var first := if c in t.upgraded then WsRead(c) else HttpRead(c);
    ReadKeeps(t, first);
    var t1 := t.(log := t.log + [first]);
    if Upgrades(t.upgraded, e) {
      UpgradeKeeps(t1, c);
      assert t.log + ([first] + [Upgrade(c)]) == t1.log + [Upgrade(c)];
    } else {
      assert t.log + ([first] + []) == t1.log;
    }
  }

  // ---------- what an event destroys, seen from outside ----------

  function Own(c: Conn, ret: int): seq<Conn> { if ret == -1 then [c] else [] }

  /** Every connection that is closed in this event, by a handler or by Poll. */
  function Destroyed(upgraded: set<Conn>, e: Event): seq<Conn> {
    match e
    case Readable(c, wsRet, wsCloses, http) =>
      if c in upgraded then wsCloses + Own(c, wsRet)
      else (match http
        case Lost => [c]
        case NeedMore => []
        case Arrived(r) => DestroyedBy(c, r))
    case _ => []
  }

  function DestroyedBy(c: Conn, r: Request): seq<Conn> {
    if !r.routed then [c]
    else if !WantsUpgrade(r.parser) then r.closes + Own(c, r.handlerRet)
    else r.closes + if r.connectRet == -1 then [c] else r.readyCloses + Own(c, r.readyRet)
  }

  /** The request can be answered: ws_connect_hook leaves its own connection alone and an upgrade
      comes with a key; other requests have a method with a place in the handler table. */
  predicate RequestOk(c: Conn, r: Request) {
    r.routed ==>
      if WantsUpgrade(r.parser) then c !in r.closes && WebsocketKey(r.parser) != "" else r.parser.httpMethod != UNKNOWN_METHOD
  }

  /** Seen by itself the event is handled: nothing is closed twice, on_data_ leaves its own
      connection alone, and a request can be answered. */
  predicate EventOk(upgraded: set<Conn>, e: Event) {
    && NoDuplicates(Destroyed(upgraded, e))
    && (e.Readable? ==> if e.conn in upgraded then e.conn !in e.wsCloses else e.http.Arrived? ==> RequestOk(e.conn, e.http.request))
  }

  // ---------- one event ----------

  /** o is the table behind closing cs in order, with nothing else of interest changed. */
  ghost predicate Closed(t: Table, cs: seq<Conn>, o: Option<Table>) {
    o.Some? ==>
      && Inv(o.value) && o.value.upgraded == t.upgraded && o.value.known == t.known
      && forall x :: x in o.value.pending <==> x in t.pending && x !in cs
  }

  lemma NoDuplicatesConcat(a: seq<Conn>, b: seq<Conn>)
    ensures NoDuplicates(a + b) <==> NoDuplicates(a) && NoDuplicates(b) && forall x | x in a :: x !in b
  {
    var all := a + b;
    assert forall i | 0 <= i < |b| :: all[|a| + i] == b[i];
    assert forall i | 0 <= i < |a| :: all[i] == a[i];
    if NoDuplicates(all) {
      forall i, j | 0 <= i < |a| && 0 <= j < |b| ensures a[i] != b[j] {
        assert all[i] != all[|a| + j];
      }
    } else {
      var i, j :| 0 <= i < j < |all| && all[i] == all[j];
      if i >= |a| {
        assert b[i - |a|] == b[j - |a|];
      } else if j >= |a| {
        assert a[i] in a && b[j - |a|] in b;
      } else {
        assert a[i] == a[j];
      }
    }
  }

  lemma ClosableConcat(t: Table, t1: Table, a: seq<Conn>, b: seq<Conn>)
    requires Closable(t, a) && forall x :: x in t1.pending <==> x in t.pending && x !in a
    ensures Closable(t1, b) <==> Closable(t, a + b)
  {
    NoDuplicatesConcat(a, b);
    assert forall x :: x in a + b <==> x in a || x in b;
  }

  lemma ClosableFront(t: Table, a: seq<Conn>, b: seq<Conn>)
    requires Closable(t, a + b)
    ensures Closable(t, a) && forall x | x in b :: x !in a
  {
    NoDuplicatesConcat(a, b);
    assert forall x :: x in a + b <==> x in a || x in b;
  }

  /** A handler that closes cs, and Poll closing c behind it if the answer is -1. */
  lemma FinishIff(t: Table, cs: seq<Conn>, c: Conn, ret: int)
    requires Inv(t) && SERVER_CONN !in cs && c != SERVER_CONN
    ensures var o := Finish(CloseAll(t, cs), c, ret);
            (o.Some? <==> Closable(t, cs + Own(c, ret))) && Closed(t, cs + Own(c, ret), o)
  {
    CloseAllIff(t, cs);
    if ret != -1 {
      assert cs + [] == cs;
    } else if Closable(t, cs) {
      var t1 := CloseAll(t, cs).value;
      ClosableConcat(t, t1, cs, [c]);
      CloseKeeps(t1, c);
    } else if Closable(t, cs + [c]) {
      ClosableFront(t, cs, [c]);
    }
  }

  /** A handler behind which Poll uses c again, whatever it answers. */
  lemma UseIff(t: Table, cs: seq<Conn>, c: Conn)
    requires Inv(t) && SERVER_CONN !in cs && c != SERVER_CONN && c in t.pending
    ensures var o := Use(CloseAll(t, cs), c);
            && (o.Some? <==> Closable(t, cs) && c !in cs) && Closed(t, cs, o)
            && (o.Some? ==> c in o.value.pending)
  {
    CloseAllIff(t, cs);
  }

  lemma WebsocketIff(t: Table, cs: seq<Conn>, c: Conn, ret: int)
    requires Inv(t) && SERVER_CONN !in cs && c != SERVER_CONN && c in t.pending
    ensures var o := Finish(Use(CloseAll(t, cs), c), c, ret);
            && (o.Some? <==> Closable(t, cs + Own(c, ret)) && c !in cs)
            && Closed(t, cs + Own(c, ret), o)
  {
    UseIff(t, cs, c);
    FinishIff(t, cs, c, ret);
    if Closable(t, cs + Own(c, ret)) { ClosableFront(t, cs, Own(c, ret)); }
  }

  lemma GreetIff(t: Table, c: Conn, r: Request)
    requires Inv(t) && c != SERVER_CONN && c in t.pending
    requires SERVER_CONN !in r.closes && SERVER_CONN !in r.readyCloses
    requires r.routed && WantsUpgrade(r.parser)
    ensures Greet(t, c, r).Some? <==> Closable(t, DestroyedBy(c, r)) && c !in r.closes
    ensures Closed(t, DestroyedBy(c, r), Greet(t, c, r))
  {
    var more := if r.connectRet == -1 then [c] else r.readyCloses + Own(c, r.readyRet);
    UseIff(t, r.closes, c);
    if Closable(t, r.closes) && c !in r.closes {
      var t1 := CloseAll(t, r.closes).value;
      ClosableConcat(t, t1, r.closes, more);
      if r.connectRet == -1 { CloseKeeps(t1, c); } else { FinishIff(t1, r.readyCloses, c, r.readyRet); }
    } else if Closable(t, r.closes + more) {
      ClosableFront(t, r.closes, more);
    }
  }

  lemma AnswerIff(t: Table, c: Conn, r: Request)
    requires Inv(t) && c != SERVER_CONN && c in t.pending
    requires SERVER_CONN !in r.closes && SERVER_CONN !in r.readyCloses
    ensures Answer(t, c, r).Some? <==> Closable(t, DestroyedBy(c, r)) && RequestOk(c, r)
    ensures Closed(t, DestroyedBy(c, r), Answer(t, c, r))
  {
    if !r.routed {
      CloseKeeps(t, c);
    } else if WantsUpgrade(r.parser) {
      GreetIff(t, c, r);
    } else {
      FinishIff(t, r.closes, c, r.handlerRet);
    }
  }

  /** The lists of connections a handler may close name clients only. */
  predicate ClosesClients(e: Event) {
    e.Readable? ==>
      && SERVER_CONN !in e.wsCloses
      && (e.http.Arrived? ==> SERVER_CONN !in e.http.request.closes && SERVER_CONN !in e.http.request.readyCloses)
  }

  /** A fresh connection has a number of its own. */
  predicate FreshConn(t: Table, e: Event) {
    e.Accepting? && e.accepted.Added? ==> e.accepted.conn !in t.known
  }

  lemma ServeIff(t: Table, e: Event)
    requires Inv(t) && e.Readable? && e.conn in t.pending && ClosesClients(e)
    ensures Serve(t, e).Some? <==> EventOk(t.upgraded, e) && forall c | c in Destroyed(t.upgraded, e) :: c in t.pending
    ensures Closed(Noted(t, e), Destroyed(t.upgraded, e), Serve(t, e))
    ensures forall c | c != e.conn :: c in Noted(t, e).upgraded <==> c in t.upgraded
  {
    NotedKeeps(t, e);
    var t1 := Noted(t, e);
    if e.conn in t.upgraded {
      WebsocketIff(t1, e.wsCloses, e.conn, e.wsRet);
    } else {
      match e.http
      case Lost => CloseKeeps(t1, e.conn);
      case NeedMore =>
      case Arrived(r) => AnswerIff(t1, e.conn, r);
    }
  }

  lemma DispatchKeeps(t: Table, e: Event)
    requires Inv(t) && ClosesClients(e) && FreshConn(t, e) && Dispatch(t, e).Some?
    ensures Inv(Dispatch(t, e).value)
  {
    if e.Readable? {
      ServeIff(t, e);
    } else if e.Accepting? && e.accepted.Added? {
      var c := e.accepted.conn;
      var t1 := Dispatch(t, e).value;
      assert forall x :: x in t1.pending <==> x in t.pending || x == c;
    }
  }

  // ---------- batches ----------

  predicate HasConn(e: Event) { e.Readable? || e.Silent? }

  function ConnOf(e: Event): Conn
    requires HasConn(e)
  {
    e.conn
  }

  /** What epoll_wait and accept guarantee about one batch: no connection twice, and new
      connections new. */
  predicate Kernel(t: Table, es: seq<Event>) {
    && (forall i, j | 0 <= i < j < |es| && HasConn(es[i]) && HasConn(es[j]) :: ConnOf(es[i]) != ConnOf(es[j]))
    && (forall i | 0 <= i < |es| && HasConn(es[i]) :: ConnOf(es[i]) in t.known)
    && (forall i | 0 <= i < |es| :: FreshConn(t, es[i]) && ClosesClients(es[i]))
    && (forall i, j | 0 <= i < j < |es| && es[i].Accepting? && es[j].Accepting?
                      && es[i].accepted.Added? && es[j].accepted.Added? :: es[i].accepted.conn != es[j].accepted.conn)
  }

  /** And all its connections are registered when it starts. */
  predicate FromEpoll(t: Table, es: seq<Event>) {
    Kernel(t, es) && forall i | 0 <= i < |es| && HasConn(es[i]) :: ConnOf(es[i]) in t.pending
  }

  lemma KernelTail(t: Table, es: seq<Event>, t1: Table)
    requires es != [] && Kernel(t, es) && t.known <= t1.known
    requires t1.known <= t.known + if es[0].Accepting? && es[0].accepted.Added? then {es[0].accepted.conn} else {}
    ensures Kernel(t1, es[1..])
  {
    var rest := es[1..];
    assert forall i | 0 <= i < |rest| :: rest[i] == es[i + 1];
  }

  lemma DispatchKnown(t: Table, e: Event)
    requires Inv(t) && ClosesClients(e) && Dispatch(t, e).Some?
    ensures Dispatch(t, e).value.known ==
            t.known + if e.Accepting? && e.accepted.Added? then {e.accepted.conn} else {}
  {
    if e.Readable? { ServeIff(t, e); }
  }

  lemma {:induction false} BatchKeeps(t: Table, es: seq<Event>)
    requires Inv(t) && Kernel(t, es) && RunBatch(t, es).Some?
    ensures Inv(RunBatch(t, es).value)
    decreases |es|
  {
    if es != [] && !EndsBatch(es[0]) {
      DispatchKeeps(t, es[0]);
      DispatchKnown(t, es[0]);
      var t1 := Dispatch(t, es[0]).value;
      KernelTail(t, es, t1);
      BatchKeeps(t1, es[1..]);
    }
  }

  // ---------- when Poll can handle a batch ----------

  /** The events Poll gets to. */
  function Reached(es: seq<Event>): seq<Event> {
    if es == [] || EndsBatch(es[0]) then [] else [es[0]] + Reached(es[1..])
  }

  predicate Accepts(e: Event, c: Conn) { e == Accepting(Added(c)) }

  /** The connections an event, or a handler it runs, names. */
  predicate Names(upgraded: set<Conn>, e: Event, c: Conn) {
    (HasConn(e) && ConnOf(e) == c) || c in Destroyed(upgraded, e)
  }

  predicate Spared(upgraded: set<Conn>, es: seq<Event>, c: Conn) {
    forall i | 0 <= i < |es| :: c !in Destroyed(upgraded, es[i])
  }

  /** Behind the events es the connection exists: it did before, or one of them accepted it, and
      it has not been closed since. */
  predicate Exists(upgraded: set<Conn>, live: seq<Conn>, es: seq<Event>, c: Conn) {
    || (c in live && Spared(upgraded, es, c))
    || exists k | 0 <= k < |es| && Accepts(es[k], c) :: Spared(upgraded, es[k..], c)
  }

  /** Behind the events es, this one is handled: it is if seen by itself, and everything it
      names exists. */
  ghost predicate Fits(upgraded: set<Conn>, live: seq<Conn>, es: seq<Event>, e: Event) {
    EventOk(upgraded, e) && forall c | Names(upgraded, e, c) :: Exists(upgraded, live, es, c)
  }

  ghost predicate Behaves(upgraded: set<Conn>, live: seq<Conn>, es: seq<Event>) {
    forall j | 0 <= j < |es| :: Fits(upgraded, live, es[..j], es[j])
  }

  /** Whether the connections ahead are WebSockets does not change before their own events. */
  predicate Agree(t: Table, upgraded: set<Conn>, es: seq<Event>) {
    forall e | e in es && HasConn(e) :: ConnOf(e) in t.upgraded <==> ConnOf(e) in upgraded
  }

  lemma {:induction false} ReachedWithin(es: seq<Event>)
    ensures forall e | e in Reached(es) :: e in es
    ensures |Reached(es)| <= |es| && forall i | 0 <= i < |Reached(es)| :: Reached(es)[i] == es[i]
  {
    if es != [] && !EndsBatch(es[0]) {
      ReachedWithin(es[1..]);
    }
  }

  /** The connections that exist, one event later. */
  ghost predicate Next(upgraded: set<Conn>, live: seq<Conn>, e: Event, live': seq<Conn>) {
    forall c :: c in live' <==> Accepts(e, c) || (c in live && c !in Destroyed(upgraded, e))
  }

  lemma SparedCons(upgraded: set<Conn>, e: Event, es: seq<Event>, c: Conn)
    ensures Spared(upgraded, [e] + es, c) <==> c !in Destroyed(upgraded, e) && Spared(upgraded, es, c)
  {
    var all := [e] + es;
    assert all[0] == e && forall i | 0 <= i < |es| :: all[i + 1] == es[i];
  }

  lemma ExistsCons(upgraded: set<Conn>, live: seq<Conn>, e: Event, live': seq<Conn>, es: seq<Event>, c: Conn)
    requires Next(upgraded, live, e, live')
    ensures Exists(upgraded, live, [e] + es, c) <==> Exists(upgraded, live', es, c)
  {
    var all := [e] + es;
    SparedCons(upgraded, e, es, c);
    assert all[0..] == all && all[0] == e;
    forall k | 0 <= k < |es| ensures all[k + 1] == es[k] && all[k + 1..] == es[k..] {
    }
    if Exists(upgraded, live, all, c) && !(c in live && Spared(upgraded, all, c)) {
      var k :| 0 <= k < |all| && Accepts(all[k], c) && Spared(upgraded, all[k..], c);
      if k > 0 { assert Accepts(es[k - 1], c) && Spared(upgraded, es[k - 1..], c); }
    }
    if Exists(upgraded, live', es, c) && !(c in live' && Spared(upgraded, es, c)) {
      var k :| 0 <= k < |es| && Accepts(es[k], c) && Spared(upgraded, es[k..], c);
      assert Accepts(all[k + 1], c) && Spared(upgraded, all[k + 1..], c);
    }
  }

  lemma FitsCons(upgraded: set<Conn>, live: seq<Conn>, e: Event, live': seq<Conn>, es: seq<Event>, x: Event)
    requires Next(upgraded, live, e, live')
    ensures Fits(upgraded, live, [e] + es, x) <==> Fits(upgraded, live', es, x)
  {
    forall c ensures Exists(upgraded, live, [e] + es, c) <==> Exists(upgraded, live', es, c) {
      ExistsCons(upgraded, live, e, live', es, c);
    }
  }

  lemma BehavesCons(upgraded: set<Conn>, live: seq<Conn>, e: Event, live': seq<Conn>, rest: seq<Event>)
    requires Next(upgraded, live, e, live')
    ensures Behaves(upgraded, live, [e] + rest) <==> Fits(upgraded, live, [], e) && Behaves(upgraded, live', rest)
  {
    var all := [e] + rest;
    assert all[..0] == [] && all[0] == e;
    forall j | 0 <= j < |rest|
      ensures all[j + 1] == rest[j]
      ensures Fits(upgraded, live, all[..j + 1], all[j + 1]) <==> Fits(upgraded, live', rest[..j], rest[j])
    {
      assert all[..j + 1] == [e] + rest[..j];
      FitsCons(upgraded, live, e, live', rest[..j], rest[j]);
    }
    if Fits(upgraded, live, [], e) && Behaves(upgraded, live', rest) {
      forall j | 0 <= j < |all| ensures Fits(upgraded, live, all[..j], all[j]) {
        if j > 0 { assert Fits(upgraded, live', rest[..j - 1], rest[j - 1]); }
      }
    }
    if Behaves(upgraded, live, all) {
      assert Fits(upgraded, live, all[..0], all[0]);
      forall j | 0 <= j < |rest| ensures Fits(upgraded, live', rest[..j], rest[j]) {
        assert Fits(upgraded, live, all[..j + 1], all[j + 1]);
      }
    }
  }

  lemma FirstFits(upgraded: set<Conn>, live: seq<Conn>, e: Event, rest: seq<Event>)
    requires Behaves(upgraded, live, [e] + rest)
    ensures Fits(upgraded, live, [], e)
  {
    var all := [e] + rest;
    assert all[..0] == [] && Fits(upgraded, live, all[..0], all[0]);
  }

  /** With nothing before it an event fits if it names what exists. */
  lemma FitsFirst(upgraded: set<Conn>, live: seq<Conn>, e: Event)
    ensures Fits(upgraded, live, [], e) <==> EventOk(upgraded, e) && forall c | Names(upgraded, e, c) :: c in live
  {
    assert forall c :: Exists(upgraded, live, [], c) <==> c in live;
  }

  /** One event: when it is handled, and what exists behind it. */
  lemma DispatchIff(t: Table, e: Event, upgraded: set<Conn>)
    requires Inv(t) && Kernel(t, [e]) && Agree(t, upgraded, [e])
    ensures Dispatch(t, e).Some? <==> Fits(upgraded, t.pending, [], e)
    ensures Dispatch(t, e).Some? ==> Next(upgraded, t.pending, e, Dispatch(t, e).value.pending)
    ensures Dispatch(t, e).Some? ==>
              forall c | !(HasConn(e) && ConnOf(e) == c) :: c in Dispatch(t, e).value.upgraded <==> c in t.upgraded
  {
    FitsFirst(upgraded, t.pending, e);
    assert [e][0] == e && e in [e];
    assert ClosesClients(e) && FreshConn(t, e);
    if e.Readable? {
      assert e.conn in t.upgraded <==> e.conn in upgraded;
      assert Destroyed(t.upgraded, e) == Destroyed(upgraded, e);
      if e.conn in t.pending { ServeIff(t, e); }
    }
  }

  lemma AgreeLater(t: Table, t1: Table, e: Event, upgraded: set<Conn>, rest: seq<Event>)
    requires Kernel(t, [e] + rest) && Agree(t, upgraded, [e] + rest)
    requires forall c | !(HasConn(e) && ConnOf(e) == c) :: c in t1.upgraded <==> c in t.upgraded
    ensures Agree(t1, upgraded, rest) && Agree(t, upgraded, [e]) && Kernel(t, [e])
  {
    var es := [e] + rest;
    assert es[0] == e && e in es;
    forall x | x in rest && HasConn(x) ensures x in es && (HasConn(e) ==> ConnOf(x) != ConnOf(e)) {
      var i :| 0 <= i < |rest| && rest[i] == x;
      assert es[i + 1] == x;
    }
  }

  lemma {:induction false} RunIff(t: Table, es: seq<Event>, upgraded: set<Conn>)
    requires Inv(t) && Kernel(t, es) && Agree(t, upgraded, es)
    ensures RunBatch(t, es).Some? <==> Behaves(upgraded, t.pending, Reached(es))
    decreases |es|
  {
    if es != [] && !EndsBatch(es[0]) {
      var e, rest := es[0], es[1..];
      assert es == [e] + rest;
      AgreeLater(t, t, e, upgraded, rest);
      DispatchIff(t, e, upgraded);
      if Dispatch(t, e).Some? {
        var t1 := Dispatch(t, e).value;
        DispatchKeeps(t, e);
        DispatchKnown(t, e);
        KernelTail(t, es, t1);
        AgreeLater(t, t1, e, upgraded, rest);
        BehavesCons(upgraded, t.pending, e, t1.pending, Reached(rest));
        RunIff(t1, rest, upgraded);
      } else if Behaves(upgraded, t.pending, [e] + Reached(rest)) {
        FirstFits(upgraded, t.pending, e, Reached(rest));
        assert false;
      }
    }
  }

  /** Poll handles a whole batch, and keeps the table invariant, exactly when no event and no
      handler it reaches names a connection that is destroyed by then, on_data_ and
      ws_connect_hook do not close their own connection, every upgrade comes with a key and
      every request for a handler has a known method. */
  lemma PollIsSafeIff(t: Table, es: seq<Event>)
    requires Inv(t) && FromEpoll(t, es)
    ensures RunBatch(t, es).Some? <==> Behaves(t.upgraded, t.pending, Reached(es))
    ensures RunBatch(t, es).Some? ==> Inv(RunBatch(t, es).value)
  {
    RunIff(t, es, t.upgraded);
    if RunBatch(t, es).Some? { BatchKeeps(t, es); }
  }

  lemma DispatchOne(t: Table, e: Event)
    requires !EndsBatch(e)
    ensures RunBatch(t, [e]) == Dispatch(t, e)
  {
  }

  /** A request handler may close its own connection exactly if it does not answer -1; only then
      the connection would be closed twice. */
  lemma OwnCloseIff(t: Table, c: Conn, r: Request)
    requires Inv(t) && c in t.pending && c !in t.upgraded
    requires r.routed && !WantsUpgrade(r.parser) && r.parser.httpMethod != UNKNOWN_METHOD && r.closes == [c]
    ensures RunBatch(t, [Readable(c, 0, [], Arrived(r))]).Some? <==> r.handlerRet != -1
    ensures r.handlerRet != -1 ==> c !in RunBatch(t, [Readable(c, 0, [], Arrived(r))]).value.registered
  {
    var e := Readable(c, 0, [], Arrived(r));
    NotedKeeps(t, e);
    FinishIff(Noted(t, e), [c], c, r.handlerRet);
    DispatchOne(t, e);
    assert r.handlerRet == -1 ==> !NoDuplicates([c] + Own(c, r.handlerRet)) by {
      var cs := [c] + [c];
      assert cs[0] == cs[1];
    }
  }

  /** The tables reached by n batches, each as the kernel delivers it and with handlers that
      behave. */
  ghost predicate IsRun(tables: seq<Table>, batches: seq<seq<Event>>) {
    && |tables| == |batches| + 1 && tables[0] == NEW_TABLE
    && forall i | 0 <= i < |batches| ::
         && FromEpoll(tables[i], batches[i]) && Behaves(tables[i].upgraded, tables[i].pending, Reached(batches[i]))
         && RunBatch(tables[i], batches[i]) == Some(tables[i + 1])
  }

  lemma NewTable()
    ensures Inv(NEW_TABLE)
  {
  }

  /** Over every run the invariant holds: epoll watches the server and the pending connections,
      once each; every connection upgrades at most once; and its readable events go to the
      WebSocket reader exactly from then on. */
  lemma {:induction false} TableInvariant(tables: seq<Table>, batches: seq<seq<Event>>, n: nat)
    requires IsRun(tables, batches) && n <= |batches|
    ensures Inv(tables[n])
  {
    if n == 0 {
      NewTable();
    } else {
      TableInvariant(tables, batches, n - 1);
      PollIsSafeIff(tables[n - 1], batches[n - 1]);
    }
  }
}
