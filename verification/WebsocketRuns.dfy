/** Whole WebSocket sessions: reassembly of fragmented messages and answers to pings. */
module WebsocketRuns {
  import opened Octets
  import opened Wrappers
  import opened WebsocketUtils
  import opened WebsocketConnection
  import opened WebsocketLaws

  /** One Read per frame. */
  function RunFrames(s: Session, fs: seq<Frame>): Session {
    if fs == [] then s else Receive(RunFrames(s, fs[..|fs| - 1]), fs[|fs| - 1])
  }

  /** A ping or a pong. */
  predicate IsControl(f: Frame) { f.opcode == 0x9 || f.opcode == 0xa }

  /** A close frame ends the session; what follows it is not read. */
  predicate NoClose(fs: seq<Frame>) {
    forall i | 0 <= i < |fs| :: fs[i].opcode != 0x8
  }

  // ---------- the reference: groups of data frames ----------

  /** The data frames, grouped up to and including each final one, and the unfinished group. */
  function Groups(fs: seq<Frame>): (r: (seq<seq<Frame>>, seq<Frame>))
    ensures [] !in r.0
  {
    if fs == [] then ([], [])
    else
      var f := fs[|fs| - 1];
      var (messages, open) := Groups(fs[..|fs| - 1]);
      if IsControl(f) then (messages, open)
      else if f.fin then (messages + [open + [f]], [])
      else (messages, open + [f])
  }

  function DataFrames(fs: seq<Frame>): seq<Frame> {
    if fs == [] then []
    else DataFrames(fs[..|fs| - 1]) + if IsControl(fs[|fs| - 1]) then [] else [fs[|fs| - 1]]
  }

  function Flatten<T>(groups: seq<seq<T>>): seq<T> {
    if groups == [] then [] else Flatten(groups[..|groups| - 1]) + groups[|groups| - 1]
  }

  /** A maximal group: its last frame, and no other, is final. */
  predicate IsMessage(m: seq<Frame>) {
    m != [] && m[|m| - 1].fin && forall i | 0 <= i < |m| - 1 :: !m[i].fin
  }

  /** The groups, and the rest, make up the data frames. */
  lemma {:induction false} GroupsPartition(fs: seq<Frame>)
    ensures var (messages, open) := Groups(fs);
            && Flatten(messages) + open == DataFrames(fs)
            && (forall m | m in messages :: IsMessage(m))
            && (forall f | f in open :: !f.fin)
  {
    if fs != [] {
      var f, front := fs[|fs| - 1], fs[..|fs| - 1];
      GroupsPartition(front);
      var (messages, open) := Groups(front);
      if !IsControl(f) && f.fin {
        FlattenOneMore(messages, open + [f]);
        FinEndsMessage(open, f);
        assert Flatten(messages) + (open + [f]) == (Flatten(messages) + open) + [f];
      }
    }
  }

  lemma FlattenOneMore<T>(groups: seq<seq<T>>, g: seq<T>)
    ensures Flatten(groups + [g]) == Flatten(groups) + g
  {
    assert (groups + [g])[..|groups|] == groups;
  }

  lemma FinEndsMessage(open: seq<Frame>, f: Frame)
    requires f.fin && forall g | g in open :: !g.fin
    ensures IsMessage(open + [f])
  {
    assert forall i | 0 <= i < |open| :: open[i] in open;
  }

  predicate IsGrouping(messages: seq<seq<Frame>>, open: seq<Frame>) {
    (forall m | m in messages :: IsMessage(m)) && (forall f | f in open :: !f.fin)
  }

  lemma DropLast(messages: seq<seq<Frame>>)
    requires messages != [] && IsGrouping(messages, [])
    ensures var m := messages[|messages| - 1];
            && m != [] && m[|m| - 1].fin && IsGrouping(messages[..|messages| - 1], m[..|m| - 1])
            && Flatten(messages) == Flatten(messages[..|messages| - 1]) + m[..|m| - 1] + [m[|m| - 1]]
  {
    var m := messages[|messages| - 1];
    assert m in messages;
    assert m == m[..|m| - 1] + [m[|m| - 1]];
  }

  /** The last frame tells whether a group is open. */
  lemma LastFrame(messages: seq<seq<Frame>>, open: seq<Frame>)
    requires IsGrouping(messages, open) && (messages != [] || open != [])
    ensures var all := Flatten(messages) + open; all != [] && (all[|all| - 1].fin <==> open == [])
  {
    if open == [] {
      DropLast(messages);
    } else {
      assert open[|open| - 1] in open;
    }
  }

  lemma WithoutLast<T>(a: seq<T>, b: seq<T>)
    requires b != []
    ensures var all := a + b; all[..|all| - 1] == a + b[..|b| - 1] && all[|all| - 1] == b[|b| - 1]
  {
  }

  lemma SameButLast<T>(a: seq<T>, b: seq<T>)
    requires a != [] && b != [] && a[..|a| - 1] == b[..|b| - 1] && a[|a| - 1] == b[|b| - 1]
    ensures a == b
  {
    assert a == a[..|a| - 1] + [a[|a| - 1]] && b == b[..|b| - 1] + [b[|b| - 1]];
  }

  /** There is only one way to group a sequence of frames like this. */
  lemma {:induction false} GroupingUnique(ms: seq<seq<Frame>>, os: seq<Frame>, ns: seq<seq<Frame>>, ps: seq<Frame>)
    requires IsGrouping(ms, os) && IsGrouping(ns, ps) && Flatten(ms) + os == Flatten(ns) + ps
    ensures ms == ns && os == ps
    decreases |Flatten(ms) + os|
  {
    var all := Flatten(ms) + os;
    if ms != [] || os != [] { LastFrame(ms, os); }
    if ns != [] || ps != [] { LastFrame(ns, ps); }
    if all != [] {
      if os != [] {
        WithoutLast(Flatten(ms), os);
        WithoutLast(Flatten(ns), ps);
        GroupingUnique(ms, os[..|os| - 1], ns, ps[..|ps| - 1]);
        SameButLast(os, ps);
      } else {
        DropLast(ms);
        DropLast(ns);
        var m, n := ms[|ms| - 1], ns[|ns| - 1];
        var ms', ns' := ms[..|ms| - 1], ns[..|ns| - 1];
        assert all == Flatten(ms) == Flatten(ns);
        WithoutLast(Flatten(ms'), m);
        WithoutLast(Flatten(ns'), n);
        GroupingUnique(ms', m[..|m| - 1], ns', n[..|n| - 1]);
        SameButLast(m, n);
        SameButLast(ms, ns);
      }
    }
  }

  /** The concatenated payloads. */
  function Join(fs: seq<Frame>): seq<byte> {
    if fs == [] then [] else Join(fs[..|fs| - 1]) + fs[|fs| - 1].payload
  }

  lemma JoinOneMore(fs: seq<Frame>, f: Frame)
    ensures Join(fs + [f]) == Join(fs) + f.payload
  {
    assert (fs + [f])[..|fs|] == fs;
  }

  /** One call of on_data_ per message, with the opcode of its last frame. */
  function Deliveries(messages: seq<seq<Frame>>): seq<Delivery>
    requires [] !in messages
  {
    if messages == [] then []
    else
      var m := messages[|messages| - 1];
      assert m in messages && [] !in messages[..|messages| - 1];
      Deliveries(messages[..|messages| - 1]) + [Delivery(m[|m| - 1].opcode, Join(m))]
  }

  /** The session holds exactly the messages of fs and the unfinished rest. */
  predicate Reassembled(fs: seq<Frame>) {
    var s := RunFrames(NEW_SESSION, fs);
    s.delivered == Deliveries(Groups(fs).0) && s.pending == Join(Groups(fs).1)
  }

  /** Pings and pongs come only while no payload octet of an unfinished message is pending. */
  predicate ControlBetween(fs: seq<Frame>) {
    forall i | 0 <= i < |fs| && IsControl(fs[i]) :: Join(Groups(fs[..i]).1) == []
  }

  lemma ControlBetweenFront(fs: seq<Frame>)
    requires fs != []
    ensures ControlBetween(fs) <==>
            ControlBetween(fs[..|fs| - 1]) && (IsControl(fs[|fs| - 1]) ==> Join(Groups(fs[..|fs| - 1]).1) == [])
  {
    var front := fs[..|fs| - 1];
    assert forall i | 0 <= i < |front| :: front[..i] == fs[..i] && front[i] == fs[i];
  }

  /** One more frame, when the ones before were reassembled. */
  lemma ReassembleOneMore(fs: seq<Frame>)
    requires fs != [] && NoClose(fs) && Reassembled(fs[..|fs| - 1])
    requires IsControl(fs[|fs| - 1]) ==> Join(Groups(fs[..|fs| - 1]).1) == []
    ensures Reassembled(fs)
  {
    var f, front := fs[|fs| - 1], fs[..|fs| - 1];
    var (messages, open) := Groups(front);
    JoinOneMore(open, f);
    if !IsControl(f) && f.fin {
      var all := messages + [open + [f]];
      assert all[..|all| - 1] == messages;
    }
  }

  // ---------- no octet is lost: counting ----------

  function DeliveredOctets(ds: seq<Delivery>): nat {
    if ds == [] then 0 else DeliveredOctets(ds[..|ds| - 1]) + |ds[|ds| - 1].payload|
  }

  function SentOctets(fs: seq<Frame>): nat {
    if fs == [] then 0
    else SentOctets(fs[..|fs| - 1]) + if IsControl(fs[|fs| - 1]) then 0 else |fs[|fs| - 1].payload|
  }

  /** The octets pings and pongs wiped out. */
  function LostOctets(fs: seq<Frame>): nat {
    if fs == [] then 0
    else LostOctets(fs[..|fs| - 1])
         + if IsControl(fs[|fs| - 1]) then |RunFrames(NEW_SESSION, fs[..|fs| - 1]).pending| else 0
  }

  lemma {:induction false} OctetsKept(fs: seq<Frame>)
    requires NoClose(fs)
    ensures var s := RunFrames(NEW_SESSION, fs);
            DeliveredOctets(s.delivered) + |s.pending| + LostOctets(fs) == SentOctets(fs)
  {
    if fs != [] {
      var f, front := fs[|fs| - 1], fs[..|fs| - 1];
      OctetsKept(front);
      var s := RunFrames(NEW_SESSION, front);
      if !IsControl(f) && f.fin {
        var ds := RunFrames(NEW_SESSION, fs).delivered;
        assert ds[..|ds| - 1] == s.delivered;
      }
    }
  }

  lemma {:induction false} OctetsGrouped(fs: seq<Frame>)
    ensures DeliveredOctets(Deliveries(Groups(fs).0)) + |Join(Groups(fs).1)| == SentOctets(fs)
  {
    if fs != [] {
      var f, front := fs[|fs| - 1], fs[..|fs| - 1];
      OctetsGrouped(front);
      var (messages, open) := Groups(front);
      JoinOneMore(open, f);
      if !IsControl(f) && f.fin {
        var all := messages + [open + [f]];
        assert all[..|all| - 1] == messages;
        var ds := Deliveries(all);
        assert ds[..|ds| - 1] == Deliveries(messages);
      }
    }
  }

  /** A run without losses was reassembled at every step. */
  lemma {:induction false} NothingLost(fs: seq<Frame>)
    requires NoClose(fs) && LostOctets(fs) == 0
    ensures Reassembled(fs) && ControlBetween(fs)
  {
    if fs != [] {
      var front := fs[..|fs| - 1];
      NothingLost(front);
      ReassembleOneMore(fs);
      ControlBetweenFront(fs);
    }
  }

  lemma {:induction false} BetweenLosesNothing(fs: seq<Frame>)
    requires NoClose(fs) && ControlBetween(fs)
    ensures Reassembled(fs)
  {
    if fs != [] {
      ControlBetweenFront(fs);
      BetweenLosesNothing(fs[..|fs| - 1]);
      ReassembleOneMore(fs);
    }
  }

  /** Over every run of frames: on_data_ gets exactly the concatenations of the maximal groups
      and last_payload_ holds the unfinished one, if and only if every ping and pong comes
      while nothing is pending; section 5.4 of RFC 6455 would allow them anywhere. */
  lemma ReassemblyIff(fs: seq<Frame>)
    requires NoClose(fs)
    ensures Reassembled(fs) <==> ControlBetween(fs)
  {
    if ControlBetween(fs) {
      BetweenLosesNothing(fs);
    } else if Reassembled(fs) {
      OctetsKept(fs);
      OctetsGrouped(fs);
      NothingLost(fs);
    }
  }

  // ---------- pings ----------

  /** The answers section 5.5.3 asks for: a pong for every ping, with its payload. */
  function PongFrames(fs: seq<Frame>): seq<Frame> {
    if fs == [] then []
    else PongFrames(fs[..|fs| - 1])
         + if fs[|fs| - 1].opcode == 0x9 then [Frame(true, 0xa, fs[|fs| - 1].payload)] else []
  }

  /** What a session has written decodes, as a whole, to one pong per ping, in order, with the
      pings' payloads, and nothing else. */
  lemma {:induction false} PingsAnswered(fs: seq<Frame>)
    requires NoClose(fs)
    requires forall f | f in fs && f.opcode == 0x9 :: |f.payload| < 0xffff
    ensures DecodeAll(RunFrames(NEW_SESSION, fs).out) == Some(PongFrames(fs))
  {
    if fs != [] {
      var f, front := fs[|fs| - 1], fs[..|fs| - 1];
      var out := RunFrames(NEW_SESSION, front).out;
      assert f in fs && forall g | g in front :: g in fs;
      PingsAnswered(front);
      if f.opcode == TYPE_PING {
        DecodeWire(TYPE_PONG, f.payload, 0);
        DecodeOneMore(out, PongFrames(front), ServerFrame(TYPE_PONG, f.payload));
      } else {
        assert PongFrames(front) + [] == PongFrames(front);
      }
    }
  }

  /** A close frame is neither answered nor handed to the handler. */
  lemma CloseIsSilent(s: Session, f: Frame)
    requires f.opcode == 0x8
    ensures Receive(s, f).delivered == s.delivered && Receive(s, f).out == s.out
  {
  }

  // ---------- the type of a message ----------

  /** Section 5.4: the first frame carries the type, the others continue it. */
  predicate TypedByFirst(m: seq<Frame>) {
    IsMessage(m) && m[0].opcode != 0x0 && forall i | 0 < i < |m| :: m[i].opcode == 0x0
  }

  /** Every call of on_data_ belongs to one group, in order, and gets the opcode of the group's
      last frame; pings and pongs, wherever they come, do not change that. */
  lemma {:induction false} LastOpcodeTold(fs: seq<Frame>)
    requires NoClose(fs)
    ensures var ds, messages := RunFrames(NEW_SESSION, fs).delivered, Groups(fs).0;
            |ds| == |messages| && forall i | 0 <= i < |ds| :: messages[i] != [] && ds[i].opcode == messages[i][|messages[i]| - 1].opcode
  {
    if fs != [] {
      var front := fs[..|fs| - 1];
      assert forall i | 0 <= i < |front| :: front[i] == fs[i];
      LastOpcodeTold(front);
    }
  }

  /** Over every run of typed messages, the handler is told the type of a message exactly if it
      came in one frame. */
  lemma TypeToldIff(fs: seq<Frame>, i: nat)
    requires NoClose(fs) && i < |Groups(fs).0| && TypedByFirst(Groups(fs).0[i])
    ensures var ds, m := RunFrames(NEW_SESSION, fs).delivered, Groups(fs).0[i];
            |ds| == |Groups(fs).0| && (ds[i].opcode == m[0].opcode <==> |m| == 1)
  {
    LastOpcodeTold(fs);
  }

  // ---------- over the wire ----------

  /** Frames as their client sends them, each in a read of its own. */
  function RunWires(s: Session, wires: seq<seq<byte>>): Session
    requires forall i | 0 <= i < |wires| :: Complete(wires[i])
  {
    if wires == [] then s
    else Receive(RunWires(s, wires[..|wires| - 1]), Decode(wires[|wires| - 1]))
  }

  /** The session sees the frames the client masked, whatever the keys, as long as each fits
      into the one read it gets. */
  lemma {:induction false} WireCarriesFrames(s: Session, fs: seq<Frame>, keys: seq<seq<byte>>, wires: seq<seq<byte>>)
    requires |fs| == |keys| == |wires|
    requires forall i | 0 <= i < |fs| :: |keys[i]| == 4 && fs[i].opcode < 16
    requires forall i | 0 <= i < |fs| :: wires[i] == ClientFrame(fs[i], keys[i]) && |wires[i]| <= 1024
    ensures forall i | 0 <= i < |wires| :: Complete(wires[i])
    ensures RunWires(s, wires) == RunFrames(s, fs)
  {
    forall i | 0 <= i < |wires| ensures Complete(wires[i]) && Decode(wires[i]) == fs[i] {
      assert |fs[i].payload| < |wires[i]|;
      ClientFrameRoundTripIff(fs[i], keys[i]);
    }
    if fs != [] {
      var n := |fs| - 1;
      WireCarriesFrames(s, fs[..n], keys[..n], wires[..n]);
    }
  }
}
