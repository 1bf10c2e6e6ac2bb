/** Broadcasting through pipes, over whole runs, against writing to every member directly. */
module BroadcastLaws {
  import opened Octets
  import opened Sequences
  import opened Wrappers
  import opened WebsocketUtils
  import opened WebsocketLaws
  import opened BroadcastGroup

  /** The operations of a group; members are named by their sockets. */
  datatype Op<T> = Join(member: T) | Leave(member: T) | Broadcast(frameType: byte, data: seq<byte>, stale: byte)

  function Membership<T(==)>(members: seq<T>, op: Op<T>): seq<T> {
    match op
    case Join(m) => members + [m]
    case Leave(m) => Without(members, m)
    case Broadcast(_, _, _) => members
  }

  function Members<T(==)>(ops: seq<Op<T>>): seq<T> {
    if ops == [] then [] else Membership(Members(ops[..|ops| - 1]), ops[|ops| - 1])
  }

  /** Leaving takes the first membership away, and nothing else. */
  lemma WithoutIs<T>(before: seq<T>, m: T, behind: seq<T>)
    requires m !in before
    ensures Without(before, m) == before
    ensures Without(before + [m] + behind, m) == before + behind
  {
    var all := before + [m] + behind;
    assert all[..|before|] == before;
    FirstIndexIs(all, m, |before|);
    assert all[|before| + 1..] == behind;
    FirstIndexIs(before, m, |before|);
    assert before[..|before|] == before;
  }

  /** What the socket of m receives in one operation, and over a run. */
  function Sent<T(==)>(members: seq<T>, op: Op<T>, m: T): seq<byte> {
    match op
    case Broadcast(t, data, stale) => Repeat(Chunk(t, data, stale), Count(members, m))
    case _ => []
  }

  function Stream<T(==)>(ops: seq<Op<T>>, m: T): seq<byte> {
    if ops == [] then []
    else
      var front := ops[..|ops| - 1];
      Stream(front, m) + Sent(Members(front), ops[|ops| - 1], m)
  }

  // ---------- the class runs the operations ----------

  function Joiners(ops: seq<Op<Socket>>): set<Socket> {
    set op | op in ops && op.Join? :: op.member
  }

  lemma JoinersFront(ops: seq<Op<Socket>>)
    requires ops != []
    ensures Joiners(ops[..|ops| - 1]) <= Joiners(ops)
    ensures ops[|ops| - 1].Join? ==> ops[|ops| - 1].member in Joiners(ops)
  {
    assert forall op | op in ops[..|ops| - 1] :: op in ops;
  }

  /** The same operation, but for the octet of a long header that is not written. */
  predicate SameOp<T(==)>(a: Op<T>, b: Op<T>) {
    a == b || (a.Broadcast? && b.Broadcast? && a.frameType == b.frameType && a.data == b.data)
  }

  predicate SameOps<T(==)>(a: seq<Op<T>>, b: seq<Op<T>>) {
    |a| == |b| && forall i | 0 <= i < |a| :: SameOp(a[i], b[i])
  }

  lemma SameOpsMore<T>(ops: seq<Op<T>>, done: seq<Op<T>>, op: Op<T>)
    requires ops != [] && SameOps(ops[..|ops| - 1], done) && SameOp(ops[|ops| - 1], op)
    ensures SameOps(ops, done + [op])
  {
    assert forall i | 0 <= i < |done| :: SameOp(ops[..|ops| - 1][i], done[i]);
  }

  lemma MembersOneMore<T>(ops: seq<Op<T>>, op: Op<T>)
    ensures Members(ops + [op]) == Membership(Members(ops), op)
  {
    assert (ops + [op])[..|ops|] == ops;
  }

  lemma StreamOneMore<T>(ops: seq<Op<T>>, op: Op<T>, m: T, before: seq<byte>)
    ensures before + Stream(ops + [op], m) == (before + Stream(ops, m)) + Sent(Members(ops), op, m)
  {
    assert (ops + [op])[..|ops|] == ops;
    Assoc(before, Stream(ops, m), Sent(Members(ops), op, m));
  }

  lemma {:induction false} NotAMember<T>(members: seq<T>, m: T)
    requires m !in members
    ensures Count(members, m) == 0
  {
    if members != [] { NotAMember(members[..|members| - 1], m); }
  }

  /** One operation; `all` holds every socket of the run. */
  method RunOp(group: BroadcastGroup, op: Op<Socket>, ghost all: set<Socket>) returns (ghost done: Op<Socket>)
    requires group.Valid() && (forall s | s in group.sockets :: s in all) && (op.Join? ==> op.member in all)
    modifies group, group.pipe, group.pipes, all
    ensures group.Valid() && SameOp(op, done)
    ensures group.sockets == Membership(old(group.sockets), done)
    ensures forall s | s in all :: s.received == old(s.received) + Sent(old(group.sockets), done, s)
    ensures forall p | p in group.pipes :: p in old(group.pipes) || fresh(p)
  {
    done := op;
    match op {
      case Join(s) => var _ := group.Join(s, true);
      case Leave(s) => var _ := group.Leave(s);
      case Broadcast(t, data, _) =>
        ghost var members := group.sockets;
        var _, stale := group.Broadcast(data, t);
        done := op.(stale := stale);
        forall s | s in all && s !in members ensures Sent(members, done, s) == [] { NotAMember(members, s); }
    }
  }

  /** Runs a fresh group: it has the members of the run, and every socket that joined has
      received its stream and nothing else. */
  method RunGroup(group: BroadcastGroup, ops: seq<Op<Socket>>, ghost all: set<Socket>) returns (ghost done: seq<Op<Socket>>)
    requires group.Valid() && group.sockets == [] && Joiners(ops) <= all
    modifies group, group.pipe, group.pipes, all
    ensures SameOps(ops, done)
    ensures group.Valid() && group.sockets == Members(done)
    ensures forall s | s in group.sockets :: s in all
    ensures fresh(set p | p in group.pipes)
    ensures forall s | s in all :: s.received == old(s.received) + Stream(done, s)
    decreases |ops|
  {
    if ops == [] {
      return [];
    }
    var n := |ops| - 1;
    JoinersFront(ops);
    done := RunGroup(group, ops[..n], all);
    ghost var got := map s | s in all :: s.received;
    ghost var op := RunOp(group, ops[n], all);
    forall s | s in all ensures s.received == old(s.received) + Stream(done + [op], s) {
      assert s.received == got[s] + Sent(Members(done), op, s);
      StreamOneMore(done, op, s, old(s.received));
    }
    MembersWithin(Members(done), op, all);
    MembersOneMore(done, op);
    SameOpsMore(ops, done, op);
    done := done + [op];
  }

  lemma MembersWithin<T>(members: seq<T>, op: Op<T>, all: set<T>)
    requires (forall m | m in members :: m in all) && (op.Join? ==> op.member in all)
    ensures forall m | m in Membership(members, op) :: m in all
  {
  }

  // ---------- the reference: write the frame to each member in turn ----------

  function DirectWrites<T(==)>(frame: seq<byte>, members: seq<T>, m: T): seq<byte> {
    if members == [] then []
    else DirectWrites(frame, members[..|members| - 1], m) + if members[|members| - 1] == m then frame else []
  }

  function Direct<T(==)>(ops: seq<Op<T>>, m: T): seq<byte> {
    if ops == [] then []
    else
      var front := ops[..|ops| - 1];
      Direct(front, m) +
      match ops[|ops| - 1]
      case Broadcast(t, data, stale) => DirectWrites(Wire(t, data, stale), Members(front), m)
      case _ => []
  }

  lemma {:induction false} DirectWritesRepeat<T>(frame: seq<byte>, members: seq<T>, m: T)
    ensures DirectWrites(frame, members, m) == Repeat(frame, Count(members, m))
  {
    if members != [] {
      DirectWritesRepeat(frame, members[..|members| - 1], m);
    }
  }

  /** The frames sent to m while it was a member fit a pipe. */
  predicate FramesFit<T(==)>(ops: seq<Op<T>>, m: T) {
    forall i | 0 <= i < |ops| :: FrameFits(ops, i, m)
  }

  predicate FrameFits<T(==)>(ops: seq<Op<T>>, i: nat, m: T)
    requires i < |ops|
  {
    ops[i].Broadcast? && Count(Members(ops[..i]), m) > 0
    ==> |Wire(ops[i].frameType, ops[i].data, ops[i].stale)| <= PIPE_CAPACITY
  }

  lemma FramesFitFront<T>(ops: seq<Op<T>>, m: T)
    requires ops != []
    ensures FramesFit(ops, m) <==> FramesFit(ops[..|ops| - 1], m) && FrameFits(ops, |ops| - 1, m)
  {
    var front := ops[..|ops| - 1];
    assert forall i | 0 <= i < |front| :: front[..i] == ops[..i] && front[i] == ops[i];
    if FramesFit(front, m) {
      forall i | 0 <= i < |front| ensures FrameFits(ops, i, m) { assert FrameFits(front, i, m); }
    }
    if FramesFit(ops, m) {
      forall i | 0 <= i < |front| ensures FrameFits(front, i, m) { assert FrameFits(ops, i, m); }
    }
  }

  lemma {:induction false} RepeatLength(s: seq<byte>, n: nat)
    ensures |Repeat(s, n)| == |s| * n
  {
    if n > 0 { RepeatLength(s, n - 1); }
  }

  /** One broadcast delivers no more than direct writes would, and less exactly if cut. */
  lemma RepeatChunk(t: byte, data: seq<byte>, stale: byte, n: nat)
    ensures var frame, chunk := Wire(t, data, stale), Chunk(t, data, stale);
            && |Repeat(chunk, n)| <= |Repeat(frame, n)|
            && (|Repeat(chunk, n)| == |Repeat(frame, n)| <==> n == 0 || |frame| <= PIPE_CAPACITY)
            && (|frame| <= PIPE_CAPACITY ==> chunk == frame)
  {
    var frame, chunk := Wire(t, data, stale), Chunk(t, data, stale);
    RepeatLength(frame, n);
    RepeatLength(chunk, n);
    assert |chunk| == Min(PIPE_CAPACITY, |frame|);
    Multiply(|chunk|, |frame|, n);
  }

  lemma Multiply(a: nat, b: nat, n: nat)
    requires a <= b
    ensures a * n <= b * n && (a * n == b * n <==> n == 0 || a == b)
  {
  }

  lemma {:induction false} StreamNotLonger<T>(ops: seq<Op<T>>, m: T)
    ensures |Stream(ops, m)| <= |Direct(ops, m)|
    ensures |Stream(ops, m)| == |Direct(ops, m)| ==> FramesFit(ops, m)
  {
    if ops != [] {
      var front, op := ops[..|ops| - 1], ops[|ops| - 1];
      StreamNotLonger(front, m);
      FramesFitFront(ops, m);
      if op.Broadcast? {
        var n := Count(Members(front), m);
        DirectWritesRepeat(Wire(op.frameType, op.data, op.stale), Members(front), m);
        RepeatChunk(op.frameType, op.data, op.stale, n);
      }
    }
  }

  lemma {:induction false} FittingStream<T>(ops: seq<Op<T>>, m: T)
    requires FramesFit(ops, m)
    ensures Stream(ops, m) == Direct(ops, m)
  {
    if ops != [] {
      var front, op := ops[..|ops| - 1], ops[|ops| - 1];
      FramesFitFront(ops, m);
      FittingStream(front, m);
      if op.Broadcast? {
        DirectWritesRepeat(Wire(op.frameType, op.data, op.stale), Members(front), m);
        RepeatChunk(op.frameType, op.data, op.stale, Count(Members(front), m));
      }
    }
  }

  /** Over every run of joins, leaves and broadcasts, a socket receives exactly what writing
      each frame to each member in turn would have sent it, if and only if every frame sent
      to it fits a pipe. */
  lemma BroadcastRefinesDirectIff<T>(ops: seq<Op<T>>, m: T)
    ensures Stream(ops, m) == Direct(ops, m) <==> FramesFit(ops, m)
  {
    StreamNotLonger(ops, m);
    if FramesFit(ops, m) { FittingStream(ops, m); }
  }

  // ---------- what a member decodes ----------

  /** The largest payload whose frame fits a pipe. */
  const MAX_BROADCAST: nat := 65532

  /** What is cut off a frame is its end. */
  lemma ChunkIsFront(t: byte, data: seq<byte>, stale: byte)
    ensures var frame, chunk := Wire(t, data, stale), Chunk(t, data, stale);
            chunk <= frame && |chunk| == if |frame| <= 65536 then |frame| else 65536
  {
  }

  /** A member can decode a broadcast exactly up to 65532 octets: beyond, the pipe cuts the
      frame, or the header is written incompletely. */
  lemma ChunkDecodesIff(t: byte, data: seq<byte>, stale: byte)
    requires t < 16
    ensures var c := Chunk(t, data, stale);
            (Complete(c) && Decode(c) == Frame(true, t, data)) <==> |data| <= 65532
  {
    var w, c := Wire(t, data, stale), Chunk(t, data, stale);
    if |data| <= MAX_BROADCAST {
      DecodeWire(t, data, stale);
      assert c == w;
    } else if |data| < 0xffff {
      HeaderReads(t, |data|, stale, data);
      assert w[2..4] == c[2..4] && w[0] == c[0] && w[1] == c[1];
    } else {
      FormBytes();
      assert c[1] == w[1] == 127;
      assert |c| == PIPE_CAPACITY;
    }
  }

  function Copies(f: Frame, n: nat): seq<Frame> {
    if n == 0 then [] else Copies(f, n - 1) + [f]
  }

  lemma RepeatMore(s: seq<byte>, w: seq<byte>, n: nat)
    requires n > 0
    ensures s + Repeat(w, n) == (s + Repeat(w, n - 1)) + w
  {
    Assoc(s, Repeat(w, n - 1), w);
  }

  lemma CopiesMore(fs: seq<Frame>, f: Frame, n: nat)
    requires n > 0
    ensures fs + Copies(f, n) == (fs + Copies(f, n - 1)) + [f]
  {
    Assoc(fs, Copies(f, n - 1), [f]);
  }

  lemma NothingMore<T>(s: seq<T>)
    ensures s + [] == s
  {
  }

  lemma {:induction false} DecodeRepeated(s: seq<byte>, fs: seq<Frame>, w: seq<byte>, f: Frame, n: nat)
    requires DecodeAll(s) == Some(fs) && Complete(w) && FrameSize(w) == |w| && Decode(w) == f
    ensures DecodeAll(s + Repeat(w, n)) == Some(fs + Copies(f, n))
  {
    if n == 0 {
      NothingMore(s);
      NothingMore(fs);
    } else {
      DecodeRepeated(s, fs, w, f, n - 1);
      DecodeOneMore(s + Repeat(w, n - 1), fs + Copies(f, n - 1), w);
      RepeatMore(s, w, n);
      CopiesMore(fs, f, n);
    }
  }

  /** The broadcasts m should see: each once per membership at that time. */
  function Expected<T(==)>(ops: seq<Op<T>>, m: T): seq<Frame> {
    if ops == [] then []
    else
      var front := ops[..|ops| - 1];
      Expected(front, m) +
      match ops[|ops| - 1]
      case Broadcast(t, data, _) => Copies(Frame(true, t, data), Count(Members(front), m))
      case _ => []
  }

  predicate SmallBroadcasts<T>(ops: seq<Op<T>>) {
    forall i | 0 <= i < |ops| && ops[i].Broadcast? :: ops[i].frameType < 16 && |ops[i].data| <= MAX_BROADCAST
  }

  /** Over every run, what a socket receives decodes to exactly the broadcasts made while its
      connection was a member, in order, and nothing else. */
  lemma {:induction false} MembersDecodeBroadcasts<T>(ops: seq<Op<T>>, m: T)
    requires SmallBroadcasts(ops)
    ensures DecodeAll(Stream(ops, m)) == Some(Expected(ops, m))
  {
    if ops != [] {
      var front, op := ops[..|ops| - 1], ops[|ops| - 1];
      assert forall i | 0 <= i < |front| :: front[i] == ops[i];
      MembersDecodeBroadcasts(front, m);
      if op.Broadcast? {
        SmallChunk(op.frameType, op.data, op.stale);
        DecodeRepeated(Stream(front, m), Expected(front, m), Chunk(op.frameType, op.data, op.stale),
                       Frame(true, op.frameType, op.data), Count(Members(front), m));
      } else {
        assert Stream(front, m) + [] == Stream(front, m) && Expected(front, m) + [] == Expected(front, m);
      }
    }
  }

  lemma SmallChunk(t: byte, data: seq<byte>, stale: byte)
    requires t < 16 && |data| <= MAX_BROADCAST
    ensures var c := Chunk(t, data, stale);
            Complete(c) && FrameSize(c) == |c| && Decode(c) == Frame(true, t, data)
  {
    DecodeWire(t, data, stale);
    assert Chunk(t, data, stale) == Wire(t, data, stale);
  }
}
