/** BroadcastGroup (src/hpl_broadcast_group.cc): one frame is written to a pipe, duplicated
    into one pipe per member with tee(2), and moved on to the sockets with splice(2). */
module BroadcastGroup {
  import opened Octets
  import opened WebsocketUtils

  /** How much a pipe holds, and so how much of a frame can pass at once. */
  const PIPE_CAPACITY: nat := 0x1_0000

  function Min(a: nat, b: nat): nat { if a < b then a else b }

  function Take(s: seq<byte>, n: nat): seq<byte> { s[..Min(n, |s|)] }

  function Drop(s: seq<byte>, n: nat): seq<byte> { s[Min(n, |s|)..] }

  /** The socket of a member: what was sent to it. */
  class Socket {
    var received: seq<byte>
  }

  /** A non-blocking pipe. Transfers move as many bytes as there are, and as fit. */
  class Pipe {
    var bytes: seq<byte>

    constructor ()
      ensures bytes == []
    {
      bytes := [];
    }

    method Write(data: seq<byte>)
      requires |bytes| <= PIPE_CAPACITY
      modifies this
      ensures bytes == old(bytes) + Take(data, PIPE_CAPACITY - |old(bytes)|)
    {
      bytes := bytes + Take(data, PIPE_CAPACITY - |bytes|);
    }

    /** tee: duplicates, and leaves the source as it is. */
    method Tee(dst: Pipe, len: nat)
      requires dst != this && |dst.bytes| <= PIPE_CAPACITY
      modifies dst
      ensures dst.bytes == old(dst.bytes) + Take(bytes, Min(len, PIPE_CAPACITY - |old(dst.bytes)|))
    {
      dst.bytes := dst.bytes + Take(bytes, Min(len, PIPE_CAPACITY - |dst.bytes|));
    }

    /** splice into another pipe: moves. */
    method Splice(dst: Pipe, len: nat)
      requires dst != this && |dst.bytes| <= PIPE_CAPACITY
      modifies this, dst
      ensures dst.bytes == old(dst.bytes) + Take(old(bytes), Min(len, PIPE_CAPACITY - |old(dst.bytes)|))
      ensures bytes == Drop(old(bytes), Min(len, PIPE_CAPACITY - |old(dst.bytes)|))
    {
      var n := Min(len, PIPE_CAPACITY - |dst.bytes|);
      dst.bytes := dst.bytes + Take(bytes, n);
      bytes := Drop(bytes, n);
    }

    /** splice into a socket. */
    method SpliceToSocket(dst: Socket, len: nat)
      modifies this, dst
      ensures dst.received == old(dst.received) + Take(old(bytes), len)
      ensures bytes == Drop(old(bytes), len)
    {
      dst.received := dst.received + Take(bytes, len);
      bytes := Drop(bytes, len);
    }
  }

  /** How often a member joined. */
  function Count<T(==)>(members: seq<T>, m: T): nat {
    if members == [] then 0 else Count(members[..|members| - 1], m) + if members[|members| - 1] == m then 1 else 0
  }

  function Repeat(s: seq<byte>, n: nat): seq<byte> {
    if n == 0 then [] else Repeat(s, n - 1) + s
  }

  /** The first place of m, or the length. */
  function FirstIndex<T(==)>(members: seq<T>, m: T): (i: nat)
    ensures i <= |members| && (i < |members| ==> members[i] == m) && m !in members[..i]
  {
    if members == [] || members[0] == m then 0
    else
      var j := FirstIndex(members[1..], m);
      assert members[..j + 1] == [members[0]] + members[1..][..j];
      j + 1
  }

  function Without<T(==)>(members: seq<T>, m: T): seq<T> {
    var i := FirstIndex(members, m);
    if i < |members| then members[..i] + members[i + 1..] else members
  }

  class BroadcastGroup {
    const pipe: Pipe
    var pipes: seq<Pipe>
    var sockets: seq<Socket>

    /** Every member has a pipe of its own. */
    predicate Separate()
      reads this
    {
      |pipes| == |sockets| && pipe !in pipes && forall i, j | 0 <= i < j < |pipes| :: pipes[i] != pipes[j]
    }

    /** All pipes are empty. */
    predicate Valid()
      reads this, pipe, pipes
    {
      && Separate()
      && pipe.bytes == [] && forall i | 0 <= i < |pipes| :: pipes[i].bytes == []
    }

    constructor ()
      ensures Valid() && fresh(pipe) && sockets == []
    {
      pipe := new Pipe();
      pipes, sockets := [], [];
    }

    /** `granted`: pipe(2) succeeded. */
    method Join(socket: Socket?, granted: bool) returns (ret: int)
      requires Valid()
      modifies this
      ensures Valid()
      ensures ret == (if socket == null || !granted then -1 else 0)
      ensures sockets == if ret == 0 then old(sockets) + [socket] else old(sockets)
      ensures forall p | p in pipes :: p in old(pipes) || fresh(p)
    {
      if socket == null {
        return -1;
      }
      if !granted {
        return -1;
      }
      var p := new Pipe();
      pipes := pipes + [p];
      sockets := sockets + [socket];
      return 0;
    }

    method Leave(socket: Socket) returns (ret: int)
      requires Valid()
      modifies this
      ensures Valid()
      ensures ret == (if socket in old(sockets) then 0 else -1)
      ensures sockets == Without(old(sockets), socket)
      ensures socket !in old(sockets) ==> sockets == old(sockets)
      ensures forall i | 0 <= i < |old(sockets)| && old(sockets)[i] == socket && socket !in old(sockets)[..i] ::
                sockets == old(sockets)[..i] + old(sockets)[i + 1..]
      ensures forall p | p in pipes :: p in old(pipes)
    {
      var i := 0;
      while i < |sockets| && sockets[i] != socket
        invariant 0 <= i <= |sockets|
        invariant socket !in sockets[..i]
      {
        i := i + 1;
      }
      FirstIndexIs(sockets, socket, i);
      forall j | 0 <= j < |sockets| && sockets[j] == socket && socket !in sockets[..j] ensures j == i {
        FirstIndexIs(sockets, socket, j);
      }
      if i == |sockets| {
        return -1;
      }
      pipes := pipes[..i] + pipes[i + 1..];
      sockets := sockets[..i] + sockets[i + 1..];
      return 0;
    }

    /** The first loop and the splice behind it: from the group's pipe to every member's. */
    method FanOut(len: nat, ghost chunk: seq<byte>)
      requires Separate() && sockets != [] && |chunk| <= PIPE_CAPACITY && |chunk| <= len
      requires pipe.bytes == chunk && forall k | 0 <= k < |pipes| :: pipes[k].bytes == []
      modifies pipe, pipes
      ensures pipe.bytes == [] && forall k | 0 <= k < |pipes| :: pipes[k].bytes == chunk
    {
      var n := |sockets|;
      for i := 0 to n - 1
        invariant pipe.bytes == chunk
        invariant forall k | 0 <= k < n :: pipes[k].bytes == if k < i then chunk else []
      {
        pipe.Tee(pipes[i], len);
        assert pipes[i].bytes == chunk;
      }
      pipe.Splice(pipes[n - 1], len);
      assert pipes[n - 1].bytes == chunk;
    }

    /** The second loop: from every member's pipe to its socket. */
    method Deliver(len: nat, ghost chunk: seq<byte>)
      requires Separate() && |chunk| <= len
      requires forall k | 0 <= k < |pipes| :: pipes[k].bytes == chunk
      modifies pipes, sockets
      ensures forall k | 0 <= k < |pipes| :: pipes[k].bytes == []
      ensures forall s | s in sockets :: s.received == old(s.received) + Repeat(chunk, Count(sockets, s))
    {
      var n := |sockets|;
      for i := 0 to n
        invariant forall k | 0 <= k < n :: pipes[k].bytes == if k < i then [] else chunk
        invariant forall s | s in sockets ::
                    s.received == old(s.received) + Repeat(chunk, Count(sockets[..i], s))
      {
        pipes[i].SpliceToSocket(sockets[i], len);
        assert sockets[..i + 1][..i] == sockets[..i];
      }
      assert sockets[..n] == sockets;
    }

    /** Every member's socket gains the frame, cut to what a pipe holds, once per membership;
        nothing else changes and all pipes are empty again. */
    method Broadcast(data: seq<byte>, frameType: byte) returns (ret: int, ghost stale: byte)
      requires Valid()
      modifies pipe, pipes, sockets
      ensures Valid() && ret == 0
      ensures forall s | s in sockets ::
                s.received == old(s.received) + Repeat(Chunk(frameType, data, stale), Count(sockets, s))
    {
      ret, stale := 0, 0;
      if sockets == [] {
        return;
      }
      var header, size := MakeWebsocketHeader(|data|, frameType);
      stale := header[5];
      ghost var chunk := Chunk(frameType, data, stale);
      pipe.Write(header[..size]);
      pipe.Write(data);
      assert pipe.bytes == chunk;
      FanOut(size + |data|, chunk);
      Deliver(size + |data|, chunk);
    }
  }

  lemma FirstIndexIs<T>(members: seq<T>, m: T, i: nat)
    requires i <= |members| && m !in members[..i] && (i < |members| ==> members[i] == m)
    ensures FirstIndex(members, m) == i
  {
    var j := FirstIndex(members, m);
    assert forall k | 0 <= k < i :: members[k] in members[..i];
    assert forall k | 0 <= k < j :: members[k] in members[..j];
  }

  /** The frame, as far as it fits a pipe. */
  function Chunk(frameType: byte, data: seq<byte>, stale: byte): seq<byte> {
    Take(HeaderBytes(|data|, frameType, stale) + data, PIPE_CAPACITY)
  }
}
