/** The ring is a queue, for clients that wrap the write position when it reaches the end. */
module CircularBufferLaws {
  import opened CircularBuffer

  /** The position holds a byte that is still to be read. */
  predicate Live<T>(b: Ring<T>, i: nat) {
    if b.w < b.r then b.r <= i < |b.data| || i < b.w else b.r <= i < b.w
  }

  /** The count is the size of the contents, and one slot stays free. */
  lemma LengthIsSize<T>(b: Ring<T>)
    requires Proper(b)
    ensures Length(b) == |Contents(b)| <= Capacity(b)
  {
  }

  /** The span offered for writing is in bounds, holds no live byte, and is not too long. */
  lemma SpanIsFree<T>(b: Ring<T>)
    requires Proper(b)
    ensures 0 <= SpanLength(b) <= FreeSpace(b)
    ensures forall i | b.w <= i < b.w + SpanLength(b) :: i < |b.data| && !Live(b, i)
  {
  }

  /** One client round appends the bytes and leaves a position inside the array. */
  lemma FillAppends<T>(b: Ring<T>, bytes: seq<T>)
    requires Proper(b) && |bytes| <= SpanLength(b)
    ensures var b' := Fill(b, bytes);
            Proper(b') && b'.w < |b.data| && |b'.data| == |b.data| && b'.r == b.r
            && Contents(b') == Contents(b) + bytes
  {
    var b' := Fill(b, bytes);
    var w := b.w + |bytes|;
    assert b'.data[b.w..w] == bytes;
    if b.w < b.r {
      assert b'.data[b.r..] == b.data[b.r..];
      assert b'.data[..w] == b.data[..b.w] + bytes;
    } else {
      assert b'.data[b.r..w] == b.data[b.r..b.w] + bytes;
      assert b'.data[b.r..][..w - b.r] == b'.data[b.r..w];
    }
  }

  /** Two rounds fill any ring completely. */
  lemma TwoRoundsFill<T>(b: Ring<T>, bytes: seq<T>)
    requires Proper(b) && |bytes| == FreeSpace(b)
    ensures var n := SpanLength(b);
            && n <= |bytes|
            && var b1 := Fill(b, bytes[..n]);
            && Proper(b1) && SpanLength(b1) == |bytes| - n
            && var b2 := Fill(b1, bytes[n..]);
            && Proper(b2) && Length(b2) == Capacity(b) && Contents(b2) == Contents(b) + bytes
  {
    SpanIsFree(b);
    var n := SpanLength(b);
    FillAppends(b, bytes[..n]);
    var b1 := Fill(b, bytes[..n]);
    FillAppends(b1, bytes[n..]);
    var b2 := Fill(b1, bytes[n..]);
    assert bytes == bytes[..n] + bytes[n..];
    LengthIsSize(b2);
    LengthIsSize(b);
  }

  lemma Remainder(n: nat, size: nat)
    requires 0 < size && n < 2 * size
    ensures n % size == if n < size then n else n - size
  {
  }

  lemma PopoutFromInside<T>(b: Ring<T>, len: nat)
    requires Proper(b) && len <= Length(b) && (b.w < |b.data| || len < Length(b))
    ensures var b' := Popout(b, len).1; Proper(b') && Contents(b') == Contents(b)[len..]
  {
    Remainder(b.r + len, |b.data|);
  }

  /** Reading drops a prefix of the contents, exactly unless it empties a ring whose write
      position was left behind the end: then the ring counts every slot as unread. */
  lemma PopoutDropsIff<T>(b: Ring<T>, len: nat)
    requires Proper(b) && len <= Length(b)
    ensures var (n, b') := Popout(b, len);
            && n == len
            && (Proper(b') && Contents(b') == Contents(b)[len..] <==> !(b.w == |b.data| && len == Length(b)))
            && (b.w == |b.data| && len == Length(b) ==> Length(b') == |b.data|)
  {
    Remainder(b.r + len, |b.data|);
    if b.w < |b.data| || len < Length(b) { PopoutFromInside(b, len); }
  }

  // ---------- runs that follow the client protocol ----------

  datatype Op<T> = Write(bytes: seq<T>) | Pop(len: nat) | Grow(data: seq<T>)

  /** A span is filled at most as far as it was offered. */
  predicate Allowed<T>(b: Ring<T>, op: Op<T>)
    requires Proper(b)
  {
    op.Write? ==> |op.bytes| <= SpanLength(b)
  }

  /** The result of an operation and the ring behind it. Grow asks for an array of the size
      of `data`, whose initial content is arbitrary. */
  function RingStep<T>(b: Ring<T>, op: Op<T>): (nat, Ring<T>)
    requires Proper(b) && Allowed(b, op)
  {
    match op
    case Write(bytes) => (|bytes|, Fill(b, bytes))
    case Pop(len) => Popout(b, len)
    case Grow(data) =>
      if |data| <= |b.data| then (0, b)
      else
        LengthIsSize(b);
        (1, Ring(Contents(b) + data[|Contents(b)|..], 0, |Contents(b)|))
  }

  /** The same operation on a plain queue in an array of the given size. */
  function QueueStep<T>(q: seq<T>, size: nat, op: Op<T>): (nat, seq<T>, nat) {
    match op
    case Write(bytes) => (|bytes|, q + bytes, size)
    case Pop(len) => if len > |q| then (0, q, size) else (len, q[len..], size)
    case Grow(data) => if |data| <= size then (0, q, size) else (1, q, |data|)
  }

  /** Wrapped: what the protocol keeps between operations. */
  predicate Wrapped<T>(b: Ring<T>) { Proper(b) && b.w < |b.data| }

  lemma StepRefinesQueue<T>(b: Ring<T>, op: Op<T>)
    requires Wrapped(b) && Allowed(b, op)
    ensures var (n, b') := RingStep(b, op); var (m, q, size) := QueueStep(Contents(b), |b.data|, op);
            n == m && Wrapped(b') && Contents(b') == q && |b'.data| == size
  {
    LengthIsSize(b);
    match op
    case Write(bytes) => FillAppends(b, bytes);
    case Pop(len) =>
      if len <= Length(b) {
        PopoutFromInside(b, len);
      }
    case Grow(data) =>
  }

  predicate AllowedRun<T>(b: Ring<T>, ops: seq<Op<T>>)
    requires Wrapped(b)
    decreases |ops|
  {
    ops == [] ||
    (Allowed(b, ops[0]) && (StepRefinesQueue(b, ops[0]); AllowedRun(RingStep(b, ops[0]).1, ops[1..])))
  }

  /** The results of a run and the contents behind it, on the ring. */
  function RunRing<T>(b: Ring<T>, ops: seq<Op<T>>): (seq<nat>, seq<T>)
    requires Wrapped(b) && AllowedRun(b, ops)
    decreases |ops|
  {
    if ops == [] then ([], Contents(b))
    else
      StepRefinesQueue(b, ops[0]);
      var (n, b') := RingStep(b, ops[0]);
      var (ns, q) := RunRing(b', ops[1..]);
      ([n] + ns, q)
  }

  function RunQueue<T>(q: seq<T>, size: nat, ops: seq<Op<T>>): (seq<nat>, seq<T>)
    decreases |ops|
  {
    if ops == [] then ([], q)
    else
      var (n, q', size') := QueueStep(q, size, ops[0]);
      var (ns, last) := RunQueue(q', size', ops[1..]);
      ([n] + ns, last)
  }

  /** Over every run that follows the protocol the ring answers as a queue does. */
  lemma {:induction false} RingRefinesQueue<T>(b: Ring<T>, ops: seq<Op<T>>)
    requires Wrapped(b) && AllowedRun(b, ops)
    ensures RunRing(b, ops) == RunQueue(Contents(b), |b.data|, ops)
    decreases |ops|
  {
    if ops != [] {
      StepRefinesQueue(b, ops[0]);
      RingRefinesQueue(RingStep(b, ops[0]).1, ops[1..]);
    }
  }
}
