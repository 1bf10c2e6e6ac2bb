/** CircularBuffer (src/hpl_circular_buffer.h): a ring array with one slot kept free. */
module CircularBuffer {

  /** The fields of the class: the array's content, read_pos_ and write_pos_. */
  datatype Ring<T> = Ring(data: seq<T>, r: nat, w: nat)

  /** A position right behind the array is reachable for writing, never with reading at 0. */
  predicate Proper<T>(b: Ring<T>) {
    b.r < |b.data| && b.w <= |b.data| && (b.w == |b.data| ==> b.r > 0)
  }

  /** The bytes in reading order. */
  function Contents<T>(b: Ring<T>): seq<T>
    requires b.r < |b.data| && b.w <= |b.data|
  {
    if b.w < b.r then b.data[b.r..] + b.data[..b.w] else b.data[b.r..b.w]
  }

  function Capacity<T>(b: Ring<T>): int { |b.data| - 1 }

  function Length<T>(b: Ring<T>): int {
    if b.w == b.r then 0 else if b.w >= b.r then b.w - b.r else |b.data| - b.r + b.w
  }

  function FreeSpace<T>(b: Ring<T>): int { Capacity(b) - Length(b) }

  /** ContinuousWriteBuffer: the span starts at the write position. */
  function SpanLength<T>(b: Ring<T>): int {
    if b.w < b.r then b.r - b.w - 1 else |b.data| - b.w - (if b.r == 0 then 1 else 0)
  }

  datatype Whence = SeekSet | SeekCur | SeekEnd

  const SIZE_MODULUS: nat := 0x1_0000_0000_0000_0000

  /** size_t, of 64 bits. */
  type Size = n: nat | n < SIZE_MODULUS

  /** The position ResetWritePos asks for, in the arithmetic of size_t. */
  function NewWritePos<T>(b: Ring<T>, offset: Size, whence: Whence): nat {
    match whence
    case SeekSet => offset
    case SeekCur => (b.w + offset) % SIZE_MODULUS
    case SeekEnd => (|b.data| - offset) % SIZE_MODULUS
  }

  function Popout<T>(b: Ring<T>, len: nat): (nat, Ring<T>)
    requires |b.data| > 0
  {
    if len > Length(b) then (0, b) else (len, b.(r := (b.r + len) % |b.data|))
  }

  class CircularBuffer<T(0)> {
    var buffer: array<T>
    var readPos: nat
    var writePos: nat

    ghost function Abs(): Ring<T>
      reads this, buffer
    {
      Ring(buffer[..], readPos, writePos)
    }

    constructor (size: nat)
      requires size > 0
      ensures fresh(buffer) && buffer.Length == size
      ensures Abs().r == 0 && Abs().w == 0 && Proper(Abs()) && Contents(Abs()) == []
    {
      buffer := new T[size];
      readPos, writePos := 0, 0;
    }

    method GetLength() returns (n: nat)
      requires Proper(Abs())
      ensures n == Length(Abs()) == |Contents(Abs())|
    {
      if writePos == readPos {
        n := 0;
      } else if writePos >= readPos {
        n := writePos - readPos;
      } else {
        n := buffer.Length - readPos + writePos;
      }
    }

    method GetFreeSpace() returns (n: nat)
      requires Proper(Abs())
      ensures n == FreeSpace(Abs()) && |Contents(Abs())| + n == buffer.Length - 1
    {
      var used := GetLength();
      n := buffer.Length - 1 - used;
    }

    method ContinuousWriteBuffer() returns (start: nat, len: nat)
      requires Proper(Abs())
      ensures start == writePos && len == SpanLength(Abs()) && start + len <= buffer.Length
    {
      if writePos < readPos {
        return writePos, readPos - writePos - 1;
      } else {
        return writePos, buffer.Length - writePos - (if readPos == 0 then 1 else 0);
      }
    }

    /** No check against the size: the caller answers for the new position. */
    method ResetWritePos(offset: Size, whence: Whence)
      modifies `writePos
      ensures Abs() == old(Abs()).(w := NewWritePos(old(Abs()), offset, whence))
      ensures whence == SeekSet ==> writePos == offset
      ensures whence == SeekCur && old(writePos) + offset < SIZE_MODULUS ==> writePos == old(writePos) + offset
      ensures whence == SeekEnd && offset <= buffer.Length < SIZE_MODULUS ==> writePos == buffer.Length - offset
    {
      match whence
      case SeekSet => writePos := offset;
      case SeekCur => writePos := (writePos + offset) % SIZE_MODULUS;
      case SeekEnd => writePos := (buffer.Length - offset) % SIZE_MODULUS;
    }

    /** Two stretches (start, length); together they are the contents. */
    method GetReadViews() returns (first: (nat, nat), second: (nat, nat))
      requires Proper(Abs())
      ensures first.0 + first.1 <= buffer.Length && second.0 + second.1 <= buffer.Length
      ensures buffer[first.0..first.0 + first.1] + buffer[second.0..second.0 + second.1] == Contents(Abs())
    {
      if writePos < readPos {
        first, second := (readPos, buffer.Length - readPos), (0, writePos);
      } else {
        first, second := (readPos, writePos - readPos), (0, 0);
      }
    }

    method PopoutBytes(len: nat) returns (n: nat)
      requires Proper(Abs())
      modifies `readPos
      ensures (n, Abs()) == Popout(old(Abs()), len)
    {
      var used := GetLength();
      if len > used {
        return 0;
      }
      readPos := (readPos + len) % buffer.Length;
      n := len;
    }

    /** memcpy into a fresh array. */
    static method Copy(dst: array<T>, at: nat, src: array<T>, from: nat, len: nat)
      requires dst != src && at + len <= dst.Length && from + len <= src.Length
      modifies dst
      ensures dst[..] == old(dst[..at]) + src[from..from + len] + old(dst[at + len..])
    {
      for i := 0 to len
        invariant dst[..] == old(dst[..at]) + src[from..from + i] + old(dst[at + i..])
      {
        dst[at + i] := src[from + i];
      }
    }

    /** The copying of Extend: the contents, in order, to the front of dst. */
    static method CopyOut(dst: array<T>, src: array<T>, r: nat, w: nat, dataLen: nat)
      requires dst != src && src.Length < dst.Length
      requires var b := Ring(src[..], r, w); Proper(b) && dataLen == |Contents(b)| > 0
      modifies dst
      ensures dst[..dataLen] == Contents(Ring(src[..], r, w))
    {
      if r < w {
        Copy(dst, 0, src, r, dataLen);
      } else {
        Copy(dst, 0, src, r, src.Length - r);
        ghost var front := dst[..src.Length - r];
        Copy(dst, src.Length - r, src, 0, w);
        assert dst[..dataLen] == front + src[..w];
      }
    }

    /** Grows the array, if malloc grants it, and moves the bytes to its front. */
    method Extend(newSize: nat, granted: bool) returns (ok: bool)
      requires Proper(Abs())
      modifies this
      ensures ok == (newSize > old(buffer.Length) && granted)
      ensures !ok ==> Abs() == old(Abs()) && buffer == old(buffer)
      ensures ok ==> fresh(buffer) && buffer.Length == newSize && readPos == 0
                     && Proper(Abs()) && Contents(Abs()) == old(Contents(Abs()))
    {
      if newSize <= buffer.Length {
        return false;
      }
      if !granted {
        return false;
      }
      var newBuffer := new T[newSize];
      var dataLen := GetLength();
      if dataLen > 0 {
        CopyOut(newBuffer, buffer, readPos, writePos, dataLen);
      }
      buffer := newBuffer;
      readPos := 0;
      writePos := dataLen;
      ok := true;
    }

    /** memcpy into the span. */
    method Store(bytes: seq<T>)
      requires writePos + |bytes| <= buffer.Length
      modifies buffer
      ensures buffer[..] == old(buffer[..writePos]) + bytes + old(buffer[writePos + |bytes|..])
    {
      for i := 0 to |bytes|
        invariant buffer[..] == old(buffer[..writePos]) + bytes[..i] + old(buffer[writePos + i..])
      {
        buffer[writePos + i] := bytes[i];
      }
    }

    /** One round of the client: fill the span, advance, and wrap on reaching the end. */
    method FillSpan(bytes: seq<T>)
      requires Proper(Abs()) && |bytes| <= SpanLength(Abs()) && buffer.Length < SIZE_MODULUS
      modifies this, buffer
      ensures buffer == old(buffer) && Abs() == Fill(old(Abs()), bytes)
    {
      InSize(writePos + |bytes|, buffer.Length);
      Store(bytes);
      ResetWritePos(|bytes|, SeekCur);
      if writePos == buffer.Length {
        ResetWritePos(0, SeekSet);
      }
    }
  }

  lemma InSize(n: nat, size: nat)
    requires n <= size < SIZE_MODULUS
    ensures n % SIZE_MODULUS == n
  {
  }

  /** What one client round makes of the ring. */
  function Fill<T>(b: Ring<T>, bytes: seq<T>): Ring<T>
    requires Proper(b) && |bytes| <= SpanLength(b)
  {
    var w := b.w + |bytes|;
    Ring(b.data[..b.w] + bytes + b.data[w..], b.r, if w == |b.data| then 0 else w)
  }
}
