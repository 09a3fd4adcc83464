/** Unsigned 8-bit numbers. */
module Bytes {
  type Byte = b: int | 0 <= b < 256
}

/** Bounded buffers of bytes as values. */
module Buffers {
  import opened Bytes

  datatype Option<T> = None | Some(value: T)

  /** A byte buffer with room for a given number of bytes. */
  datatype Buffer = Buffer(bytes: seq<Byte>, capacity: nat) {
    predicate Valid() {
      |bytes| <= capacity
    }

    function Put(b: Byte): Buffer {
      if |bytes| < capacity then Buffer(bytes + [b], capacity) else this
    }

    function Room(): int {
      capacity - |bytes|
    }

    function Cleared(): Buffer {
      Buffer([], capacity)
    }
  }
}

/** The abstract view of the ring buffer: a bounded first-in first-out queue that can drop back to a marked length. */
module Fifo {
  import opened Bytes

  datatype Mark = Unmarked | Marked(length: nat)

  datatype Fifo = Fifo(items: seq<Byte>, capacity: nat, mark: Mark) {
    predicate Valid() {
      |items| <= capacity && (mark.Marked? ==> mark.length <= |items|)
    }
  }

  datatype Op = Write(b: Byte) | Read | MarkWrite | ResetWrite | Flush | Clear

  function Put(q: Fifo, b: Byte): Fifo {
    if |q.items| < q.capacity then q.(items := q.items + [b]) else q
  }

  function Step(q: Fifo, op: Op): (r: Fifo)
    requires q.Valid()
    ensures r.Valid() && r.capacity == q.capacity
  {
    match op
    case Write(b) => Put(q, b)
    case Read => Fifo(if q.items == [] then [] else q.items[1..], q.capacity, Unmarked)
    case MarkWrite => q.(mark := Marked(|q.items|))
    case ResetWrite => if q.mark.Marked? then Fifo(q.items[..q.mark.length], q.capacity, Unmarked) else q
    case Flush => q.(mark := Unmarked)
    case Clear => Fifo([], q.capacity, Unmarked)
  }

  function Run(q: Fifo, ops: seq<Op>): (r: Fifo)
    requires q.Valid()
    ensures r.Valid() && r.capacity == q.capacity
    decreases |ops|
  {
    if ops == [] then q else Run(Step(q, ops[0]), ops[1..])
  }

  /** The bytes a run hands to its reader. */
  function ReadBy(q: Fifo, ops: seq<Op>): seq<Byte>
    requires q.Valid()
    decreases |ops|
  {
    if ops == [] then []
    else (if ops[0].Read? && q.items != [] then [q.items[0]] else []) + ReadBy(Step(q, ops[0]), ops[1..])
  }

  /** The bytes a run accepts: those written while there was room. */
  function AcceptedBy(q: Fifo, ops: seq<Op>): seq<Byte>
    requires q.Valid()
    decreases |ops|
  {
    if ops == [] then []
    else (if ops[0].Write? && |q.items| < q.capacity then [ops[0].b] else []) + AcceptedBy(Step(q, ops[0]), ops[1..])
  }

  lemma StepConserves(q: Fifo, op: Op, read: seq<Byte>, accepted: seq<Byte>, rest: seq<Byte>)
    requires q.Valid() && !op.ResetWrite? && !op.Clear?
    requires Step(q, op).items + accepted == read + rest
    ensures q.items + ((if op.Write? && |q.items| < q.capacity then [op.b] else []) + accepted)
            == (if op.Read? && q.items != [] then [q.items[0]] else []) + read + rest
  {
    if op.Write? && |q.items| < q.capacity {
      assert q.items + ([op.b] + accepted) == q.items + [op.b] + accepted;
    } else {
      assert q.items + ([] + accepted) == q.items + accepted;
      if op.Read? && q.items != [] {
        assert q.items + accepted == [q.items[0]] + (q.items[1..] + accepted);
        assert [q.items[0]] + (read + rest) == [q.items[0]] + read + rest;
      } else {
        assert [] + read + rest == read + rest;
      }
    }
  }

  /** Without a reset or a clear nothing is lost, duplicated or reordered. */
  lemma {:induction false} Conservation(q: Fifo, ops: seq<Op>)
    requires q.Valid() && ResetWrite !in ops && Clear !in ops
    ensures q.items + AcceptedBy(q, ops) == ReadBy(q, ops) + Run(q, ops).items
    decreases |ops|
  {
    if ops != [] {
      var next, tail := Step(q, ops[0]), ops[1..];
      Conservation(next, tail);
      StepConserves(q, ops[0], ReadBy(next, tail), AcceptedBy(next, tail), Run(next, tail).items);
    }
  }

  lemma {:induction false} WritesKeepMarked(q: Fifo, writes: seq<Op>)
    requires q.Valid() && q.mark.Marked? && (forall op :: op in writes ==> op.Write?)
    ensures Run(q, writes).mark == q.mark && q.items <= Run(q, writes).items
    decreases |writes|
  {
    if writes != [] {
      WritesKeepMarked(Step(q, writes[0]), writes[1..]);
    }
  }

  lemma {:induction false} RunAppend(q: Fifo, a: seq<Op>, b: seq<Op>)
    requires q.Valid()
    ensures Run(q, a + b) == Run(Run(q, a), b)
    decreases |a|
  {
    if a == [] {
      assert a + b == b;
    } else {
      assert (a + b)[1..] == a[1..] + b;
      RunAppend(Step(q, a[0]), a[1..], b);
    }
  }

  /** Resetting after any writes restores exactly what was there when the mark was set. */
  lemma ResetUndoesWrites(q: Fifo, writes: seq<Op>)
    requires q.Valid() && (forall op :: op in writes ==> op.Write?)
    ensures Run(q, [MarkWrite] + writes + [ResetWrite]) == q.(mark := Unmarked)
  {
    RunAppend(q, [MarkWrite] + writes, [ResetWrite]);
    RunAppend(q, [MarkWrite], writes);
    var marked := Run(q, [MarkWrite]);
    assert marked == Step(q, MarkWrite);
    WritesKeepMarked(marked, writes);
    var written := Run(marked, writes);
    assert Run(written, [ResetWrite]) == Step(written, ResetWrite);
  }
}

/** The ring buffer over a byte array. */
module RingBuffer {
  import opened Bytes
  import opened Buffers
  import opened Fifo

  const MAX_SIZE: nat := 32766

  /** What reading or peeking at an empty buffer returns. */
  const NOTHING: int := -1

  /** The position n places after i in a ring of the given size. */
  function Ahead(size: nat, i: nat, n: nat): nat {
    if i + n < size then i + n else i + n - size
  }

  /** The count bytes that start at tail and wrap around. */
  function Ring(store: seq<Byte>, size: nat, tail: nat, count: nat): (s: seq<Byte>)
    requires count <= size <= |store| && (size > 0 ==> tail < size)
    ensures |s| == count
  {
    seq(count, i requires 0 <= i < count => store[Ahead(size, tail, i)])
  }

  lemma RingWithoutFirst(store: seq<Byte>, size: nat, tail: nat, count: nat)
    requires 0 < count <= size <= |store| && tail < size
    ensures Ring(store, size, tail, count)[0] == store[tail]
    ensures Ring(store, size, Ahead(size, tail, 1), count - 1) == Ring(store, size, tail, count)[1..]
  {
  }

  lemma RingWithOneMore(store: seq<Byte>, size: nat, tail: nat, count: nat, b: Byte)
    requires count < size <= |store| && tail < size
    ensures Ring(store[Ahead(size, tail, count) := b], size, tail, count + 1) == Ring(store, size, tail, count) + [b]
  {
  }

  lemma RingPrefix(store: seq<Byte>, size: nat, tail: nat, count: nat, n: nat)
    requires n <= count <= size <= |store| && (size > 0 ==> tail < size)
    ensures Ring(store, size, tail, n) == Ring(store, size, tail, count)[..n]
  {
  }

  class PfodRingBuffer {
    const buf: array<Byte>
    const bufSize: nat
    var bufferHead: nat
    var bufferTail: nat
    var bufferCount: nat
    var writeMark: nat
    var writeMarkCount: nat
    var isWriteMarked: bool

    ghost predicate Valid()
      reads this
    {
      bufSize <= MAX_SIZE && bufSize <= buf.Length && bufferCount <= bufSize &&
      (bufSize == 0 ==> bufferHead == bufferTail == 0) &&
      (bufSize > 0 ==> bufferTail < bufSize && bufferHead == Ahead(bufSize, bufferTail, bufferCount)) &&
      (isWriteMarked ==>
        writeMarkCount <= bufferCount && (bufSize == 0 ==> writeMark == 0) &&
        (bufSize > 0 ==> writeMark == Ahead(bufSize, bufferTail, writeMarkCount)))
    }

    ghost function Contents(): (s: seq<Byte>)
      requires Valid()
      reads this, buf
      ensures |s| == bufferCount
    {
      Ring(buf[..], bufSize, bufferTail, bufferCount)
    }

    ghost function View(): (q: Fifo)
      requires Valid()
      reads this, buf
      ensures q.Valid()
    {
      Fifo(Contents(), bufSize, if isWriteMarked then Marked(writeMarkCount) else Unmarked)
    }

    constructor (storage: array<Byte>, size: nat)
      requires size <= storage.Length
      ensures Valid() && buf == storage
      ensures View() == Fifo([], if size >= MAX_SIZE then MAX_SIZE else size, Unmarked)
      ensures Contents() == []
    {
      buf := storage;
      bufSize := if size >= MAX_SIZE then MAX_SIZE else size;
      bufferHead, bufferTail, bufferCount := 0, 0, 0;
      writeMark, writeMarkCount, isWriteMarked := 0, 0, false;
    }

    method Clear()
      requires Valid()
      modifies this
      ensures Valid() && View() == Step(old(View()), Op.Clear)
      ensures Contents() == []
    {
      bufferHead := 0;
      bufferTail := bufferHead;
      bufferCount := 0;
      isWriteMarked := false;
    }

    method MarkWrite()
      requires Valid()
      modifies this
      ensures Valid() && View() == Step(old(View()), Op.MarkWrite)
    {
      writeMark := bufferHead;
      writeMarkCount := bufferCount;
      isWriteMarked := true;
    }

    method ResetWrite()
      requires Valid()
      modifies this
      ensures Valid() && View() == Step(old(View()), Op.ResetWrite)
    {
      if isWriteMarked {
        bufferHead := writeMark;
        RingPrefix(buf[..], bufSize, bufferTail, bufferCount, writeMarkCount);
        bufferCount := writeMarkCount;
        isWriteMarked := false;
      }
    }

    method Flush()
      requires Valid()
      modifies this
      ensures Valid() && View() == Step(old(View()), Op.Flush)
    {
      isWriteMarked := false;
    }

    function Available(): (n: nat)
      requires Valid()
      reads this, buf
      ensures n == |Contents()|
    {
      bufferCount
    }

    function AvailableForWrite(): (n: nat)
      requires Valid()
      reads this, buf
      ensures |Contents()| + n == bufSize
    {
      if bufSize == 0 then 0 else bufSize - bufferCount
    }

    function Peek(): (b: int)
      requires Valid()
      reads this, buf
      ensures b == if Contents() == [] then NOTHING else Contents()[0]
    {
      if bufferCount == 0 then NOTHING else buf[bufferTail]
    }

    method WrapBufferIdx(idx: nat) returns (next: nat)
      requires idx < bufSize
      ensures next == Ahead(bufSize, idx, 1)
    {
      if idx >= bufSize - 1 {
        next := 0;
      } else {
        next := idx + 1;
      }
    }

    method Read() returns (b: int)
      requires Valid()
      modifies this
      ensures Valid() && View() == Step(old(View()), Op.Read)
      ensures Contents() == if old(Contents()) == [] then [] else old(Contents())[1..]
      ensures b == if old(Contents()) == [] then NOTHING else old(Contents())[0]
    {
      isWriteMarked := false;
      if bufferCount == 0 {
        return NOTHING;
      }
      RingWithoutFirst(buf[..], bufSize, bufferTail, bufferCount);
      b := buf[bufferTail];
      bufferTail := WrapBufferIdx(bufferTail);
      bufferCount := bufferCount - 1;
    }

    method Write(b: Byte) returns (written: nat)
      requires Valid()
      modifies this, buf
      ensures Valid() && View() == Step(old(View()), Op.Write(b))
      ensures Contents() == if old(|Contents()|) < bufSize then old(Contents()) + [b] else old(Contents())
      ensures written == |Contents()| - old(|Contents()|)
    {
      if bufSize == 0 {
        return 0;
      }
      if bufferCount >= bufSize {
        bufferCount := bufSize;
        return 0;
      }
      RingWithOneMore(buf[..], bufSize, bufferTail, bufferCount, b);
      buf[bufferHead] := b;
      bufferHead := WrapBufferIdx(bufferHead);
      bufferCount := bufferCount + 1;
      return 1;
    }

    /** As many of the bytes as fit; the rest is dropped. */
    method WriteAll(bytes: seq<Byte>) returns (written: nat)
      requires Valid()
      modifies this, buf
      ensures Valid()
      ensures written <= |bytes| && Contents() == old(Contents()) + bytes[..written]
      ensures written == |bytes| || |Contents()| == bufSize
    {
      var size := |bytes|;
      var room := AvailableForWrite();
      if size > room {
        size := room;
      }
      written := 0;
      for i := 0 to size
        invariant Valid() && written == i
        invariant Contents() == old(Contents()) + bytes[..i]
      {
        var n := Write(bytes[i]);
        assert bytes[..i] + [bytes[i]] == bytes[..i + 1];
        written := written + n;
      }
    }

    /** Emits the contents and leaves them in place. */
    method CopyTo() returns (output: seq<Byte>)
      requires Valid()
      ensures output == Contents()
    {
      output := [];
      if bufferCount == 0 {
        return;
      }
      var tail := bufferTail;
      var byteCount := bufferCount;
      while byteCount > 0
        invariant 0 <= byteCount <= bufferCount
        invariant tail == Ahead(bufSize, bufferTail, bufferCount - byteCount) && tail < bufSize
        invariant output == Contents()[..bufferCount - byteCount]
      {
        output := output + [buf[tail]];
        tail := WrapBufferIdx(tail);
        byteCount := byteCount - 1;
      }
    }
  }

  /** A ring buffer as the bytes it holds. */
  ghost function BufferOf(b: PfodRingBuffer): Buffer
    requires b.Valid()
    reads b, b.buf
  {
    Buffer(b.Contents(), b.bufSize)
  }
}
