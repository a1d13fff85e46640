/**
 * A single-producer, single-consumer byte queue, declared for pushes from an interrupt
 * handler and pops from a task (no code in the firmware instantiates it): a fixed
 * array of 512 bytes used circularly, with a write index `head` and a read index
 * `tail`. One slot always stays free, so `head == tail` means empty and the buffer
 * holds at most 511 bytes.
 */
module RingBuffers {
  import opened Bytes

  /** RING_BUFFER_SIZE. */
  const Size: nat := 512

  /** The most bytes the buffer can hold: one slot stays free to tell full from empty. */
  const Capacity: nat := Size - 1

  class RingBuffer {
    const buffer: array<byte>
    var head: nat
    var tail: nat

    /** The storage has its fixed size and both indices point into it. */
    ghost predicate Valid()
      reads this
    {
      buffer.Length == Size && head < Size && tail < Size
    }

    /** How many bytes are queued: the distance from `tail` forward to `head`. */
    ghost function Count(): (n: nat)
      reads this
      requires Valid()
      ensures n <= Capacity
      ensures n == 0 <==> head == tail
      ensures (tail + n) % Size == head
    {
      if tail <= head then head - tail else head + Size - tail
    }

    /** The array slot holding the `k`-th oldest byte. */
    ghost function Slot(k: nat): (i: nat)
      reads this
      requires Valid() && k < Size
      ensures i < Size && i == (tail + k) % Size
    {
      if tail + k < Size then tail + k else tail + k - Size
    }

    /** The queued bytes, oldest first. */
    ghost function Contents(): (c: seq<byte>)
      reads this, buffer
      requires Valid()
      ensures |c| == Count() <= Capacity
      ensures forall k :: 0 <= k < |c| ==> c[k] == buffer[Slot(k)]
    {
      seq(Count(), k requires Valid() && 0 <= k < Count() reads this, buffer => buffer[Slot(k)])
    }

    /** A new buffer is empty, with both indices at 0. */
    constructor ()
      ensures Valid() && fresh(buffer)
      ensures head == 0 && tail == 0
      ensures Contents() == []
    {
      buffer := new byte[Size];
      head, tail := 0, 0;
    }

    /**
     * Append `b`. A full buffer refuses it and changes nothing; otherwise `b` is
     * written at `head`, `head` advances modulo the size, and `b` joins the back.
     */
    method Push(b: byte) returns (ok: bool)
      requires Valid()
      modifies this, buffer
      ensures Valid()
      ensures ok <==> |old(Contents())| < Capacity
      ensures ok ==> Contents() == old(Contents()) + [b] && head == (old(head) + 1) % Size
      ensures !ok ==> head == old(head) && buffer[..] == old(buffer[..])
      ensures tail == old(tail)
    {
      var next := (head + 1) % Size;
      if next == tail {
        return false;
      }
      ghost var before := Contents();
      buffer[head] := b;
      head := next;
      ok := true;
      forall k | 0 <= k < |before|
        ensures Contents()[k] == before[k]
      {
        assert Slot(k) != old(head);
      }
      assert Contents() == before + [b];
    }

    /**
     * Remove the oldest byte. An empty buffer yields nothing and changes nothing;
     * otherwise the byte at `tail` comes out and `tail` advances modulo the size.
     */
    method Pop() returns (ok: bool, b: byte)
      requires Valid()
      modifies this
      ensures Valid()
      ensures ok <==> old(Contents()) != []
      ensures ok ==> b == old(Contents())[0] && Contents() == old(Contents())[1..]
      ensures ok ==> tail == (old(tail) + 1) % Size
      ensures !ok ==> tail == old(tail)
      ensures head == old(head)
    {
      if head == tail {
        return false, 0;
      }
      ghost var before := Contents();
      b := buffer[tail];
      tail := (tail + 1) % Size;
      ok := true;
      assert Contents() == before[1..];
    }

    /** The buffer is empty exactly when the two indices meet. */
    function IsEmpty(): (r: bool)
      reads this, buffer
      requires Valid()
      ensures r <==> Contents() == []
    {
      head == tail
    }

    /** Discard everything queued by resetting both indices. */
    method Clear()
      requires Valid()
      modifies this
      ensures Valid()
      ensures head == 0 && tail == 0
      ensures Contents() == []
    {
      head, tail := 0, 0;
    }
  }
}
