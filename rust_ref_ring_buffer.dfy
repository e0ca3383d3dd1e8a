/**
 * The Rust shared::ref_ring_buffer::RefRingBuffer<T>: a view of buffer_size slots and two
 * usize counters, head (next slot to read) and tail (next slot to write), that only grow.
 * Slot i of the stream lives at index i % buffer_size.
 */
module RustRefRingBuffer {
  import opened Arith
  import opened RingWindow
  import opened Wrappers

  /** A std::sync::atomic::AtomicUsize; loads and stores are plain reads and writes. */
  class AtomicUsize {
    var value: nat

    constructor (v: nat)
      ensures value == v
    {
      value := v;
    }
  }

  class RefRingBuffer<T> {
    const head: AtomicUsize
    const tail: AtomicUsize
    const buffer: array<T>

    /** from_raw_parts: the view keeps the three references it is given. */
    constructor FromRawParts(head: AtomicUsize, tail: AtomicUsize, buffer: array<T>)
      ensures this.head == head && this.tail == tail && this.buffer == buffer
    {
      this.head, this.tail, this.buffer := head, tail, buffer;
    }

    function BufferSize(): nat
      reads this
    {
      buffer.Length
    }

    /** The invariant every operation relies on: head <= tail <= head + buffer_size. */
    ghost predicate Valid()
      reads this, head, tail
    {
      && head != tail
      && buffer.Length > 0
      && head.value <= tail.value <= head.value + buffer.Length
    }

    /** The values written and not yet read, oldest first. */
    ghost function Contents(): seq<T>
      reads this, head, tail, buffer
      requires Valid()
    {
      Window(buffer[..], buffer.Length, head.value % buffer.Length, tail.value - head.value)
    }

    /** Free slots from the tail to the end of the buffer, and in all. */
    ghost function WritableRun(): nat
      reads this, head, tail
      requires Valid()
    {
      Min(buffer.Length - (tail.value - head.value), buffer.Length - tail.value % buffer.Length)
    }

    /** Unread values from the head to the tail or to the buffer end, whichever comes first. */
    ghost function ReadableRun(): nat
      reads this, head, tail
      requires Valid()
    {
      Min(tail.value - head.value, buffer.Length - head.value % buffer.Length)
    }

    /**
     * The slice [start % bs, start % bs + (end - start)) that a chunk dereferences to; None
     * stands for the panic of a negative end - start or of a slice past the buffer end.
     */
    function ChunkSlice(start: nat, end: nat): (s: Option<seq<T>>)
      reads buffer
      requires buffer.Length > 0
      ensures s.Some? <==> start <= end && start % buffer.Length + (end - start) <= buffer.Length
      ensures s.Some? ==> |s.value| == end - start
      ensures s.Some? ==> forall i :: 0 <= i < |s.value| ==> s.value[i] == buffer[start % buffer.Length + i]
    {
      var lo := start % buffer.Length;
      if start <= end && lo + (end - start) <= buffer.Length then Some(buffer[lo..lo + (end - start)]) else None
    }

    /** A chunk that starts at the head and stays inside the readable run holds the oldest values. */
    lemma ChunkIsPrefix(end: nat)
      requires Valid() && head.value <= end <= tail.value
      requires head.value % buffer.Length + (end - head.value) <= buffer.Length
      ensures ChunkSlice(head.value, end) == Some(Contents()[..end - head.value])
    {
      ContiguousPrefix(buffer[..], buffer.Length, head.value % buffer.Length, tail.value - head.value, end - head.value);
    }

    /** ptr::copy_nonoverlapping of src into the slots from dst on. */
    method CopyNonoverlapping(src: seq<T>, dst: nat)
      requires dst + |src| <= buffer.Length
      modifies buffer
      ensures buffer[..] == old(buffer[..dst]) + src + old(buffer[dst + |src|..])
    {
      forall k | 0 <= k < |src| {
        buffer[dst + k] := src[k];
      }
      assert buffer[..] == old(buffer[..dst]) + src + old(buffer[dst + |src|..]);
    }

    /**
     * write: copies as many values as fit both in the free space and before the buffer end,
     * then publishes the tail. The copy never wraps, so the second branch cannot run.
     */
    method Write(data: seq<T>) returns (writeLen: nat)
      requires Valid()
      modifies tail, buffer
      ensures Valid()
      ensures writeLen == Min(|data|, old(WritableRun()))
      ensures head.value == old(head.value) && tail.value == old(tail.value) + writeLen
      ensures old(tail.value) % buffer.Length + writeLen <= buffer.Length
      ensures buffer[..] == old(buffer[..tail.value % buffer.Length]) + data[..writeLen]
                            + old(buffer[tail.value % buffer.Length + writeLen..])
      ensures Contents() == old(Contents()) + data[..writeLen]
    {
      var h, t := head.value, tail.value;
      var bufferSize := buffer.Length;
      var available := bufferSize - (t - h);
      var toEnd := bufferSize - t % bufferSize;
      available := if available > toEnd then toEnd else available;
      writeLen := Min(|data|, available);
      var start := t % bufferSize;
      if start + writeLen <= bufferSize {
        CopyAndPublish(data[..writeLen], start);
      } else {
        assert false;
      }
    }

    /** The copy of write into the slots from start = tail % bs, then the tail store. */
    method CopyAndPublish(src: seq<T>, start: nat)
      requires Valid() && start == tail.value % buffer.Length && start + |src| <= buffer.Length
      requires (tail.value - head.value) + |src| <= buffer.Length
      modifies tail, buffer
      ensures Valid()
      ensures head.value == old(head.value) && tail.value == old(tail.value) + |src|
      ensures buffer[..] == old(buffer[..tail.value % buffer.Length]) + src
                            + old(buffer[tail.value % buffer.Length + |src|..])
      ensures Contents() == old(Contents()) + src
    {
      ghost var before := buffer[..];
      ghost var oldContents := Contents();
      var h, t := head.value, tail.value;
      var bufferSize := buffer.Length;
      CopyNonoverlapping(src, start);
      tail.value := t + |src|;
      TailSlot(h, t, bufferSize);
      ContiguousSplice(before, start, src);
      WriteAtWindow(before, h % bufferSize, t - h, start, src);
      assert Contents() == Window(buffer[..], bufferSize, h % bufferSize, (t - h) + |src|);
      assert Contents() == oldContents + src;
    }
  }
}
