/**
 * The older zero-copy read path of shared::ref_ring_buffer: RefRingBuffer::read hands out a
 * RingBufferReader over the longest contiguous run of unread values, and dropping the reader
 * publishes its end as the new head.
 */
module RustReader {
  import opened Arith
  import opened Wrappers
  import opened RingWindow
  import opened RustRefRingBuffer

  /** A reader over the stream positions [start, end). */
  datatype RingBufferReader<T> = RingBufferReader(ring: RefRingBuffer<T>, start: nat, end: nat)
  {
    /**
     * deref as written: the slots [start % bs, end % bs), except that an end that is a
     * nonzero multiple of bs stands for the buffer end. None is a slice panic.
     */
    function Deref(): (s: Option<seq<T>>)
      reads ring.buffer
      requires ring.buffer.Length > 0
      ensures s.Some? ==> |s.value| == (if end > 0 && end % ring.buffer.Length == 0 then ring.buffer.Length
                                        else end % ring.buffer.Length) - start % ring.buffer.Length
      ensures s.Some? ==> forall i :: 0 <= i < |s.value| ==> s.value[i] == ring.buffer[start % ring.buffer.Length + i]
      ensures s.None? <==> (!(end > 0 && end % ring.buffer.Length == 0) && end % ring.buffer.Length < start % ring.buffer.Length)
    {
      var bs := ring.buffer.Length;
      var lo, hi := start % bs, end % bs;
      if end > 0 && hi == 0 then Some(ring.buffer[lo..])
      else if lo <= hi then Some(ring.buffer[lo..hi])
      else None
    }

    /** Drop: stores end into the head. */
    method Drop()
      modifies ring.head
      ensures ring.head.value == end
      ensures old(ring.Valid()) && old(ring.head.value) <= end <= old(ring.tail.value) ==>
                && ring.Valid()
                && ring.tail.value == old(ring.tail.value)
                && ring.Contents() == old(ring.Contents())[end - old(ring.head.value)..]
    {
      ghost var h, t := ring.head.value, ring.tail.value;
      ring.head.value := end;
      if ring.head != ring.tail && ring.buffer.Length > 0 && h <= end <= t <= h + ring.buffer.Length {
        ConsumeWindow(ring.buffer[..], ring.buffer.Length, h, t, end);
      }
    }
  }

  /**
   * RefRingBuffer::read: a reader from the head over the unread values, cut at the buffer end
   * so that it never wraps. It changes nothing.
   */
  function Read<T>(rb: RefRingBuffer<T>): (r: RingBufferReader<T>)
    reads rb, rb.head, rb.tail
    requires rb.Valid()
    ensures r.ring == rb && r.start == rb.head.value && r.start <= r.end <= rb.tail.value
    ensures r.start % rb.buffer.Length + (r.end - r.start) <= rb.buffer.Length
    ensures r.end == rb.tail.value || r.start % rb.buffer.Length + (r.end - r.start) == rb.buffer.Length
  {
    var h, t := rb.head.value, rb.tail.value;
    var bufferSize := rb.BufferSize();
    var available := Min(t - h, bufferSize - h % bufferSize);
    RingBufferReader(rb, h, h + available)
  }

  /** A nonempty reader dereferences to the oldest end - start unread values. */
  lemma ReadDeref<T>(rb: RefRingBuffer<T>)
    requires rb.Valid() && rb.head.value < rb.tail.value
    ensures Read(rb).Deref() == Some(rb.Contents()[..Read(rb).end - Read(rb).start])
  {
    var r := Read(rb);
    var bs := rb.buffer.Length;
    var lo, n := r.start % bs, r.end - r.start;
    EndSlot(r.start, n, bs);
    if lo + n == bs {
      assert r.end > 0 && r.end % bs == 0;
      assert r.Deref() == Some(rb.buffer[lo..]);
      assert rb.buffer[lo..] == rb.buffer[lo..lo + n];
    } else {
      assert r.Deref() == Some(rb.buffer[lo..lo + n]);
    }
    rb.ChunkIsPrefix(r.end);
    assert rb.ChunkSlice(r.start, r.end) == Some(rb.buffer[lo..lo + n]);
  }

  /**
   * With nothing to read and the head on a nonzero multiple of bs, the empty reader
   * dereferences to the whole buffer.
   */
  lemma EmptyReadDerefsToBuffer<T>(rb: RefRingBuffer<T>)
    requires rb.Valid() && rb.head.value == rb.tail.value
    requires rb.head.value > 0 && rb.head.value % rb.buffer.Length == 0
    ensures Read(rb).start == Read(rb).end
    ensures Read(rb).Deref() == Some(rb.buffer[..]) && |Read(rb).Deref().value| == rb.buffer.Length > 0
  {}

  /** (start + n) % bs for a run of n > 0 slots from start % bs that ends at or before the buffer end. */
  lemma EndSlot(start: nat, n: nat, bs: nat)
    requires bs > 0 && 0 < n && start % bs + n <= bs
    ensures start + n > 0
    ensures (start + n) % bs == 0 <==> start % bs + n == bs
    ensures start % bs + n < bs ==> (start + n) % bs == start % bs + n
  {
    var lo := start % bs;
    ModOfMod(start, n, bs);
    if lo + n < bs {
      ModUnique(lo + n, 0, lo + n, bs);
    } else {
      ModUnique(lo + n, 1, 0, bs);
    }
  }
}
