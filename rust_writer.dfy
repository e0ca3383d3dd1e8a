/**
 * The older zero-copy write path of shared::ref_ring_buffer: RingBufferWriter::try_reserve
 * hands out a writer over free slots, deref returns them, and dropping the writer publishes
 * the new tail. The writer keeps limit as an absolute stream position (tail + requested)
 * and then adds offset to it once more in deref and in Drop; the model keeps that.
 */
module RustWriter {
  import opened Arith
  import opened Wrappers
  import opened RustRefRingBuffer

  /** A writer with the fields offset and limit exactly as try_reserve fills them. */
  datatype RingBufferWriter<T> = RingBufferWriter(ring: RefRingBuffer<T>, offset: nat, limit: nat)
  {
    /**
     * deref (and deref_mut, which computes the same bounds) as written: the slots
     * [offset % bs, (offset + limit) % bs), or [offset % bs, bs) when offset > 0 and that end
     * is 0. None is a slice panic.
     */
    function Deref(): (s: Option<seq<T>>)
      reads ring.buffer
      requires ring.buffer.Length > 0
      ensures s.Some? ==> |s.value| == (if offset > 0 && (offset + limit) % ring.buffer.Length == 0 then ring.buffer.Length
                                        else (offset + limit) % ring.buffer.Length) - offset % ring.buffer.Length
      ensures s.Some? ==> forall i :: 0 <= i < |s.value| ==> s.value[i] == ring.buffer[offset % ring.buffer.Length + i]
      ensures s.None? <==> (!(offset > 0 && (offset + limit) % ring.buffer.Length == 0)
                            && (offset + limit) % ring.buffer.Length < offset % ring.buffer.Length)
    {
      var bs := ring.buffer.Length;
      var start := offset % bs;
      var end := (offset + limit) % bs;
      if offset > 0 && end == 0 then Some(ring.buffer[start..])
      else if start <= end then Some(ring.buffer[start..end])
      else None
    }

    /** Drop: stores offset + limit into the tail and touches nothing else. */
    method Drop()
      modifies ring.tail
      ensures ring.tail.value == offset + limit
    {
      ring.tail.value := offset + limit;
    }
  }

  /**
   * RingBufferWriter::try_reserve: None when fewer than limit slots are free before the
   * buffer end; otherwise a writer with offset = tail and limit = tail + limit.
   */
  function TryReserve<T>(rb: RefRingBuffer<T>, limit: nat): (r: Option<RingBufferWriter<T>>)
    reads rb, rb.head, rb.tail
    requires rb.Valid()
    ensures r.None? <==> limit > rb.buffer.Length - (rb.tail.value - rb.head.value)
                         || limit > rb.buffer.Length - rb.tail.value % rb.buffer.Length
    ensures r.Some? ==> r.value.ring == rb && r.value.offset == rb.tail.value
    ensures r.Some? ==> r.value.limit - r.value.offset == limit
  {
    var h, t := rb.head.value, rb.tail.value;
    var bufferSize := rb.BufferSize();
    var free := bufferSize - (t - h);
    var toEnd := bufferSize - t % bufferSize;
    var available := if free > toEnd then toEnd else free;
    if available < limit then None else Some(RingBufferWriter(rb, t, t + limit))
  }

  /**
   * For a successful reservation of len > 0 slots, deref exposes len slots exactly when the
   * tail is at the buffer start, and at stream position 0 only when len < bs. Every other
   * reservation panics or exposes the wrong number of slots, because offset is counted twice.
   */
  lemma DerefMatchesReservation<T>(rb: RefRingBuffer<T>, len: nat)
    requires rb.Valid() && len > 0 && TryReserve(rb, len).Some?
    ensures var d := TryReserve(rb, len).value.Deref();
            (d.Some? && |d.value| == len)
            <==> (rb.tail.value % rb.buffer.Length == 0 && (rb.tail.value > 0 || len < rb.buffer.Length))
  {
    var bs, t := rb.buffer.Length, rb.tail.value;
    var w := TryReserve(rb, len).value;
    assert w.offset == t && w.limit == t + len;
    DoubledEnd(t, len, bs);
  }

  /** The end deref computes, (t + (t + len)) % bs, for a run of len slots from t % bs. */
  lemma DoubledEnd(t: nat, len: nat, bs: nat)
    requires bs > 0 && t % bs + len <= bs
    ensures (t + (t + len)) % bs == if 2 * (t % bs) + len < bs then 2 * (t % bs) + len else 2 * (t % bs) + len - bs
  {
    var lo := t % bs;
    DivMod(t, bs);
    assert t + (t + len) == (lo + lo + len) + bs * (2 * (t / bs));
    ModShift(lo + lo + len, 2 * (t / bs), bs);
    if lo + lo + len < bs {
      ModUnique(lo + lo + len, 0, lo + lo + len, bs);
    } else {
      ModUnique(lo + lo + len, 1, lo + lo + len - bs, bs);
    }
  }

  /**
   * With head = tail = 4 on 4 slots, a writer reserved for one value publishes tail 9 on
   * Drop, five past the head and so beyond head + bs.
   */
  lemma DropOvershootsTail<T>(rb: RefRingBuffer<T>)
    requires rb.Valid() && rb.buffer.Length == 4 && rb.head.value == 4 && rb.tail.value == 4
    ensures TryReserve(rb, 1).Some?
    ensures TryReserve(rb, 1).value.offset + TryReserve(rb, 1).value.limit == 9
    ensures TryReserve(rb, 1).value.offset + TryReserve(rb, 1).value.limit > rb.head.value + rb.buffer.Length
  {}

  /** The same reservation, followed by Drop, leaves the ring broken. */
  method ReserveAndDrop<T>(rb: RefRingBuffer<T>) returns (w: RingBufferWriter<T>)
    requires rb.Valid() && rb.buffer.Length == 4 && rb.head.value == 4 && rb.tail.value == 4
    modifies rb.tail
    ensures w.ring == rb && !rb.Valid()
  {
    DropOvershootsTail(rb);
    w := TryReserve(rb, 1).value;
    w.Drop();
  }

  /** With head = tail = 5 on 8 slots, dereferencing a writer reserved for one value panics. */
  lemma DerefPanicsPastStart<T>(rb: RefRingBuffer<T>)
    requires rb.Valid() && rb.buffer.Length == 8 && rb.head.value == 5 && rb.tail.value == 5
    ensures TryReserve(rb, 1).Some? && TryReserve(rb, 1).value.Deref().None?
  {
    var w := TryReserve(rb, 1).value;
    assert w.offset == 5 && w.limit == 6;
    assert (w.offset + w.limit) % 8 == 3;
  }

  /** With head = tail = 0, a writer reserved for the whole buffer dereferences to no slots. */
  lemma WholeBufferDerefsEmpty<T>(rb: RefRingBuffer<T>)
    requires rb.Valid() && rb.head.value == 0 && rb.tail.value == 0
    ensures TryReserve(rb, rb.buffer.Length).Some?
    ensures TryReserve(rb, rb.buffer.Length).value.Deref() == Some([])
  {
    var w := TryReserve(rb, rb.buffer.Length).value;
    assert (w.offset + w.limit) % rb.buffer.Length == 0 by {
      ModUnique(rb.buffer.Length, 1, 0, rb.buffer.Length);
    }
  }
}
