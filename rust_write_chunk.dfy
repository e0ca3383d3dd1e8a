/**
 * shared::ref_ring_buffer::writer_chunk: a reservation of contiguous free slots
 * [start, end) that the producer fills through deref_mut and publishes with commit.
 */
module RustWriteChunk {
  import opened Arith
  import opened Wrappers
  import opened RustRefRingBuffer

  datatype WriteChunk<T> = WriteChunk(ring: RefRingBuffer<T>, start: nat, end: nat)
  {
    /** deref: the end - start slots from start % bs; None is a slice panic. */
    function Deref(): (s: Option<seq<T>>)
      reads ring.buffer
      requires ring.buffer.Length > 0
      ensures s.Some? <==> start <= end && start % ring.buffer.Length + (end - start) <= ring.buffer.Length
      ensures s.Some? ==> |s.value| == end - start
      ensures s.Some? ==> forall i :: 0 <= i < |s.value| ==> s.value[i] == ring.buffer[start % ring.buffer.Length + i]
    {
      ring.ChunkSlice(start, end)
    }

    /**
     * deref_mut, followed by storing data into every slot of the slice it returns: slots
     * start % bs onwards hold data afterwards and no other slot changes.
     */
    method DerefMutWrite(data: seq<T>)
      requires ring.buffer.Length > 0 && Deref().Some? && |data| == end - start
      modifies ring.buffer
      ensures Deref() == Some(data)
      ensures ring.buffer[..] == old(ring.buffer[..start % ring.buffer.Length]) + data
                                  + old(ring.buffer[start % ring.buffer.Length + |data|..])
    {
      ring.CopyNonoverlapping(data, start % ring.buffer.Length);
      assert ring.ChunkSlice(start, end).value == data;
    }

    /** commit: stores end into the tail and touches nothing else. */
    method Commit()
      modifies ring.tail
      ensures ring.tail.value == end
    {
      ring.tail.value := end;
    }
  }

  /**
   * WriteChunk::try_reserve: None exactly when fewer than size slots are free before the
   * buffer end; otherwise the chunk [tail, tail + size). Nothing is changed.
   */
  function TryReserve<T>(rb: RefRingBuffer<T>, size: nat): (r: Option<WriteChunk<T>>)
    reads rb, rb.head, rb.tail
    requires rb.Valid()
    ensures r.None? <==> rb.WritableRun() < size
    ensures r.Some? ==> r.value == WriteChunk(rb, rb.tail.value, rb.tail.value + size)
    ensures r.Some? ==> (rb.tail.value - rb.head.value) + size <= rb.buffer.Length
    ensures r.Some? ==> rb.tail.value % rb.buffer.Length + size <= rb.buffer.Length
  {
    var h, t := rb.head.value, rb.tail.value;
    var bufferSize := rb.BufferSize();
    var free := bufferSize - (t - h);
    var toEnd := bufferSize - t % bufferSize;
    var available := Min(free, toEnd);
    if available < size then None else Some(WriteChunk(rb, t, t + size))
  }

  /** A successful reservation of size slots dereferences to exactly size slots. */
  lemma ReservedLength<T>(rb: RefRingBuffer<T>, size: nat)
    requires rb.Valid() && TryReserve(rb, size).Some?
    ensures TryReserve(rb, size).value.Deref().Some?
    ensures |TryReserve(rb, size).value.Deref().value| == size
  {}
}
