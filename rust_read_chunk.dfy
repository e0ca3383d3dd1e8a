/**
 * shared::ref_ring_buffer::reader_chunk: a run [start, end) of unread values that the
 * consumer looks at through deref and releases with commit.
 */
module RustReadChunk {
  import opened Wrappers
  import opened RingWindow
  import opened RustRefRingBuffer

  datatype ReadChunk<T> = ReadChunk(ring: RefRingBuffer<T>, start: nat, end: nat)
  {
    /** deref: exactly the end - start slots from start % bs; None is a slice panic. */
    function Deref(): (s: Option<seq<T>>)
      reads ring.buffer
      requires ring.buffer.Length > 0
      ensures s.Some? <==> start <= end && start % ring.buffer.Length + (end - start) <= ring.buffer.Length
      ensures s.Some? ==> |s.value| == end - start
      ensures s.Some? ==> forall i :: 0 <= i < |s.value| ==> s.value[i] == ring.buffer[start % ring.buffer.Length + i]
    {
      ring.ChunkSlice(start, end)
    }

    /**
     * commit: stores end into the head. For a chunk that starts at the head and ends
     * before the tail, the ring stays valid and loses exactly the chunk's values.
     */
    method Commit()
      modifies ring.head
      ensures ring.head.value == end
      ensures old(ring.Valid()) && old(ring.head.value) <= end <= old(ring.tail.value) ==>
                && ring.Valid()
                && ring.tail.value == old(ring.tail.value)
                && ring.Contents() == old(ring.Contents())[end - old(ring.head.value)..]
    {
      ghost var h, t := ring.head.value, ring.tail.value;
      ring.head.value := end;
      if ring.head != ring.tail && ring.buffer.Length > 0 && h <= end <= t <= h + ring.buffer.Length {
        ConsumeWindow(ring.buffer[..], ring.buffer.Length, h, t, end);
      }
    }
  }
}
