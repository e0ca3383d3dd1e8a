/**
 * shared::ref_ring_buffer::sender: the producer's side. write copies as much as fits into
 * the free slots, wrapping at the buffer end, and try_reserve hands out a write chunk.
 */
module RustSender {
  import opened Arith
  import opened RingWindow
  import opened Wrappers
  import opened RustRefRingBuffer
  import opened RustWriteChunk

  datatype Sender<T> = Sender(ring: RefRingBuffer<T>)
  {
    /** try_reserve: the reservation of WriteChunk::try_reserve on the same ring. */
    function TryReserve(size: nat): (r: Option<WriteChunk<T>>)
      reads ring, ring.head, ring.tail
      requires ring.Valid()
      ensures r.None? <==> ring.WritableRun() < size
      ensures r.Some? ==> r.value == WriteChunk(ring, ring.tail.value, ring.tail.value + size)
    {
      RustWriteChunk.TryReserve(ring, size)
    }

    /**
     * write: copies min(|data|, free slots) values to the slots from tail % bs on, in one
     * segment or in two when the run passes the buffer end, then publishes the tail.
     */
    method Write(data: seq<T>) returns (writeLen: nat)
      requires ring.Valid()
      modifies ring.tail, ring.buffer
      ensures ring.Valid()
      ensures writeLen == Min(|data|, ring.buffer.Length - (old(ring.tail.value) - old(ring.head.value)))
      ensures ring.head.value == old(ring.head.value) && ring.tail.value == old(ring.tail.value) + writeLen
      ensures ring.buffer[..] == WriteAt(old(ring.buffer[..]), old(ring.tail.value) % ring.buffer.Length, data[..writeLen])
      ensures ring.Contents() == old(ring.Contents()) + data[..writeLen]
    {
      var h, t := ring.head.value, ring.tail.value;
      var bufferSize := ring.BufferSize();
      var available := bufferSize - (t - h);
      writeLen := Min(|data|, available);
      if writeLen == 0 {
        WriteAtEmpty(ring.buffer[..], t % bufferSize);
        return 0;
      }
      CopyAndPublish(ring, data[..writeLen]);
    }
  }

  /** The non-empty path of write: the copy of src to the slots from tail % bs, then the tail store. */
  method CopyAndPublish<T>(ring: RefRingBuffer<T>, src: seq<T>)
    requires ring.Valid() && |src| <= ring.buffer.Length - (ring.tail.value - ring.head.value)
    modifies ring.tail, ring.buffer
    ensures ring.Valid()
    ensures ring.head.value == old(ring.head.value) && ring.tail.value == old(ring.tail.value) + |src|
    ensures ring.buffer[..] == WriteAt(old(ring.buffer[..]), old(ring.tail.value) % ring.buffer.Length, src)
    ensures ring.Contents() == old(ring.Contents()) + src
  {
    ghost var before := ring.buffer[..];
    ghost var oldContents := ring.Contents();
    var h, t := ring.head.value, ring.tail.value;
    var bufferSize := ring.BufferSize();
    var start := t % bufferSize;
    CopySegments(ring, src, start);
    ring.tail.value := t + |src|;
    TailSlot(h, t, bufferSize);
    WriteAtWindow(before, h % bufferSize, t - h, start, src);
    assert ring.Contents() == Window(ring.buffer[..], bufferSize, h % bufferSize, (t - h) + |src|);
    assert ring.Contents() == oldContents + src;
  }

  /**
   * The copy of write: src goes to the slots from start on, as one copy_nonoverlapping when
   * it fits before the buffer end and as two (the second from slot 0) when it does not.
   */
  method CopySegments<T>(ring: RefRingBuffer<T>, src: seq<T>, start: nat)
    requires start < ring.buffer.Length && |src| <= ring.buffer.Length
    modifies ring.buffer
    ensures ring.buffer[..] == WriteAt(old(ring.buffer[..]), start, src)
  {
    ghost var before := ring.buffer[..];
    var bufferSize := ring.BufferSize();
    if start + |src| <= bufferSize {
      ring.CopyNonoverlapping(src, start);
      ContiguousSplice(before, start, src);
    } else {
      var end := bufferSize - start;
      ring.CopyNonoverlapping(src[..end], start);
      ghost var middle := ring.buffer[..];
      ring.CopyNonoverlapping(src[end..], 0);
      WrappedSplice(before, middle, start, src);
    }
  }
}
