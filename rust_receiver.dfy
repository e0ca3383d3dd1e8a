/**
 * shared::ref_ring_buffer::receiver: the consumer's side. read_exact and read only load
 * head and tail and describe a chunk of unread values that does not wrap.
 */
module RustReceiver {
  import opened Arith
  import opened Wrappers
  import opened RustRefRingBuffer
  import opened RustReadChunk

  datatype Receiver<T> = Receiver(ring: RefRingBuffer<T>)
  {
    /**
     * read_exact: None exactly when fewer than len unread values lie before the buffer end;
     * otherwise the chunk [head, head + len).
     */
    function ReadExact(len: nat): (r: Option<ReadChunk<T>>)
      reads ring, ring.head, ring.tail
      requires ring.Valid()
      ensures r.None? <==> ring.ReadableRun() < len
      ensures r.Some? ==> r.value == ReadChunk(ring, ring.head.value, ring.head.value + len)
      ensures r.Some? ==> ring.head.value + len <= ring.tail.value
      ensures r.Some? ==> ring.head.value % ring.buffer.Length + len <= ring.buffer.Length
    {
      var h, t := ring.head.value, ring.tail.value;
      var bufferSize := ring.BufferSize();
      var available := Min(t - h, bufferSize - h % bufferSize);
      if available < len then None else Some(ReadChunk(ring, h, h + len))
    }

    /**
     * read: the chunk from the head over the unread values up to the tail or the buffer end,
     * whichever comes first; possibly empty, never a failure.
     */
    function Read(): (r: ReadChunk<T>)
      reads ring, ring.head, ring.tail
      requires ring.Valid()
      ensures r.ring == ring && r.start == ring.head.value && r.start <= r.end <= ring.tail.value
      ensures r.start % ring.buffer.Length + (r.end - r.start) <= ring.buffer.Length
      ensures r.end == ring.tail.value || r.start % ring.buffer.Length + (r.end - r.start) == ring.buffer.Length
    {
      var h, t := ring.head.value, ring.tail.value;
      var bufferSize := ring.BufferSize();
      var available := Min(t - h, bufferSize - h % bufferSize);
      ReadChunk(ring, h, h + available)
    }
  }

  /** A chunk from read_exact holds the len oldest unread values, in order. */
  lemma ReadExactContents<T>(rx: Receiver<T>, len: nat)
    requires rx.ring.Valid() && rx.ReadExact(len).Some?
    ensures rx.ReadExact(len).value.Deref() == Some(rx.ring.Contents()[..len])
  {
    rx.ring.ChunkIsPrefix(rx.ring.head.value + len);
  }

  /** A chunk from read holds the oldest unread values, in order. */
  lemma ReadContents<T>(rx: Receiver<T>)
    requires rx.ring.Valid()
    ensures rx.Read().Deref() == Some(rx.ring.Contents()[..rx.Read().end - rx.Read().start])
  {
    rx.ring.ChunkIsPrefix(rx.Read().end);
  }

  /** read comes back empty exactly when nothing is left to read. */
  lemma ReadEmptyIff<T>(rx: Receiver<T>)
    requires rx.ring.Valid()
    ensures rx.Read().start == rx.Read().end <==> rx.ring.Contents() == []
  {
    var bs := rx.ring.buffer.Length;
    assert rx.ring.head.value % bs < bs;
    assert |rx.ring.Contents()| == rx.ring.tail.value - rx.ring.head.value;
  }

  /** One round of the consumer: read a chunk, take its values and commit it. */
  method ReadAndCommit<T>(rx: Receiver<T>) returns (values: seq<T>)
    requires rx.ring.Valid()
    modifies rx.ring.head
    ensures rx.ring.Valid() && rx.ring.tail.value == old(rx.ring.tail.value)
    ensures old(rx.ring.Contents()) == values + rx.ring.Contents()
    ensures values == [] <==> old(rx.ring.Contents()) == []
  {
    ghost var before := rx.ring.Contents();
    var chunk := rx.Read();
    ReadContents(rx);
    ReadEmptyIff(rx);
    values := chunk.Deref().value;
    assert before == values + before[|values|..];
    chunk.Commit();
  }

  /**
   * The consumer loop of the benchmark: read and commit chunks until nothing is left.
   * Afterwards head == tail, and the chunks, in order, were the unread values.
   */
  method Drain<T>(rx: Receiver<T>) returns (got: seq<T>)
    requires rx.ring.Valid()
    modifies rx.ring.head
    ensures rx.ring.Valid() && rx.ring.head.value == rx.ring.tail.value
    ensures rx.ring.tail.value == old(rx.ring.tail.value)
    ensures got == old(rx.ring.Contents())
  {
    got := [];
    while rx.ring.head.value != rx.ring.tail.value
      invariant rx.ring.Valid() && rx.ring.tail.value == old(rx.ring.tail.value)
      invariant got + rx.ring.Contents() == old(rx.ring.Contents())
      decreases |rx.ring.Contents()|
    {
      ghost var rest := rx.ring.Contents();
      var values := ReadAndCommit(rx);
      got := got + values;
      assert got + rx.ring.Contents() == old(rx.ring.Contents()) by {
        assert rest == values + rx.ring.Contents();
      }
    }
  }
}
