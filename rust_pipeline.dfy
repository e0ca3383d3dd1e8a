/**
 * The producer/consumer pairing of the shared ring's test and benchmark, run as sequential
 * calls: a batch goes in through try_reserve, deref_mut and commit and comes out through
 * read_exact, deref and commit.
 */
module RustPipeline {
  import opened Arith
  import opened Wrappers
  import opened RingWindow
  import opened RustRefRingBuffer
  import opened RustWriteChunk
  import opened RustReadChunk
  import opened RustSender
  import opened RustReceiver

  /** The producer's round: reserve |batch| slots, fill them, commit. */
  method SendBatch<T>(tx: Sender<T>, batch: seq<T>) returns (sent: bool)
    requires tx.ring.Valid()
    modifies tx.ring.tail, tx.ring.buffer
    ensures tx.ring.Valid() && tx.ring.head.value == old(tx.ring.head.value)
    ensures sent <==> |batch| <= old(tx.ring.WritableRun())
    ensures tx.ring.Contents() == if sent then old(tx.ring.Contents()) + batch else old(tx.ring.Contents())
  {
    var chunk := tx.TryReserve(|batch|);
    if chunk.None? {
      return false;
    }
    ReservedLength(tx.ring, |batch|);
    FillAndCommit(chunk.value, batch);
    return true;
  }

  /**
   * deref_mut and commit of a reservation [tail, tail + |batch|) that fits before the buffer
   * end: the batch joins the unread values and the head is untouched.
   */
  method FillAndCommit<T>(c: WriteChunk<T>, batch: seq<T>)
    requires c.ring.Valid() && c.start == c.ring.tail.value && c.end == c.start + |batch|
    requires c.start % c.ring.buffer.Length + |batch| <= c.ring.buffer.Length
    requires (c.ring.tail.value - c.ring.head.value) + |batch| <= c.ring.buffer.Length
    modifies c.ring.tail, c.ring.buffer
    ensures c.ring.Valid() && c.ring.head.value == old(c.ring.head.value)
    ensures c.ring.Contents() == old(c.ring.Contents()) + batch
  {
    ghost var before := c.ring.buffer[..];
    ghost var oldContents := c.ring.Contents();
    ghost var h, t, bs := c.ring.head.value, c.ring.tail.value, c.ring.buffer.Length;
    c.DerefMutWrite(batch);
    c.Commit();
    ghost var after := c.ring.buffer[..];
    SplicedWindow(before, after, h, t, batch);
  }

  /**
   * Writing batch into the slots from t % bs on, when they lie before the buffer end, makes
   * the window [h, t + |batch|) the old window [h, t) followed by batch.
   */
  lemma SplicedWindow<T>(before: seq<T>, after: seq<T>, h: nat, t: nat, batch: seq<T>)
    requires 0 < |before| && h <= t && (t - h) + |batch| <= |before|
    requires t % |before| + |batch| <= |before|
    requires after == before[..t % |before|] + batch + before[t % |before| + |batch|..]
    ensures Window(after, |before|, h % |before|, (t - h) + |batch|)
            == Window(before, |before|, h % |before|, t - h) + batch
  {
    var bs := |before|;
    TailSlot(h, t, bs);
    ContiguousSplice(before, t % bs, batch);
    WriteAtWindow(before, h % bs, t - h, t % bs, batch);
  }

  /** The consumer's round: read_exact(len), take the values, commit. */
  method ReceiveBatch<T>(rx: Receiver<T>, len: nat) returns (got: Option<seq<T>>)
    requires rx.ring.Valid()
    modifies rx.ring.head
    ensures rx.ring.Valid() && rx.ring.tail.value == old(rx.ring.tail.value)
    ensures got.Some? <==> len <= old(rx.ring.ReadableRun())
    ensures got.Some? ==> got.value == old(rx.ring.Contents())[..len]
                          && rx.ring.Contents() == old(rx.ring.Contents())[len..]
    ensures got.None? ==> rx.ring.Contents() == old(rx.ring.Contents())
  {
    var chunk := rx.ReadExact(len);
    if chunk.None? {
      return None;
    }
    ReadExactContents(rx, len);
    var values := chunk.value.Deref().value;
    chunk.value.Commit();
    return Some(values);
  }

  /**
   * One batch through an empty ring: it arrives whole and in order exactly when it fits
   * before the buffer end, and afterwards head == tail again.
   */
  method TransferBatch<T>(tx: Sender<T>, rx: Receiver<T>, batch: seq<T>) returns (got: Option<seq<T>>)
    requires tx.ring == rx.ring && tx.ring.Valid() && tx.ring.head.value == tx.ring.tail.value
    modifies tx.ring.head, tx.ring.tail, tx.ring.buffer
    ensures tx.ring.Valid() && tx.ring.head.value == tx.ring.tail.value
    ensures got == if |batch| <= tx.ring.buffer.Length - old(tx.ring.tail.value) % tx.ring.buffer.Length
                   then Some(batch) else None
  {
    ghost var bs := tx.ring.buffer.Length;
    ghost var toEnd := bs - tx.ring.tail.value % bs;
    assert tx.ring.WritableRun() == toEnd;
    var sent := SendBatch(tx, batch);
    if !sent {
      assert |batch| > toEnd;
      return None;
    }
    assert tx.ring.Contents() == batch;
    assert batch[..|batch|] == batch;
    assert rx.ring.ReadableRun() == Min(|batch|, toEnd);
    got := ReceiveBatch(rx, |batch|);
    assert |rx.ring.Contents()| == 0;
  }
}
