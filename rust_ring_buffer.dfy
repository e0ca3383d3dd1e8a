/**
 * shared::ring_buffer::RingBuffer<T, N>: the owner of the two counters and the N slots,
 * and the RefRingBuffer view over them that to_ref hands out.
 */
module RustRingBuffer {
  import opened RustRefRingBuffer

  class RingBuffer<T> {
    const head: AtomicUsize
    const tail: AtomicUsize
    const buffer: array<T>

    /**
     * new: head and tail start at 0 and the buffer has exactly n slots. The slots are
     * uninitialised in the source; here they hold fill.
     */
    constructor New(n: nat, fill: T)
      ensures head.value == 0 && tail.value == 0 && buffer.Length == n
      ensures fresh(head) && fresh(tail) && fresh(buffer) && head != tail
    {
      head := new AtomicUsize(0);
      tail := new AtomicUsize(0);
      buffer := new T[n](_ => fill);
    }

    /** to_ref: a view of the same head, tail and buffer. */
    method ToRef() returns (r: RefRingBuffer<T>)
      ensures fresh(r) && r.head == head && r.tail == tail && r.buffer == buffer
    {
      r := new RefRingBuffer.FromRawParts(head, tail, buffer);
    }
  }

  /**
   * A view over two distinct counters at 0 and at least one slot is valid, empty, and has the
   * whole buffer free for writing; with no slot nothing is valid.
   */
  lemma FreshView<T>(r: RefRingBuffer<T>)
    requires r.head != r.tail && r.head.value == 0 && r.tail.value == 0
    ensures r.Valid() <==> r.buffer.Length > 0
    ensures r.Valid() ==> r.Contents() == [] && r.ReadableRun() == 0 && r.WritableRun() == r.buffer.Length
  {
    if r.buffer.Length > 0 {
      assert 0 % r.buffer.Length == 0;
    }
  }

  /** RingBuffer::new() followed by to_ref(): a fresh, empty view with n free slots. */
  method NewRef<T>(n: nat, fill: T) returns (owner: RingBuffer<T>, r: RefRingBuffer<T>)
    requires n > 0
    ensures r.head == owner.head && r.tail == owner.tail && r.buffer == owner.buffer
    ensures r.Valid() && r.buffer.Length == n && r.Contents() == [] && r.WritableRun() == n
  {
    owner := new RingBuffer.New(n, fill);
    r := owner.ToRef();
    FreshView(r);
  }
}
