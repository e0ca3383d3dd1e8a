/**
 * rdma_ring_buffer::RingBuffer<T, N, CM>: a ring of N slots whose writer and reader sides run
 * on different hosts and mirror each other by messages. The communication manager is replaced
 * by a parameter (the messages recv_message returns) and a field (every message passed to
 * send_message, in order). A panic of the source is the outcome Panic; after it the model
 * says nothing about the state.
 */
module RdmaRing {
  import opened Arith
  import opened RingWindow
  import opened Wrappers

  /** Message<T>: Read(n) acknowledges n consumed slots, Write carries one value. */
  datatype Message<T> = Read(size: nat) | Write(data: T)

  datatype Outcome = Panic | Done(n: nat)

  predicate AllReads<T>(msgs: seq<Message<T>>)
  {
    forall i :: 0 <= i < |msgs| ==> msgs[i].Read?
  }

  predicate AllWrites<T>(msgs: seq<Message<T>>)
  {
    forall i :: 0 <= i < |msgs| ==> msgs[i].Write?
  }

  /** The messages write sends: one Write per value, in order. */
  function WriteMessages<T>(values: seq<T>): (msgs: seq<Message<T>>)
    ensures |msgs| == |values| && AllWrites(msgs)
    ensures forall i :: 0 <= i < |values| ==> msgs[i] == Write(values[i])
  {
    seq(|values|, i requires 0 <= i < |values| => Write(values[i]))
  }

  /** The values carried by a run of Write messages. */
  function Payload<T>(msgs: seq<Message<T>>): (values: seq<T>)
    requires AllWrites(msgs)
    ensures |values| == |msgs|
    ensures forall i :: 0 <= i < |msgs| ==> msgs[i] == Write(values[i])
  {
    seq(|msgs|, i requires 0 <= i < |msgs| && AllWrites(msgs) => msgs[i].data)
  }

  /** The values a write sends arrive as the payload of its messages. */
  lemma PayloadOfWriteMessages<T>(values: seq<T>)
    ensures Payload(WriteMessages(values)) == values
  {}

  /**
   * The head after write's message loop as written: every Read(size) stores h + size with h
   * the head loaded on entry, so only the last acknowledgement counts.
   */
  function LoadedHead<T>(h: nat, msgs: seq<Message<T>>): nat
  {
    if msgs == [] || !msgs[|msgs| - 1].Read? then h else h + msgs[|msgs| - 1].size
  }

  /** The tail after read's message loop as written: every Write stores t + 1. */
  function LoadedTail<T>(t: nat, msgs: seq<Message<T>>): nat
  {
    if msgs == [] then t else t + 1
  }

  /** The slots after read's message loop as written: every Write goes to slot t % N. */
  function LoadedSlots<T>(a: seq<T>, t: nat, msgs: seq<Message<T>>): (b: seq<T>)
    requires |a| > 0
    ensures |b| == |a|
  {
    if msgs == [] || !msgs[|msgs| - 1].Write? then a else a[t % |a| := msgs[|msgs| - 1].data]
  }

  /** read's count: tail - head, clamped to count when count > 0. */
  function ReadLen(h: nat, t: nat, count: nat): (n: nat)
    requires h <= t
    ensures n <= t - h && (count > 0 ==> n <= count)
    ensures n == t - h || (count > 0 && n == count)
  {
    if count > 0 && t - h > count then count else t - h
  }

  /** write's count: write_size, clamped to the N - (tail - head) free slots. */
  function WriteLen(cap: nat, h: nat, t: nat, writeSize: nat): (n: nat)
    requires h <= t <= h + cap
    ensures n <= writeSize && n <= cap - (t - h)
    ensures n == writeSize || n == cap - (t - h)
  {
    Min(writeSize, cap - (t - h))
  }

  class RingBuffer<T> {
    var head: nat
    var tail: nat
    const buffer: array<T>
    /** Everything handed to send_message so far, in order. */
    var outbox: seq<Message<T>>

    /** new_alloc: a fresh array of n slots (uninitialised in the source, fill here). */
    constructor NewAlloc(n: nat, fill: T)
      ensures head == 0 && tail == 0 && outbox == [] && buffer.Length == n && fresh(buffer)
    {
      head, tail, outbox := 0, 0, [];
      buffer := new T[n](_ => fill);
    }

    /** new: a ring over the caller's array. */
    constructor New(buf: array<T>)
      ensures head == 0 && tail == 0 && outbox == [] && buffer == buf
    {
      head, tail, outbox, buffer := 0, 0, [], buf;
    }

    /** At least one slot, and between 0 and N values between head and tail. */
    predicate Valid()
      reads this
    {
      buffer.Length > 0 && head <= tail <= head + buffer.Length
    }

    /** The values between head and tail, oldest first. */
    function Contents(): (s: seq<T>)
      reads this, buffer
      requires Valid()
      ensures |s| == tail - head
    {
      Window(buffer[..], buffer.Length, head % buffer.Length, tail - head)
    }

    /** avaliable_read: tail - head; None is the panic of an unsigned subtraction below zero. */
    function AvailableRead(): (r: Option<nat>)
      reads this, buffer
      ensures r.Some? <==> head <= tail
      ensures Valid() ==> r == Some(|Contents()|)
    {
      if head <= tail then Some(tail - head) else None
    }

    /** avaliable_write: N - (tail - head); None when either subtraction goes below zero. */
    function AvailableWrite(): (r: Option<nat>)
      reads this, buffer
      ensures r.Some? <==> head <= tail <= head + buffer.Length
      ensures Valid() ==> r == Some(buffer.Length - |Contents()|)
    {
      if head <= tail <= head + buffer.Length then Some(buffer.Length - (tail - head)) else None
    }

    /** Whenever both counts are defined they add up to N. */
    lemma AvailableSum()
      requires AvailableWrite().Some?
      ensures AvailableRead().Some? && AvailableRead().value + AvailableWrite().value == buffer.Length
    {}

    /**
     * write's message loop: each Read(size) stores head_loaded + size into the head; any
     * other message panics (false).
     */
    method AbsorbAcks(received: seq<Message<T>>) returns (ok: bool)
      modifies this`head
      ensures ok <==> AllReads(received)
      ensures ok ==> head == LoadedHead(old(head), received)
    {
      var h := head;
      var i := 0;
      while i < |received|
        invariant 0 <= i <= |received|
        invariant AllReads(received[..i])
        invariant head == LoadedHead(h, received[..i])
      {
        if !received[i].Read? {
          assert !AllReads(received);
          return false;
        }
        head := h + received[i].size;
        assert received[..i + 1][i] == received[i];
        i := i + 1;
      }
      assert received[..i] == received;
      return true;
    }

    /**
     * read's message loop: each Write{data} is stored in slot tail_loaded % N and the tail
     * becomes tail_loaded + 1; a Read message panics, and so does % N with N = 0.
     */
    method AbsorbData(received: seq<Message<T>>) returns (ok: bool)
      modifies this`tail, buffer
      ensures ok <==> AllWrites(received) && (received == [] || buffer.Length > 0)
      ensures ok && received != [] ==> tail == LoadedTail(old(tail), received)
                                       && buffer[..] == LoadedSlots(old(buffer[..]), old(tail), received)
      ensures ok && received == [] ==> tail == old(tail) && buffer[..] == old(buffer[..])
    {
      var t := tail;
      ghost var before := buffer[..];
      var i := 0;
      while i < |received|
        invariant 0 <= i <= |received|
        invariant AllWrites(received[..i])
        invariant i == 0 ==> tail == t && buffer[..] == before
        invariant i > 0 ==> buffer.Length > 0 && tail == LoadedTail(t, received[..i])
                            && buffer[..] == LoadedSlots(before, t, received[..i])
      {
        if !received[i].Write? {
          assert !AllWrites(received);
          return false;
        }
        if buffer.Length == 0 {
          return false;
        }
        buffer[t % buffer.Length] := received[i].data;
        tail := t + 1;
        assert received[..i + 1][i] == received[i];
        i := i + 1;
      }
      assert received[..i] == received;
      return true;
    }

    /** write's copy loop: src[i] goes to slot (wp + i) % N, and nothing else changes. */
    method CopyIn(src: seq<T>, wp: nat)
      requires wp < buffer.Length && |src| <= buffer.Length
      modifies buffer
      ensures buffer[..] == WriteAt(old(buffer[..]), wp, src)
    {
      ghost var before := buffer[..];
      WriteAtEmpty(before, wp);
      var i := 0;
      while i < |src|
        invariant 0 <= i <= |src|
        invariant buffer[..] == WriteAt(before, wp, src[..i])
      {
        ghost var current := buffer[..];
        buffer[(wp + i) % buffer.Length] := src[i];
        CopyStep(before, wp, src, i, current, buffer[..]);
        i := i + 1;
      }
      assert src[..i] == src;
    }

    /** read's copy loop: out[i] is slot (rp + i) % N for i < n, and out is otherwise unchanged. */
    method CopyOut(out: array<T>, rp: nat, n: nat)
      requires out != buffer && buffer.Length > 0 && n <= out.Length
      modifies out
      ensures out[..n] == Window(buffer[..], buffer.Length, rp, n)
      ensures out[n..] == old(out[n..])
    {
      var i := 0;
      while i < n
        invariant 0 <= i <= n
        invariant forall k :: 0 <= k < i ==> out[k] == buffer[(rp + k) % buffer.Length]
        invariant forall k :: n <= k < out.Length ==> out[k] == old(out[k])
      {
        out[i] := buffer[(rp + i) % buffer.Length];
        i := i + 1;
      }
      assert out[..n] == Window(buffer[..], buffer.Length, rp, n);
      assert out[n..] == old(out[n..]);
    }

    /** write's send loop: one Write message per copied value, sent as one batch. */
    method SendWrites(values: seq<T>)
      modifies this`outbox
      ensures outbox == old(outbox) + WriteMessages(values)
    {
      var sendBuffer: seq<Message<T>> := [];
      var i := 0;
      while i < |values|
        invariant 0 <= i <= |values|
        invariant sendBuffer == WriteMessages(values[..i])
      {
        sendBuffer := sendBuffer + [Message.Write(values[i])];
        i := i + 1;
      }
      assert values[..i] == values;
      outbox := outbox + sendBuffer;
    }

    /**
     * write: absorbs the acknowledgements, then copies min(write_size, N - (tail - head))
     * values, with head and tail as loaded on entry, publishes the tail and sends the values.
     * It panics on a non-Read message, on N = 0, when a subtraction goes below zero, and when
     * the count exceeds the input.
     */
    method Write(input: seq<T>, writeSize: nat, received: seq<Message<T>>) returns (r: Outcome)
      modifies this, buffer
      ensures r.Panic? <==> !AllReads(received) || buffer.Length == 0
                            || !(old(head) <= old(tail) <= old(head) + buffer.Length)
                            || WriteLen(buffer.Length, old(head), old(tail), writeSize) > |input|
      ensures r.Done? ==> && r.n == WriteLen(buffer.Length, old(head), old(tail), writeSize)
                          && head == LoadedHead(old(head), received)
                          && tail == old(tail) + r.n
                          && buffer[..] == WriteAt(old(buffer[..]), old(tail) % buffer.Length, input[..r.n])
                          && outbox == old(outbox) + WriteMessages(input[..r.n])
      ensures r.Done? && received == [] && old(Valid()) ==>
                Valid() && Contents() == old(Contents()) + input[..r.n]
    {
      var h, t := head, tail;
      ghost var before := buffer[..];
      var ok := AbsorbAcks(received);
      if !ok {
        return Panic;
      }
      if buffer.Length == 0 || t < h || t - h > buffer.Length {
        return Panic;
      }
      var writePos := t % buffer.Length;
      var writeLen := WriteLen(buffer.Length, h, t, writeSize);
      if writeLen > |input| {
        return Panic;
      }
      CopyIn(input[..writeLen], writePos);
      tail := t + writeLen;
      SendWrites(input[..writeLen]);
      if received == [] {
        AppendedContents(before, h, t, input[..writeLen]);
      }
      return Done(writeLen);
    }

    /**
     * read: absorbs the incoming values, then takes ReadLen values from the head as loaded
     * on entry into out, publishes the head and acknowledges them with one Read message.
     * Nothing moves and nothing is sent when that count is 0.
     */
    method Read(out: array<T>, count: nat, received: seq<Message<T>>) returns (r: Outcome)
      requires out != buffer
      modifies this, buffer, out
      ensures r.Panic? <==> !AllWrites(received) || (received != [] && buffer.Length == 0)
                            || old(tail) < old(head)
                            || (ReadLen(old(head), old(tail), count) > 0
                                && (buffer.Length == 0 || ReadLen(old(head), old(tail), count) > out.Length))
      ensures r.Done? ==> && r.n == ReadLen(old(head), old(tail), count)
                          && head == old(head) + r.n
                          && tail == LoadedTail(old(tail), received)
                          && (buffer.Length > 0 ==> buffer[..] == LoadedSlots(old(buffer[..]), old(tail), received))
                          && out[r.n..] == old(out[r.n..])
                          && outbox == old(outbox) + (if r.n == 0 then [] else [Message.Read(r.n)])
      ensures r.Done? && r.n > 0 ==> out[..r.n] == Window(buffer[..], buffer.Length, old(head) % buffer.Length, r.n)
      ensures r.Done? && received == [] && old(Valid()) ==>
                Valid() && out[..r.n] == old(Contents())[..r.n] && Contents() == old(Contents())[r.n..]
    {
      var h, t := head, tail;
      ghost var before := buffer[..];
      var ok := AbsorbData(received);
      if !ok {
        return Panic;
      }
      if t < h {
        return Panic;
      }
      var available := ReadLen(h, t, count);
      if available == 0 {
        return Done(0);
      }
      if buffer.Length == 0 || available > out.Length {
        return Panic;
      }
      var readPos := h % buffer.Length;
      CopyOut(out, readPos, available);
      head := h + available;
      outbox := outbox + [Message.Read(available)];
      if received == [] && t <= h + buffer.Length {
        TakenContents(before, h, t, available);
      }
      return Done(available);
    }
  }

  /** One more store of write's copy loop extends the write by one value. */
  lemma CopyStep<T>(a: seq<T>, wp: nat, src: seq<T>, i: nat, current: seq<T>, next: seq<T>)
    requires wp < |a| && i < |src| <= |a|
    requires current == WriteAt(a, wp, src[..i]) && next == current[(wp + i) % |a| := src[i]]
    ensures next == WriteAt(a, wp, src[..i + 1])
  {
    WriteAtSnoc(a, wp, src[..i], src[i]);
    assert src[..i + 1] == src[..i] + [src[i]];
  }

  /** The window after write's copy and tail store is the old window followed by the copied values. */
  lemma AppendedContents<T>(a: seq<T>, h: nat, t: nat, src: seq<T>)
    requires 0 < |a| && h <= t && (t - h) + |src| <= |a|
    ensures Window(WriteAt(a, t % |a|, src), |a|, h % |a|, (t + |src|) - h) == Window(a, |a|, h % |a|, t - h) + src
  {
    TailSlot(h, t, |a|);
    WriteAtWindow(a, h % |a|, t - h, t % |a|, src);
  }

  /** The window after read's head store is the old window without the n values taken. */
  lemma TakenContents<T>(a: seq<T>, h: nat, t: nat, n: nat)
    requires 0 < |a| && h + n <= t <= h + |a|
    ensures Window(a, |a|, h % |a|, n) == Window(a, |a|, h % |a|, t - h)[..n]
    ensures Window(a, |a|, (h + n) % |a|, t - (h + n)) == Window(a, |a|, h % |a|, t - h)[n..]
  {
    PrefixWindow(a, |a|, h % |a|, t - h, n);
    ConsumeWindow(a, |a|, h, t, h + n);
  }

  /**
   * The intended handling of acknowledgements: each Read(size) moves the head on by size
   * from where the previous one left it.
   */
  function Acknowledged<T>(h: nat, msgs: seq<Message<T>>): (r: nat)
    requires AllReads(msgs)
    ensures r >= h
    decreases |msgs|
  {
    if msgs == [] then h else Acknowledged(h + msgs[0].size, msgs[1..])
  }

  /** With the intended handling it does not matter how the acknowledgements are batched. */
  lemma {:induction false} AcknowledgedBatches<T>(h: nat, a: seq<Message<T>>, b: seq<Message<T>>)
    requires AllReads(a) && AllReads(b)
    ensures AllReads(a + b)
    ensures Acknowledged(h, a + b) == Acknowledged(Acknowledged(h, a), b)
    decreases |a|
  {
    if a != [] {
      assert (a + b)[1..] == a[1..] + b;
      AcknowledgedBatches(h + a[0].size, a[1..], b);
    } else {
      assert a + b == b;
    }
  }

  /**
   * As written, two acknowledgements of one slot each that arrive in one batch move the head
   * by one, while arriving in two batches they move it by two.
   */
  lemma AcksInOneBatchCountOnce(h: nat)
    ensures LoadedHead<int>(h, [Read(1), Read(1)]) == h + 1
    ensures LoadedHead<int>(LoadedHead<int>(h, [Read(1)]), [Read(1)]) == h + 2
    ensures Acknowledged<int>(h, [Read(1), Read(1)]) == h + 2
  {
    var two: seq<Message<int>> := [Read(1), Read(1)];
    assert two[1..] == [Read(1)];
  }

  /**
   * The intended handling of incoming values: the i-th Write of a batch goes to slot
   * (tail + i) % N and the tail moves on by the batch's length.
   */
  function Delivered<T>(a: seq<T>, t: nat, msgs: seq<Message<T>>): (b: seq<T>)
    requires 0 < |a| && AllWrites(msgs) && |msgs| <= |a|
    ensures |b| == |a|
  {
    WriteAt(a, t % |a|, Payload(msgs))
  }

  /** Delivered values join the unread values in order. */
  lemma DeliveryAppends<T>(a: seq<T>, h: nat, t: nat, msgs: seq<Message<T>>)
    requires 0 < |a| && AllWrites(msgs) && h <= t && (t - h) + |msgs| <= |a|
    ensures Window(Delivered(a, t, msgs), |a|, h % |a|, (t + |msgs|) - h) == Window(a, |a|, h % |a|, t - h) + Payload(msgs)
  {
    AppendedContents(a, h, t, Payload(msgs));
  }

  /**
   * The batch one write sends, delivered with the intended handling, adds exactly the values
   * written to the reader's unread values.
   */
  lemma MirroredWrite<T>(a: seq<T>, h: nat, t: nat, values: seq<T>)
    requires 0 < |a| && h <= t && (t - h) + |values| <= |a|
    ensures Window(Delivered(a, t, WriteMessages(values)), |a|, h % |a|, (t + |values|) - h)
            == Window(a, |a|, h % |a|, t - h) + values
  {
    PayloadOfWriteMessages(values);
    DeliveryAppends(a, h, t, WriteMessages(values));
  }

  /**
   * As written, a write of [1, 2] into an empty two-slot ring reaches the reader as one
   * unread value, 2; the intended handling gives [1, 2].
   */
  lemma BatchedWritesCollapse()
    ensures LoadedTail(0, WriteMessages([1, 2])) == 1
    ensures Window(LoadedSlots([0, 0], 0, WriteMessages([1, 2])), 2, 0, 1) == [2]
    ensures Window(Delivered([0, 0], 0, WriteMessages([1, 2])), 2, 0, 2) == [1, 2]
  {
    MirroredWrite([0, 0], 0, 0, [1, 2]);
    assert WriteMessages([1, 2])[1] == Write(2);
  }
}
