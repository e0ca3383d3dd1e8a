# RDMA ring buffers in Dafny

This project models the ring buffers of the RDMA-Playground repository and proves properties of
them. There are four families.

- **The C++ `RefRingBuffer`** (`rdma_ring_buffer_cpp/ref_ring_buffer.hpp`). It is a
  single-producer, single-consumer byte ring over a region it does not own.
  - Head and tail are 32-bit unit counters in external atomic cells. One unit is `bytes_scale`
    bytes.
  - `write` and `read` clamp to the free or used space and round down to whole units. They copy
    with one or two `memcpy`s, split at the region end, and then publish the new counter.
  - The model is the class `CppRefRingBuffer.RefRingBuffer`. The 32-bit and 64-bit wrap-around
    of every counter operation is written out.
  - `Contents()` is the window of unread bytes. `Write` appends to it and `Read` takes a
    prefix off it. Both keep the occupancy invariant `Valid()`.
- **The Rust shared ring** (`shared/src/ref_ring_buffer*`, `shared/src/ring_buffer.rs`).
  - `RingBuffer` owns two `AtomicUsize` counters and the slots, and `to_ref` hands out a
    `RefRingBuffer` view of them.
  - On that view, `write` copies into the free run before the buffer end, and `Sender::write`
    copies with wrap-around.
  - Chunks (`WriteChunk`, `ReadChunk`) and the older `RingBufferWriter` and `RingBufferReader`
    hand out slices that `commit` or `Drop` publish.
  - Counters are unbounded naturals that only grow, and slot `i` of the stream is
    `buffer[i % bs]`.
  - Slices are `Option<seq<T>>`, with `None` standing for Rust's slice panic.
  - `RustPipeline` runs the producer/consumer pairing of the shared test and benchmark as
    sequential calls.
- **The RDMA-mirrored ring** (`src/rdma_ring_buffer.rs`). The writer and the reader each hold a
  copy of the ring and mirror each other by messages.
  - The messages `recv_message` returns are a parameter of `Write` and `Read`.
  - Everything passed to `send_message` is appended to the field `outbox`.
  - A panic is the outcome `Panic`. Unsigned subtraction below zero is taken to panic, as in a
    debug build.
- **`RingBufferMetaData`** (`shared/src/ipc/ring_buffer_metadata.rs`). It is encoded as the
  8 little-endian bytes of the length followed by the name. It is decoded from a byte stream
  in which one `read` delivers at most 256 name bytes.

Shared slot arithmetic lives in `RingWindow`:
- `Window` is the n slots from a position, wrapping.
- `WriteAt` is a sequence with values stored in the slots after a position, wrapping.
- Their lemmas relate splices, windows and wrapped writes.

Integer facts live in `Arith`.

The comment at `ref_ring_buffer.hpp:37-40` says a full buffer must leave its last unit empty.
The code reserves nothing: `write`'s clamp at lines 32-35 lets it fill every byte. The model
follows the code. The contract of `CppRefRingBuffer.RefRingBuffer.Write` says so: with
`bytes_scale = 1`, a write of 10 bytes into an empty 8-byte ring returns 8.

## Model

| member | source | states |
|---|---|---|
| CppRefRingBuffer.RefRingBuffer.constructor | rdma_ring_buffer_cpp/ref_ring_buffer.hpp:248-254 | bytes_scale starts at 1, both capacities at Max_Count and ringMask at Max_Count - 1; over distinct counters at most Max_Count apart, with a power-of-two Max_Count that fits the region, the ring is valid |
| CppRefRingBuffer.Configure | rdma_ring_buffer_cpp/ref_ring_buffer.hpp:126-141 | the initialisers, then set_bytes_scale(scale) and set_capacity_inunit(capacity) over equal counters, give a valid empty ring of capacity * scale bytes |
| CppRefRingBuffer.RefRingBuffer.GetTailInBytes | rdma_ring_buffer_cpp/ref_ring_buffer.hpp:171-173 | the 64-bit product of the unit tail and the scale is exact: it never wraps |
| CppRefRingBuffer.RefRingBuffer.GetHeadInBytes | rdma_ring_buffer_cpp/ref_ring_buffer.hpp:175-177 | the same for the head |
| CppRefRingBuffer.RefRingBuffer.SetTailInBytes | rdma_ring_buffer_cpp/ref_ring_buffer.hpp:179-181 | stores val / scale truncated to 32 bits; reading back in bytes gives val when val is whole units that fit the counter |
| CppRefRingBuffer.RefRingBuffer.SetHeadInBytes | rdma_ring_buffer_cpp/ref_ring_buffer.hpp:183-185 | the same for the head |
| CppRefRingBuffer.RefRingBuffer.GetTailInUnit | rdma_ring_buffer_cpp/ref_ring_buffer.hpp:187-189 | the unit tail times the scale is the byte tail |
| CppRefRingBuffer.RefRingBuffer.GetHeadInUnit | rdma_ring_buffer_cpp/ref_ring_buffer.hpp:191-193 | the unit head times the scale is the byte head |
| CppRefRingBuffer.RefRingBuffer.SetTailInUnit | rdma_ring_buffer_cpp/ref_ring_buffer.hpp:195-197 | stores the unit counter; the byte tail becomes val * scale |
| CppRefRingBuffer.RefRingBuffer.SetHeadInUnit | rdma_ring_buffer_cpp/ref_ring_buffer.hpp:199-201 | the same for the head |
| CppRefRingBuffer.RefRingBuffer.CalculateDistanceInBytes | rdma_ring_buffer_cpp/ref_ring_buffer.hpp:96-98 | adding the 32-bit distance to behind gives front back (mod 2^32); it is front - behind when front >= behind |
| CppRefRingBuffer.RefRingBuffer.CalculateBytesDistanceFromUnit | rdma_ring_buffer_cpp/ref_ring_buffer.hpp:100-102 | congruent to (front - behind) * scale modulo 2^32, and equal to it when that fits |
| CppRefRingBuffer.RefRingBuffer.BoundHeadTail | rdma_ring_buffer_cpp/ref_ring_buffer.hpp:167-169 | inside the region and congruent to val modulo the byte capacity |
| CppRefRingBuffer.RefRingBuffer.GetWritePosFromBytes | rdma_ring_buffer_cpp/ref_ring_buffer.hpp:207-210 | a byte offset inside the region, congruent to the byte tail |
| CppRefRingBuffer.RefRingBuffer.GetReadPosFromBytes | rdma_ring_buffer_cpp/ref_ring_buffer.hpp:212-215 | the same for the head |
| CppRefRingBuffer.RefRingBuffer.GetWritePosFromUnit | rdma_ring_buffer_cpp/ref_ring_buffer.hpp:217-222 | widening to 64 bits first makes it the exact (unit * scale) mod capacity, and it agrees with the byte-based position |
| CppRefRingBuffer.RefRingBuffer.GetReadPosFromUnit | rdma_ring_buffer_cpp/ref_ring_buffer.hpp:224-229 | the same for the head |
| CppRefRingBuffer.RefRingBuffer.ReadAvailableInBytes | rdma_ring_buffer_cpp/ref_ring_buffer.hpp:104-109 | total; in a valid ring the mixed 64/32-bit subtraction gives the true number of stored bytes, across counter wrap-around |
| CppRefRingBuffer.RefRingBuffer.WriteAvailableInBytes | rdma_ring_buffer_cpp/ref_ring_buffer.hpp:111-116 | total; in a valid ring it is capacity minus stored bytes, so the readable and writable counts add up to the capacity |
| CppRefRingBuffer.RefRingBuffer.AvailableArithmetic | rdma_ring_buffer_cpp/ref_ring_buffer.hpp:104-116 | both wrapped expressions, as the code writes them, equal the used and free byte counts |
| CppRefRingBuffer.RefRingBuffer.WritePosFollowsContents | rdma_ring_buffer_cpp/ref_ring_buffer.hpp:28-30 | in a valid state the write position is the slot right after the last unread byte, even after the 32-bit counters wrap |
| CppRefRingBuffer.RefRingBuffer.IsPowerOf2 | rdma_ring_buffer_cpp/ref_ring_buffer.hpp:122-124 | x != 0 && (x & (x - 1)) == 0 on 32 bits holds exactly when x is a power of two |
| Arith.PowerOfTwoTest | rdma_ring_buffer_cpp/ref_ring_buffer.hpp:122-124 | the bit test and the recursive definition of a power of two agree for every natural |
| CppRefRingBuffer.RefRingBuffer.SetCapacityInUnit | rdma_ring_buffer_cpp/ref_ring_buffer.hpp:126-136 | -1 and nothing changed unless val is a power of two; else 0, capacity := val, ringMask := val - 1, byte capacity := val * scale (32-bit); when that product fits 32 bits and the region, and the stored bytes fit it, the ring becomes valid |
| CppRefRingBuffer.RefRingBuffer.SetBytesScale | rdma_ring_buffer_cpp/ref_ring_buffer.hpp:138-141 | sets the scale and recomputes the byte capacity; nothing else changes; with a power-of-two capacity whose scaled size fits 32 bits and the region, the ring becomes valid |
| CppRefRingBuffer.RefRingBuffer.AddConsumeReadData | rdma_ring_buffer_cpp/ref_ring_buffer.hpp:159-161 | returns the previous counter and adds val modulo 2^64 |
| CppRefRingBuffer.RefRingBuffer.WriteExtent | rdma_ring_buffer_cpp/ref_ring_buffer.hpp:28-42 | the write position, and a size that is the largest multiple of the scale not above min(writeSize, free bytes) |
| CppRefRingBuffer.RefRingBuffer.CopyIn | rdma_ring_buffer_cpp/ref_ring_buffer.hpp:44-50 | data[i] lands in slot (writePos + i) % capacity for i < size, split at the region end; every other slot keeps its value |
| CppRefRingBuffer.RefRingBuffer.Write | rdma_ring_buffer_cpp/ref_ring_buffer.hpp:27-53 | whole units only, at most min(writeSize, free) and less than one unit short of it; placement as in CopyIn; the tail advances by n / scale units mod 2^32; the ring stays valid; Contents() gains data[..n] |
| CppRefRingBuffer.RefRingBuffer.ReadExtent | rdma_ring_buffer_cpp/ref_ring_buffer.hpp:64-80 | the read position, and the readable bytes capped by a positive cnt and rounded down to whole units |
| CppRefRingBuffer.RefRingBuffer.CopyOut | rdma_ring_buffer_cpp/ref_ring_buffer.hpp:84-91 | data[i] is slot (readPos + i) % capacity for i < size, split at the region end; the rest of data is unchanged |
| CppRefRingBuffer.RefRingBuffer.Read | rdma_ring_buffer_cpp/ref_ring_buffer.hpp:63-94 | n is whole units, at most the limit and less than one unit short of it; data[..n] is the n oldest bytes; the head advances by n / scale; Contents() loses exactly them; when n = 0 nothing moves |
| RustRefRingBuffer.RefRingBuffer.FromRawParts | rdma_ring_buffer_rust/shared/src/ref_ring_buffer.rs:20-26 | the view keeps the given head, tail and buffer |
| RustRefRingBuffer.RefRingBuffer.ChunkSlice | rdma_ring_buffer_rust/shared/src/ref_ring_buffer/reader_chunk.rs:33-42 | defined exactly when start <= end and the run fits before the buffer end; then it has end - start values, slot start % bs onwards |
| RustRefRingBuffer.RefRingBuffer.ChunkIsPrefix | rdma_ring_buffer_rust/shared/src/ref_ring_buffer/reader_chunk.rs:33-42 | a chunk from the head that stays inside the readable run holds the oldest unread values, in order |
| RustRefRingBuffer.RefRingBuffer.CopyNonoverlapping | rdma_ring_buffer_rust/shared/src/ref_ring_buffer.rs:69-73 | src is spliced into the buffer at dst and nothing else changes |
| RustRefRingBuffer.RefRingBuffer.Write | rdma_ring_buffer_rust/shared/src/ref_ring_buffer.rs:47-92 | writes min(len, free, slots to the end) values; the copy never wraps, so the second branch is dead; the tail advances by that count; Contents() gains exactly those values |
| RustRefRingBuffer.RefRingBuffer.CopyAndPublish | rdma_ring_buffer_rust/shared/src/ref_ring_buffer.rs:65-91 | the contiguous copy followed by the tail store appends src to Contents() and keeps the ring valid |
| RustReader.Read | rdma_ring_buffer_rust/shared/src/ref_ring_buffer.rs:30-44 | a reader from the head that never passes the tail and never wraps; it stops only at the tail or at the buffer end |
| RustReader.RingBufferReader.Deref | rdma_ring_buffer_rust/shared/src/ref_ring_buffer/reader.rs:32-45 | as written: the slots [start % bs, end % bs), or [start % bs, bs) when end > 0 and end % bs == 0, with that length and those elements; None (a panic) exactly when neither slice is well formed |
| RustReader.ReadDeref | rdma_ring_buffer_rust/shared/src/ref_ring_buffer/reader.rs:35-44 | for a non-empty ring the reader dereferences to the oldest end - start unread values |
| RustReader.EmptyReadDerefsToBuffer | rdma_ring_buffer_rust/shared/src/ref_ring_buffer/reader.rs:39-40 | an empty reader whose head is a nonzero multiple of bs dereferences to the whole buffer |
| RustReader.RingBufferReader.Drop | rdma_ring_buffer_rust/shared/src/ref_ring_buffer/reader.rs:22-30 | stores end into the head; for a reader inside the unread values, Contents() loses exactly its values |
| RustWriter.TryReserve | rdma_ring_buffer_rust/shared/src/ref_ring_buffer/writer.rs:20-48 | None exactly when the request exceeds the free slots or the slots to the end; otherwise offset = tail and limit = tail + request |
| RustWriter.RingBufferWriter.Deref | rdma_ring_buffer_rust/shared/src/ref_ring_buffer/writer.rs:51-79 | as written: the slots [offset % bs, (offset + limit) % bs), or [offset % bs, bs) when offset > 0 and that end is 0, with that length and those elements; None exactly when the slice bounds are reversed |
| RustWriter.DerefMatchesReservation | rdma_ring_buffer_rust/shared/src/ref_ring_buffer/writer.rs:41-62 | a reservation of len > 0 slots dereferences to len slots exactly when the tail is at the buffer start (and, at stream position 0, len < bs); everywhere else the slice panics or has the wrong length |
| RustWriter.RingBufferWriter.Drop | rdma_ring_buffer_rust/shared/src/ref_ring_buffer/writer.rs:81-90 | stores offset + limit into the tail |
| RustWriter.DropOvershootsTail | rdma_ring_buffer_rust/shared/src/ref_ring_buffer/writer.rs:41-46 | with head = tail = 4 on 4 slots, a one-slot writer's Drop publishes 9 > head + bs |
| RustWriter.ReserveAndDrop | rdma_ring_buffer_rust/shared/src/ref_ring_buffer/writer.rs:81-90 | that reservation followed by Drop leaves the ring invalid |
| RustWriter.DerefPanicsPastStart | rdma_ring_buffer_rust/shared/src/ref_ring_buffer/writer.rs:56-62 | with head = tail = 5 on 8 slots, dereferencing a one-slot writer panics |
| RustWriter.WholeBufferDerefsEmpty | rdma_ring_buffer_rust/shared/src/ref_ring_buffer/writer.rs:56-62 | with head = tail = 0, a writer over the whole buffer dereferences to no slots |
| RustWriteChunk.TryReserve | rdma_ring_buffer_rust/shared/src/ref_ring_buffer/writer_chunk.rs:19-45 | None exactly when fewer than size slots are free before the buffer end; otherwise the chunk [tail, tail + size), which fits |
| RustWriteChunk.WriteChunk.Deref | rdma_ring_buffer_rust/shared/src/ref_ring_buffer/writer_chunk.rs:47-57 | the end - start slots from start % bs; None exactly when they do not fit |
| RustWriteChunk.ReservedLength | rdma_ring_buffer_rust/shared/src/ref_ring_buffer/writer_chunk.rs:37-56 | a successful reservation of size slots dereferences to exactly size slots |
| RustWriteChunk.WriteChunk.DerefMutWrite | rdma_ring_buffer_rust/shared/src/ref_ring_buffer/writer_chunk.rs:59-67 | filling the mutable slice stores data at slot start % bs onwards, changes no other slot, and deref then shows data |
| RustWriteChunk.WriteChunk.Commit | rdma_ring_buffer_rust/shared/src/ref_ring_buffer/writer_chunk.rs:69-79 | stores end into the tail |
| RustReadChunk.ReadChunk.Deref | rdma_ring_buffer_rust/shared/src/ref_ring_buffer/reader_chunk.rs:30-43 | the end - start slots from start % bs; None exactly when they do not fit |
| RustReadChunk.ReadChunk.Commit | rdma_ring_buffer_rust/shared/src/ref_ring_buffer/reader_chunk.rs:22-28 | stores end into the head; for a chunk inside the unread values, Contents() loses exactly its values |
| RustReceiver.Receiver.ReadExact | rdma_ring_buffer_rust/shared/src/ref_ring_buffer/receiver.rs:20-42 | None exactly when fewer than len unread values lie before the buffer end; otherwise [head, head + len), within the tail and the buffer |
| RustReceiver.Receiver.Read | rdma_ring_buffer_rust/shared/src/ref_ring_buffer/receiver.rs:46-62 | a chunk from the head that never passes the tail or wraps, and that stops only at the tail or at the buffer end |
| RustReceiver.ReadExactContents | rdma_ring_buffer_rust/shared/src/ref_ring_buffer/receiver.rs:36-40 | a read_exact chunk dereferences to the len oldest unread values |
| RustReceiver.ReadContents | rdma_ring_buffer_rust/shared/src/ref_ring_buffer/receiver.rs:56-60 | a read chunk dereferences to the oldest unread values |
| RustReceiver.ReadEmptyIff | rdma_ring_buffer_rust/shared/src/ref_ring_buffer/receiver.rs:52-54 | read comes back empty exactly when nothing is unread |
| RustReceiver.ReadAndCommit | rdma_ring_buffer_rust/shared/src/ref_ring_buffer/receiver.rs:46-62 | read, deref and commit take a non-empty prefix of the unread values whenever there is one |
| RustReceiver.Drain | rdma_ring_buffer_rust/shared/benches/ring_buffer.rs:86-89 | reading and committing until nothing is left returns all unread values in order and ends with head == tail |
| RustSender.Sender.TryReserve | rdma_ring_buffer_rust/shared/src/ref_ring_buffer/sender.rs:22-24 | the same reservation as WriteChunk::try_reserve |
| RustSender.Sender.Write | rdma_ring_buffer_rust/shared/src/ref_ring_buffer/sender.rs:27-70 | writes min(len, free) values, wrapping at the buffer end, to the slots after the tail; nothing else changes; Contents() gains exactly those values |
| RustSender.CopySegments | rdma_ring_buffer_rust/shared/src/ref_ring_buffer/sender.rs:44-64 | one copy when the run fits before the end, two (the second from slot 0) when it wraps; either way src lands in the slots after start |
| RustSender.CopyAndPublish | rdma_ring_buffer_rust/shared/src/ref_ring_buffer/sender.rs:42-68 | the copy followed by the tail store appends src to Contents() and keeps the ring valid |
| RustRingBuffer.RingBuffer.New | rdma_ring_buffer_rust/shared/src/ring_buffer.rs:16-22 | head and tail start at 0 in two distinct cells over n slots |
| RustRingBuffer.RingBuffer.ToRef | rdma_ring_buffer_rust/shared/src/ring_buffer.rs:24-26 | the view shares the owner's head, tail and buffer |
| RustRingBuffer.FreshView | rdma_ring_buffer_rust/shared/src/ring_buffer.rs:16-26 | a view over fresh counters is valid exactly when there is a slot, and then it is empty with every slot writable |
| RustRingBuffer.NewRef | rdma_ring_buffer_rust/shared/src/ring_buffer.rs:16-26 | new followed by to_ref gives a valid, empty view with n free slots |
| RustPipeline.SendBatch | rdma_ring_buffer_rust/shared/benches/ring_buffer.rs:67-75 | try_reserve, fill and commit succeed exactly when the batch fits before the buffer end, and then append the batch to Contents() |
| RustPipeline.FillAndCommit | rdma_ring_buffer_rust/shared/benches/ring_buffer.rs:70-75 | filling a reservation and committing it appends the batch and leaves the head alone |
| RustPipeline.ReceiveBatch | rdma_ring_buffer_rust/shared/benches/ring_buffer.rs:46-54 | read_exact, deref and commit give the len oldest values exactly when they lie before the buffer end, and remove them |
| RustPipeline.TransferBatch | rdma_ring_buffer_rust/shared/tests/ring_buffer.rs:22-37 | one batch through an empty ring comes out whole and in order exactly when it fits before the buffer end, and afterwards head == tail |
| RdmaRing.WriteLen | rdma_ring_buffer_rust/src/rdma_ring_buffer.rs:105-109 | write_size clamped to N - (tail - head): never above either, and equal to one of them |
| RdmaRing.ReadLen | rdma_ring_buffer_rust/src/rdma_ring_buffer.rs:59-63 | tail - head clamped to count when count > 0: never above either, and equal to one of them |
| RdmaRing.WriteMessages | rdma_ring_buffer_rust/src/rdma_ring_buffer.rs:119-125 | one Write message per value, in order |
| RdmaRing.Payload | rdma_ring_buffer_rust/src/rdma_ring_buffer.rs:149-152 | the values a run of Write messages carries |
| RdmaRing.PayloadOfWriteMessages | rdma_ring_buffer_rust/src/rdma_ring_buffer.rs:119-129 | the sent batch carries back exactly the values written |
| RdmaRing.RingBuffer.NewAlloc | rdma_ring_buffer_rust/src/rdma_ring_buffer.rs:16-25 | head and tail 0 over a fresh array of n slots; nothing sent |
| RdmaRing.RingBuffer.New | rdma_ring_buffer_rust/src/rdma_ring_buffer.rs:27-38 | head and tail 0 over the caller's array; nothing sent |
| RdmaRing.RingBuffer.AvailableRead | rdma_ring_buffer_rust/src/rdma_ring_buffer.rs:134-139 | defined exactly when head <= tail; in a valid ring it is the number of unread values |
| RdmaRing.RingBuffer.AvailableWrite | rdma_ring_buffer_rust/src/rdma_ring_buffer.rs:141-146 | defined exactly when 0 <= tail - head <= N; in a valid ring it is the number of free slots |
| RdmaRing.RingBuffer.AvailableSum | rdma_ring_buffer_rust/src/rdma_ring_buffer.rs:134-146 | whenever avaliable_write is defined, avaliable_read is too, and they add up to N |
| RdmaRing.RingBuffer.AbsorbAcks | rdma_ring_buffer_rust/src/rdma_ring_buffer.rs:95-101 | fails exactly when some message is not a Read; otherwise the head is the loaded head plus the last acknowledged size |
| RdmaRing.RingBuffer.AbsorbData | rdma_ring_buffer_rust/src/rdma_ring_buffer.rs:49-57 | fails exactly when some message is not a Write, or when there are messages and N = 0; otherwise every value went to slot tail_loaded % N and the tail is tail_loaded + 1 |
| RdmaRing.RingBuffer.CopyIn | rdma_ring_buffer_rust/src/rdma_ring_buffer.rs:113-115 | src[i] lands in slot (wp + i) % N and no other slot changes |
| RdmaRing.RingBuffer.CopyOut | rdma_ring_buffer_rust/src/rdma_ring_buffer.rs:73-75 | out[i] is slot (rp + i) % N for i < n; the rest of out is unchanged |
| RdmaRing.RingBuffer.SendWrites | rdma_ring_buffer_rust/src/rdma_ring_buffer.rs:119-129 | the outbox gains one Write per value, in order |
| RdmaRing.RingBuffer.Write | rdma_ring_buffer_rust/src/rdma_ring_buffer.rs:86-132 | panics exactly on a non-Read message, N = 0, a subtraction below zero, or a count above the input; otherwise writes WriteLen values (from the loaded head and tail) after the tail, publishes tail + n, sends one Write per value, and with no messages appends the values to Contents() |
| RdmaRing.RingBuffer.Read | rdma_ring_buffer_rust/src/rdma_ring_buffer.rs:40-84 | panics exactly on a non-Write message, % 0, tail < head or a short out; otherwise takes ReadLen values from the loaded head into out, moves the head by that count, and sends Read(n) only when n > 0; with no messages out holds the n oldest values and Contents() loses them |
| RdmaRing.AppendedContents | rdma_ring_buffer_rust/src/rdma_ring_buffer.rs:113-117 | the copy and tail store of write append the copied values to the window |
| RdmaRing.TakenContents | rdma_ring_buffer_rust/src/rdma_ring_buffer.rs:73-77 | the copy of read is the window's prefix, and the head store drops it |
| RdmaRing.AcksInOneBatchCountOnce | rdma_ring_buffer_rust/src/rdma_ring_buffer.rs:95-101 | as written, two Read(1) in one batch move the head by 1, but in two batches by 2 |
| RdmaRing.Acknowledged | rdma_ring_buffer_rust/src/rdma_ring_buffer.rs:95-101 | the intended handling: each Read(size) moves the head on from where the previous one left it |
| RdmaRing.AcknowledgedBatches | rdma_ring_buffer_rust/src/rdma_ring_buffer.rs:95-101 | with the intended handling, splitting the acknowledgements into batches does not change the head |
| RdmaRing.BatchedWritesCollapse | rdma_ring_buffer_rust/src/rdma_ring_buffer.rs:49-56 | as written, a write of [1, 2] reaches an empty two-slot reader as the single value 2 |
| RdmaRing.Delivered | rdma_ring_buffer_rust/src/rdma_ring_buffer.rs:49-56 | the intended handling: the i-th Write of a batch goes to slot (tail + i) % N |
| RdmaRing.DeliveryAppends | rdma_ring_buffer_rust/src/rdma_ring_buffer.rs:49-56 | with the intended handling, delivered values join the unread values in order |
| RdmaRing.MirroredWrite | rdma_ring_buffer_rust/src/rdma_ring_buffer.rs:119-129 | with the intended handling, the batch one write sends adds exactly the written values to the reader |
| RingBufferMetadata.LeBytes | rdma_ring_buffer_rust/shared/src/ipc/ring_buffer_metadata.rs:12 | to_le_bytes gives exactly k bytes |
| RingBufferMetadata.FromLe | rdma_ring_buffer_rust/shared/src/ipc/ring_buffer_metadata.rs:23 | from_le_bytes of k bytes is below 256^k |
| RingBufferMetadata.LeRoundTrip | rdma_ring_buffer_rust/shared/src/ipc/ring_buffer_metadata.rs:12-23 | from_le_bytes(to_le_bytes(x)) == x for every x that fits |
| RingBufferMetadata.Encode | rdma_ring_buffer_rust/shared/src/ipc/ring_buffer_metadata.rs:10-18 | 8 + |name| bytes, with the name after the first 8 |
| RingBufferMetadata.Decode | rdma_ring_buffer_rust/shared/src/ipc/ring_buffer_metadata.rs:20-32 | fails exactly when fewer than 8 bytes arrive; the length is the little-endian value of the first 8; the name is the next min(256, ready, rest) bytes |
| RingBufferMetadata.RoundTrip | rdma_ring_buffer_rust/shared/src/ipc/ring_buffer_metadata.rs:10-32 | decoding an encoding gives the metadata back when the name is at most 256 bytes and the read delivers all of it |
| RingBufferMetadata.LongNameTruncated | rdma_ring_buffer_rust/shared/src/ipc/ring_buffer_metadata.rs:25-30 | a name longer than 256 bytes comes back cut to its first 256 |

## Left out

- `printBuf` (`ref_ring_buffer.hpp:235-242`) is a hex dump to stdout: I/O.
- Three small C++ details are left out. The `std::cout` message of `set_capacity_inunit` (`ref_ring_buffer.hpp:128`) is I/O. `read`'s default argument `cnt = -1` (`ref_ring_buffer.hpp:63`) is not modelled: the model's `cnt` is always explicit, and any cnt <= 0 means no limit. The `std::memory_order` default arguments of the getters and setters (`ref_ring_buffer.hpp:171-201`) are left out because the model is sequential.
- `get_buf_offset_in_region` is pointer arithmetic with no counterpart in the model.
- `getBufAddress`, `get_capacity_inbytes` and `set_serve_ctrl` only return or store a field.
- The fields `padding`, `serve_ctrl`, `dma_pace`, `hold_snapshot`, `buffer_pos_for_snapshot` and `require_consumeReadData`, and the `doca_buf` handles, are never read by the core.
- `set_buf_addr`, `set_head_addr`, `set_tail_addr` and `set_consumeReadData_addr` become constructor parameters of `CppRefRingBuffer.RefRingBuffer`.
- The C++ element type `T` is a byte, so `sizeof(T)` is 1.
- Memory ordering and real two-thread interleaving are left out. The publication order (copy first, counter store last) is kept, and both sides run as sequential calls.
- Rust `usize` is an unbounded natural, so the model has no 64-bit overflow of `tail + len`.
- `MaybeUninit` slots hold ordinary values: the constructors fill them with a given value.
- `RefRingBuffer::alloc_write` calls `RingBufferWriter::reserve`, which `writer.rs` does not define. Only `try_reserve` is modelled.
- `RefRingBuffer::read` builds its reader with the fields `offset` and `limit`, while `reader.rs` declares `start` and `end`. `RustReader.Read` fills `start` and `end` with those values.
- `Sender::new`, `Receiver::new` and their `ring_buffer()` getters are the datatype constructors and the `ring` field.
- `RingBufferConst`, `split` and `reserve_write`, which the shared test and benchmark call, are not part of this model. `RustPipeline` uses `try_reserve` and `read_exact` in their place.
- The shared ring methods (`RustRefRingBuffer.RefRingBuffer.Write`, `RustSender.Sender.Write`, the reservations and reads): they require the ring invariant `Valid()` and do not model how a broken ring panics (`% 0`, `tail - head` below zero).
- CppRefRingBuffer.RefRingBuffer.Write requires writeSize <= |data|. The C++ code trusts the caller's pointer, and an overrun is undefined behaviour.
- CppRefRingBuffer.RefRingBuffer.Read requires a destination that is distinct from the region and holds at least the bytes it may take. The reason is the same.
- RustWriteChunk.WriteChunk.Commit and RustWriter.RingBufferWriter.Drop: they state only the tail store. What a commit does to `Contents()` is proved in `RustPipeline.FillAndCommit`.
- RdmaRing.RingBuffer.Write and RdmaRing.RingBuffer.Read: they state the effect on `Contents()` only when no messages arrive during the call. After a `Panic` they state nothing about the state, because Rust unwinds with the ring half-updated.
- RdmaRing.RingBuffer.Write and RdmaRing.RingBuffer.Read take unsigned subtraction below zero to panic, as in a debug build. A release build wraps instead, and that is not modelled.
- The `CommunicationManager` trait, and the `unwrap` of a failing `send_message` or `recv_message`, are left out. Received messages are a parameter and sent ones are the `outbox` field.
- `write_to_ipc` ignores the count that `Write::write` returns, and it can unwrap an I/O error. The model's stream takes every byte; short writes, I/O errors and `flush` are not modelled.
- `read_from_ipc`: the stream is a byte sequence, and `ready` is how many bytes the pipe hands over to the single `read`. The pipe itself (`ipc.rs`) is not part of this model.

## Findings

| source | as written | input that shows it | evidently intended | confidence | as-written member | corrected member |
|---|---|---|---|---|---|---|
| rdma_ring_buffer_rust/shared/src/ref_ring_buffer/reader.rs:39-40 | an empty reader whose end is a nonzero multiple of bs takes the `[start..]` branch | head = tail = 4 on 4 slots: the reader from `read` dereferences to all 4 slots | an empty reader dereferences to no values | not executed; high | RustReader.EmptyReadDerefsToBuffer | RustReadChunk.ReadChunk.Deref |
| rdma_ring_buffer_rust/shared/src/ref_ring_buffer/writer.rs:44 | `limit` is stored as `tail + len`, and `Drop` publishes `offset + limit` | head = tail = 4 on 4 slots, try_reserve(1): Drop stores tail 9 | publish tail + len | not executed; high | RustWriter.ReserveAndDrop | RustWriteChunk.WriteChunk.Commit |
| rdma_ring_buffer_rust/shared/src/ref_ring_buffer/writer.rs:57 | deref's end is `(offset + limit) % bs`, which counts the offset twice | head = tail = 5 on 8 slots, try_reserve(1): slice [5..3] panics | a slice of the len reserved slots | not executed; high | RustWriter.DerefPanicsPastStart | RustWriteChunk.ReservedLength |
| rdma_ring_buffer_rust/src/rdma_ring_buffer.rs:49-53 | every Write of a received batch goes to slot `tail_loaded % N`, and the tail becomes `tail_loaded + 1` | the writer's write of [1, 2] into an empty 2-slot ring reaches the reader as [2] | the i-th value to slot (tail + i) % N, and the tail moves by the batch length | not executed; high (write sends its whole batch in one send_message) | RdmaRing.BatchedWritesCollapse | RdmaRing.DeliveryAppends |
| rdma_ring_buffer_rust/src/rdma_ring_buffer.rs:95-97 | every Read(size) of a received batch sets the head to `head_loaded + size` | Read(1), Read(1) in one batch move the head by 1 | the sizes accumulate | not executed; medium (needs two reads between two writes) | RdmaRing.AcksInOneBatchCountOnce | RdmaRing.AcknowledgedBatches |

The as-written behaviour is what the operations model. `RustReader.RingBufferReader.Deref`,
`RustWriter.RingBufferWriter.Deref` and `.Drop`, and `RdmaRing.RingBuffer.AbsorbData` and
`.AbsorbAcks` follow the code. The corrected definitions are used elsewhere in the model:
- `RustReadChunk`, `RustWriteChunk` and `RustPipeline` are the chunk API the shared ring's
  receiver and sender use.
- `RdmaRing.Delivered` and `RdmaRing.Acknowledged` state the intended message handling.
  `RdmaRing.MirroredWrite` and `RdmaRing.AcknowledgedBatches` prove it.
