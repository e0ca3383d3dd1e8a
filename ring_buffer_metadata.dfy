/**
 * ipc::ring_buffer_metadata: what the two processes exchange over the pipe to agree on a ring,
 * the ring's length as 8 little-endian bytes followed by the bytes of the shared memory's name.
 * A stream is the sequence of bytes it holds; a failed read is None (the source unwraps).
 */
module RingBufferMetadata {
  import opened Arith
  import opened Wrappers

  /** The largest name a single read of the 256-byte name buffer brings back. */
  const NAME_CAPACITY: nat := 256

  /** usize is 8 bytes on the targets the source is built for. */
  const LEN_BYTES: nat := 8

  datatype RingBufferMetaData = RingBufferMetaData(ringBufferLen: u64, sharedMemoryName: seq<byte>)

  function Pow256(k: nat): (p: nat)
    ensures p > 0
  {
    if k == 0 then 1 else 256 * Pow256(k - 1)
  }

  /** to_le_bytes: the k lowest base-256 digits of x, least significant first. */
  function LeBytes(x: nat, k: nat): (b: seq<byte>)
    ensures |b| == k
  {
    if k == 0 then [] else [x % 256] + LeBytes(x / 256, k - 1)
  }

  /** from_le_bytes: the number whose base-256 digits, least significant first, are b. */
  function FromLe(b: seq<byte>): (x: nat)
    ensures x < Pow256(|b|)
  {
    if b == [] then 0 else b[0] + 256 * FromLe(b[1..])
  }

  /** Decoding the k little-endian bytes of a number below 256^k gives the number back. */
  lemma {:induction false} LeRoundTrip(x: nat, k: nat)
    requires x < Pow256(k)
    ensures FromLe(LeBytes(x, k)) == x
  {
    if k > 0 {
      LeRoundTrip(x / 256, k - 1);
      assert LeBytes(x, k)[1..] == LeBytes(x / 256, k - 1);
    }
  }

  lemma Pow256Of8()
    ensures Pow256(LEN_BYTES) == TWO_64
  {}

  /** write_to_ipc: the length's 8 little-endian bytes, then the name. */
  function Encode(m: RingBufferMetaData): (bytes: seq<byte>)
    ensures |bytes| == LEN_BYTES + |m.sharedMemoryName|
    ensures bytes[LEN_BYTES..] == m.sharedMemoryName
  {
    LeBytes(m.ringBufferLen, LEN_BYTES) + m.sharedMemoryName
  }

  /**
   * read_from_ipc: read_exact of 8 bytes (None when the stream ends first), then one read
   * into a 256-byte buffer, which delivers min(256, ready, bytes left) bytes; ready is how
   * many the pipe hands over in that call.
   */
  function Decode(stream: seq<byte>, ready: nat): (r: Option<RingBufferMetaData>)
    ensures r.None? <==> |stream| < LEN_BYTES
    ensures r.Some? ==> r.value.ringBufferLen == FromLe(stream[..LEN_BYTES])
    ensures r.Some? ==> |r.value.sharedMemoryName| == Min(NAME_CAPACITY, Min(ready, |stream| - LEN_BYTES))
    ensures r.Some? ==> r.value.sharedMemoryName == stream[LEN_BYTES..LEN_BYTES + |r.value.sharedMemoryName|]
  {
    if |stream| < LEN_BYTES then None
    else
      var lenBytes := stream[..LEN_BYTES];
      Pow256Of8();
      var delivered := Min(NAME_CAPACITY, Min(ready, |stream| - LEN_BYTES));
      Some(RingBufferMetaData(FromLe(lenBytes), stream[LEN_BYTES..LEN_BYTES + delivered]))
  }

  /**
   * Decoding an encoding gives the metadata back when the name fits the 256-byte buffer and
   * the read hands over all of it.
   */
  lemma RoundTrip(m: RingBufferMetaData, ready: nat)
    requires |m.sharedMemoryName| <= NAME_CAPACITY && ready >= |m.sharedMemoryName|
    ensures Decode(Encode(m), ready) == Some(m)
  {
    var bytes := Encode(m);
    assert bytes[..LEN_BYTES] == LeBytes(m.ringBufferLen, LEN_BYTES);
    Pow256Of8();
    LeRoundTrip(m.ringBufferLen, LEN_BYTES);
    assert bytes[LEN_BYTES..LEN_BYTES + |m.sharedMemoryName|] == m.sharedMemoryName;
  }

  /** A longer name comes back cut to its first 256 bytes. */
  lemma LongNameTruncated(m: RingBufferMetaData, ready: nat)
    requires |m.sharedMemoryName| > NAME_CAPACITY && ready >= NAME_CAPACITY
    ensures Decode(Encode(m), ready) == Some(RingBufferMetaData(m.ringBufferLen, m.sharedMemoryName[..NAME_CAPACITY]))
  {
    var bytes := Encode(m);
    assert bytes[..LEN_BYTES] == LeBytes(m.ringBufferLen, LEN_BYTES);
    Pow256Of8();
    LeRoundTrip(m.ringBufferLen, LEN_BYTES);
    assert bytes[LEN_BYTES..LEN_BYTES + NAME_CAPACITY] == m.sharedMemoryName[..NAME_CAPACITY];
  }
}
