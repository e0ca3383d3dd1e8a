/**
 * The C++ RefRingBuffer<T, Max_Count> (rdma_ring_buffer_cpp/ref_ring_buffer.hpp) with T a byte:
 * a single-producer/single-consumer ring over a region it does not own. Head and tail are
 * 32-bit counters of units held in external atomic cells; one unit is bytesScale bytes.
 */
module CppRefRingBuffer {
  import opened Arith
  import opened RingWindow

  /** An externally stored std::atomic<uint32_t>. */
  class AtomicU32 {
    var value: u32

    constructor (v: u32)
      ensures value == v
    {
      value := v;
    }
  }

  /** An externally stored std::atomic<uint64_t>. */
  class AtomicU64 {
    var value: u64

    constructor (v: u64)
      ensures value == v
    {
      value := v;
    }
  }

  /**
   * Where a 32-bit unit counter lands in a region of cu * s bytes. cu divides 2^32, so the
   * counter's wrap-around at 2^32 does not move the byte position.
   */
  lemma WrappedPosition(a: u32, d: nat, s: nat, cu: nat)
    requires s > 0 && IsPow2(cu) && cu < TWO_32
    ensures (Wrap32(a + d) * s) % (cu * s) == ((a * s) % (cu * s) + d * s) % (cu * s)
  {
    var k := Pow2Factor(cu);
    DivMod(a + d, TWO_32);
    MulAtLeast(cu, s);
    ScaledModShift(a + d, Wrap32(a + d), (a + d) / TWO_32, TWO_32, s, cu, k);
    ModOfMod(a * s, d * s, cu * s);
    ScaleSum(a, d, s);
  }

  /** A power of two below 2^32 divides 2^32. */
  lemma Pow2Factor(cu: nat) returns (k: nat)
    requires IsPow2(cu) && cu < TWO_32
    ensures TWO_32 == cu * k
  {
    Pow2Of2To32();
    Pow2Divides(cu, TWO_32);
    k := TWO_32 / cu;
    DivMod(TWO_32, cu);
  }

  /** Adding a multiple of cu * k, scaled by s, does not change a value modulo cu * s. */
  lemma ScaledModShift(x: int, w: int, q: int, m: int, s: int, cu: int, k: int)
    requires x == m * q + w && m == cu * k && cu * s > 0
    ensures (x * s) % (cu * s) == (w * s) % (cu * s)
  {
    SplitScaled(x, w, q, m, s, cu, k);
    ModShift(w * s, k * q, cu * s);
  }

  /** The tail's byte position is the head's plus the scaled distance between the counters. */
  lemma CounterPositions(h: u32, t: u32, s: nat, cu: nat)
    requires s > 0 && IsPow2(cu) && cu < TWO_32
    ensures (t * s) % (cu * s) == ((h * s) % (cu * s) + Wrap32(t - h) * s) % (cu * s)
  {
    Wrap32Add(t - h, h);
    assert Wrap32(h + Wrap32(t - h)) == t;
    WrappedPosition(h, Wrap32(t - h), s, cu);
  }

  /** The same for a byte count of whole units. */
  lemma AdvancedPosition(a: u32, n: nat, s: nat, cu: nat)
    requires s > 0 && IsPow2(cu) && cu < TWO_32 && n % s == 0
    ensures (Wrap32(a + n / s) * s) % (cu * s) == ((a * s) % (cu * s) + n) % (cu * s)
  {
    WrappedPosition(a, n / s, s, cu);
    DivMod(n, s);
  }

  lemma SplitScaled(x: int, w: int, q: int, m: int, s: int, cu: int, k: int)
    requires x == m * q + w && m == cu * k
    ensures x * s == w * s + (cu * s) * (k * q)
  {
    assert x * s == (m * q) * s + w * s;
    assert (m * q) * s == (cu * s) * (k * q);
  }

  lemma ScaleSum(x: int, y: int, s: int)
    ensures (x + y) * s == x * s + y * s
  {}

  /** A 32-bit counter difference scaled by s, reduced modulo 2^32, is the true scaled distance. */
  lemma ScaledDistance(t: int, h: int, s: nat)
    ensures Wrap32((t - h) * s) == Wrap32(Wrap32(t - h) * s)
  {
    var q := (t - h) / TWO_32;
    assert t - h == Wrap32(t - h) + TWO_32 * q;
    assert (t - h) * s == Wrap32(t - h) * s + TWO_32 * (q * s);
    ModShift(Wrap32(t - h) * s, q * s, TWO_32);
  }

  lemma Wrap32Of64(x: int)
    ensures Wrap32(Wrap64(x)) == Wrap32(x)
  {
    assert TWO_64 == TWO_32 * TWO_32;
    ModShift(Wrap64(x), TWO_32 * (x / TWO_64), TWO_32);
    assert Wrap64(x) + TWO_32 * (TWO_32 * (x / TWO_64)) == x;
  }

  lemma Wrap64Sub(c: int, y: int)
    ensures Wrap64(c - Wrap64(y)) == Wrap64(c - y)
  {
    ModShift(c - y, y / TWO_64, TWO_64);
    assert c - y + TWO_64 * (y / TWO_64) == c - Wrap64(y);
  }

  /** Moving a 32-bit counter forward by e moves its distance from another counter by e, while it fits. */
  lemma AdvanceCounter(h: u32, t: u32, e: nat)
    requires Wrap32(t - h) + e < TWO_32
    ensures Wrap32(Wrap32(t + e) - h) == Wrap32(t - h) + e
  {
    Wrap32Add(t as int + e, -(h as int));
    Wrap32Add(t as int - h, e);
    Wrap32Small(Wrap32(t - h) + e);
  }

  /** Rounding down to a multiple of s, as `x - x % s`, keeps the largest multiple not above x. */
  lemma RoundDown(x: nat, s: nat)
    requires s > 0
    ensures x % s <= x && (x - x % s) % s == 0 && x < (x - x % s) + s
    ensures s == 1 ==> x - x % s == x
  {
    DivMod(x, s);
    ModUnique(x - x % s, x / s, 0, s);
  }

  /** A byte count that is whole units, added to a counter of units scaled to bytes, divides back exactly. */
  lemma WholeUnits(t: u32, n: u32, s: u32)
    requires s > 0 && n % s == 0
    ensures t * s + n < TWO_64
    ensures (t * s + n) / s == t + n / s && (n / s) * s == n
  {
    MulBound32(t, s);
    DivMod(n, s);
    assert n == s * (n / s);
    assert t * s + n == s * (t + n / s) by {
      assert s * (t + n / s) == s * t + s * (n / s);
    }
    ModUnique(t * s + n, t + n / s, 0, s);
  }

  /** Publishing tail + n, for n whole units that fit, stores the counter advanced by n / s units. */
  lemma TailArithmetic(h: u32, t: u32, s: u32, n: u32)
    requires s > 0 && n % s == 0 && Wrap32(t - h) * s + n < TWO_32
    ensures Wrap64(t * s + n) == t * s + n
    ensures Wrap32(Wrap64(t * s + n) / s) == Wrap32(t + n / s)
    ensures Wrap32(Wrap32(t + n / s) - h) * s == Wrap32(t - h) * s + n
  {
    WholeUnits(t, n, s);
    Wrap64Small(t * s + n);
    UnitsFit(Wrap32(t - h), n, s);
    AdvanceCounter(h, t, n / s);
  }

  lemma UnitsFit(w: nat, n: nat, s: nat)
    requires s > 0 && n % s == 0 && w * s + n < TWO_32
    ensures w + n / s < TWO_32 && (w + n / s) * s == w * s + n
  {
    DivMod(n, s);
    assert (w + n / s) * s == w * s + (n / s) * s;
    MulMono(w + n / s, 1, s);
  }

  /** Consuming n whole-unit bytes moves the head counter by n / s units and shrinks the distance by n. */
  lemma HeadArithmetic(h: u32, t: u32, s: u32, n: u32)
    requires s > 0 && n % s == 0 && n <= Wrap32(t - h) * s
    ensures Wrap64(h * s + n) == h * s + n
    ensures Wrap32(Wrap64(h * s + n) / s) == Wrap32(h + n / s)
    ensures Wrap32(t - Wrap32(h + n / s)) * s == Wrap32(t - h) * s - n
  {
    WholeUnits(h, n, s);
    Wrap64Small(h * s + n);
    var w, e := Wrap32(t - h), n / s;
    MulCancel(e, w, s);
    RetreatCounter(h, t, e);
    ScaleSub(w, e, s);
  }

  /** Moving the behind counter forward by e, at most the distance, shrinks the distance by e. */
  lemma RetreatCounter(h: u32, t: u32, e: nat)
    requires e <= Wrap32(t - h)
    ensures Wrap32(t - Wrap32(h + e)) == Wrap32(t - h) - e
  {
    ModShift(t - (h + e), (h + e) / TWO_32, TWO_32);
    assert t - Wrap32(h + e) == t - (h + e) + TWO_32 * ((h + e) / TWO_32);
    Wrap32Add(t as int - h, -(e as int));
    Wrap32Small(Wrap32(t - h) - e);
  }

  lemma ScaleSub(w: int, e: int, s: int)
    ensures (w - e) * s == w * s - e * s
  {}

  /**
   * The 64-bit difference of the byte counters, cut to 32 bits, is the true scaled distance,
   * and the capacity minus it, formed the same way, is the free space.
   */
  lemma ReadableBytes(t: u32, h: u32, s: nat, cap: nat)
    requires Wrap32(t - h) * s <= cap < TWO_32
    ensures Wrap32(Wrap64(t * s - h * s)) == Wrap32(t - h) * s
    ensures Wrap32(Wrap64(cap - Wrap64(t * s - h * s))) == cap - Wrap32(t - h) * s
  {
    var w, q := Wrap32(t - h), (t - h) / TWO_32;
    var y := t * s - h * s;
    assert y == w * s + TWO_32 * (q * s) by {
      assert t - h == w + TWO_32 * q;
      assert y == (t - h) * s;
      ScaleSum(w, TWO_32 * q, s);
    }
    WrappedDistance(y, w * s, q * s, cap);
  }

  lemma WrappedDistance(y: int, d: nat, k: int, cap: nat)
    requires y == d + TWO_32 * k && d <= cap < TWO_32
    ensures Wrap32(Wrap64(y)) == d
    ensures Wrap32(Wrap64(cap - Wrap64(y))) == cap - d
  {
    Wrap32Of64(y);
    ModShift(d, k, TWO_32);
    Wrap32Small(d);
    Wrap64Sub(cap, y);
    Wrap32Of64(cap - y);
    ModShift(cap - d, -k, TWO_32);
    Wrap32Small(cap - d);
  }

  lemma Wrap32Add(x: int, y: int)
    ensures Wrap32(Wrap32(x) + y) == Wrap32(x + y)
  {
    ModOfMod(x, y, TWO_32);
  }

  class RefRingBuffer {
    var bufAddr: array<byte>
    var headAddr: AtomicU32
    var tailAddr: AtomicU32
    var consumeReadData: AtomicU64
    var bytesScale: u32
    var capacityInUnit: u32
    var capacityInBytes: u32
    var ringMask: u32

    /**
     * The field initialisers of the class; the four addresses, which the class leaves for
     * set_buf_addr, set_head_addr, set_tail_addr and set_consumeReadData_addr, are given here.
     */
    constructor (maxCount: u32, buf: array<byte>, head: AtomicU32, tail: AtomicU32, consume: AtomicU64)
      ensures bufAddr == buf && headAddr == head && tailAddr == tail && consumeReadData == consume
      ensures bytesScale == 1 && capacityInUnit == maxCount && capacityInBytes == maxCount
      ensures ringMask == Wrap32(maxCount - 1)
      ensures (head != tail && IsPow2(maxCount) && maxCount <= buf.Length && Wrap32(tail.value - head.value) <= maxCount)
              ==> Valid()
    {
      Wrap32Small(maxCount);
      bufAddr, headAddr, tailAddr, consumeReadData := buf, head, tail, consume;
      bytesScale := 1;
      capacityInUnit := maxCount;
      capacityInBytes := Wrap32(maxCount * 1);
      ringMask := Wrap32(maxCount - 1);
    }

    /** Units between head and tail, as the 32-bit counters see them. */
    ghost function UsedUnits(): u32
      reads this, headAddr, tailAddr
    {
      Wrap32(tailAddr.value - headAddr.value)
    }

    ghost function UsedBytes(): nat
      reads this, headAddr, tailAddr
    {
      UsedUnits() * bytesScale
    }

    /**
     * The configuration the data path depends on, and the occupancy invariant
     * 0 <= tail - head <= capacity_inbytes.
     */
    ghost predicate Valid()
      reads this, headAddr, tailAddr
    {
      && headAddr != tailAddr
      && bytesScale > 0
      && IsPow2(capacityInUnit)
      && capacityInBytes == capacityInUnit * bytesScale
      && capacityInBytes <= bufAddr.Length
      && UsedBytes() <= capacityInBytes
    }

    ghost function ReadPos(): nat
      reads this, headAddr
      requires capacityInBytes > 0
    {
      (headAddr.value * bytesScale) % capacityInBytes
    }

    ghost function WritePos(): nat
      reads this, tailAddr
      requires capacityInBytes > 0
    {
      (tailAddr.value * bytesScale) % capacityInBytes
    }

    /** The bytes written and not yet read, oldest first. */
    ghost function Contents(): seq<byte>
      reads this, headAddr, tailAddr, bufAddr
      requires Valid()
    {
      Window(bufAddr[..], capacityInBytes, ReadPos(), UsedBytes())
    }

    /** In a valid state the write position is the slot that follows the last written byte. */
    lemma WritePosFollowsContents()
      requires Valid()
      ensures WritePos() == (ReadPos() + UsedBytes()) % capacityInBytes
    {
      CounterPositions(headAddr.value, tailAddr.value, bytesScale, capacityInUnit);
    }

    function GetTailInBytes(): (r: u64)
      reads this, tailAddr
      ensures r == tailAddr.value * bytesScale
    {
      Fits64(tailAddr.value, bytesScale);
      Wrap64(tailAddr.value * bytesScale)
    }

    function GetHeadInBytes(): (r: u64)
      reads this, headAddr
      ensures r == headAddr.value * bytesScale
    {
      Fits64(headAddr.value, bytesScale);
      Wrap64(headAddr.value * bytesScale)
    }

    function GetTailInUnit(): (r: u32)
      reads this, tailAddr
      ensures r * bytesScale == GetTailInBytes()
    {
      tailAddr.value
    }

    function GetHeadInUnit(): (r: u32)
      reads this, headAddr
      ensures r * bytesScale == GetHeadInBytes()
    {
      headAddr.value
    }

    /** Stores a byte count as units; reading it back gives the same count when it is whole units. */
    method SetTailInBytes(val: u64)
      requires bytesScale > 0
      modifies tailAddr
      ensures tailAddr.value == Wrap32(val / bytesScale)
      ensures val % bytesScale == 0 && val / bytesScale < TWO_32 ==> GetTailInBytes() == val
    {
      tailAddr.value := Wrap32(val / bytesScale);
    }

    method SetHeadInBytes(val: u64)
      requires bytesScale > 0
      modifies headAddr
      ensures headAddr.value == Wrap32(val / bytesScale)
      ensures val % bytesScale == 0 && val / bytesScale < TWO_32 ==> GetHeadInBytes() == val
    {
      headAddr.value := Wrap32(val / bytesScale);
    }

    method SetTailInUnit(val: u32)
      modifies tailAddr
      ensures tailAddr.value == val && GetTailInBytes() == val * bytesScale
    {
      tailAddr.value := val;
    }

    method SetHeadInUnit(val: u32)
      modifies headAddr
      ensures headAddr.value == val && GetHeadInBytes() == val * bytesScale
    {
      headAddr.value := val;
    }

    /** The 32-bit distance from behind to front: adding it to behind gives front again. */
    function CalculateDistanceInBytes(behind: u32, front: u32): (r: u32)
      ensures Wrap32(behind + r) == front
      ensures front >= behind ==> r == front - behind
    {
      Wrap32Add(front - behind, behind);
      Wrap32(front - behind)
    }

    /** The unit distance scaled to bytes, computed in 32 bits. */
    function CalculateBytesDistanceFromUnit(behind: u32, front: u32): (r: u32)
      reads this
      ensures (r - (front - behind) * bytesScale) % TWO_32 == 0
      ensures front >= behind && (front - behind) * bytesScale < TWO_32 ==> r == (front - behind) * bytesScale
    {
      ScaledDistance(front, behind, bytesScale);
      ModDiff((front - behind) * bytesScale, TWO_32);
      Wrap32(Wrap32(front - behind) * bytesScale)
    }

    function BoundHeadTail(val: u32): (r: u32)
      reads this
      requires capacityInBytes > 0
      ensures r < capacityInBytes && (val - r) % capacityInBytes == 0
    {
      ModUnique(val - val % capacityInBytes, val / capacityInBytes, 0, capacityInBytes);
      val % capacityInBytes
    }

    /** Byte offset in the region of a byte counter: congruent to it and inside the region. */
    function GetWritePosFromBytes(tailInBytes: u64): (r: u32)
      reads this
      requires capacityInBytes > 0
      ensures r < capacityInBytes && (tailInBytes - r) % capacityInBytes == 0
    {
      DivMod(tailInBytes, capacityInBytes);
      ModShift(0, tailInBytes / capacityInBytes, capacityInBytes);
      tailInBytes % capacityInBytes
    }

    /** The same computation as GetWritePosFromBytes, applied to the head. */
    function GetReadPosFromBytes(headInBytes: u64): (r: u32)
      reads this
      requires capacityInBytes > 0
      ensures r < capacityInBytes && (headInBytes - r) % capacityInBytes == 0
    {
      GetWritePosFromBytes(headInBytes)
    }

    /**
     * Position of a unit counter. The product is formed in 64 bits, where it cannot overflow,
     * so the result is the exact (tailInUnit * bytesScale) mod capacityInBytes.
     */
    function GetWritePosFromUnit(tailInUnit: u32): (r: u32)
      reads this
      requires capacityInBytes > 0
      ensures r == (tailInUnit * bytesScale) % capacityInBytes
      ensures tailInUnit == tailAddr.value ==> r == GetWritePosFromBytes(GetTailInBytes())
    {
      Fits64(tailInUnit, bytesScale);
      var tailInBytes: u64 := Wrap64(tailInUnit * bytesScale);
      tailInBytes % capacityInBytes
    }

    function GetReadPosFromUnit(headInUnit: u32): (r: u32)
      reads this
      requires capacityInBytes > 0
      ensures r == (headInUnit * bytesScale) % capacityInBytes
      ensures headInUnit == headAddr.value ==> r == GetReadPosFromBytes(GetHeadInBytes())
    {
      Fits64(headInUnit, bytesScale);
      var headInBytes: u64 := Wrap64(headInUnit * bytesScale);
      headInBytes % capacityInBytes
    }

    /** Bytes readable now: the mixed 64/32-bit arithmetic gives the true distance, across counter wrap-around too. */
    function ReadAvailableInBytes(): (r: u32)
      reads this, headAddr, tailAddr
      ensures Valid() ==> r == UsedBytes()
    {
      var head := GetHeadInBytes();
      var tail := GetTailInBytes();
      AvailableArithmetic();
      Wrap32(Wrap64(tail - head))
    }

    /** Bytes writable now; with ReadAvailableInBytes it always adds up to the capacity. */
    function WriteAvailableInBytes(): (r: u32)
      reads this, headAddr, tailAddr
      ensures Valid() ==> r == capacityInBytes - UsedBytes()
      ensures Valid() ==> r + ReadAvailableInBytes() == capacityInBytes
    {
      var head := GetHeadInBytes();
      var tail := GetTailInBytes();
      AvailableArithmetic();
      Wrap32(Wrap64(capacityInBytes - Wrap64(tail - head)))
    }

    lemma AvailableArithmetic()
      ensures Valid() ==> Wrap32(Wrap64(GetTailInBytes() - GetHeadInBytes())) == UsedBytes()
      ensures Valid() ==> Wrap32(Wrap64(capacityInBytes - Wrap64(GetTailInBytes() - GetHeadInBytes())))
                          == capacityInBytes - UsedBytes()
    {
      if Valid() {
        ReadableBytes(tailAddr.value, headAddr.value, bytesScale, capacityInBytes);
      }
    }

    /** C++: x != 0 && (x & (x - 1)) == 0, on 32-bit operands. */
    function IsPowerOf2(x: u32): (r: bool)
      ensures r <==> IsPow2(x)
    {
      PowerOfTwoTest(x);
      if x == 0 then false else Wrap32Small(x - 1); BitAnd(x, Wrap32(x - 1)) == 0
    }

    /** Rejects (returns -1, changes nothing) every value that is not a power of two. */
    method SetCapacityInUnit(val: u32) returns (r: int)
      modifies this
      ensures r == (if IsPow2(val) then 0 else -1)
      ensures r == -1 ==> capacityInUnit == old(capacityInUnit) && ringMask == old(ringMask)
                          && capacityInBytes == old(capacityInBytes)
      ensures r == 0 ==> capacityInUnit == val && ringMask == val - 1
                         && capacityInBytes == Wrap32(val * bytesScale)
      ensures bytesScale == old(bytesScale) && bufAddr == old(bufAddr) && headAddr == old(headAddr)
      ensures tailAddr == old(tailAddr) && consumeReadData == old(consumeReadData)
      ensures (&& r == 0 && headAddr != tailAddr && bytesScale > 0 && val * bytesScale < TWO_32
               && val * bytesScale <= bufAddr.Length && UsedBytes() <= val * bytesScale) ==> Valid()
    {
      if !IsPowerOf2(val) {
        return -1;
      } else {
        capacityInUnit := val;
        Wrap32Small(val - 1);
        ringMask := Wrap32(capacityInUnit - 1);
        capacityInBytes := Wrap32(capacityInUnit * bytesScale);
        if val * bytesScale < TWO_32 {
          Wrap32Small(val * bytesScale);
        }
        return 0;
      }
    }

    method SetBytesScale(val: u32)
      modifies this
      ensures bytesScale == val && capacityInBytes == Wrap32(capacityInUnit * val)
      ensures capacityInUnit == old(capacityInUnit) && ringMask == old(ringMask) && bufAddr == old(bufAddr)
      ensures headAddr == old(headAddr) && tailAddr == old(tailAddr) && consumeReadData == old(consumeReadData)
      ensures (&& headAddr != tailAddr && val > 0 && IsPow2(capacityInUnit) && capacityInUnit * val < TWO_32
               && capacityInUnit * val <= bufAddr.Length && UsedUnits() * val <= capacityInUnit * val) ==> Valid()
    {
      bytesScale := val;
      capacityInBytes := Wrap32(capacityInUnit * bytesScale);
      if capacityInUnit * val < TWO_32 {
        Wrap32Small(capacityInUnit * val);
      }
    }

    /** fetch_add on the flow-control counter: returns the value before the 64-bit wrapping add. */
    method AddConsumeReadData(val: u64) returns (prev: u64)
      modifies consumeReadData
      ensures prev == old(consumeReadData.value)
      ensures consumeReadData.value == Wrap64(prev + val)
    {
      prev := consumeReadData.value;
      consumeReadData.value := Wrap64(prev + val);
    }

    /**
     * The first half of write: the tail it loads, the write position, and writeSize clamped
     * to the free space and rounded down to whole units.
     */
    method WriteExtent(writeSize: u32) returns (tail: u64, writePos: u32, size: u32)
      requires Valid()
      ensures tail == tailAddr.value * bytesScale && writePos == WritePos()
      ensures size <= writeSize && size <= capacityInBytes - UsedBytes() && size % bytesScale == 0
      ensures Min(writeSize, capacityInBytes - UsedBytes()) < size + bytesScale
    {
      var head := GetHeadInBytes();
      tail := GetTailInBytes();
      writePos := GetWritePosFromBytes(tail);
      ModUnique(tail, (tail - writePos) / capacityInBytes, writePos, capacityInBytes) by {
        DivMod(tail - writePos, capacityInBytes);
      }
      AvailableArithmetic();
      var availableSpace: u32 := Wrap32(Wrap64(capacityInBytes - Wrap64(tail - head)));
      size := writeSize;
      if size > availableSpace {
        size := availableSpace;
      }
      RoundDown(size, bytesScale);
      if bytesScale != 1 {
        size := size - size % bytesScale;
      }
    }

    /**
     * Copies the largest whole number of units that fits in both writeSize and the free
     * space to the write position, wrapping at the region end, then publishes the tail.
     */
    method Write(data: seq<byte>, writeSize: u32) returns (n: u32)
      requires Valid() && writeSize <= |data|
      modifies tailAddr, bufAddr
      ensures Valid()
      ensures n <= writeSize && n <= old(capacityInBytes - UsedBytes()) && n % bytesScale == 0
      ensures Min(writeSize, old(capacityInBytes - UsedBytes())) < n + bytesScale
      ensures tailAddr.value == Wrap32(old(tailAddr.value) + n / bytesScale)
      ensures UsedBytes() == old(UsedBytes()) + n
      ensures forall i :: 0 <= i < n ==> bufAddr[(old(WritePos()) + i) % capacityInBytes] == data[i]
      ensures forall j :: 0 <= j < bufAddr.Length && !Covered(j, capacityInBytes, old(WritePos()), n)
                ==> bufAddr[j] == old(bufAddr[j])
      ensures Contents() == old(Contents()) + data[..n]
    {
      ghost var before := bufAddr[..];
      ghost var used := UsedBytes();
      ghost var rp := ReadPos();
      ghost var h0, t0 := headAddr.value, tailAddr.value;
      var tail, writePos, size := WriteExtent(writeSize);
      WritePosFollowsContents();
      CopyIn(data, writePos, size);
      TailArithmetic(h0, t0, bytesScale, size);
      SetTailInBytes(Wrap64(tail + size));
      n := size;
      AppendWindow(before, bufAddr[..], capacityInBytes, rp, used, writePos, data[..n]);
    }

    /** What read may take: cnt bytes when cnt is positive, everything otherwise, capped by what is there. */
    ghost function ReadLimit(cnt: i32): nat
      reads this, headAddr, tailAddr
    {
      if cnt > 0 then Min(cnt, UsedBytes()) else UsedBytes()
    }

    /**
     * The first half of read: the head it loads, the read position, and the readable bytes
     * capped by a positive cnt and rounded down to whole units.
     */
    method ReadExtent(cnt: i32) returns (head: u64, readPos: u32, available: u32)
      requires Valid()
      ensures head == headAddr.value * bytesScale && readPos == ReadPos()
      ensures available <= ReadLimit(cnt) < available + bytesScale && available % bytesScale == 0
    {
      head := GetHeadInBytes();
      var tail := GetTailInBytes();
      AvailableArithmetic();
      available := Wrap32(Wrap64(tail - head));
      readPos := GetReadPosFromBytes(head);
      ModUnique(head, (head - readPos) / capacityInBytes, readPos, capacityInBytes) by {
        DivMod(head - readPos, capacityInBytes);
      }
      if cnt > 0 && available > cnt {
        available := cnt as u32;
      }
      RoundDown(available, bytesScale);
      if bytesScale != 1 {
        available := available - available % bytesScale;
      }
    }

    /**
     * Copies the oldest whole units, at most cnt bytes when cnt is positive, out of the
     * region into data and releases them by publishing the head; returns at once when none.
     */
    method Read(data: array<byte>, cnt: i32) returns (n: u32)
      requires Valid() && data != bufAddr && ReadLimit(cnt) <= data.Length
      modifies headAddr, data
      ensures Valid()
      ensures n <= old(ReadLimit(cnt)) < n + bytesScale && n % bytesScale == 0
      ensures headAddr.value == Wrap32(old(headAddr.value) + n / bytesScale)
      ensures UsedBytes() == old(UsedBytes()) - n
      ensures data[..n] == old(Contents())[..n]
      ensures forall k :: n <= k < data.Length ==> data[k] == old(data[k])
      ensures Contents() == old(Contents())[n..]
    {
      ghost var used := UsedBytes();
      ghost var h0, t0 := headAddr.value, tailAddr.value;
      var head, readPos, available := ReadExtent(cnt);
      if available == 0 {
        Wrap32Small(h0);
        return 0;
      }
      CopyOut(data, readPos, available);
      PrefixWindow(bufAddr[..], capacityInBytes, readPos, used, available);
      HeadArithmetic(h0, t0, bytesScale, available);
      AdvancedPosition(h0, available, bytesScale, capacityInUnit);
      SetHeadInBytes(Wrap64(head + available));
      n := available;
      DropWindow(bufAddr[..], capacityInBytes, readPos, used, n);
    }

    /** The two memcpy calls of read: size bytes from readPos, the rest from the region start. */
    method CopyOut(data: array<byte>, readPos: u32, size: u32)
      requires readPos < capacityInBytes <= bufAddr.Length && size <= capacityInBytes
      requires size <= data.Length && data != bufAddr
      modifies data
      ensures forall i :: 0 <= i < size ==> data[i] == bufAddr[(readPos + i) % capacityInBytes]
      ensures data[..size] == Window(bufAddr[..], capacityInBytes, readPos, size)
      ensures forall k :: size <= k < data.Length ==> data[k] == old(data[k])
    {
      var toEnd: u32 := Wrap32(capacityInBytes - readPos);
      Wrap32Small(capacityInBytes - readPos);
      if toEnd < size {
        forall k | 0 <= k < toEnd {
          data[k] := bufAddr[readPos + k];
        }
        forall k | 0 <= k < size - toEnd {
          data[toEnd + k] := bufAddr[k];
        }
      } else {
        forall k | 0 <= k < size {
          data[k] := bufAddr[readPos + k];
        }
      }
      forall i | 0 <= i < size
        ensures data[i] == bufAddr[(readPos + i) % capacityInBytes]
      {
        SlotLinear(readPos, i, capacityInBytes);
      }
    }

    /** The two memcpy calls of write: size bytes of data to writePos, the rest from the region start. */
    method CopyIn(data: seq<byte>, writePos: u32, size: u32)
      requires writePos < capacityInBytes <= bufAddr.Length && size <= capacityInBytes && size <= |data|
      modifies bufAddr
      ensures forall i :: 0 <= i < size ==> bufAddr[(writePos + i) % capacityInBytes] == data[i]
      ensures forall j :: 0 <= j < bufAddr.Length && !Covered(j, capacityInBytes, writePos, size)
                ==> bufAddr[j] == old(bufAddr[j])
    {
      var toEnd: u32 := Wrap32(capacityInBytes - writePos);
      Wrap32Small(capacityInBytes - writePos);
      if toEnd < size {
        forall k | 0 <= k < toEnd {
          bufAddr[writePos + k] := data[k];
        }
        forall k | 0 <= k < size - toEnd {
          bufAddr[k] := data[toEnd + k];
        }
      } else {
        forall k | 0 <= k < size {
          bufAddr[writePos + k] := data[k];
        }
      }
      forall i | 0 <= i < size
        ensures bufAddr[(writePos + i) % capacityInBytes] == data[i]
      {
        SlotLinear(writePos, i, capacityInBytes);
      }
    }
  }

  /**
   * A ring set up the way its users do: the field initialisers, then set_bytes_scale and
   * set_capacity_inunit, over empty counters. The result is a valid, empty ring whose byte
   * capacity is capacity * scale.
   */
  method Configure(maxCount: u32, buf: array<byte>, head: AtomicU32, tail: AtomicU32, consume: AtomicU64,
                   scale: u32, capacity: u32) returns (rb: RefRingBuffer)
    requires head != tail && head.value == tail.value
    requires scale > 0 && IsPow2(capacity) && capacity * scale < TWO_32 && capacity * scale <= buf.Length
    ensures rb.bufAddr == buf && rb.headAddr == head && rb.tailAddr == tail && rb.consumeReadData == consume
    ensures rb.Valid() && rb.Contents() == []
    ensures rb.bytesScale == scale && rb.capacityInUnit == capacity && rb.capacityInBytes == capacity * scale
  {
    rb := new RefRingBuffer(maxCount, buf, head, tail, consume);
    rb.SetBytesScale(scale);
    var r := rb.SetCapacityInUnit(capacity);
    assert r == 0;
    Wrap32Small(0);
    assert rb.UsedUnits() == 0;
  }
}
