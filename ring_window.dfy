/**
 * Slot arithmetic shared by every ring in the project: a window of n slots
 * that starts at a position and wraps at the ring's capacity.
 */
module RingWindow {
  import opened Arith

  /** Forward distance from slot wp to slot j on a ring of cap slots. */
  function Offset(j: nat, wp: nat, cap: nat): nat
    requires j < cap && wp < cap
  {
    if j >= wp then j - wp else j + cap - wp
  }

  /** Slot j is one of the n slots that follow wp (wp included). */
  predicate Covered(j: int, cap: nat, wp: nat, n: nat)
    requires wp < cap
  {
    0 <= j < cap && Offset(j, wp, cap) < n
  }

  /** The n values read from buf starting at slot pos, slot (pos + i) % cap for the i-th. */
  function Window<T>(buf: seq<T>, cap: nat, pos: nat, n: nat): (w: seq<T>)
    requires 0 < cap <= |buf|
    ensures |w| == n
  {
    seq(n, i => buf[(pos + i) % cap])
  }

  lemma SlotLinear(pos: nat, i: nat, cap: nat)
    requires pos < cap && i <= cap
    ensures (pos + i) % cap == if pos + i < cap then pos + i else pos + i - cap
  {}

  /**
   * Writing src into the |src| slots that follow the window (and nothing else)
   * extends the window by src.
   */
  lemma AppendWindow<T>(a: seq<T>, b: seq<T>, cap: nat, rp: nat, used: nat, wp: nat, src: seq<T>)
    requires 0 < cap <= |a| == |b| && rp < cap && used + |src| <= cap
    requires wp == (rp + used) % cap
    requires forall i :: 0 <= i < |src| ==> b[(wp + i) % cap] == src[i]
    requires forall j :: 0 <= j < |a| && !Covered(j, cap, wp, |src|) ==> b[j] == a[j]
    ensures Window(b, cap, rp, used + |src|) == Window(a, cap, rp, used) + src
  {
    var w, v := Window(b, cap, rp, used + |src|), Window(a, cap, rp, used) + src;
    forall i | 0 <= i < used + |src|
      ensures w[i] == v[i]
    {
      AppendSlot(a, b, cap, rp, used, wp, src, i);
    }
    assert w == v;
  }

  lemma AppendSlot<T>(a: seq<T>, b: seq<T>, cap: nat, rp: nat, used: nat, wp: nat, src: seq<T>, i: nat)
    requires 0 < cap <= |a| == |b| && rp < cap && used + |src| <= cap && i < used + |src|
    requires wp == (rp + used) % cap
    requires forall i :: 0 <= i < |src| ==> b[(wp + i) % cap] == src[i]
    requires forall j :: 0 <= j < |a| && !Covered(j, cap, wp, |src|) ==> b[j] == a[j]
    ensures Window(b, cap, rp, used + |src|)[i] == (Window(a, cap, rp, used) + src)[i]
  {
    SlotLinear(rp, used, cap);
    SlotLinear(rp, i, cap);
    var p := (rp + i) % cap;
    if i < used {
      assert Offset(p, wp, cap) == cap + i - used;
      assert !Covered(p, cap, wp, |src|);
    } else {
      SlotLinear(wp, i - used, cap);
      assert (wp + (i - used)) % cap == p;
    }
  }

  /** When the n slots after wp do not reach the end, they are the plain range [wp, wp + n). */
  lemma ContiguousCovered(j: int, cap: nat, wp: nat, n: nat)
    requires wp < cap && wp + n <= cap
    ensures Covered(j, cap, wp, n) <==> wp <= j < wp + n
  {}

  /** A window that does not reach the end of the ring is a plain slice of it. */
  lemma ContiguousPrefix<T>(buf: seq<T>, cap: nat, pos: nat, n: nat, k: nat)
    requires 0 < cap <= |buf| && pos < cap && k <= n && pos + k <= cap
    ensures Window(buf, cap, pos, n)[..k] == buf[pos..pos + k]
  {
    forall i | 0 <= i < k
      ensures Window(buf, cap, pos, n)[i] == buf[pos + i]
    {
      ContiguousSlot(buf, cap, pos, n, i);
    }
  }

  lemma ContiguousSlot<T>(buf: seq<T>, cap: nat, pos: nat, n: nat, i: nat)
    requires 0 < cap <= |buf| && i < n && pos + i < cap
    ensures Window(buf, cap, pos, n)[i] == buf[pos + i]
  {
    WindowIndex(buf, cap, pos, n, i);
    SlotLinear(pos, i, cap);
  }

  /** a after src is written to the |src| slots that follow wp, wrapping at the end. */
  function WriteAt<T>(a: seq<T>, wp: nat, src: seq<T>): (b: seq<T>)
    requires wp < |a| && |src| <= |a|
    ensures |b| == |a|
  {
    seq(|a|, j => if 0 <= j < |a| && Covered(j, |a|, wp, |src|) then src[Offset(j, wp, |a|)] else a[j % |a|])
  }

  /** The i-th value of src lands in slot (wp + i) % |a|. */
  lemma WriteAtSlot<T>(a: seq<T>, wp: nat, src: seq<T>, i: nat)
    requires wp < |a| && |src| <= |a| && i < |src|
    ensures WriteAt(a, wp, src)[(wp + i) % |a|] == src[i]
  {
    SlotLinear(wp, i, |a|);
  }

  /** Every slot the write does not cover keeps its value. */
  lemma WriteAtElsewhere<T>(a: seq<T>, wp: nat, src: seq<T>, j: nat)
    requires wp < |a| && |src| <= |a| && j < |a| && !Covered(j, |a|, wp, |src|)
    ensures WriteAt(a, wp, src)[j] == a[j]
  {
    assert j % |a| == j;
  }

  /** A write of nothing changes nothing. */
  lemma WriteAtEmpty<T>(a: seq<T>, wp: nat)
    requires wp < |a|
    ensures WriteAt(a, wp, []) == a
  {
    forall j | 0 <= j < |a|
      ensures WriteAt(a, wp, [])[j] == a[j]
    {
      WriteAtElsewhere(a, wp, [], j);
    }
  }

  /** Writing one more value after src is the write of src followed by a store to the next slot. */
  lemma WriteAtSnoc<T>(a: seq<T>, wp: nat, src: seq<T>, x: T)
    requires wp < |a| && |src| < |a|
    ensures WriteAt(a, wp, src + [x]) == WriteAt(a, wp, src)[(wp + |src|) % |a| := x]
  {
    var b, c := WriteAt(a, wp, src + [x]), WriteAt(a, wp, src)[(wp + |src|) % |a| := x];
    forall j | 0 <= j < |a|
      ensures b[j] == c[j]
    {
      SnocSlot(a, wp, src, x, j);
    }
    assert b == c;
  }

  lemma SnocSlot<T>(a: seq<T>, wp: nat, src: seq<T>, x: T, j: nat)
    requires wp < |a| && |src| < |a| && j < |a|
    ensures WriteAt(a, wp, src + [x])[j] == WriteAt(a, wp, src)[(wp + |src|) % |a| := x][j]
  {
    var n, k := |a|, (wp + |src|) % |a|;
    NextSlot(wp, |src|, n);
    if j == k {
      WriteAtSlot(a, wp, src + [x], |src|);
    } else if Covered(j, n, wp, |src|) {
      WriteAtCovered(a, wp, src + [x], j);
      WriteAtCovered(a, wp, src, j);
    } else {
      WriteAtElsewhere(a, wp, src + [x], j);
      WriteAtElsewhere(a, wp, src, j);
    }
  }

  /** Slot (wp + k) % n lies k slots after wp. */
  lemma NextSlot(wp: nat, k: nat, n: nat)
    requires wp < n && k < n
    ensures (wp + k) % n < n && Offset((wp + k) % n, wp, n) == k
  {
    SlotLinear(wp, k, n);
  }

  /** A covered slot holds the value of src at its offset from wp. */
  lemma WriteAtCovered<T>(a: seq<T>, wp: nat, src: seq<T>, j: nat)
    requires wp < |a| && |src| <= |a| && Covered(j, |a|, wp, |src|)
    ensures WriteAt(a, wp, src)[j] == src[Offset(j, wp, |a|)]
  {}

  /** Writing src right after a window of the ring extends the window by src. */
  lemma WriteAtWindow<T>(a: seq<T>, rp: nat, used: nat, wp: nat, src: seq<T>)
    requires 0 < |a| && rp < |a| && used + |src| <= |a| && wp == (rp + used) % |a|
    ensures Window(WriteAt(a, wp, src), |a|, rp, used + |src|) == Window(a, |a|, rp, used) + src
  {
    var b := WriteAt(a, wp, src);
    forall i | 0 <= i < |src|
      ensures b[(wp + i) % |a|] == src[i]
    {
      WriteAtSlot(a, wp, src, i);
    }
    forall j | 0 <= j < |a| && !Covered(j, |a|, wp, |src|)
      ensures b[j] == a[j]
    {
      WriteAtElsewhere(a, wp, src, j);
    }
    AppendWindow(a, b, |a|, rp, used, wp, src);
  }

  /** A write that does not wrap is src spliced into a at wp. */
  lemma ContiguousSplice<T>(a: seq<T>, wp: nat, src: seq<T>)
    requires wp < |a| && wp + |src| <= |a|
    ensures a[..wp] + src + a[wp + |src|..] == WriteAt(a, wp, src)
  {
    var b, w := a[..wp] + src + a[wp + |src|..], WriteAt(a, wp, src);
    forall j | 0 <= j < |a|
      ensures b[j] == w[j]
    {
      SpliceSlot(a, wp, src, j);
    }
  }

  lemma SpliceSlot<T>(a: seq<T>, wp: nat, src: seq<T>, j: nat)
    requires wp < |a| && wp + |src| <= |a| && j < |a|
    ensures (a[..wp] + src + a[wp + |src|..])[j] == WriteAt(a, wp, src)[j]
  {
    ContiguousCovered(j, |a|, wp, |src|);
    if wp <= j < wp + |src| {
      assert Offset(j, wp, |a|) == j - wp;
    } else {
      WriteAtElsewhere(a, wp, src, j);
    }
  }

  /**
   * A write that wraps is two splices: the first |a| - wp values of src at wp, then the
   * rest at 0.
   */
  lemma WrappedSplice<T>(a: seq<T>, b1: seq<T>, wp: nat, src: seq<T>)
    requires wp < |a| < wp + |src| && |src| <= |a|
    requires b1 == a[..wp] + src[..|a| - wp] + a[|a|..]
    ensures b1[..0] + src[|a| - wp..] + b1[|src| - (|a| - wp)..] == WriteAt(a, wp, src)
  {
    var b, w := b1[..0] + src[|a| - wp..] + b1[|src| - (|a| - wp)..], WriteAt(a, wp, src);
    forall j | 0 <= j < |a|
      ensures b[j] == w[j]
    {
      WrappedSlot(a, b1, wp, src, j);
    }
  }

  lemma WrappedSlot<T>(a: seq<T>, b1: seq<T>, wp: nat, src: seq<T>, j: nat)
    requires wp < |a| < wp + |src| && |src| <= |a| && j < |a|
    requires b1 == a[..wp] + src[..|a| - wp] + a[|a|..]
    ensures (b1[..0] + src[|a| - wp..] + b1[|src| - (|a| - wp)..])[j] == WriteAt(a, wp, src)[j]
  {
    var e := |a| - wp;
    var b := b1[..0] + src[e..] + b1[|src| - e..];
    if j < |src| - e {
      assert b[j] == src[e + j];
      assert Offset(j, wp, |a|) == j + e;
    } else if j < wp {
      assert b[j] == a[j];
      WriteAtElsewhere(a, wp, src, j);
    } else {
      assert b[j] == src[j - wp];
      assert Offset(j, wp, |a|) == j - wp;
    }
  }

  /** Dropping the first n values of a window moves its start n slots forward. */
  lemma DropWindow<T>(a: seq<T>, cap: nat, rp: nat, used: nat, n: nat)
    requires 0 < cap <= |a| && n <= used
    ensures Window(a, cap, rp, used)[n..] == Window(a, cap, (rp + n) % cap, used - n)
  {
    var w, v := Window(a, cap, rp, used), Window(a, cap, (rp + n) % cap, used - n);
    forall i | 0 <= i < used - n
      ensures w[n + i] == v[i]
    {
      DropSlot(a, cap, rp, used, n, i);
    }
    assert w[n..] == v;
  }

  lemma DropSlot<T>(a: seq<T>, cap: nat, rp: nat, used: nat, n: nat, i: nat)
    requires 0 < cap <= |a| && n + i < used
    ensures Window(a, cap, rp, used)[n + i] == Window(a, cap, (rp + n) % cap, used - n)[i]
  {
    WindowIndex(a, cap, rp, used, n + i);
    WindowIndex(a, cap, (rp + n) % cap, used - n, i);
    ModAssoc(rp, n, i, cap);
  }

  lemma WindowIndex<T>(buf: seq<T>, cap: nat, pos: nat, n: nat, i: nat)
    requires 0 < cap <= |buf| && i < n
    ensures Window(buf, cap, pos, n)[i] == buf[(pos + i) % cap]
  {}

  /** The first n slots of a window are the window of length n. */
  lemma PrefixWindow<T>(a: seq<T>, cap: nat, rp: nat, used: nat, n: nat)
    requires 0 < cap <= |a| && n <= used
    ensures Window(a, cap, rp, used)[..n] == Window(a, cap, rp, n)
  {
    var w, v := Window(a, cap, rp, used), Window(a, cap, rp, n);
    assert forall i | 0 <= i < n :: w[..n][i] == v[i];
  }

  /** Moving the head from h to e drops the first e - h values of the window. */
  lemma ConsumeWindow<T>(buf: seq<T>, bs: nat, h: nat, t: nat, e: nat)
    requires 0 < bs <= |buf| && h <= e <= t
    ensures Window(buf, bs, e % bs, t - e) == Window(buf, bs, h % bs, t - h)[e - h..]
  {
    DropWindow(buf, bs, h % bs, t - h, e - h);
    ModOfMod(h, e - h, bs);
  }

  /** The slot after the last unread value is the tail's slot. */
  lemma TailSlot(h: nat, t: nat, bs: nat)
    requires bs > 0 && h <= t
    ensures (h % bs + (t - h)) % bs == t % bs
  {
    ModOfMod(h, t - h, bs);
  }
}
