/** Machine integers and the modular-arithmetic facts the ring models rely on. */
module Arith {

  const TWO_32: int := 0x1_0000_0000
  const TWO_64: int := 0x1_0000_0000_0000_0000

  type byte = x: int | 0 <= x < 0x100
  type u32 = x: int | 0 <= x < 0x1_0000_0000
  type u64 = x: int | 0 <= x < 0x1_0000_0000_0000_0000
  type i32 = x: int | -0x8000_0000 <= x < 0x8000_0000

  /** Conversion to `uint32_t`, and every unsigned 32-bit operation, reduces modulo 2^32. */
  function Wrap32(x: int): u32 { x % TWO_32 }

  /** Conversion to `uint64_t`, and every unsigned 64-bit operation, reduces modulo 2^64. */
  function Wrap64(x: int): u64 { x % TWO_64 }

  function Min(a: int, b: int): int { if a < b then a else b }

  /** Bitwise AND of two naturals, bit by bit from the least significant one. */
  function BitAnd(a: nat, b: nat): nat
    decreases a
  {
    if a == 0 || b == 0 then 0 else 2 * BitAnd(a / 2, b / 2) + (a % 2) * (b % 2)
  }

  /** The reference definition: x is 1, 2, 4, 8, ... */
  predicate IsPow2(x: nat)
    decreases x
  {
    x == 1 || (x >= 2 && x % 2 == 0 && IsPow2(x / 2))
  }

  lemma {:induction false} BitAndSelf(a: nat)
    ensures BitAnd(a, a) == a
    decreases a
  {
    if a > 0 {
      BitAndSelf(a / 2);
    }
  }

  /** The bit trick `x != 0 && (x & (x - 1)) == 0` decides exactly the powers of two. */
  lemma {:induction false} PowerOfTwoTest(x: nat)
    ensures (x != 0 && BitAnd(x, x - 1) == 0) <==> IsPow2(x)
    decreases x
  {
    if x == 0 {
    } else if x % 2 == 1 {
      // x - 1 differs from x only in the lowest bit
      BitAndSelf(x / 2);
      assert (x - 1) / 2 == x / 2;
      assert BitAnd(x, x - 1) == 2 * (x / 2);
    } else {
      // x - 1 is odd and (x - 1) / 2 == x / 2 - 1
      assert (x - 1) / 2 == x / 2 - 1 && (x - 1) % 2 == 1;
      assert BitAnd(x, x - 1) == 2 * BitAnd(x / 2, x / 2 - 1);
      PowerOfTwoTest(x / 2);
    }
  }

  /** Every power of two below 2^32 divides 2^32, so a counter that wraps at 2^32 keeps its ring position. */
  lemma {:induction false} Pow2Divides(x: nat, m: nat)
    requires IsPow2(x) && IsPow2(m) && x <= m
    ensures m % x == 0
    decreases m
  {
    if x == m {
    } else {
      assert m >= 2;
      if x == 1 {
      } else {
        Pow2Divides(x / 2, m / 2);
        ModUnique(m, (m / 2) / (x / 2), 0, x);
      }
    }
  }

  /** Products of powers of two are powers of two. */
  lemma {:induction false} Pow2Product(a: nat, b: nat)
    requires IsPow2(a) && IsPow2(b)
    ensures IsPow2(a * b)
    decreases a
  {
    if a != 1 {
      var c := a / 2;
      Pow2Product(c, b);
      assert a * b == 2 * (c * b);
      assert (a * b) / 2 == c * b;
    }
  }

  lemma Pow2Of2To32()
    ensures IsPow2(TWO_32)
  {
    assert IsPow2(4) by {
      assert IsPow2(2);
    }
    Pow2Product(4, 4);
    Pow2Product(16, 16);
    Pow2Product(256, 256);
    assert TWO_32 == 0x1_0000 * 0x1_0000;
    Pow2Product(0x1_0000, 0x1_0000);
  }

  lemma MulAtLeast(m: int, d: int)
    requires m > 0 && d > 0
    ensures m * d >= m
  {
    assert m * d == m * (d - 1) + m;
  }

  /** Euclidean division is unique: x == m * k + r with 0 <= r < m fixes quotient and remainder. */
  lemma ModUnique(x: int, k: int, r: int, m: int)
    requires m > 0 && 0 <= r < m && x == m * k + r
    ensures x % m == r && x / m == k
  {
    var q, s := x / m, x % m;
    var d := q - k;
    assert m * d == r - s by {
      assert x == m * q + s;
      assert m * q - m * k == m * d;
    }
    if d > 0 {
      MulAtLeast(m, d);
    } else if d < 0 {
      assert m * (-d) == -(m * d);
      MulAtLeast(m, -d);
    }
    assert d == 0;
  }

  lemma ModAssoc(a: int, b: int, c: int, m: int)
    requires m > 0
    ensures (a + (b + c)) % m == ((a + b) % m + c) % m
  {
    ModOfMod(a + b, c, m);
  }

  lemma ModShift(x: int, q: int, m: int)
    requires m > 0
    ensures (x + m * q) % m == x % m
  {
    ModUnique(x + m * q, x / m + q, x % m, m);
  }

  lemma DivMod(x: int, m: int)
    requires m > 0
    ensures x == m * (x / m) + x % m
  {}

  lemma ModDiff(x: int, m: int)
    requires m > 0
    ensures (x % m - x) % m == 0
  {
    ModShift(0, -(x / m), m);
    assert x % m - x == m * -(x / m);
  }

  lemma ModOfMod(a: int, i: int, m: int)
    requires m > 0
    ensures (a % m + i) % m == (a + i) % m
  {
    ModShift(a % m + i, a / m, m);
    assert a % m + i + m * (a / m) == a + i;
  }

  lemma MulMono(a: nat, b: int, c: int)
    requires b <= c
    ensures a * b <= a * c
  {
    assert a * c - a * b == a * (c - b);
  }

  lemma MulCancel(a: int, b: int, s: int)
    requires s > 0 && a * s <= b * s
    ensures a <= b
  {
    if a > b {
      MulMono(s, b + 1, a);
      assert false;
    }
  }

  lemma MulBound32(a: u32, b: u32)
    ensures a * b <= (TWO_32 - 1) * (TWO_32 - 1)
  {
    MulMono(a, b, TWO_32 - 1);
    MulMono(TWO_32 - 1, a, TWO_32 - 1);
  }

  lemma Wrap32Small(x: int)
    requires 0 <= x < TWO_32
    ensures Wrap32(x) == x
  {
    ModUnique(x, 0, x, TWO_32);
  }

  lemma Wrap64Small(x: int)
    requires 0 <= x < TWO_64
    ensures Wrap64(x) == x
  {
    ModUnique(x, 0, x, TWO_64);
  }

  /** The product of two 32-bit values never overflows 64 bits. */
  lemma Fits64(a: u32, b: u32)
    ensures Wrap64(a * b) == a * b
  {
    MulBound32(a, b);
    Wrap64Small(a * b);
  }
}
