/**
 * Unbounded bit arithmetic used by both address families: powers of two,
 * clearing the low bits of an address, trailing zero bits and the position
 * of the highest set bit (Python's `int.bit_length() - 1`).
 */
module Bits {

  /** 2^k, with no bound on k (an IPv6 /0 holds 2^128 addresses). */
  function Pow2(k: nat): (r: nat)
    ensures r >= 1
  {
    if k == 0 then 1 else 2 * Pow2(k - 1)
  }

  lemma {:induction false} Pow2Add(a: nat, b: nat)
    ensures Pow2(a + b) == Pow2(a) * Pow2(b)
  {
    if a > 0 {
      Pow2Add(a - 1, b);
      assert Pow2(a + b) == 2 * Pow2(a - 1 + b);
    }
  }

  lemma {:induction false} Pow2Strict(a: nat, b: nat)
    requires a < b
    ensures Pow2(a) < Pow2(b)
  {
    if a + 1 < b {
      Pow2Strict(a, b - 1);
    }
  }

  lemma Pow2Monotone(a: nat, b: nat)
    requires a <= b
    ensures Pow2(a) <= Pow2(b)
  {
    if a < b {
      Pow2Strict(a, b);
    }
  }

  lemma DivMod(x: int, m: int)
    requires m > 0
    ensures x == (x / m) * m + x % m && 0 <= x % m < m
  {
  }

  lemma MulAtLeast(a: int, m: int)
    requires a >= 1 && m >= 0
    ensures a * m >= m
  {
  }

  lemma MulAtMost(a: int, m: int)
    requires a <= -1 && m >= 0
    ensures a * m <= -m
  {
  }

  lemma MulSub(a: int, b: int, m: int)
    ensures a * m - b * m == (a - b) * m
  {
  }

  /** If k * m lies strictly between -m and m, then k is zero. */
  lemma SmallMultiple(k: int, m: int)
    requires m > 0 && -m < k * m < m
    ensures k == 0
  {
    if k >= 1 {
      MulAtLeast(k, m);
    } else if k <= -1 {
      MulAtMost(k, m);
    }
  }

  lemma MultipleMod(q: nat, m: nat)
    requires m > 0
    ensures (q * m) % m == 0
  {
    var x := q * m;
    DivMod(x, m);
    MulSub(q, x / m, m);
    SmallMultiple(q - x / m, m);
  }

  /** The low k bits of x are zero: x is a multiple of 2^k (see `AlignedIffMod`). */
  predicate Aligned(x: nat, k: nat)
  {
    k == 0 || (x % 2 == 0 && Aligned(x / 2, k - 1))
  }

  lemma {:induction false} AlignedIffMod(x: nat, k: nat)
    ensures Aligned(x, k) <==> x % Pow2(k) == 0
  {
    if k > 0 {
      AlignedIffMod(x / 2, k - 1);
      ModDouble(x, Pow2(k - 1));
    }
  }

  /** x is a multiple of 2m exactly when it is even and half of it is a multiple of m. */
  lemma ModDouble(x: nat, m: nat)
    requires m > 0
    ensures x % (2 * m) == 0 <==> x % 2 == 0 && (x / 2) % m == 0
  {
    if x % 2 == 0 && (x / 2) % m == 0 {
      DivMod(x / 2, m);
      var q: nat := (x / 2) / m;
      MulDouble(q, m);
      MultipleMod(q, 2 * m);
    }
    if x % (2 * m) == 0 {
      DivMod(x, 2 * m);
      var q: nat := x / (2 * m);
      var t := q * m;
      MulDouble(q, m);
      assert x == 2 * t;
      MultipleMod(t, 2);
      MultipleMod(q, m);
    }
  }

  lemma MulDouble(q: int, m: int)
    ensures q * (2 * m) == 2 * (q * m) == (q * m) * 2
  {
  }

  lemma {:induction false} AlignedZero(k: nat)
    ensures Aligned(0, k)
  {
    if k > 0 {
      AlignedZero(k - 1);
    }
  }

  lemma {:induction false} AlignedPow2(h: nat, w: nat)
    requires h <= w
    ensures Aligned(Pow2(w), h)
  {
    if h > 0 {
      var m := Pow2(w - 1);
      assert Pow2(w) == 2 * m;
      assert Pow2(w) % 2 == 0 && Pow2(w) / 2 == m;
      AlignedPow2(h - 1, w - 1);
    }
  }

  /** Two different multiples of 2^h are at least 2^h apart. */
  lemma {:induction false} AlignedGap(x: nat, y: nat, h: nat)
    requires Aligned(x, h) && Aligned(y, h) && x < y
    ensures x + Pow2(h) <= y
  {
    if h > 0 {
      AlignedGap(x / 2, y / 2, h - 1);
    }
  }

  /** `v & ~(2^h - 1)`: v with its low h bits set to zero. */
  function ClearLowBits(v: nat, h: nat): (r: nat)
    ensures Aligned(r, h)
    ensures r <= v < r + Pow2(h)
  {
    if h == 0 then v else 2 * ClearLowBits(v / 2, h - 1)
  }

  /** Clearing the low bits leaves v unchanged exactly when they are already zero. */
  lemma ClearLowBitsFixed(v: nat, h: nat)
    ensures ClearLowBits(v, h) == v <==> Aligned(v, h)
  {
    if Aligned(v, h) {
      AlignedBlockUnique(ClearLowBits(v, h), v, v, h);
    }
  }

  /** The aligned block of size 2^h holding v is unique. */
  lemma AlignedBlockUnique(x: nat, y: nat, v: nat, h: nat)
    requires Aligned(x, h) && Aligned(y, h)
    requires x <= v < x + Pow2(h) && y <= v < y + Pow2(h)
    ensures x == y
  {
    if x < y {
      AlignedGap(x, y, h);
    } else if y < x {
      AlignedGap(y, x, h);
    }
  }

  /** Number of trailing zero bits of a positive integer. */
  function TrailingZeros(n: nat): nat
    requires n > 0
  {
    if n % 2 == 1 then 0 else 1 + TrailingZeros(n / 2)
  }

  /** Python's `_count_righthand_zero_bits(n, width)`: all `width` bits for zero. */
  function RightZeroBits(n: nat, width: nat): (r: nat)
    ensures r <= width
  {
    if n == 0 then width
    else if TrailingZeros(n) < width then TrailingZeros(n) else width
  }

  /** `m.bit_length() - 1` for a positive m: the index of the highest set bit. */
  function Log2(m: nat): nat
    requires m >= 1
  {
    if m == 1 then 0 else 1 + Log2(m / 2)
  }

  lemma {:induction false} Log2Bounds(m: nat)
    requires m >= 1
    ensures Pow2(Log2(m)) <= m < Pow2(Log2(m) + 1)
  {
    if m > 1 {
      Log2Bounds(m / 2);
    }
  }

  lemma {:induction false} TrailingZerosDivide(n: nat, k: nat)
    requires n > 0 && k <= TrailingZeros(n)
    ensures Aligned(n, k)
  {
    if k > 0 {
      TrailingZerosDivide(n / 2, k - 1);
    }
  }

  lemma {:induction false} TrailingZerosExact(n: nat)
    requires n > 0
    ensures !Aligned(n, TrailingZeros(n) + 1)
  {
    if n % 2 == 0 {
      TrailingZerosExact(n / 2);
    }
  }
}
