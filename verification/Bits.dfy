/**
 Powers of two and the bit operations the source performs on `usize` words,
 defined on natural numbers.
 */
module Bits {

  type Byte = b: int | 0 <= b < 256

  function Pow2(k: nat): (r: nat)
    ensures r >= 1
  {
    if k == 0 then 1 else 2 * Pow2(k - 1)
  }

  ghost predicate IsPow2(n: nat) {
    exists k: nat :: n == Pow2(k)
  }

  /** Bitwise and of two unsigned words. */
  function BitAnd(a: nat, b: nat): (r: nat)
  {
    if a == 0 || b == 0 then 0
    else (a % 2) * (b % 2) + 2 * BitAnd(a / 2, b / 2)
  }

  lemma {:induction false} Pow2Add(a: nat, b: nat)
    ensures Pow2(a + b) == Pow2(a) * Pow2(b)
  {
    if a > 0 {
      Pow2Add(a - 1, b);
      assert Pow2(a + b) == 2 * Pow2(a - 1 + b);
    }
  }

  lemma {:induction false} Pow2Mono(a: nat, b: nat)
    requires a <= b
    ensures Pow2(a) <= Pow2(b)
    ensures a < b ==> 2 * Pow2(a) <= Pow2(b)
    decreases b
  {
    if a < b {
      Pow2Mono(a, b - 1);
    }
  }

  lemma BitAndOdd(t: nat, m: nat)
    requires m > 0
    ensures BitAnd(t, 2 * m - 1) == t % 2 + 2 * BitAnd(t / 2, m - 1)
  {
  }

  /** Masking with `2^k - 1` is reduction modulo `2^k`: the ring's slot index
      and its tail wrap-around. */
  lemma {:induction false} MaskIsModulo(t: nat, k: nat)
    ensures BitAnd(t, Pow2(k) - 1) == t % Pow2(k)
  {
    if k > 0 {
      var m := Pow2(k - 1);
      calc {
        BitAnd(t, Pow2(k) - 1);
        { BitAndOdd(t, m); }
        t % 2 + 2 * BitAnd(t / 2, m - 1);
        { MaskIsModulo(t / 2, k - 1); }
        t % 2 + 2 * ((t / 2) % m);
        { HalveModulo(t, m); }
        t % Pow2(k);
      }
    }
  }

  lemma HalveModulo(t: nat, m: nat)
    requires m > 0
    ensures t % (2 * m) == t % 2 + 2 * ((t / 2) % m)
  {
    var q, r := (t / 2) / m, (t / 2) % m;
    assert t == 2 * (t / 2) + t % 2;
    assert t / 2 == m * q + r;
    assert t == (2 * m) * q + (2 * r + t % 2);
    DivModUnique(t, 2 * m, q, 2 * r + t % 2);
  }

  /** A non-zero multiple of `d` is at least `d` in magnitude. */
  lemma MultipleBound(d: nat, x: int)
    ensures x >= 1 ==> d * x >= d
    ensures x <= -1 ==> d * x <= -(d as int)
  {
    if x >= 1 {
      assert d * x == d + d * (x - 1);
    } else if x <= -1 {
      assert d * x == -(d as int) + d * (x + 1);
    }
  }

  lemma DivModUnique(t: nat, d: nat, q: int, r: int)
    requires d > 0
    requires t == d * q + r
    requires 0 <= r < d
    ensures t / d == q && t % d == r
  {
    var q', r' := t / d, t % d;
    assert t == d * q' + r';
    assert d * (q - q') == d * q - d * q' == r' - r;
    MultipleBound(d, q - q');
  }

  /** Two distinct tickets in one residue class are at least `n` apart. */
  lemma CongruentApart(t: nat, u: nat, n: nat)
    requires n > 0
    requires t < u && t % n == u % n
    ensures t + n <= u
  {
    var q, q' := t / n, u / n;
    assert t == n * q + t % n && u == n * q' + u % n;
    assert n * (q' - q) == n * q' - n * q == u - t;
    MultipleBound(n, q' - q);
    MultipleBound(n, q - q');
    assert n * (q - q') == -(n * (q' - q));
  }

  /** Consecutive tickets have different slots exactly on rings of two or more. */
  lemma NextResidue(t: nat, n: nat)
    requires n > 0
    ensures (t % n + 1) % n == (t + 1) % n
    ensures n >= 2 ==> (t + 1) % n != t % n
  {
    var q, r := t / n, t % n;
    assert t == n * q + r;
    if r + 1 < n {
      DivModUnique(t + 1, n, q, r + 1);
      DivModUnique(r + 1, n, 0, r + 1);
    } else {
      assert t + 1 == n * (q + 1);
      DivModUnique(t + 1, n, q + 1, 0);
      DivModUnique(r + 1, n, 1, 0);
    }
  }

  const USIZE_BITS: nat := 64
  const USIZE_LIMIT: nat := 0x1_0000_0000_0000_0000

  lemma SmallPowers()
    ensures Pow2(16) == 0x1_0000
  {
    assert Pow2(4) == 16;
    Pow2Add(4, 4);
    Pow2Add(8, 8);
  }

  lemma UsizeLimitIsPow2()
    ensures USIZE_LIMIT == Pow2(USIZE_BITS)
  {
    SmallPowers();
    hide Pow2;
    Pow2Add(16, 16);
    Pow2Add(32, 32);
  }

  lemma {:induction false} Pow2Order(a: nat, b: nat)
    requires Pow2(a) < Pow2(b + 1)
    ensures a <= b
  {
    if a > b {
      Pow2Mono(b + 1, a);
    }
  }

  lemma {:induction false} LogExists(n: nat) returns (r: nat)
    requires n > 0
    ensures r < n && IsLog2(n, r)
  {
    if n == 1 {
      r := 0;
    } else {
      var h := LogExists(n / 2);
      r := h + 1;
    }
  }

  predicate IsLog2(n: nat, r: nat) {
    Pow2(r) <= n < Pow2(r + 1)
  }

  lemma LogUnique(n: nat, a: nat, b: nat)
    requires IsLog2(n, a) && IsLog2(n, b)
    ensures a == b
  {
    Pow2Order(a, b);
    Pow2Order(b, a);
  }

  /** `usize::BITS - 1 - leading_zeros`: the position of the highest set bit. */
  function FloorLog2(n: nat): (r: nat)
    requires n > 0
    ensures IsLog2(n, r)
  {
    assert exists r: nat :: r < n && IsLog2(n, r) by { var r := LogExists(n); }
    assert forall a: nat, b: nat :: IsLog2(n, a) && IsLog2(n, b) ==> a == b by {
      forall a: nat, b: nat | IsLog2(n, a) && IsLog2(n, b)
        ensures a == b
      {
        LogUnique(n, a, b);
      }
    }
    var r: nat :| r < n && IsLog2(n, r);
    r
  }

  predicate Bit(x: nat, j: nat) {
    if j == 0 then x % 2 == 1 else Bit(x / 2, j - 1)
  }

  /** The low `k` bits of `x` are zero: `x` is a multiple of `2^k`. */
  predicate Aligned(x: nat, k: nat) {
    forall j :: 0 <= j < k ==> !Bit(x, j)
  }

  lemma AlignedHalf(x: nat, k: nat)
    requires k > 0
    ensures Aligned(x, k) <==> x % 2 == 0 && Aligned(x / 2, k - 1)
  {
    assert !Bit(x, 0) <==> x % 2 == 0;
    forall j | 0 <= j < k - 1
      ensures Bit(x, j + 1) == Bit(x / 2, j)
    {
    }
    if x % 2 == 0 && Aligned(x / 2, k - 1) {
      forall j | 0 <= j < k
        ensures !Bit(x, j)
      {
        assert j > 0 ==> !Bit(x / 2, j - 1);
      }
    }
  }

  lemma DoubleMultiple(n: nat, d: nat)
    requires d > 0
    ensures (2 * n) % (2 * d) == 0 <==> n % d == 0
  {
    var q, r := n / d, n % d;
    assert 2 * n == (2 * d) * q + 2 * r;
    DivModUnique(2 * n, 2 * d, q, 2 * r);
  }

  lemma OddMultiple(x: nat, d: nat)
    requires d > 0 && x % 2 == 1
    ensures x % (2 * d) != 0
  {
    var q := x / (2 * d);
    assert x == 2 * (d * q) + x % (2 * d);
  }

  lemma {:induction false} AlignedIsMultiple(x: nat, k: nat)
    ensures Aligned(x, k) <==> x % Pow2(k) == 0
  {
    if k > 0 {
      AlignedHalf(x, k);
      if x % 2 == 0 {
        AlignedIsMultiple(x / 2, k - 1);
        DoubleMultiple(x / 2, Pow2(k - 1));
      } else {
        OddMultiple(x, Pow2(k - 1));
      }
    }
  }

  lemma {:induction false} LowestBitExists(n: nat) returns (r: nat)
    requires n > 0
    ensures r < n && Aligned(n, r) && Bit(n, r)
  {
    if n % 2 == 1 {
      r := 0;
    } else {
      var h := LowestBitExists(n / 2);
      r := h + 1;
      AlignedHalf(n, r);
    }
  }

  /** The position of the lowest set bit. */
  function TrailingZeros(n: nat): (r: nat)
    requires n > 0
    ensures Aligned(n, r) && Bit(n, r)
  {
    assert exists r: nat :: r < n && Aligned(n, r) && Bit(n, r) by { var r := LowestBitExists(n); }
    var r: nat :| r < n && Aligned(n, r) && Bit(n, r);
    r
  }

  lemma {:induction false} AlignedSum(x: nat, y: nat, k: nat)
    requires Aligned(x, k) && Aligned(y, k)
    ensures Aligned(x + y, k)
    ensures y <= x ==> Aligned(x - y, k)
  {
    if k > 0 {
      AlignedHalf(x, k);
      AlignedHalf(y, k);
      AlignedSum(x / 2, y / 2, k - 1);
      assert (x + y) / 2 == x / 2 + y / 2;
      AlignedHalf(x + y, k);
      if y <= x {
        assert (x - y) / 2 == x / 2 - y / 2;
        AlignedHalf(x - y, k);
      }
    }
  }

  lemma {:induction false} AlignedPow2(m: nat, k: nat)
    requires k <= m
    ensures Aligned(Pow2(m), k)
  {
    if k > 0 {
      AlignedPow2(m - 1, k - 1);
      AlignedHalf(Pow2(m), k);
    }
  }

  lemma {:induction false} AlignedAtLeast(n: nat, k: nat)
    requires n > 0 && Aligned(n, k)
    ensures n >= Pow2(k)
  {
    if k > 0 {
      AlignedHalf(n, k);
      AlignedAtLeast(n / 2, k - 1);
    }
  }

  /** An odd multiple of `2^k` plus `2^k` is a multiple of `2^(k+1)`. */
  lemma {:induction false} AlignedCarry(x: nat, k: nat)
    requires Aligned(x, k) && !Aligned(x, k + 1)
    ensures Aligned(x + Pow2(k), k + 1)
  {
    AlignedHalf(x, k + 1);
    AlignedHalf(x + Pow2(k), k + 1);
    if k > 0 {
      AlignedHalf(x, k);
      AlignedCarry(x / 2, k - 1);
      assert (x + Pow2(k)) / 2 == x / 2 + Pow2(k - 1);
    }
  }

  lemma AlignedIffTrailing(n: nat, k: nat)
    requires n > 0
    ensures Aligned(n, k) <==> k <= TrailingZeros(n)
  {
  }

  lemma DivSub(r: nat, d: nat)
    requires 0 < d <= r
    ensures r / d == 1 + (r - d) / d
  {
    var q, m := (r - d) / d, (r - d) % d;
    assert r == d * (q + 1) + m;
    DivModUnique(r, d, q + 1, m);
  }
}
