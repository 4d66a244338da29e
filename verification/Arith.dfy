/**
 Powers of two and the few facts about products, quotients and remainders of naturals that
 index computations need.
 */
module Arith {
  function Pow2(n: nat): (p: nat)
    ensures p > 0
  {
    if n == 0 then 1 else 2 * Pow2(n - 1)
  }

  lemma {:induction false} Pow2Add(m: nat, n: nat)
    ensures Pow2(m + n) == Pow2(m) * Pow2(n)
  {
    if m > 0 {
      Pow2Add(m - 1, n);
      assert 2 * (Pow2(m - 1) * Pow2(n)) == (2 * Pow2(m - 1)) * Pow2(n);
    }
  }

  lemma {:induction false} Pow2Monotone(a: nat, b: nat)
    ensures a <= b ==> Pow2(a) <= Pow2(b)
    ensures a < b ==> Pow2(a) < Pow2(b)
  {
    if a < b {
      Pow2Monotone(a, b - 1);
    }
  }

  ghost predicate IsPowerOfTwo(n: nat) { exists k: nat :: Pow2(k) == n }

  /** log2_strict_usize. */
  method Log2Strict(n: nat) returns (k: nat)
    requires IsPowerOfTwo(n)
    ensures Pow2(k) == n
  {
    ghost var e: nat :| Pow2(e) == n;
    k := 0;
    var p := 1;
    while p < n
      invariant p == Pow2(k) && k <= e
      decreases n - p
    {
      Pow2Monotone(e, k);
      p := 2 * p;
      k := k + 1;
    }
    Pow2Monotone(k, e);
  }

  lemma BlockBounds(c: nat, count: nat, size: nat)
    requires c < count
    ensures 0 <= c * size <= (c + 1) * size <= count * size
    ensures (c + 1) * size - c * size == size
  {
    var d: nat := count - c - 1;
    ShiftProduct(count, c + 1, size);
    ShiftProduct(c + 1, c, size);
    NonNegativeProduct(d, size);
    NonNegativeProduct(c, size);
  }

  lemma NonNegativeProduct(a: nat, b: nat)
    ensures a * b >= 0
  {
  }

  lemma ShiftProduct(c: nat, half: nat, size: nat)
    requires half <= c
    ensures c * size == half * size + (c - half) * size
  {
  }

  lemma MulMonotone(a: nat, b: nat, c: nat)
    requires a <= b
    ensures a * c <= b * c
  {
    ShiftProduct(b, a, c);
    NonNegativeProduct(b - a, c);
  }

  function Quotient(a: nat, b: nat): (q: nat)
    requires b > 0
    ensures q == a / b
  {
    a / b
  }

  lemma DivBound(x: nat, rate: nat, len: nat)
    requires rate > 0 && x < len * rate
    ensures x / rate < len
  {
    if x / rate >= len {
      MulMonotone(len, x / rate, rate);
    }
  }

  lemma DivModOfRow(r: nat, c: nat, cols: nat)
    requires c < cols
    ensures (r * cols + c) % cols == c && (r * cols + c) / cols == r
  {
    var x := r * cols + c;
    var q, m := x / cols, x % cols;
    assert x == cols * q + m;
    if q < r {
      MulMonotone(q + 1, r, cols);
    } else if q > r {
      MulMonotone(r + 1, q, cols);
    }
  }

  lemma DivShift(i: nat, h: nat, e: nat)
    requires e > 0
    ensures (i + h * e) / e == i / e + h
  {
    var q := i / e;
    assert i == e * q + i % e;
    assert (q + h) * e == q * e + h * e;
    DivModOfRow(q + h, i % e, e);
  }

  lemma DivExact(x: nat, d: nat)
    requires d > 0
    ensures x * d / d == x && x * d % d == 0
  {
    DivModOfRow(x, 0, d);
  }

  ghost predicate IsMultiple(n: int, b: nat, q: nat) { n == q * b }

  lemma OneFewer(n: int, b: nat, q: nat)
    requires IsMultiple(n, b, q) && n > 0
    ensures q > 0 && n >= b && IsMultiple(n - b, b, q - 1)
  {
  }
}
