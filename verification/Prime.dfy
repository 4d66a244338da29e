/**
 `Field.P` is prime, so every non-zero residue has an inverse; and the table of two-adic
 generators really holds elements of order 1, 2, 4, ..., 2^24.

 Primality: modulo a hypothetical small divisor q, the element h = 3^127 satisfies
 h^(2^23) = -1, so its first 2^24 powers are distinct, but there are only q residues.
 */
module Prime {
  import opened Arith
  import opened Field

  const TWO_ADICITY := 24

  // ----- powers of an integer, compared modulo q

  function IntPow(a: int, n: nat): int {
    if n == 0 then 1 else a * IntPow(a, n - 1)
  }

  ghost predicate Divides(q: int, x: int) { exists k: int :: x == q * k }

  ghost predicate Cong(q: int, x: int, y: int) { Divides(q, x - y) }

  lemma CongTrans(q: int, x: int, y: int, z: int)
    requires Cong(q, x, y) && Cong(q, y, z)
    ensures Cong(q, x, z)
  {
    var k: int :| x - y == q * k;
    var l: int :| y - z == q * l;
    assert x - z == q * (k + l);
  }

  lemma CongSym(q: int, x: int, y: int)
    requires Cong(q, x, y)
    ensures Cong(q, y, x)
  {
    var k: int :| x - y == q * k;
    assert y - x == q * -k;
  }

  lemma CongMul(q: int, x: int, y: int, u: int, v: int)
    requires Cong(q, x, y) && Cong(q, u, v)
    ensures Cong(q, x * u, y * v)
  {
    var k: int :| x - y == q * k;
    var l: int :| u - v == q * l;
    assert x * u - y * v == (x - y) * u + y * (u - v);
    assert (q * k) * u == q * (k * u);
    assert y * (q * l) == q * (y * l);
    assert x * u - y * v == q * (k * u + y * l);
  }

  lemma {:induction false} IntPowAdd(a: int, m: nat, n: nat)
    ensures IntPow(a, m + n) == IntPow(a, m) * IntPow(a, n)
  {
    if m > 0 {
      IntPowAdd(a, m - 1, n);
      assert a * (IntPow(a, m - 1) * IntPow(a, n)) == (a * IntPow(a, m - 1)) * IntPow(a, n);
    }
  }

  lemma {:induction false} IntPowMul(a: int, m: nat, n: nat)
    ensures IntPow(IntPow(a, m), n) == IntPow(a, m * n)
  {
    if n > 0 {
      IntPowMul(a, m, n - 1);
      IntPowAdd(a, m, m * (n - 1));
      assert m * n == m + m * (n - 1);
    }
  }

  lemma {:induction false} CongPow(q: int, x: int, y: int, n: nat)
    requires Cong(q, x, y)
    ensures Cong(q, IntPow(x, n), IntPow(y, n))
  {
    if n == 0 {
      assert 1 - 1 == q * 0;
    } else {
      CongPow(q, x, y, n - 1);
      CongMul(q, x, y, IntPow(x, n - 1), IntPow(y, n - 1));
    }
  }

  // ----- the table of two-adic generators

  /** Entry k has order 2^k; entry 24 is 3^127. */
  const TWO_ADIC_GENERATORS: seq<Fe> := [
    0x1, 0x7f000000, 0x7e010002, 0x6832fe4a, 0x8dbd69c, 0xa28f031, 0x5c4a5b99, 0x29b75a80, 0x17668b8a, 0x27ad539b,
    0x334d48c7, 0x7744959c, 0x768fc6fa, 0x303964b2, 0x3e687d4d, 0x45a60e61, 0x6e2f4d7a, 0x163bd499, 0x6c4a8a45,
    0x143ef899, 0x514ddcad, 0x484ef19b, 0x205d63c3, 0x68e7dd49, 0x6ac49f88]

  predicate IsTableEntry(bits: nat, g: Fe) {
    forall k {:trigger Opened(k)} | 0 <= k < 1 ::
      Opened(k) ==> bits < |TWO_ADIC_GENERATORS| && g == TWO_ADIC_GENERATORS[bits]
  }

  /** The generator of the subgroup of order 2^bits. */
  function TwoAdicGenerator(bits: nat): Fe
    requires bits <= TWO_ADICITY
  {
    assert Opened(0);
    assert IsTableEntry(bits, TWO_ADIC_GENERATORS[bits]);
    var g: Fe :| 0 <= g < P && IsTableEntry(bits, g);
    g
  }

  lemma TwoAdicGeneratorIs(bits: nat)
    requires bits <= TWO_ADICITY
    ensures TwoAdicGenerator(bits) == TWO_ADIC_GENERATORS[bits]
  {
    assert Opened(0);
  }

  /** Each generator is the square of the next one. */
  lemma GeneratorSquare(bits: nat)
    requires bits < TWO_ADICITY
    ensures Mul(TwoAdicGenerator(bits + 1), TwoAdicGenerator(bits + 1)) == TwoAdicGenerator(bits)
  {
    var g := TwoAdicGenerator(bits + 1);
    assert g * g % P == TwoAdicGenerator(bits) by {
      TwoAdicGeneratorIs(bits);
      TwoAdicGeneratorIs(bits + 1);
      if bits < 6 {
        GeneratorSquare0(bits);
      } else if bits < 12 {
        GeneratorSquare1(bits);
      } else if bits < 18 {
        GeneratorSquare2(bits);
      } else {
        GeneratorSquare3(bits);
      }
    }
    MulIs(g, g);
  }

  lemma FirstGenerators()
    ensures TwoAdicGenerator(0) == 1
    ensures TwoAdicGenerator(1) == P - 1
  {
    TwoAdicGeneratorIs(0);
    TwoAdicGeneratorIs(1);
  }

  lemma GeneratorSquare0(bits: nat)
    requires 0 <= bits < 6
    ensures TWO_ADIC_GENERATORS[bits + 1] * TWO_ADIC_GENERATORS[bits + 1] % P == TWO_ADIC_GENERATORS[bits]
  {
    assert 0x7f000000 * 0x7f000000 % P == 0x1;
    assert 0x7e010002 * 0x7e010002 % P == 0x7f000000;
    assert 0x6832fe4a * 0x6832fe4a % P == 0x7e010002;
    assert 0x8dbd69c * 0x8dbd69c % P == 0x6832fe4a;
    assert 0xa28f031 * 0xa28f031 % P == 0x8dbd69c;
    assert 0x5c4a5b99 * 0x5c4a5b99 % P == 0xa28f031;
  }

  lemma GeneratorSquare1(bits: nat)
    requires 6 <= bits < 12
    ensures TWO_ADIC_GENERATORS[bits + 1] * TWO_ADIC_GENERATORS[bits + 1] % P == TWO_ADIC_GENERATORS[bits]
  {
    assert 0x29b75a80 * 0x29b75a80 % P == 0x5c4a5b99;
    assert 0x17668b8a * 0x17668b8a % P == 0x29b75a80;
    assert 0x27ad539b * 0x27ad539b % P == 0x17668b8a;
    assert 0x334d48c7 * 0x334d48c7 % P == 0x27ad539b;
    assert 0x7744959c * 0x7744959c % P == 0x334d48c7;
    assert 0x768fc6fa * 0x768fc6fa % P == 0x7744959c;
  }

  lemma GeneratorSquare2(bits: nat)
    requires 12 <= bits < 18
    ensures TWO_ADIC_GENERATORS[bits + 1] * TWO_ADIC_GENERATORS[bits + 1] % P == TWO_ADIC_GENERATORS[bits]
  {
    assert 0x303964b2 * 0x303964b2 % P == 0x768fc6fa;
    assert 0x3e687d4d * 0x3e687d4d % P == 0x303964b2;
    assert 0x45a60e61 * 0x45a60e61 % P == 0x3e687d4d;
    assert 0x6e2f4d7a * 0x6e2f4d7a % P == 0x45a60e61;
    assert 0x163bd499 * 0x163bd499 % P == 0x6e2f4d7a;
    assert 0x6c4a8a45 * 0x6c4a8a45 % P == 0x163bd499;
  }

  lemma GeneratorSquare3(bits: nat)
    requires 18 <= bits < 24
    ensures TWO_ADIC_GENERATORS[bits + 1] * TWO_ADIC_GENERATORS[bits + 1] % P == TWO_ADIC_GENERATORS[bits]
  {
    assert 0x143ef899 * 0x143ef899 % P == 0x6c4a8a45;
    assert 0x514ddcad * 0x514ddcad % P == 0x143ef899;
    assert 0x484ef19b * 0x484ef19b % P == 0x514ddcad;
    assert 0x205d63c3 * 0x205d63c3 % P == 0x484ef19b;
    assert 0x68e7dd49 * 0x68e7dd49 % P == 0x205d63c3;
    assert 0x6ac49f88 * 0x6ac49f88 % P == 0x68e7dd49;
  }

  // ----- primality

  /** `g^(2^j)` is congruent to the j-th square down the table. */
  lemma {:induction false} RepeatedSquares(j: nat)
    requires j <= TWO_ADICITY
    ensures Cong(P, IntPow(TwoAdicGenerator(TWO_ADICITY), Pow2(j)), TwoAdicGenerator(TWO_ADICITY - j))
  {
    var g := TwoAdicGenerator(TWO_ADICITY);
    if j == 0 {
      assert IntPow(g, 1) == g * IntPow(g, 0);
      assert g - g == P * 0;
    } else {
      RepeatedSquares(j - 1);
      var t := TwoAdicGenerator(TWO_ADICITY - j + 1);
      var x := IntPow(g, Pow2(j - 1));
      CongMul(P, x, t, x, t);
      IntPowAdd(g, Pow2(j - 1), Pow2(j - 1));
      GeneratorSquare(TWO_ADICITY - j);
      MulIs(t, t);
      assert t * t - t * t % P == P * (t * t / P);
      CongTrans(P, x * x, t * t, t * t % P);
    }
  }

  lemma CongDivisor(q: int, x: int, y: int)
    requires Divides(q, P) && Cong(P, x, y)
    ensures Cong(q, x, y)
  {
    var k: int :| P == q * k;
    var l: int :| x - y == P * l;
    assert x - y == q * (k * l);
  }

  lemma {:induction false} MinusOnePow(m: nat)
    ensures IntPow(-1, m) == if m % 2 == 0 then 1 else -1
  {
    if m > 0 {
      MinusOnePow(m - 1);
    }
  }

  lemma {:induction false} OneIntPow(m: nat)
    ensures IntPow(1, m) == 1
  {
    if m > 0 {
      OneIntPow(m - 1);
    }
  }

  /** Every positive d below 2^24 is 2^s * m with m odd and s < 24. */
  lemma {:induction false} OddPart(d: nat, e: nat) returns (s: nat, m: nat)
    requires 0 < d < Pow2(e)
    ensures s < e && d == Pow2(s) * m && m % 2 == 1
  {
    if d % 2 == 1 {
      s, m := 0, d;
    } else {
      s, m := OddPart(d / 2, e - 1);
      s := s + 1;
      assert 2 * (Pow2(s - 1) * m) == (2 * Pow2(s - 1)) * m;
    }
  }

  lemma MinusOneAtGenerator(q: int)
    requires Divides(q, P)
    ensures Cong(q, IntPow(TwoAdicGenerator(TWO_ADICITY), Pow2(23)), -1)
  {
    var h := IntPow(TwoAdicGenerator(TWO_ADICITY), Pow2(23));
    RepeatedSquares(23);
    FirstGenerators();
    assert P - 1 - -1 == P * 1;
    CongTrans(P, h, P - 1, -1);
    CongDivisor(q, h, -1);
  }

  /** If g^(2^t) = -1, then (g^d)^(2^(t-s)) = -1 for every d = 2^s * odd. */
  lemma OddMultiplePower(q: int, g: int, t: nat, d: nat, s: nat, m: nat)
    requires Cong(q, IntPow(g, Pow2(t)), -1)
    requires s <= t && d == Pow2(s) * m && m % 2 == 1
    ensures Cong(q, IntPow(IntPow(g, d), Pow2(t - s)), -1)
  {
    var e, f := Pow2(t - s), Pow2(t);
    Pow2Add(s, t - s);
    assert d * e == f * m by {
      SwapFactors(Pow2(s), m, e);
    }
    IntPowMul(g, d, e);
    IntPowMul(g, f, m);
    CongPow(q, IntPow(g, f), -1, m);
    MinusOnePow(m);
  }

  lemma SwapFactors(a: int, b: int, c: int)
    ensures a * b * c == a * c * b
  {
  }

  lemma TwoNotDivisible(q: int)
    requires q > 2
    ensures !Cong(q, -1, 1)
  {
    forall k: int
      ensures -2 != q * k
    {
      if k >= 0 {
        assert q * k >= 0;
      } else {
        assert q * k <= -q;
      }
    }
  }

  /** No small power of the generator is 1 modulo a divisor q > 2 of P. */
  lemma NoSmallOrder(q: int, d: nat)
    requires 2 < q && Divides(q, P)
    requires 0 < d < Pow2(TWO_ADICITY)
    ensures !Cong(q, IntPow(TwoAdicGenerator(TWO_ADICITY), d), 1)
  {
    var h := IntPow(TwoAdicGenerator(TWO_ADICITY), d);
    var s, m := OddPart(d, TWO_ADICITY);
    MinusOneAtGenerator(q);
    OddMultiplePower(q, TwoAdicGenerator(TWO_ADICITY), 23, d, s, m);
    var e := Pow2(23 - s);
    if Cong(q, h, 1) {
      CongPow(q, h, 1, e);
      OneIntPow(e);
      CongSym(q, IntPow(h, e), -1);
      CongTrans(q, -1, IntPow(h, e), 1);
      TwoNotDivisible(q);
      assert false;
    }
  }

  lemma {:induction false} DistinctCount(s: seq<int>)
    requires forall i, j | 0 <= i < j < |s| :: s[i] != s[j]
    ensures |(set x | x in s)| == |s|
  {
    if s == [] {
    } else {
      var t := s[1..];
      DistinctCount(t);
      assert s[0] !in t;
      assert (set x | x in s) == {s[0]} + (set x | x in t);
    }
  }

  ghost function Range(n: nat): set<int> {
    if n == 0 then {} else Range(n - 1) + {n - 1}
  }

  lemma {:induction false} RangeCount(n: nat)
    ensures |Range(n)| == n
    ensures forall x :: x in Range(n) <==> 0 <= x < n
  {
    if n > 0 {
      RangeCount(n - 1);
    }
  }

  lemma DistinctBound(s: seq<int>, n: nat)
    requires forall k | 0 <= k < |s| :: 0 <= s[k] < n
    requires forall i, j | 0 <= i < j < |s| :: s[i] != s[j]
    ensures |s| <= n
  {
    DistinctCount(s);
    RangeCount(n);
    var elements := set x | x in s;
    assert Range(n) == elements + (Range(n) - elements);
  }

  /** n + 1 numbers below n contain a repetition. */
  lemma Pigeonhole(s: seq<int>, n: nat) returns (i: nat, j: nat)
    requires |s| == n + 1
    requires forall k | 0 <= k < |s| :: 0 <= s[k] < n
    ensures i < j < |s| && s[i] == s[j]
  {
    if forall i, j | 0 <= i < j < |s| :: s[i] != s[j] {
      DistinctBound(s, n);
      assert false;
    }
    i, j :| 0 <= i < j < |s| && s[i] == s[j];
  }

  lemma SameResidue(q: int, x: int, y: int)
    requires q > 0 && x % q == y % q
    ensures Cong(q, y, x)
  {
    var a, b := x / q, y / q;
    assert x == q * a + x % q && y == q * b + y % q;
    assert y - x == q * (b - a);
  }

  lemma NoDivisorBelowRoot(q: int)
    requires 2 < q < Pow2(TWO_ADICITY) - 1
    ensures !Divides(q, P)
  {
    if Divides(q, P) {
      var g := TwoAdicGenerator(TWO_ADICITY);
      var s := seq(q + 1, i requires 0 <= i => IntPow(g, i) % q);
      var i, j := Pigeonhole(s, q);
      var x, y := IntPow(g, i), IntPow(g, j);
      SameResidue(q, x, y);
      var u := IntPow(g, Pow2(TWO_ADICITY) - i);
      assert u - u == q * 0;
      CongMul(q, y, x, u, u);
      IntPowAdd(g, i, Pow2(TWO_ADICITY) - i);
      IntPowAdd(g, j, Pow2(TWO_ADICITY) - i);
      IntPowAdd(g, j - i, Pow2(TWO_ADICITY));
      var z := IntPow(g, Pow2(TWO_ADICITY));
      RepeatedSquares(TWO_ADICITY);
      FirstGenerators();
      CongDivisor(q, z, 1);
      var w := IntPow(g, j - i);
      assert w - w == q * 0;
      CongMul(q, w, w, z, 1);
      CongSym(q, w * z, w);
      CongTrans(q, w, w * z, z);
      CongTrans(q, w, z, 1);
      NoSmallOrder(q, j - i);
    }
  }

  lemma CofactorBounds(q: int, k: int)
    requires P == q * k && 1 < q < P
    ensures 1 < k < P
  {
    NonPositiveProduct(q, k);
    assert k >= P ==> q * k >= 2 * k;
  }

  lemma NonPositiveProduct(q: int, k: int)
    ensures q > 0 && k <= 0 ==> q * k <= 0
  {
  }

  lemma SquareBound(m: int, n: int)
    requires 0 <= m <= n && m * n == P
    ensures m < 0x10000
  {
    assert m * m <= m * n;
    assert m >= 0x10000 ==> m * m >= 0x10000 * m;
  }

  lemma POdd()
    ensures !Divides(2, P)
  {
    assert P % 2 == 1;
  }

  /** P has no divisor besides 1 and itself. */
  lemma PIsPrime(q: int)
    requires 1 < q < P
    ensures !Divides(q, P)
  {
    if Divides(q, P) {
      var k: int :| P == q * k;
      assert Pow2(TWO_ADICITY) == 0x1000000 by {
        assert Pow2(4) == 16;
        Pow2Add(4, 4);
        Pow2Add(8, 8);
        Pow2Add(16, 8);
      }
      CofactorBounds(q, k);
      assert P == k * q;
      var m := if q <= k then q else k;
      assert Divides(m, P);
      SquareBound(m, if q <= k then k else q);
      POdd();
      NoDivisorBelowRoot(m);
    }
  }

  // ----- inverses

  lemma {:induction false} Bezout(a: int, b: int) returns (g: int, x: int, y: int)
    requires 0 <= a && 0 < b
    ensures 0 < g && g == x * a + y * b && Divides(g, a) && Divides(g, b)
    decreases a
  {
    if a == 0 {
      g, x, y := b, 0, 1;
      assert a == b * 0 && b == b * 1;
    } else {
      var r := b % a;
      var q := b / a;
      assert b == a * q + r;
      var u, v;
      g, u, v := Bezout(r, a);
      x, y := v - u * q, u;
      assert x * a + y * b == u * r + v * a by {
        assert u * b == u * (a * q) + u * r;
        assert (v - u * q) * a == v * a - u * (a * q);
      }
      var k: int :| r == g * k;
      var l: int :| a == g * l;
      assert b == g * (l * q + k) by {
        assert g * (l * q + k) == (g * l) * q + g * k;
      }
    }
  }

  lemma PositiveFactor(g: int, k: int)
    requires g > 0 && g * k > 0
    ensures k > 0
  {
  }

  lemma InverseExists(a: Fe)
    requires a != 0
    ensures exists b: Fe :: Mul(a, b) == 1
  {
    var g, x, y := Bezout(a, P);
    assert g == 1 by {
      var k: int :| a == g * k;
      PositiveFactor(g, k);
      assert g <= a by {
        assert g * k >= g;
      }
      if g > 1 {
        PIsPrime(g);
      }
    }
    var b: Fe := x % P;
    MulIs(a, b);
    assert x == P * (x / P) + b;
    assert a * b == 1 + P * (-y - a * (x / P)) by {
      assert a * x == a * (P * (x / P)) + a * b;
    }
    ModuloUnique(a * b, 1, -y - a * (x / P));
  }

  lemma InverseUnique(a: Fe, b: Fe, c: Fe)
    requires Mul(a, b) == 1 && Mul(a, c) == 1
    ensures b == c
  {
    MulOne(b);
    MulOne(c);
    MulAssoc(b, a, c);
    MulComm(b, a);
  }

  function Inverse(a: Fe): (b: Fe)
    requires a != 0
    ensures Mul(a, b) == 1
  {
    InverseExists(a);
    assert forall b: Fe, c: Fe | Mul(a, b) == 1 && Mul(a, c) == 1 :: b == c by {
      forall b: Fe, c: Fe | Mul(a, b) == 1 && Mul(a, c) == 1 ensures b == c {
        InverseUnique(a, b, c);
      }
    }
    var b: Fe :| 0 <= b < P && Mul(a, b) == 1;
    b
  }

  function InverseOrZero(x: Fe): Fe { if x != 0 then Inverse(x) else 0 }

  /** A product is zero only if a factor is. */
  lemma NoZeroDivisors(a: Fe, b: Fe)
    requires Mul(a, b) == 0
    ensures a == 0 || b == 0
  {
    if a != 0 {
      var i := Inverse(a);
      MulComm(i, a);
      MulAssoc(i, a, b);
      MulOne(b);
      MulOne(i);
    }
  }

  lemma DifferenceZero(a: Fe, b: Fe)
    ensures Sub(a, b) == 0 <==> a == b
  {
    SubIs(a, b);
  }

  lemma NextPower(n: nat, x: Fe, y: Fe)
    requires Pow(3, n) == x && y == 3 * (x * x % P) % P
    ensures Pow(3, 2 * n + 1) == y
  {
    PowAdd(3, n, n);
    MulIs(x, x);
    MulIs(3, x * x % P);
    assert 1 + (n + n) == 2 * n + 1;
  }

  /** The generator of the largest two-adic subgroup is the power of 3 with the odd part of P - 1 as exponent. */
  lemma GeneratorOfThree()
    ensures P - 1 == 127 * 0x100_0000 && TwoAdicGenerator(TWO_ADICITY) == Pow(3, 127)
  {
    hide Pow;
    TwoAdicGeneratorIs(TWO_ADICITY);
    assert Pow(3, 1) == 3 by { PowerOfOne(3); }
    NextPower(1, 3, 27);
    NextPower(3, 27, 2187);
    NextPower(7, 2187, 14348907);
    NextPower(15, 14348907, 777715144);
    NextPower(31, 777715144, 1759267465);
    NextPower(63, 1759267465, 1791270792);
  }

  lemma PowerOfOne(a: Fe)
    ensures Pow(a, 1) == a
  {
    MulOne(a);
  }

  // ----- halving

  const HALF: Fe := 0x3f800001

  function Halve(a: Fe): Fe { Mul(a, HALF) }

  lemma HalveDouble(a: Fe)
    ensures Halve(Double(a)) == a && Double(Halve(a)) == a
  {
    LiftSelf(a);
    LiftSelf(HALF);
    LiftAdd(a, a);
    LiftMul(2 * a, HALF);
    LiftMul(a, HALF);
    LiftAdd(a * HALF, a * HALF);
    assert 2 * a * HALF == a + P * a;
    assert a * HALF + a * HALF == a + P * a;
    ResCong(a, a);
  }
}
