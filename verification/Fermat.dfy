/**
 The nonzero residues split into orbits of every element, so its order divides P - 1: Fermat's
 theorem, and with it the inverse of cubing.
 */
module Fermat {
  import opened Arith
  import opened Field
  import opened Prime

  // ----- cancelling

  lemma CancelLeft(a: Fe, b: Fe, c: Fe)
    requires a != 0 && Mul(a, b) == Mul(a, c)
    ensures b == c
  {
    var i := Inverse(a);
    MulComm(i, a);
    MulAssoc(i, a, b);
    MulAssoc(i, a, c);
    MulOne(b);
    MulOne(c);
  }

  lemma NonZeroProduct(a: Fe, b: Fe)
    requires a != 0 && b != 0
    ensures Mul(a, b) != 0
  {
    if Mul(a, b) == 0 {
      NoZeroDivisors(a, b);
    }
  }

  lemma {:induction false} NonZeroPow(x: Fe, n: nat)
    requires x != 0
    ensures Pow(x, n) != 0
    decreases n
  {
    if n > 0 {
      NonZeroPow(x, n - 1);
      NonZeroProduct(x, Pow(x, n - 1));
    }
  }

  lemma OneMorePow(y: Fe, x: Fe, i: nat)
    ensures Mul(Mul(y, Pow(x, i)), x) == Mul(y, Pow(x, i + 1))
  {
    MulAssoc(y, Pow(x, i), x);
    MulComm(Pow(x, i), x);
  }

  // ----- orbits

  /** d is the order of x. */
  ghost predicate IsOrder(x: Fe, d: nat) {
    x != 0 && d > 0 && Pow(x, d) == 1 && forall k: nat {:trigger Pow(x, k)} | 0 < k < d :: Pow(x, k) != 1
  }

  ghost function Orbit(y: Fe, x: Fe, d: nat): set<Fe> {
    if d == 0 then {} else Orbit(y, x, d - 1) + {Mul(y, Pow(x, d - 1))}
  }

  lemma {:induction false} InOrbit(y: Fe, x: Fe, d: nat, i: nat)
    requires i < d
    ensures Mul(y, Pow(x, i)) in Orbit(y, x, d)
    decreases d
  {
    if i < d - 1 {
      InOrbit(y, x, d - 1, i);
    }
  }

  lemma {:induction false} OrbitIndex(y: Fe, x: Fe, d: nat, z: Fe) returns (i: nat)
    requires z in Orbit(y, x, d)
    ensures i < d && z == Mul(y, Pow(x, i))
    decreases d
  {
    if z in Orbit(y, x, d - 1) {
      i := OrbitIndex(y, x, d - 1, z);
    } else {
      i := d - 1;
    }
  }

  lemma {:induction false} OrbitSize(y: Fe, x: Fe, d: nat, order: nat)
    requires y != 0 && IsOrder(x, order) && d <= order
    ensures |Orbit(y, x, d)| == d
    decreases d
  {
    if d > 0 {
      OrbitSize(y, x, d - 1, order);
      var z := Mul(y, Pow(x, d - 1));
      if z in Orbit(y, x, d - 1) {
        var i := OrbitIndex(y, x, d - 1, z);
        CancelLeft(y, Pow(x, i), Pow(x, d - 1));
        PowAdd(x, i, d - 1 - i);
        NonZeroPow(x, i);
        MulOne(Pow(x, i));
        CancelLeft(Pow(x, i), 1, Pow(x, d - 1 - i));
      }
    }
  }

  ghost predicate ClosedUnder(s: set<Fe>, x: Fe) { forall y: Fe {:trigger Mul(y, x)} | y in s :: Mul(y, x) in s }

  lemma {:induction false} OrbitInside(s: set<Fe>, y: Fe, x: Fe, d: nat)
    requires ClosedUnder(s, x) && y in s
    ensures Orbit(y, x, d) <= s && Mul(y, Pow(x, d)) in s
    decreases d
  {
    if d == 0 {
      MulOne(y);
    } else {
      OrbitInside(s, y, x, d - 1);
      OneMorePow(y, x, d - 1);
    }
  }

  /** What is left without one orbit is closed again. */
  lemma RestClosed(s: set<Fe>, y: Fe, x: Fe, d: nat)
    requires ClosedUnder(s, x) && y in s && IsOrder(x, d)
    ensures ClosedUnder(s - Orbit(y, x, d), x)
  {
    forall z: Fe {:trigger Mul(z, x)} | z in s - Orbit(y, x, d) ensures Mul(z, x) in s - Orbit(y, x, d) {
      if Mul(z, x) in Orbit(y, x, d) {
        var i := OrbitIndex(y, x, d, Mul(z, x));
        if i == 0 {
          MulOne(y);
        }
        var j := if i == 0 then d - 1 else i - 1;
        OneMorePow(y, x, j);
        MulComm(z, x);
        MulComm(Mul(y, Pow(x, j)), x);
        CancelLeft(x, z, Mul(y, Pow(x, j)));
        InOrbit(y, x, d, j);
      }
    }
  }

  /** A closed set of nonzero residues consists of whole orbits. */
  lemma {:induction false} WholeOrbits(s: set<Fe>, x: Fe, d: nat) returns (k: nat)
    requires ClosedUnder(s, x) && 0 !in s && IsOrder(x, d)
    ensures |s| == d * k
    decreases |s|
  {
    if s == {} {
      k := 0;
    } else {
      var y :| y in s;
      var o := Orbit(y, x, d);
      OrbitInside(s, y, x, d);
      OrbitSize(y, x, d, d);
      RestClosed(s, y, x, d);
      var rest := WholeOrbits(s - o, x, d);
      k := rest + 1;
      assert d * k == d * rest + d;
    }
  }

  // ----- every element has an order

  lemma {:induction false} LeastOrder(x: Fe, k: nat) returns (d: nat)
    requires x != 0 && k > 0 && Pow(x, k) == 1
    ensures IsOrder(x, d)
    decreases k
  {
    if j: nat :| 0 < j < k && Pow(x, j) == 1 {
      d := LeastOrder(x, j);
    } else {
      d := k;
    }
  }

  /** Among P + 1 powers two are equal. */
  lemma OrderExists(x: Fe) returns (d: nat)
    requires x != 0
    ensures IsOrder(x, d)
  {
    hide Pow;
    var powers: seq<int> := seq(P + 1, i requires 0 <= i => Pow(x, i));
    var i, j := Pigeonhole(powers, P);
    PowAdd(x, i, j - i);
    NonZeroPow(x, i);
    MulOne(Pow(x, i));
    CancelLeft(Pow(x, i), 1, Pow(x, j - i));
    d := LeastOrder(x, j - i);
  }

  ghost function NonZeroBelow(n: nat): (s: set<Fe>)
    requires 0 < n <= P
    ensures 0 !in s && |s| == n - 1 && forall z: Fe {:trigger z in s} :: z in s <==> 0 < z < n
  {
    if n == 1 then {} else NonZeroBelow(n - 1) + {n - 1}
  }

  /** x^(P - 1) == 1. */
  lemma FermatLittle(x: Fe, n: nat)
    requires x != 0 && n == P - 1
    ensures Pow(x, n) == 1
  {
    hide Pow;
    var d := OrderExists(x);
    var s := NonZeroBelow(P);
    forall y: Fe {:trigger Mul(y, x)} | y in s ensures Mul(y, x) in s {
      NonZeroProduct(y, x);
    }
    var k := WholeOrbits(s, x, d);
    PowMul(x, d, k);
    PowOne(k);
  }

  // ----- roots

  /** Exponents count modulo P - 1. */
  lemma PowWraps(x: Fe, n: nat, m: nat, q: nat)
    requires n == P - 1 && q == 1 + n * m
    ensures Pow(x, q) == x
  {
    if x == 0 {
      NonNegativeProduct(n, m);
      ZeroPow(q);
    } else {
      FermatLittle(x, n);
      PowMul(x, n, m);
      PowOne(m);
      PowAdd(x, 1, n * m);
      assert Pow(x, 1) == Mul(x, Pow(x, 0));
      MulOne(x);
    }
  }

  /** For every r with r * e == 1 + (P - 1) * m, taking the e-th power undoes taking the r-th one. */
  lemma RootOfPower(x: Fe, r: nat, e: nat, m: nat)
    requires r * e == 1 + (P - 1) * m
    ensures Pow(Pow(x, r), e) == x
  {
    hide Pow;
    var n: nat := P - 1;
    PowMul(x, r, e);
    PowWraps(x, n, m, r * e);
  }

  lemma ZeroPow(n: nat)
    requires n > 0
    ensures Pow(0, n) == 0
  {
    MulIs(0, Pow(0, n - 1));
    assert Pow(0, n) == Mul(0, Pow(0, n - 1));
  }
}
