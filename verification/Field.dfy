/**
 The KoalaBear prime field, its ring operations and the tools the other modules use to
 prove ring identities.

 `Add`, `Sub`, `Mul` and `Res` are defined behind the predicate `Opened`, which only this
 module's proofs mention.  Everywhere else they are plain symbols, and an identity is
 proved by lifting both sides to residues of integer polynomials (`LiftAdd`, `LiftSub`,
 `LiftMul`, `LiftLerp`) and comparing those polynomials.
 */
module Field {
  /** 2^31 - 2^24 + 1. */
  const P: int := 0x7f000001

  type Fe = x: int | 0 <= x < P

  predicate Opened(k: int) { true }

  predicate IsResidueOfInt(x: int, c: Fe) {
    forall k {:trigger Opened(k)} | 0 <= k < 1 :: Opened(k) ==> c == x % P
  }

  predicate IsResidueOfSum(a: int, b: int, c: Fe) {
    forall k {:trigger Opened(k)} | 0 <= k < 1 :: Opened(k) ==> c == (a + b) % P
  }

  predicate IsResidueOfDifference(a: int, b: int, c: Fe) {
    forall k {:trigger Opened(k)} | 0 <= k < 1 :: Opened(k) ==> c == (a - b) % P
  }

  predicate IsResidueOfProduct(a: int, b: int, c: Fe) {
    forall k {:trigger Opened(k)} | 0 <= k < 1 :: Opened(k) ==> c == a * b % P
  }

  /** The residue class of an integer. */
  function Res(x: int): Fe {
    assert Opened(0);
    assert IsResidueOfInt(x, x % P);
    var c: Fe :| 0 <= c < P && IsResidueOfInt(x, c);
    c
  }

  function Add(a: Fe, b: Fe): Fe {
    assert Opened(0);
    assert IsResidueOfSum(a, b, (a + b) % P);
    var c: Fe :| 0 <= c < P && IsResidueOfSum(a, b, c);
    c
  }

  function Sub(a: Fe, b: Fe): Fe {
    assert Opened(0);
    assert IsResidueOfDifference(a, b, (a - b) % P);
    var c: Fe :| 0 <= c < P && IsResidueOfDifference(a, b, c);
    c
  }

  function Mul(a: Fe, b: Fe): Fe {
    assert Opened(0);
    assert IsResidueOfProduct(a, b, a * b % P);
    var c: Fe :| 0 <= c < P && IsResidueOfProduct(a, b, c);
    c
  }

  function Neg(a: Fe): Fe { Sub(0, a) }

  function Double(a: Fe): Fe { Add(a, a) }

  /** `x + a * (y - x)`: the value at `a` of the line through `x` at 0 and `y` at 1. */
  function Lerp(a: Fe, x: Fe, y: Fe): Fe { Add(x, Mul(a, Sub(y, x))) }

  // ----- opening the definitions

  lemma ResIs(x: int)
    ensures Res(x) == x % P
  {
    assert Opened(0);
  }

  lemma AddIs(a: Fe, b: Fe)
    ensures Add(a, b) == (a + b) % P
  {
    assert Opened(0);
  }

  lemma SubIs(a: Fe, b: Fe)
    ensures Sub(a, b) == (a - b) % P
  {
    assert Opened(0);
  }

  lemma MulIs(a: Fe, b: Fe)
    ensures Mul(a, b) == a * b % P
  {
    assert Opened(0);
  }

  lemma ModuloUnique(x: int, y: int, k: int)
    requires x - y == P * k
    ensures x % P == y % P
  {
  }

  // ----- lifting to integers

  lemma LiftSelf(x: Fe)
    ensures Res(x) == x
  {
    ResIs(x);
  }

  lemma LiftAdd(x: int, y: int)
    ensures Add(Res(x), Res(y)) == Res(x + y)
  {
    ResIs(x);
    ResIs(y);
    ResIs(x + y);
    AddIs(x % P, y % P);
  }

  lemma LiftSub(x: int, y: int)
    ensures Sub(Res(x), Res(y)) == Res(x - y)
  {
    ResIs(x);
    ResIs(y);
    ResIs(x - y);
    SubIs(x % P, y % P);
  }

  lemma LiftMul(x: int, y: int)
    ensures Mul(Res(x), Res(y)) == Res(x * y)
  {
    ResIs(x);
    ResIs(y);
    ResIs(x * y);
    MulIs(x % P, y % P);
    ProductModulo(x, y);
  }

  lemma ProductModulo(x: int, y: int)
    ensures (x % P) * (y % P) % P == x * y % P
  {
    var a, b := x / P, y / P;
    var r, s := x % P, y % P;
    assert x == P * a + r && y == P * b + s;
    assert x * y == P * (a * y + r * b) + r * s by {
      assert x * y == (P * a + r) * y;
      assert r * y == r * (P * b + s);
    }
    ModuloUnique(x * y, r * s, a * y + r * b);
  }

  lemma LiftNeg(x: int)
    ensures Neg(Res(x)) == Res(-x)
  {
    LiftSelf(0);
    LiftSub(0, x);
  }

  lemma LiftLerp(a: int, x: int, y: int)
    ensures Lerp(Res(a), Res(x), Res(y)) == Res(x + a * (y - x))
  {
    LiftSub(y, x);
    LiftMul(a, y - x);
    LiftAdd(x, a * (y - x));
  }

  /** Congruent integers have the same residue. */
  lemma ResCong(x: int, k: int)
    ensures Res(x + P * k) == Res(x)
  {
    ResIs(x);
    ResIs(x + P * k);
    ModuloUnique(x + P * k, x, k);
  }

  // ----- ring laws

  lemma AddZero(a: Fe)
    ensures Add(a, 0) == a && Add(0, a) == a && Sub(a, 0) == a && Sub(a, a) == 0
  {
    AddIs(a, 0);
    AddIs(0, a);
    SubIs(a, 0);
    SubIs(a, a);
  }

  lemma MulOne(a: Fe)
    ensures Mul(a, 1) == a && Mul(1, a) == a && Mul(a, 0) == 0 && Mul(0, a) == 0
  {
    MulIs(a, 1);
    MulIs(1, a);
    MulIs(a, 0);
    MulIs(0, a);
  }

  lemma AddComm(a: Fe, b: Fe)
    ensures Add(a, b) == Add(b, a)
  {
    AddIs(a, b);
    AddIs(b, a);
  }

  lemma MulComm(a: Fe, b: Fe)
    ensures Mul(a, b) == Mul(b, a)
  {
    MulIs(a, b);
    MulIs(b, a);
    assert a * b == b * a;
  }

  lemma AddAssoc(a: Fe, b: Fe, c: Fe)
    ensures Add(Add(a, b), c) == Add(a, Add(b, c))
  {
    LiftSelf(a);
    LiftSelf(b);
    LiftSelf(c);
    LiftAdd(a, b);
    LiftAdd(a + b, c);
    LiftAdd(b, c);
    LiftAdd(a, b + c);
  }

  lemma MulAssoc(a: Fe, b: Fe, c: Fe)
    ensures Mul(Mul(a, b), c) == Mul(a, Mul(b, c))
  {
    LiftSelf(a);
    LiftSelf(b);
    LiftSelf(c);
    LiftMul(a, b);
    LiftMul(a * b, c);
    LiftMul(b, c);
    LiftMul(a, b * c);
    assert a * b * c == a * (b * c);
  }

  lemma Distributes(a: Fe, b: Fe, c: Fe)
    ensures Mul(a, Add(b, c)) == Add(Mul(a, b), Mul(a, c))
    ensures Mul(Add(b, c), a) == Add(Mul(b, a), Mul(c, a))
    ensures Mul(a, Sub(b, c)) == Sub(Mul(a, b), Mul(a, c))
  {
    DistributesSum(a, b, c);
    DistributesDifference(a, b, c);
    MulComm(Add(b, c), a);
    MulComm(b, a);
    MulComm(c, a);
  }

  lemma DistributesSum(a: Fe, b: Fe, c: Fe)
    ensures Mul(a, Add(b, c)) == Add(Mul(a, b), Mul(a, c))
  {
    LiftSelf(a);
    LiftAdd(b, c);
    LiftMul(a, b + c);
    LiftMul(a, b);
    LiftMul(a, c);
    LiftAdd(a * b, a * c);
    LiftSelf(b);
    LiftSelf(c);
    assert a * (b + c) == a * b + a * c;
  }

  lemma DistributesDifference(a: Fe, b: Fe, c: Fe)
    ensures Mul(a, Sub(b, c)) == Sub(Mul(a, b), Mul(a, c))
  {
    LiftSelf(a);
    LiftSub(b, c);
    LiftMul(a, b - c);
    LiftMul(a, b);
    LiftMul(a, c);
    LiftSub(a * b, a * c);
    LiftSelf(b);
    LiftSelf(c);
    assert a * (b - c) == a * b - a * c;
  }

  /** Both written forms of a line through two points. */
  lemma LerpWeights(a: Fe, x: Fe, y: Fe)
    ensures Lerp(a, x, y) == Add(Mul(Sub(1, a), x), Mul(a, y))
  {
    LiftSelf(a);
    LiftSelf(x);
    LiftSelf(y);
    LiftSelf(1);
    LiftLerp(a, x, y);
    LiftSub(1, a);
    LiftMul(1 - a, x);
    LiftMul(a, y);
    LiftAdd((1 - a) * x, a * y);
    assert (1 - a) * x + a * y == x + a * (y - x);
  }

  /** Interpolating along two axes gives the same value in either order. */
  lemma LerpInterchange(a: Fe, b: Fe, x: Fe, y: Fe, z: Fe, w: Fe)
    ensures Lerp(a, Lerp(b, x, y), Lerp(b, z, w)) == Lerp(b, Lerp(a, x, z), Lerp(a, y, w))
  {
    LiftSelf(a);
    LiftSelf(b);
    LiftSelf(x);
    LiftSelf(y);
    LiftSelf(z);
    LiftSelf(w);
    LiftLerp(b, x, y);
    LiftLerp(b, z, w);
    LiftLerp(a, x, z);
    LiftLerp(a, y, w);
    var p, q, s, t := x + b * (y - x), z + b * (w - z), x + a * (z - x), y + a * (w - y);
    LiftLerp(a, p, q);
    LiftLerp(b, s, t);
    assert p + a * (q - p) == s + b * (t - s);
  }

  lemma LerpEnds(x: Fe, y: Fe)
    ensures Lerp(0, x, y) == x && Lerp(1, x, y) == y
  {
    LerpWeights(0, x, y);
    LerpWeights(1, x, y);
    AddZero(1);
    AddZero(x);
    AddZero(y);
    MulOne(x);
    MulOne(y);
  }

  lemma LerpSame(a: Fe, x: Fe)
    ensures Lerp(a, x, x) == x
  {
    AddZero(x);
    MulOne(a);
  }

  // ----- powers

  function Pow(a: Fe, n: nat): Fe {
    if n == 0 then 1 else Mul(a, Pow(a, n - 1))
  }

  lemma {:induction false} PowAdd(a: Fe, m: nat, n: nat)
    ensures Pow(a, m + n) == Mul(Pow(a, m), Pow(a, n))
  {
    if m == 0 {
      MulOne(Pow(a, n));
    } else {
      PowAdd(a, m - 1, n);
      MulAssoc(a, Pow(a, m - 1), Pow(a, n));
    }
  }

  lemma {:induction false} PowMul(a: Fe, m: nat, n: nat)
    ensures Pow(Pow(a, m), n) == Pow(a, m * n)
  {
    if n > 0 {
      PowMul(a, m, n - 1);
      PowAdd(a, m, m * (n - 1));
      assert m * n == m + m * (n - 1);
    }
  }

  lemma {:induction false} PowOne(n: nat)
    ensures Pow(1, n) == 1
  {
    if n > 0 {
      PowOne(n - 1);
      MulOne(1);
    }
  }
}
