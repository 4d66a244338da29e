/**
 The dense matrix of the permutation is invertible: x^16 - 1 splits into linear factors over the
 field, and its circulant column has no root among the sixteen.  Halving the column modulo
 x^h - d and x^h + d, four times over, meets no zero
 (MDS_CIRC_COL, crates/backend/koala-bear/src/poseidon1_koalabear_16.rs).
 */
module MdsRegular {
  import opened Field
  import opened Prime
  import opened LinearAlgebra
  import opened Convolution
  import opened MdsLayer
  import opened Poseidon

  /** No nonzero factor gives a zero product modulo x^|b| - e. */
  ghost predicate Regular(b: seq<Fe>, e: Fe) {
    b != [] && forall a: seq<Fe> {:trigger Conv(a, b, e)} | |a| == |b| && Conv(a, b, e) == ZeroVec(|b|) :: a == ZeroVec(|b|)
  }

  lemma SumProductIs(x: Fe, d: Fe, y: Fe)
    ensures Add(x, Mul(d, y)) == (x + d * y) % P
  {
    MulIs(d, y);
    AddIs(x, Mul(d, y));
    ModuloUnique(x + d * y, x + d * y % P, d * y / P);
  }

  /** The halves of b modulo d are u. */
  ghost predicate Halves(b: seq<Fe>, d: Fe, u: seq<Fe>) {
    |b| == 2 * |u| && forall i {:trigger u[i]} | 0 <= i < |u| :: (b[i] + d * b[i + |u|]) % P == u[i]
  }

  lemma HalvedIs(b: seq<Fe>, d: Fe, u: seq<Fe>)
    requires Halves(b, d, u)
    ensures Halved(b, d) == u
  {
    var r := Halved(b, d);
    forall i | 0 <= i < |u| ensures r[i] == u[i] {
      SumProductIs(b[i], d, b[i + |u|]);
    }
  }

  lemma ZeroHalves(x: Fe, y: Fe, d: Fe)
    requires d != 0 && Add(x, Mul(d, y)) == 0 && Add(x, Mul(P - d, y)) == 0
    ensures x == 0 && y == 0
  {
    LiftSelf(x);
    LiftSelf(y);
    LiftSelf(d);
    LiftSelf(P - d);
    LiftMul(d, y);
    LiftMul(P - d, y);
    LiftAdd(x, d * y);
    LiftAdd(x, (P - d) * y);
    LiftAdd(x + d * y, x + (P - d) * y);
    ResCong(2 * x, y);
    assert x + d * y + (x + (P - d) * y) == 2 * x + P * y;
    AddZero(0);
    LiftAdd(x, x);
    HalveDouble(x);
    HalveDouble(0);
    AddZero(Mul(d, y));
    AddComm(x, Mul(d, y));
    NoZeroDivisors(d, y);
  }

  lemma HalvedZero(n: nat, d: Fe)
    requires n % 2 == 0
    ensures Halved(ZeroVec(n), d) == ZeroVec(n / 2)
  {
    SumProductIs(0, d, 0);
  }

  lemma FromHalves(a: seq<Fe>, h: nat, d: Fe)
    requires |a| == 2 * h && d != 0 && Halved(a, d) == ZeroVec(h) && Halved(a, P - d) == ZeroVec(h)
    ensures a == ZeroVec(2 * h)
  {
    forall k | 0 <= k < 2 * h ensures a[k] == 0 {
      var i := if k < h then k else k - h;
      assert Halved(a, d)[i] == 0 && Halved(a, P - d)[i] == 0;
      ZeroHalves(a[i], a[i + h], d);
    }
  }

  /** Regular modulo x^h - d and modulo x^h + d is regular modulo their product. */
  lemma RegularHalves(b: seq<Fe>, e: Fe, d: Fe, u: seq<Fe>, v: seq<Fe>)
    requires d != 0 && d * d % P == e && Halves(b, d, u) && Halves(b, P - d, v) && Regular(u, d) && Regular(v, P - d)
    ensures Regular(b, e)
  {
    hide Halves, Conv, Halved;
    HalvedIs(b, d, u);
    HalvedIs(b, P - d, v);
    LengthOf(b, d, u);
    SquareIs(d, e);
    forall a: seq<Fe> {:trigger Conv(a, b, e)} | |a| == |b| && Conv(a, b, e) == ZeroVec(|b|) ensures a == ZeroVec(|b|) {
      HalvedProduct(a, b, d, e);
      HalvedProduct(a, b, P - d, e);
      HalvedZero(|b|, d);
      HalvedZero(|b|, P - d);
      FromHalves(a, |u|, d);
    }
  }

  lemma LengthOf(b: seq<Fe>, d: Fe, u: seq<Fe>)
    requires Halves(b, d, u)
    ensures |b| == 2 * |u| && |b| % 2 == 0 && |b| / 2 == |u|
  {
  }

  lemma SquareIs(d: Fe, e: Fe)
    requires d != 0 && d * d % P == e
    ensures Mul(d, d) == e && Mul(P - d, P - d) == e
  {
    MulIs(d, d);
    MulIs(P - d, P - d);
    ModuloUnique((P - d) * (P - d), d * d, P - 2 * d);
  }

  lemma RegularOne(x: Fe, e: Fe)
    requires x != 0
    ensures Regular([x], e)
  {
    forall a: seq<Fe> {:trigger Conv(a, [x], e)} | |a| == 1 && Conv(a, [x], e) == ZeroVec(1) ensures a == ZeroVec(1) {
      ConvEntry(a, [x], e, 0);
      assert WrapRow([x], e, 0, 1) == [x] && a == [a[0]];
      assert a[1..] == [] && [x][1..] == [];
      AddZero(Mul(a[0], x));
      NoZeroDivisors(a[0], x);
    }
  }

  lemma RegularPair(x: Fe, y: Fe, e: Fe, d: Fe, u: Fe, v: Fe)
    requires d != 0 && d * d % P == e && (x + d * y) % P == u && (x + (P - d) * y) % P == v && u != 0 && v != 0
    ensures Regular([x, y], e)
  {
    RegularOne(u, d);
    RegularOne(v, P - d);
    assert Halves([x, y], d, [u]) && Halves([x, y], P - d, [v]);
    RegularHalves([x, y], e, d, [u], [v]);
  }

  lemma RegularFour(x0: Fe, x1: Fe, x2: Fe, x3: Fe, e: Fe, d: Fe, u0: Fe, u1: Fe, v0: Fe, v1: Fe)
    requires d != 0 && d * d % P == e && Regular([u0, u1], d) && Regular([v0, v1], P - d)
    requires (x0 + d * x2) % P == u0 && (x1 + d * x3) % P == u1 && (x0 + (P - d) * x2) % P == v0 && (x1 + (P - d) * x3) % P == v1
    ensures Regular([x0, x1, x2, x3], e)
  {
    hide Regular;
    assert Halves([x0, x1, x2, x3], d, [u0, u1]) && Halves([x0, x1, x2, x3], P - d, [v0, v1]);
    RegularHalves([x0, x1, x2, x3], e, d, [u0, u1], [v0, v1]);
  }

  lemma RegularEight(x0: Fe, x1: Fe, x2: Fe, x3: Fe, x4: Fe, x5: Fe, x6: Fe, x7: Fe, e: Fe, d: Fe,
                     u0: Fe, u1: Fe, u2: Fe, u3: Fe, v0: Fe, v1: Fe, v2: Fe, v3: Fe)
    requires d != 0 && d * d % P == e && Regular([u0, u1, u2, u3], d) && Regular([v0, v1, v2, v3], P - d)
    requires (x0 + d * x4) % P == u0 && (x1 + d * x5) % P == u1 && (x2 + d * x6) % P == u2 && (x3 + d * x7) % P == u3
    requires (x0 + (P - d) * x4) % P == v0 && (x1 + (P - d) * x5) % P == v1 && (x2 + (P - d) * x6) % P == v2 && (x3 + (P - d) * x7) % P == v3
    ensures Regular([x0, x1, x2, x3, x4, x5, x6, x7], e)
  {
    hide Regular;
    var b, u, v := [x0, x1, x2, x3, x4, x5, x6, x7], [u0, u1, u2, u3], [v0, v1, v2, v3];
    assert Halves(b, d, u) && Halves(b, P - d, v);
    RegularHalves(b, e, d, u, v);
  }

  // ----- the shipped column, a quarter at a time

  lemma RegularModuloMinusMinus()
    ensures Regular([180, 7, 81, 103], 1)
  {
    hide Regular;
    RegularPair(261, 110, 1, 1, 371, 151);
    RegularPair(99, 2130706337, 2130706432, 2113994754, 1604321283, 526385348);
    RegularFour(180, 7, 81, 103, 1, 1, 261, 110, 99, 2130706337);
  }

  lemma RegularModuloMinusPlus()
    ensures Regular([24, 1, 2130706382, 2130706408], 2130706432)
  {
    hide Regular;
    RegularPair(852295653, 417791976, 2113994754, 1748172362, 1348251747, 356339559);
    RegularPair(1278410828, 1712914459, 16711679, 391001680, 579232118, 1977589538);
    RegularFour(24, 1, 2130706382, 2130706408, 2130706432, 2113994754, 852295653, 417791976, 1278410828, 1712914459);
  }

  lemma RegularModuloMinus()
    ensures Regular([102, 4, 15, 39, 78, 3, 66, 64], 1)
  {
    hide Regular;
    RegularModuloMinusMinus();
    RegularModuloMinusPlus();
    RegularEight(102, 4, 15, 39, 78, 3, 66, 64, 1, 1,
                 180, 7, 81, 103, 24, 1, 2130706382, 2130706408);
  }

  lemma RegularModuloPlusMinus()
    ensures Regular([1194852309, 2113994756, 601620455, 1094582340], 2113994754)
  {
    hide Regular;
    RegularPair(2087274945, 1005657798, 1748172362, 148625052, 1296379054, 747464403);
    RegularPair(302429673, 1091625281, 382534071, 982097957, 1695239575, 1040326204);
    RegularFour(1194852309, 2113994756, 601620455, 1094582340, 2113994754, 1748172362, 2087274945, 1005657798, 302429673, 1091625281);
  }

  lemma RegularModuloPlusPlus()
    ensures Regular([935853924, 16711681, 1529086000, 1036124103], 16711679)
  {
    hide Regular;
    RegularPair(1962447496, 1692378442, 391001680, 665723362, 981377015, 812811544);
    RegularPair(2039966785, 471751353, 1739704753, 668978722, 1123239136, 825988001);
    RegularFour(935853924, 16711681, 1529086000, 1036124103, 16711679, 391001680, 1962447496, 1692378442, 2039966785, 471751353);
  }

  lemma RegularModuloPlus()
    ensures Regular([2130706333, 2, 11, 5, 56, 1, 2130706397, 62], 2130706432)
  {
    hide Regular;
    RegularModuloPlusMinus();
    RegularModuloPlusPlus();
    RegularEight(2130706333, 2, 11, 5, 56, 1, 2130706397, 62, 2130706432, 2113994754,
                 1194852309, 2113994756, 601620455, 1094582340, 935853924, 16711681, 1529086000, 1036124103);
  }

  lemma ColumnIsRegular()
    ensures Regular(MDS_CIRC_COL, 1)
  {
    hide Regular;
    RegularModuloMinus();
    RegularModuloPlus();
    var b: seq<Fe>, u: seq<Fe>, v: seq<Fe> := MDS_CIRC_COL, [102, 4, 15, 39, 78, 3, 66, 64], [2130706333, 2, 11, 5, 56, 1, 2130706397, 62];
    assert Halves(b, 1, u) && Halves(b, P - 1, v);
    RegularHalves(b, 1, 1, u, v);
  }

  /** The dense matrix sends no nonzero state to zero. */
  lemma MdsIsRegular()
    ensures !IsSingular(Mds(), POSEIDON1_WIDTH)
  {
    ColumnIsRegular();
    hide Conv, MatVec, CirculantMatrix;
    if IsSingular(Mds(), POSEIDON1_WIDTH) {
      var s: seq<Fe> :| |s| == POSEIDON1_WIDTH && s != ZeroVec(POSEIDON1_WIDTH) && MatVec(Mds(), s) == ZeroVec(POSEIDON1_WIDTH);
      CirculantIsConv(MDS_CIRC_COL, s);
    }
  }
}
