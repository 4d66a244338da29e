/**
 The successor polynomial (crates/backend/poly/src/next_mle.rs): its closed form, the dense
 vector that the prover folds with, and the shifted columns it stands for
 (crates/sub_protocols/src/air_sumcheck.rs).
 */
module NextPolynomial {
  import opened Arith
  import opened Field
  import opened Multilinear

  function Prod(x: seq<Fe>): Fe {
    if x == [] then 1 else Mul(x[0], Prod(x[1..]))
  }

  /** The product of `x[i] * (1 - y[i])`: a run of ones in x turns into zeros in y. */
  function Low(x: seq<Fe>, y: seq<Fe>): Fe
    requires |x| == |y|
    decreases |x|
  {
    if x == [] then 1 else Mul(Mul(Low(x[1..], y[1..]), x[0]), Sub(1, y[0]))
  }

  /** Sum over the position where the carry of x + 1 stops. */
  function Succ(x: seq<Fe>, y: seq<Fe>): Fe
    requires |x| == |y|
    decreases |x|
  {
    if x == [] then 0
    else Add(Mul(Mul(Sub(1, x[0]), y[0]), Low(x[1..], y[1..])), Mul(EqFactor(x[0], y[0]), Succ(x[1..], y[1..])))
  }

  function Next(x: seq<Fe>, y: seq<Fe>): Fe
    requires |x| == |y|
  {
    Add(Succ(x, y), Mul(Prod(x), Prod(y)))
  }

  // ----- next_mle

  lemma SumStep(sum: Fe, e: Fe, c: Fe, l: Fe, f: Fe, s: Fe)
    ensures Add(sum, Mul(e, Add(Mul(c, l), Mul(f, s)))) == Add(Add(sum, Mul(Mul(e, c), l)), Mul(Mul(e, f), s))
  {
    LiftSelf(sum);
    LiftSelf(e);
    LiftSelf(c);
    LiftSelf(l);
    LiftSelf(f);
    LiftSelf(s);
    LiftMul(c, l);
    LiftMul(f, s);
    LiftAdd(c * l, f * s);
    LiftMul(e, c * l + f * s);
    LiftAdd(sum, e * (c * l + f * s));
    LiftMul(e, c);
    LiftMul(e * c, l);
    LiftAdd(sum, e * c * l);
    LiftMul(e, f);
    LiftMul(e * f, s);
    LiftAdd(sum + e * c * l, e * f * s);
    assert sum + e * (c * l + f * s) == sum + e * c * l + e * f * s;
  }

  lemma {:induction false} ProdAppend(x: seq<Fe>, y: seq<Fe>)
    ensures Prod(x + y) == Mul(Prod(x), Prod(y))
    decreases |x|
  {
    if x == [] {
      assert x + y == y;
      MulOne(Prod(y));
    } else {
      assert (x + y)[1..] == x[1..] + y;
      ProdAppend(x[1..], y);
      MulAssoc(x[0], Prod(x[1..]), Prod(y));
    }
  }

  method NextMle(x: seq<Fe>, y: seq<Fe>) returns (r: Fe)
    requires |x| == |y|
    ensures r == Next(x, y)
  {
    var n := |x|;
    var eqPrefix: seq<Fe> := [1];
    for i := 0 to n
      invariant |eqPrefix| == i + 1 && eqPrefix[0] == 1
      invariant forall j {:trigger eqPrefix[j + 1]} | 0 <= j < i :: eqPrefix[j + 1] == Mul(eqPrefix[j], EqFactor(x[j], y[j]))
    {
      var eq := Add(Mul(x[i], y[i]), Mul(Sub(1, x[i]), Sub(1, y[i])));
      EqFactorWeights(x[i], y[i]);
      eqPrefix := eqPrefix + [Mul(eqPrefix[i], eq)];
    }
    var lowSuffix: seq<Fe> := seq(n + 1, _ => 1);
    var i := n;
    while i > 0
      invariant 0 <= i <= n && |lowSuffix| == n + 1
      invariant forall j {:trigger lowSuffix[j]} | i <= j <= n :: lowSuffix[j] == Low(x[j..], y[j..])
    {
      i := i - 1;
      assert x[i..][1..] == x[i + 1..] && y[i..][1..] == y[i + 1..];
      lowSuffix := lowSuffix[i := Mul(Mul(lowSuffix[i + 1], x[i]), Sub(1, y[i]))];
    }
    var sum: Fe := 0;
    assert x[0..] == x && y[0..] == y;
    MulOne(Succ(x, y));
    AddZero(Succ(x, y));
    for arr := 0 to n
      invariant Succ(x, y) == Add(sum, Mul(eqPrefix[arr], Succ(x[arr..], y[arr..])))
    {
      var carry := Mul(Sub(1, x[arr]), y[arr]);
      assert x[arr..][1..] == x[arr + 1..] && y[arr..][1..] == y[arr + 1..];
      SumStep(sum, eqPrefix[arr], carry, lowSuffix[arr + 1], EqFactor(x[arr], y[arr]), Succ(x[arr + 1..], y[arr + 1..]));
      assert eqPrefix[arr + 1] == Mul(eqPrefix[arr], EqFactor(x[arr], y[arr]));
      sum := Add(sum, Mul(Mul(eqPrefix[arr], carry), lowSuffix[arr + 1]));
    }
    MulOne(eqPrefix[n]);
    AddZero(sum);
    ProdAppend(x, y);
    r := Add(sum, Prod(x + y));
  }

  // ----- the dense vector

  lemma {:induction false} EqVecLast(x: seq<Fe>, s: Fe)
    ensures EqVec(x, s)[Pow2(|x|) - 1] == Mul(s, Prod(x))
    decreases |x|
  {
    if x == [] {
      MulOne(s);
    } else {
      EqVecLast(x[1..], Mul(s, x[0]));
      MulAssoc(s, x[0], Prod(x[1..]));
    }
  }

  /** The equality vector moved up by one place. */
  ghost function ShiftedEq(x: seq<Fe>): (v: seq<Fe>)
    ensures |v| == Pow2(|x|)
  {
    [0] + EqVec(x, 1)[..Pow2(|x|) - 1]
  }

  /** What matrix_next_mle_folded computes: the last equality value is added to the last place. */
  ghost function Folded(x: seq<Fe>): (v: seq<Fe>)
    ensures |v| == Pow2(|x|)
  {
    var s := ShiftedEq(x);
    var last := Pow2(|x|) - 1;
    s[last := Add(s[last], Prod(x))]
  }

  ghost function UnitVec(i: nat, n: nat): (v: seq<Fe>)
    requires i < Pow2(n)
    ensures |v| == Pow2(n)
    ensures forall j {:trigger v[j]} | 0 <= j < |v| :: v[j] == if j == i then 1 else 0
  {
    seq(Pow2(n), j => if j == i then 1 else 0)
  }

  function ProdOneMinus(y: seq<Fe>): Fe {
    if y == [] then 1 else Mul(Sub(1, y[0]), ProdOneMinus(y[1..]))
  }

  lemma {:induction false} LowIsProduct(x: seq<Fe>, y: seq<Fe>)
    requires |x| == |y|
    ensures Low(x, y) == Mul(Prod(x), ProdOneMinus(y))
    decreases |x|
  {
    if x == [] {
      MulOne(1);
    } else {
      LowIsProduct(x[1..], y[1..]);
      RegroupFour(Prod(x[1..]), ProdOneMinus(y[1..]), x[0], Sub(1, y[0]));
    }
  }

  lemma RegroupFour(p: Fe, q: Fe, a: Fe, b: Fe)
    ensures Mul(Mul(Mul(p, q), a), b) == Mul(Mul(a, p), Mul(b, q))
  {
    LiftSelf(p);
    LiftSelf(q);
    LiftSelf(a);
    LiftSelf(b);
    LiftMul(p, q);
    LiftMul(p * q, a);
    LiftMul(p * q * a, b);
    LiftMul(a, p);
    LiftMul(b, q);
    LiftMul(a * p, b * q);
    assert p * q * a * b == a * p * (b * q);
  }

  lemma {:induction false} MleUnitEnds(y: seq<Fe>)
    ensures Mle(UnitVec(0, |y|), y) == ProdOneMinus(y)
    ensures Mle(UnitVec(Pow2(|y|) - 1, |y|), y) == Prod(y)
    decreases |y|
  {
    var n := |y|;
    if n == 0 {
    } else {
      var h := Pow2(n - 1);
      var rest := y[1..];
      var first, last := UnitVec(0, n), UnitVec(Pow2(n) - 1, n);
      assert first[..h] == UnitVec(0, n - 1);
      assert last[h..] == UnitVec(h - 1, n - 1);
      MleConstant(first[h..], rest, 0);
      MleConstant(last[..h], rest, 0);
      MleUnitEnds(rest);
      var p, q := ProdOneMinus(rest), Prod(rest);
      LerpWeights(y[0], p, 0);
      LerpWeights(y[0], 0, q);
      MulOne(y[0]);
      MulOne(Sub(1, y[0]));
      AddZero(Mul(Sub(1, y[0]), p));
      AddZero(Mul(y[0], q));
    }
  }

  lemma ShiftedEqHalves(x: seq<Fe>, h: nat)
    requires x != [] && h == Pow2(|x| - 1)
    ensures IsScaled(Sub(1, x[0]), ShiftedEq(x[1..]), ShiftedEq(x)[..h])
    ensures ShiftedEq(x)[h] == Mul(Sub(1, x[0]), Prod(x[1..]))
    ensures forall j {:trigger ShiftedEq(x[1..])[j]} | 0 < j < h :: ShiftedEq(x)[h + j] == Mul(x[0], ShiftedEq(x[1..])[j])
  {
    hide EqVec, Prod;
    var rest := x[1..];
    var s0 := Sub(1, x[0]);
    MulOne(x[0]);
    MulOne(s0);
    EqVecScaled(rest, s0, 1);
    EqVecScaled(rest, x[0], 1);
    EqVecLast(rest, s0);
    EqVecHalves(x);
    ShiftHalves(EqVec(x, 1), EqVec(rest, s0), EqVec(rest, x[0]), EqVec(rest, 1), s0, x[0], h);
  }

  lemma EqVecHalves(x: seq<Fe>)
    requires x != []
    ensures EqVec(x, 1) == EqVec(x[1..], Sub(1, x[0])) + EqVec(x[1..], x[0])
  {
    MulOne(x[0]);
  }

  lemma ShiftHalves(e: seq<Fe>, e0: seq<Fe>, e1: seq<Fe>, f: seq<Fe>, s0: Fe, s1: Fe, h: nat)
    requires h > 0 && e == e0 + e1 && IsScaled(s0, f, e0) && IsScaled(s1, f, e1) && |f| == h
    ensures IsScaled(s0, [0] + f[..h - 1], ([0] + e[..2 * h - 1])[..h])
    ensures ([0] + e[..2 * h - 1])[h] == e0[h - 1]
    ensures forall j {:trigger ([0] + f[..h - 1])[j]} | 0 < j < h :: ([0] + e[..2 * h - 1])[h + j] == Mul(s1, ([0] + f[..h - 1])[j])
  {
    MulOne(s0);
  }

  lemma {:induction false} MleShiftedEq(x: seq<Fe>, y: seq<Fe>)
    requires |x| == |y|
    ensures Mle(ShiftedEq(x), y) == Succ(x, y)
    decreases |x|
  {
    if x == [] {
    } else {
      var h := Pow2(|x| - 1);
      var rest, yr := x[1..], y[1..];
      ShiftedEqHalves(x, h);
      MleShiftedEq(rest, yr);
      var v := ShiftedEq(x);
      MleScaled(Sub(1, x[0]), ShiftedEq(rest), v[..h], yr);
      UpperHalf(x, y, h);
      SuccStep(y[0], x[0], Succ(rest, yr), Low(rest, yr));
    }
  }

  /** The upper half of the shifted vector: a unit vector plus the scaled shorter vector. */
  lemma UpperHalf(x: seq<Fe>, y: seq<Fe>, h: nat)
    requires x != [] && |x| == |y| && h == Pow2(|x| - 1)
    requires Mle(ShiftedEq(x[1..]), y[1..]) == Succ(x[1..], y[1..])
    ensures Mle(ShiftedEq(x)[h..], y[1..])
         == Add(Mul(Sub(1, x[0]), Low(x[1..], y[1..])), Mul(x[0], Succ(x[1..], y[1..])))
  {
    var rest, yr := x[1..], y[1..];
    var n := |rest|;
    var s0 := Sub(1, x[0]);
    ShiftedEqHalves(x, h);
    var c := Mul(s0, Prod(rest));
    var unit := UnitVec(0, n);
    var u := seq(h, j requires 0 <= j < h => Mul(c, unit[j]));
    var s := ShiftedEq(rest);
    var w := seq(h, j requires 0 <= j < h => Mul(x[0], s[j]));
    var upper := ShiftedEq(x)[h..];
    forall j | 0 <= j < h
      ensures upper[j] == Add(u[j], w[j])
    {
      MulOne(c);
      MulOne(x[0]);
      AddZero(c);
      AddZero(w[j]);
    }
    assert IsSum(u, w, upper);
    MleSum(u, w, upper, yr);
    MleScaled(c, unit, u, yr);
    MleScaled(x[0], s, w, yr);
    MleUnitEnds(yr);
    LowIsProduct(rest, yr);
    MulAssoc(s0, Prod(rest), ProdOneMinus(yr));
  }

  lemma SuccStep(y: Fe, x: Fe, s: Fe, l: Fe)
    ensures Lerp(y, Mul(Sub(1, x), s), Add(Mul(Sub(1, x), l), Mul(x, s)))
         == Add(Mul(Mul(Sub(1, x), y), l), Mul(EqFactor(x, y), s))
  {
    EqFactorWeights(x, y);
    LiftSelf(y);
    LiftSelf(x);
    LiftSelf(s);
    LiftSelf(l);
    LiftSelf(1);
    LiftSub(1, x);
    LiftSub(1, y);
    var c: int := 1 - x;
    LiftMul(c, s);
    LiftMul(c, l);
    LiftMul(x, s);
    LiftAdd(c * l, x * s);
    LiftLerp(y, c * s, c * l + x * s);
    LiftMul(c, y);
    LiftMul(c * y, l);
    LiftLerp(y, c, x);
    LiftMul(c + y * (x - c), s);
    LiftAdd(c * y * l, (c + y * (x - c)) * s);
    assert c * s + y * (c * l + x * s - c * s) == c * y * l + (c + y * (x - c)) * s;
  }

  /** The folded vector is the polynomial with its first argument fixed. */
  lemma FoldedEvaluates(x: seq<Fe>, y: seq<Fe>)
    requires |x| == |y|
    ensures Mle(Folded(x), y) == Next(x, y)
  {
    var n := |x|;
    var last := Pow2(n) - 1;
    var unit := UnitVec(last, n);
    var u := seq(Pow2(n), j requires 0 <= j < Pow2(n) => Mul(Prod(x), unit[j]));
    var s := ShiftedEq(x);
    forall j | 0 <= j < Pow2(n)
      ensures Folded(x)[j] == Add(s[j], u[j])
    {
      MulOne(Prod(x));
      AddZero(s[j]);
    }
    assert IsSum(s, u, Folded(x));
    MleSum(s, u, Folded(x), y);
    MleShiftedEq(x, y);
    MleScaled(Prod(x), unit, u, y);
    MleUnitEnds(y);
  }

  /** On the hypercube: 1 exactly for the successor, and for the last point with itself. */
  lemma NextOnBits(i: nat, j: nat, n: nat)
    requires i < Pow2(n) && j < Pow2(n)
    ensures Next(Bits(i, n), Bits(j, n)) == if j == i + 1 || (i == Pow2(n) - 1 && j == i) then 1 else 0
  {
    var x := Bits(i, n);
    FoldedEvaluates(x, Bits(j, n));
    MleAtBits(Folded(x), j, n);
    EqVecAtBits(i, n, 1);
    EqVecLast(x, 1);
    MulOne(Prod(x));
    AddZero(Prod(x));
    AddZero(0);
    AddZero(1);
    var last := Pow2(n) - 1;
    assert Prod(x) == if i == last then 1 else 0;
    assert ShiftedEq(x)[j] == if j == i + 1 then 1 else 0 by {
      if j > 0 {
        assert ShiftedEq(x)[j] == EqVec(x, 1)[j - 1];
      }
    }
  }

  // ----- shifted columns

  /** One entry of compute_shifted_columns: the column moved down by one, the last row repeated. */
  function Shifted(col: seq<Fe>): (r: seq<Fe>)
    requires col != []
    ensures |r| == |col|
  {
    col[1..] + [col[|col| - 1]]
  }

  /** Evaluating the shifted column is taking the inner product of the column with the folded vector. */
  lemma ShiftedColumn(col: seq<Fe>, r: seq<Fe>)
    requires |col| == Pow2(|r|)
    ensures Mle(Shifted(col), r) == Dot(col, Folded(r))
  {
    hide EqVec, Mle, Dot, Prod, ShiftedEq, Folded, UnitVec;
    MleIsDot(Shifted(col), r);
    ShiftedSide(col, EqVec(r, 1));
    FoldedSide(col, r);
    EqVecLast(r, 1);
    MulOne(Prod(r));
    MulComm(Prod(r), col[|col| - 1]);
  }

  /** The part below the last row plus the last row's term. */
  lemma ShiftedSide(col: seq<Fe>, e: seq<Fe>)
    requires |col| == |e| > 0
    ensures Dot(Shifted(col), e) == Add(Dot(col[1..], e[..|e| - 1]), Mul(col[|col| - 1], e[|e| - 1]))
  {
    hide Dot;
    var last := |col| - 1;
    var s := Shifted(col);
    DotSplit(s, e, last);
    assert s[..last] == col[1..] && s[last..] == [col[last]] && e[last..] == [e[last]];
    SingleDot(col[last], e[last]);
  }

  lemma FoldedSide(col: seq<Fe>, r: seq<Fe>)
    requires |col| == Pow2(|r|)
    ensures Dot(col, Folded(r)) == Add(Dot(col[1..], EqVec(r, 1)[..|col| - 1]), Mul(Prod(r), col[|col| - 1]))
  {
    hide EqVec, Dot, Prod;
    var last := |col| - 1;
    var shifted, unit := ShiftedEq(r), UnitVec(last, |r|);
    var u: seq<Fe> := seq(|col|, j requires 0 <= j < |col| => Mul(Prod(r), unit[j]));
    FoldedEntries(r, u);
    DotAdd(col, shifted, u, Folded(r));
    assert shifted == [0] + EqVec(r, 1)[..last];
    DotAfterZero(col, shifted, EqVec(r, 1)[..last]);
    DotScaled(Prod(r), col, unit, u);
    DotUnit(col, last, unit);
  }

  lemma FoldedEntries(r: seq<Fe>, u: seq<Fe>)
    requires |u| == Pow2(|r|)
    requires forall j {:trigger u[j]} | 0 <= j < |u| :: u[j] == Mul(Prod(r), UnitVec(|u| - 1, |r|)[j])
    ensures forall j {:trigger Folded(r)[j]} | 0 <= j < |u| :: Folded(r)[j] == Add(ShiftedEq(r)[j], u[j])
  {
    hide ShiftedEq, Prod;
    forall j {:trigger Folded(r)[j]} | 0 <= j < |u| ensures Folded(r)[j] == Add(ShiftedEq(r)[j], u[j]) {
      MulOne(Prod(r));
      AddZero(ShiftedEq(r)[j]);
    }
  }

  lemma DotAfterZero(col: seq<Fe>, v: seq<Fe>, tail: seq<Fe>)
    requires |col| == |v| > 0 && v == [0] + tail
    ensures Dot(col, v) == Dot(col[1..], tail)
  {
    assert v[1..] == tail;
    MulOne(col[0]);
    AddZero(Dot(col[1..], tail));
  }

  lemma SingleDot(a: Fe, b: Fe)
    ensures Dot([a], [b]) == Mul(a, b)
  {
    assert Dot([a], [b]) == Add(Mul(a, b), Dot([a][1..], [b][1..]));
    AddZero(Mul(a, b));
  }

  // ----- matrix_next_mle_folded

  lemma {:induction false} EqVecConcat(p: seq<Fe>, q: seq<Fe>, s: Fe, i: nat, j: nat, k: nat)
    requires i < Pow2(|p|) && j < Pow2(|q|) && k == i * Pow2(|q|) + j
    ensures k < Pow2(|p + q|)
    ensures EqVec(p + q, s)[k] == EqVec(q, EqVec(p, s)[i])[j]
    decreases |p|
  {
    hide EqVec, Pow2;
    EntryInside(p, q, i, j, k);
    if p == [] {
      assert p + q == q;
      EqVecOfNone(s);
    } else {
      var s1 := Mul(s, p[0]);
      var s0 := Sub(s, s1);
      EqVecHead(p, s);
      EqVecHead(p + q, s);
      assert (p + q)[1..] == p[1..] + q && (p + q)[0] == p[0];
      var h := Pow2(|p| - 1);
      if i < h {
        EqVecConcat(p[1..], q, s0, i, j, k);
      } else {
        ShiftProduct(i, h, Pow2(|q|));
        Pow2Add(|p| - 1, |q|);
        EqVecConcat(p[1..], q, s1, i - h, j, k - Pow2(|p| - 1 + |q|));
      }
    }
  }

  lemma EntryInside(p: seq<Fe>, q: seq<Fe>, i: nat, j: nat, k: nat)
    requires i < Pow2(|p|) && j < Pow2(|q|) && k == i * Pow2(|q|) + j
    ensures k < Pow2(|p + q|) && (p == [] ==> i == 0 && k == j)
  {
    Pow2Add(|p|, |q|);
    BlockBounds(i, Pow2(|p|), Pow2(|q|));
  }

  lemma EqVecOfNone(s: Fe)
    ensures EqVec([], s) == [s]
  {
  }

  lemma EqVecHead(p: seq<Fe>, s: Fe)
    requires p != []
    ensures EqVec(p, s) == EqVec(p[1..], Sub(s, Mul(s, p[0]))) + EqVec(p[1..], Mul(s, p[0]))
    ensures Pow2(|p|) == 2 * Pow2(|p| - 1)
  {
  }

  /** The index whose binary form is i, a one, and k zeros. */
  function Place(i: nat, k: nat): (p: nat)
    ensures p > 0
  {
    if k == 0 then 2 * i + 1 else 2 * Place(i, k - 1)
  }

  lemma {:induction false} PlaceIs(i: nat, k: nat)
    ensures Place(i, k) == i * Pow2(k + 1) + Pow2(k)
  {
    if k > 0 {
      PlaceIs(i, k - 1);
      assert 2 * (i * Pow2(k) + Pow2(k - 1)) == i * (2 * Pow2(k)) + 2 * Pow2(k - 1);
    }
  }

  /** The number of trailing zeros. */
  function TrailingZeros(j: nat): nat
    requires j > 0
  {
    if j % 2 == 1 then 0 else 1 + TrailingZeros(j / 2)
  }

  /** What remains above the lowest set bit. */
  function AboveLowest(j: nat): nat
    requires j > 0
  {
    if j % 2 == 1 then j / 2 else AboveLowest(j / 2)
  }

  lemma {:induction false} PlaceInverse(i: nat, k: nat)
    ensures TrailingZeros(Place(i, k)) == k && AboveLowest(Place(i, k)) == i
  {
    if k > 0 {
      PlaceInverse(i, k - 1);
    }
  }

  lemma {:induction false} PlaceOf(j: nat)
    requires j > 0
    ensures Place(AboveLowest(j), TrailingZeros(j)) == j
    decreases j
  {
    if j % 2 == 0 {
      PlaceOf(j / 2);
    }
  }

  lemma {:induction false} TrailingZerosBound(j: nat, n: nat)
    requires 0 < j < Pow2(n)
    ensures TrailingZeros(j) < n
    ensures AboveLowest(j) < Pow2(n - TrailingZeros(j) - 1)
    decreases n
  {
    if j % 2 == 0 {
      TrailingZerosBound(j / 2, n - 1);
    }
  }

  lemma {:induction false} PlaceBound(i: nat, k: nat, n: nat)
    requires k < n && i < Pow2(n - k - 1)
    ensures Place(i, k) < Pow2(n)
    decreases k
  {
    if k > 0 {
      PlaceBound(i, k - 1, n - 1);
    }
  }

  /** The entry below position Place(i, k) of the equality vector. */
  lemma PlaceEntry(x: seq<Fe>, k: nat, i: nat)
    requires k < |x| && i < Pow2(|x| - k - 1)
    ensures 0 < Place(i, k) < Pow2(|x|)
    ensures ShiftedEq(x)[Place(i, k)]
         == EqVec(x[..|x| - k - 1], Mul(Sub(1, x[|x| - k - 1]), Prod(x[|x| - k..])))[i]
  {
    hide EqVec, Prod, Place;
    var p, q := x[..|x| - k - 1], x[|x| - k - 1..];
    assert x == p + q && q[1..] == x[|x| - k..];
    PlaceBound(i, k, |x|);
    PlaceIs(i, k);
    var j := Place(i, k);
    assert ShiftedEq(x)[j] == EqVec(x, 1)[j - 1];
    hide ShiftedEq, Pow2;
    EntryOfSplit(p, q, i, j - 1);
  }

  /** The last entry but the all-ones one of the i-th block of q's equality vector. */
  lemma EntryOfSplit(p: seq<Fe>, q: seq<Fe>, i: nat, j: nat)
    requires q != [] && i < Pow2(|p|) && j == i * Pow2(|q|) + Pow2(|q| - 1) - 1
    ensures j < Pow2(|p + q|)
    ensures EqVec(p + q, 1)[j] == EqVec(p, Mul(Sub(1, q[0]), Prod(q[1..])))[i]
  {
    hide EqVec, Prod;
    EqVecConcat(p, q, 1, i, Pow2(|q| - 1) - 1, j);
    LowerLast(q, EqVec(p, 1)[i]);
    var c := Mul(Sub(1, q[0]), Prod(q[1..]));
    EqVecScaled(p, c, 1);
    MulOne(c);
    MulComm(c, EqVec(p, 1)[i]);
  }

  lemma LowerLast(q: seq<Fe>, t: Fe)
    requires q != []
    ensures EqVec(q, t)[Pow2(|q| - 1) - 1] == Mul(t, Mul(Sub(1, q[0]), Prod(q[1..])))
  {
    var s0 := Sub(t, Mul(t, q[0]));
    EqVecLast(q[1..], s0);
    MulOne(t);
    Distributes(t, 1, q[0]);
    MulAssoc(t, Sub(1, q[0]), Prod(q[1..]));
  }

  /** After the first k passes exactly the places with fewer than k trailing zeros are filled. */
  ghost predicate Filled(res: seq<Fe>, x: seq<Fe>, k: nat, i: nat) {
    && |res| == Pow2(|x|) && res[0] == 0
    && forall j {:trigger res[j]} | 0 < j < |res| ::
         res[j] == if TrailingZeros(j) < k || (TrailingZeros(j) == k && AboveLowest(j) < i) then ShiftedEq(x)[j] else 0
  }

  method MatrixNextMleFolded(x: seq<Fe>) returns (res: array<Fe>)
    ensures fresh(res)
    ensures res[..] == Folded(x)
    ensures forall y: seq<Fe> | |y| == |x| :: Mle(res[..], y) == Next(x, y)
  {
    var n := |x|;
    res := new Fe[Pow2(n)](_ => 0);
    for k := 0 to n
      invariant Filled(res[..], x, k, 0)
    {
      var scalar := Mul(Sub(1, x[n - k - 1]), Prod(x[n - k..]));
      var eqMle := EqVec(x[..n - k - 1], scalar);
      for i := 0 to |eqMle|
        invariant Filled(res[..], x, k, i)
      {
        PlaceEntry(x, k, i);
        PlaceIs(i, k);
        PlaceInverse(i, k);
        ghost var before := res[..];
        var at := i * Pow2(k + 1) + Pow2(k);
        AddZero(eqMle[i]);
        res[at] := Add(res[at], eqMle[i]);
        FilledStep(before, res[..], x, k, i);
      }
      FilledPass(res[..], x, k);
    }
    FilledAll(res[..], x);
    var last := Pow2(n) - 1;
    res[last] := Add(res[last], Prod(x));
    assert res[..] == Folded(x);
    forall y: seq<Fe> | |y| == |x|
      ensures Mle(res[..], y) == Next(x, y)
    {
      FoldedEvaluates(x, y);
    }
  }

  lemma FilledStep(before: seq<Fe>, now: seq<Fe>, x: seq<Fe>, k: nat, i: nat)
    requires k < |x| && i < Pow2(|x| - k - 1)
    requires Filled(before, x, k, i)
    requires 0 < Place(i, k) < |before| && now == before[Place(i, k) := ShiftedEq(x)[Place(i, k)]]
    ensures Filled(now, x, k, i + 1)
  {
    hide ShiftedEq;
    PlaceInverse(i, k);
    forall j {:trigger now[j]} | 0 < j < |now|
      ensures now[j] == if TrailingZeros(j) < k || (TrailingZeros(j) == k && AboveLowest(j) < i + 1) then ShiftedEq(x)[j] else 0
    {
      PlaceOf(j);
    }
  }

  lemma FilledPass(res: seq<Fe>, x: seq<Fe>, k: nat)
    requires k < |x| && Filled(res, x, k, Pow2(|x| - k - 1))
    ensures Filled(res, x, k + 1, 0)
  {
    hide ShiftedEq;
    forall j {:trigger res[j]} | 0 < j < |res|
      ensures res[j] == if TrailingZeros(j) < k + 1 then ShiftedEq(x)[j] else 0
    {
      TrailingZerosBound(j, |x|);
    }
  }

  lemma FilledAll(res: seq<Fe>, x: seq<Fe>)
    requires Filled(res, x, |x|, 0)
    ensures res == ShiftedEq(x)
  {
    forall j {:trigger res[j]} | 0 < j < |res|
      ensures res[j] == ShiftedEq(x)[j]
    {
      TrailingZerosBound(j, |x|);
    }
  }
}
