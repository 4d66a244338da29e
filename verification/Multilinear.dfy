/**
 Multilinear polynomials given by their 2^n values on the hypercube, in lexicographic
 order (the first variable is the most significant index bit).
 */
module Multilinear {
  import opened Arith
  import opened Field

  /** The value at `point` of the multilinear polynomial with hypercube values `v`. */
  function Mle(v: seq<Fe>, point: seq<Fe>): Fe
    requires |v| == Pow2(|point|)
    decreases |point|
  {
    if point == [] then v[0]
    else
      var h := Pow2(|point| - 1);
      Lerp(point[0], Mle(v[..h], point[1..]), Mle(v[h..], point[1..]))
  }

  /** `[a, a^2, a^4, ...]`: the first coordinate is `a` itself. */
  function Expand(a: Fe, n: nat): (point: seq<Fe>)
    ensures |point| == n
    decreases n
  {
    if n == 0 then [] else [a] + Expand(Mul(a, a), n - 1)
  }

  lemma MleExpandStep(v: seq<Fe>, a: Fe, n: nat)
    requires n > 0 && |v| == Pow2(n)
    ensures Mle(v, Expand(a, n))
         == Lerp(a, Mle(v[..Pow2(n - 1)], Expand(Mul(a, a), n - 1)), Mle(v[Pow2(n - 1)..], Expand(Mul(a, a), n - 1)))
  {
    assert Expand(a, n)[1..] == Expand(Mul(a, a), n - 1);
  }

  /** Fixing the last coordinates first: `Mle` at `head + tail` evaluates every block at `tail`. */
  function EvalBlocks(v: seq<Fe>, n: nat, tail: seq<Fe>): (r: seq<Fe>)
    requires |v| == Pow2(n + |tail|)
    ensures |r| == Pow2(n)
    decreases n
  {
    if n == 0 then [Mle(v, tail)]
    else
      var h := Pow2(n - 1 + |tail|);
      EvalBlocks(v[..h], n - 1, tail) + EvalBlocks(v[h..], n - 1, tail)
  }

  lemma {:induction false} MleSplit(v: seq<Fe>, head: seq<Fe>, tail: seq<Fe>)
    requires |v| == Pow2(|head| + |tail|)
    ensures |head + tail| == |head| + |tail|
    ensures Mle(v, head + tail) == Mle(EvalBlocks(v, |head|, tail), head)
    decreases |head|
  {
    if head == [] {
      assert head + tail == tail;
    } else {
      var h := Pow2(|head| - 1 + |tail|);
      assert (head + tail)[1..] == head[1..] + tail;
      MleSplit(v[..h], head[1..], tail);
      MleSplit(v[h..], head[1..], tail);
      var l, r := EvalBlocks(v[..h], |head| - 1, tail), EvalBlocks(v[h..], |head| - 1, tail);
      assert (l + r)[..|l|] == l && (l + r)[|l|..] == r;
    }
  }

  /** Block c of an evaluated vector is the value of the c-th slice. */
  lemma {:induction false} EvalBlocksAt(v: seq<Fe>, n: nat, tail: seq<Fe>, c: nat, size: nat)
    requires |v| == Pow2(n + |tail|) && c < Pow2(n) && size == Pow2(|tail|)
    ensures 0 <= c * size <= (c + 1) * size <= |v| && |v[c * size..(c + 1) * size]| == size
    ensures EvalBlocks(v, n, tail)[c] == Mle(v[c * size..(c + 1) * size], tail)
    decreases n
  {
    hide Mle;
    Pow2Add(n, |tail|);
    BlockBounds(c, Pow2(n), size);
    if n == 0 {
      assert v[0 * size..(0 + 1) * size] == v;
    } else {
      var half := Pow2(n - 1);
      var h := Pow2(n - 1 + |tail|);
      Pow2Add(n - 1, |tail|);
      SliceOfHalf(v, h, half, c, size);
      if c < half {
        EvalBlocksAt(v[..h], n - 1, tail, c, size);
      } else {
        EvalBlocksAt(v[h..], n - 1, tail, c - half, size);
      }
    }
  }

  lemma SliceOfHalf(v: seq<Fe>, h: nat, half: nat, c: nat, size: nat)
    requires |v| == 2 * h && h == half * size && c < 2 * half && 0 <= c * size <= (c + 1) * size <= |v|
    ensures c < half ==> (c + 1) * size <= h && v[..h][c * size..(c + 1) * size] == v[c * size..(c + 1) * size]
    ensures c >= half ==> 0 <= (c - half) * size <= (c - half + 1) * size <= h
                          && v[h..][(c - half) * size..(c - half + 1) * size] == v[c * size..(c + 1) * size]
  {
    if c < half {
      BlockBounds(c, half, size);
    } else {
      BlockBounds(c - half, half, size);
      ShiftProduct(c, half, size);
      ShiftProduct(c + 1, half, size);
    }
  }

  // ----- folding

  /** Fixes the first variable: `fold_multilinear`. */
  function Fold(v: seq<Fe>, a: Fe): (r: seq<Fe>)
    requires |v| % 2 == 0
    ensures |r| == |v| / 2
    ensures forall i {:trigger r[i]} | 0 <= i < |r| :: r[i] == Lerp(a, v[i], v[i + |v| / 2])
  {
    seq(|v| / 2, i requires 0 <= i < |v| / 2 => Lerp(a, v[i], v[i + |v| / 2]))
  }

  lemma {:induction false} MleFold(v: seq<Fe>, a: Fe, rest: seq<Fe>)
    requires |v| == Pow2(|rest| + 1)
    ensures Mle(Fold(v, a), rest) == Mle(v, [a] + rest)
    decreases |rest|
  {
    assert ([a] + rest)[1..] == rest;
    var h := Pow2(|rest|);
    MleLerp(a, v[..h], v[h..], Fold(v, a), rest);
  }

  /** `Mle` is linear: here for the combination that folding uses. */
  lemma {:induction false} MleLerp(a: Fe, u: seq<Fe>, v: seq<Fe>, w: seq<Fe>, point: seq<Fe>)
    requires |u| == |v| == |w| == Pow2(|point|)
    requires forall i {:trigger w[i]} | 0 <= i < |w| :: w[i] == Lerp(a, u[i], v[i])
    ensures Mle(w, point) == Lerp(a, Mle(u, point), Mle(v, point))
    decreases |point|
  {
    if point == [] {
    } else {
      var h := Pow2(|point| - 1);
      MleLerp(a, u[..h], v[..h], w[..h], point[1..]);
      MleLerp(a, u[h..], v[h..], w[h..], point[1..]);
      LerpInterchange(a, point[0], Mle(u[..h], point[1..]), Mle(u[h..], point[1..]),
                      Mle(v[..h], point[1..]), Mle(v[h..], point[1..]));
    }
  }

  /** Folding every coordinate of `rand` in turn. */
  function FoldMany(v: seq<Fe>, rand: seq<Fe>, ghost n: nat): (r: seq<Fe>)
    requires |v| == Pow2(|rand| + n)
    ensures |r| == Pow2(n)
    decreases |rand|
  {
    if rand == [] then v else FoldMany(Fold(v, rand[0]), rand[1..], n)
  }

  lemma {:induction false} MleFoldMany(v: seq<Fe>, rand: seq<Fe>, rest: seq<Fe>)
    requires |v| == Pow2(|rand| + |rest|)
    ensures |rand + rest| == |rand| + |rest|
    ensures Mle(FoldMany(v, rand, |rest|), rest) == Mle(v, rand + rest)
    decreases |rand|
  {
    if rand == [] {
      assert rand + rest == rest;
    } else {
      MleFoldMany(Fold(v, rand[0]), rand[1..], rest);
      MleFold(v, rand[0], rand[1..] + rest);
      assert rand + rest == [rand[0]] + (rand[1..] + rest);
    }
  }

  // ----- constants

  lemma {:induction false} MleConstant(v: seq<Fe>, point: seq<Fe>, x: Fe)
    requires |v| == Pow2(|point|)
    requires forall i {:trigger v[i]} | 0 <= i < |v| :: v[i] == x
    ensures Mle(v, point) == x
    decreases |point|
  {
    if point == [] {
    } else {
      var h := Pow2(|point| - 1);
      MleConstant(v[..h], point[1..], x);
      MleConstant(v[h..], point[1..], x);
      LerpSame(point[0], x);
    }
  }

  // ----- the equality polynomial

  /** `scalar * eq(point, i)` for every hypercube index i (eval_eq_scaled). */
  function EqVec(point: seq<Fe>, scalar: Fe): (e: seq<Fe>)
    ensures |e| == Pow2(|point|)
    decreases |point|
  {
    if point == [] then [scalar]
    else
      var s1 := Mul(scalar, point[0]);
      var s0 := Sub(scalar, s1);
      EqVec(point[1..], s0) + EqVec(point[1..], s1)
  }

  /** eq_poly_outside: the product of `1 + 2 l r - l - r` over the coordinates. */
  function Eq(p: seq<Fe>, q: seq<Fe>): Fe
    requires |p| == |q|
    decreases |p|
  {
    if p == [] then 1 else Mul(EqFactor(p[0], q[0]), Eq(p[1..], q[1..]))
  }

  function EqFactor(l: Fe, r: Fe): Fe { Sub(Sub(Add(1, Mul(l, Double(r))), l), r) }

  lemma EqFactorWeights(l: Fe, r: Fe)
    ensures EqFactor(l, r) == Add(Mul(l, r), Mul(Sub(1, l), Sub(1, r)))
    ensures EqFactor(l, r) == Lerp(r, Sub(1, l), l)
  {
    LiftSelf(l);
    LiftSelf(r);
    LiftSelf(1);
    LiftAdd(r, r);
    LiftMul(l, r + r);
    LiftAdd(1, l * (r + r));
    LiftSub(1 + l * (r + r), l);
    LiftSub(1 + l * (r + r) - l, r);
    LiftMul(l, r);
    LiftSub(1, l);
    LiftSub(1, r);
    LiftMul(1 - l, 1 - r);
    LiftAdd(l * r, (1 - l) * (1 - r));
    LiftLerp(r, 1 - l, l);
    assert 1 + l * (r + r) - l - r == l * r + (1 - l) * (1 - r);
    assert (1 - l) + r * (l - (1 - l)) == 1 + l * (r + r) - l - r;
  }

  /** The multilinear polynomial of an equality vector is the equality polynomial. */
  lemma {:induction false} MleEqVec(p: seq<Fe>, scalar: Fe, q: seq<Fe>)
    requires |p| == |q|
    ensures Mle(EqVec(p, scalar), q) == Mul(scalar, Eq(p, q))
    decreases |p|
  {
    if p == [] {
      MulOne(scalar);
    } else {
      var s1 := Mul(scalar, p[0]);
      var s0 := Sub(scalar, s1);
      MleEqVec(p[1..], s0, q[1..]);
      MleEqVec(p[1..], s1, q[1..]);
      var e := EqVec(p, scalar);
      var h := Pow2(|p| - 1);
      assert e[..h] == EqVec(p[1..], s0) && e[h..] == EqVec(p[1..], s1);
      EqFactorWeights(p[0], q[0]);
      EqStep(scalar, p[0], q[0], Eq(p[1..], q[1..]));
    }
  }

  lemma EqStep(s: Fe, a: Fe, x: Fe, e: Fe)
    ensures Lerp(x, Mul(Sub(s, Mul(s, a)), e), Mul(Mul(s, a), e)) == Mul(s, Mul(Lerp(x, Sub(1, a), a), e))
  {
    LiftSelf(s);
    LiftSelf(a);
    LiftSelf(x);
    LiftSelf(e);
    LiftSelf(1);
    LiftMul(s, a);
    LiftSub(s, s * a);
    LiftMul(s - s * a, e);
    LiftMul(s * a, e);
    LiftLerp(x, (s - s * a) * e, s * a * e);
    LiftSub(1, a);
    LiftLerp(x, 1 - a, a);
    var f := 1 - a + x * (a - (1 - a));
    LiftMul(f, e);
    LiftMul(s, f * e);
    assert (s - s * a) * e + x * (s * a * e - (s - s * a) * e) == s * (f * e);
  }

  // ----- linearity

  function Dot(u: seq<Fe>, v: seq<Fe>): Fe
    requires |u| == |v|
    decreases |u|
  {
    if u == [] then 0 else Add(Mul(u[0], v[0]), Dot(u[1..], v[1..]))
  }

  lemma {:induction false} DotSplit(u: seq<Fe>, v: seq<Fe>, k: nat)
    requires |u| == |v| && k <= |u|
    ensures Dot(u, v) == Add(Dot(u[..k], v[..k]), Dot(u[k..], v[k..]))
    decreases k
  {
    if k == 0 {
      assert u[0..] == u && v[0..] == v;
      AddZero(Dot(u, v));
    } else {
      DotSplit(u[1..], v[1..], k - 1);
      assert u[1..][..k - 1] == u[..k][1..] && v[1..][..k - 1] == v[..k][1..];
      assert u[1..][k - 1..] == u[k..] && v[1..][k - 1..] == v[k..];
      AddAssoc(Mul(u[0], v[0]), Dot(u[..k][1..], v[..k][1..]), Dot(u[k..], v[k..]));
    }
  }

  lemma DotConcat(a: seq<Fe>, b: seq<Fe>, u: seq<Fe>, v: seq<Fe>)
    requires |a| == |u| && |b| == |v|
    ensures Dot(a + b, u + v) == Add(Dot(a, u), Dot(b, v))
  {
    hide Dot;
    DotSplit(a + b, u + v, |a|);
    assert (a + b)[..|a|] == a && (a + b)[|a|..] == b && (u + v)[..|u|] == u && (u + v)[|u|..] == v;
  }

  lemma {:induction false} DotZero(u: seq<Fe>, v: seq<Fe>)
    requires |u| == |v| && forall i {:trigger u[i]} | 0 <= i < |u| :: u[i] == 0
    ensures Dot(u, v) == 0
    decreases |u|
  {
    if u != [] {
      DotZero(u[1..], v[1..]);
      MulOne(v[0]);
      AddZero(0);
    }
  }

  lemma {:induction false} DotCommute(u: seq<Fe>, v: seq<Fe>)
    requires |u| == |v|
    ensures Dot(u, v) == Dot(v, u)
    decreases |u|
  {
    if u != [] {
      DotCommute(u[1..], v[1..]);
      MulComm(u[0], v[0]);
    }
  }

  lemma {:induction false} DotAdd(w: seq<Fe>, u: seq<Fe>, v: seq<Fe>, s: seq<Fe>)
    requires |w| == |u| == |v| == |s| && forall i {:trigger s[i]} | 0 <= i < |s| :: Add(u[i], v[i]) == s[i]
    ensures Add(Dot(w, u), Dot(w, v)) == Dot(w, s)
    decreases |w|
  {
    if w == [] {
      AddZero(0);
    } else {
      DotAdd(w[1..], u[1..], v[1..], s[1..]);
      Distributes(w[0], u[0], v[0]);
      MixSums(Mul(w[0], u[0]), Dot(w[1..], u[1..]), Mul(w[0], v[0]), Dot(w[1..], v[1..]));
    }
  }

  lemma MixSums(a: Fe, b: Fe, c: Fe, d: Fe)
    ensures Add(Add(a, b), Add(c, d)) == Add(Add(a, c), Add(b, d))
  {
    LiftSelf(a);
    LiftSelf(b);
    LiftSelf(c);
    LiftSelf(d);
    LiftAdd(a, b);
    LiftAdd(c, d);
    LiftAdd(a + b, c + d);
    LiftAdd(a, c);
    LiftAdd(b, d);
    LiftAdd(a + c, b + d);
    assert a + b + (c + d) == a + c + (b + d);
  }

  ghost predicate IsScaled(a: Fe, v: seq<Fe>, w: seq<Fe>) {
    |w| == |v| && forall i {:trigger w[i]} {:trigger v[i]} | 0 <= i < |w| :: w[i] == Mul(a, v[i])
  }

  lemma {:induction false} DotUnit(c: seq<Fe>, i: nat, unit: seq<Fe>)
    requires |c| == |unit| && i < |c|
    requires forall j {:trigger unit[j]} | 0 <= j < |unit| :: unit[j] == if j == i then 1 else 0
    ensures Dot(c, unit) == c[i]
    decreases |c|
  {
    MulOne(c[0]);
    if i == 0 {
      DotCommute(c[1..], unit[1..]);
      DotZero(unit[1..], c[1..]);
      AddZero(c[0]);
    } else {
      DotUnit(c[1..], i - 1, unit[1..]);
      AddZero(c[i]);
    }
  }

  lemma {:induction false} DotScaled(a: Fe, u: seq<Fe>, v: seq<Fe>, w: seq<Fe>)
    requires |u| == |v| && IsScaled(a, v, w)
    ensures Dot(u, w) == Mul(a, Dot(u, v))
    decreases |u|
  {
    if u == [] {
      MulOne(a);
    } else {
      DotScaled(a, u[1..], v[1..], w[1..]);
      Distributes(a, Mul(u[0], v[0]), Dot(u[1..], v[1..]));
      MulAssoc(u[0], a, v[0]);
      MulComm(u[0], a);
      MulAssoc(a, u[0], v[0]);
    }
  }

  lemma {:induction false} EqVecScaled(point: seq<Fe>, a: Fe, s: Fe)
    ensures IsScaled(a, EqVec(point, s), EqVec(point, Mul(a, s)))
    decreases |point|
  {
    if point == [] {
    } else {
      EqVecScaled(point[1..], a, Sub(s, Mul(s, point[0])));
      EqVecScaled(point[1..], a, Mul(s, point[0]));
      MulAssoc(a, s, point[0]);
      Distributes(a, s, Mul(s, point[0]));
    }
  }

  /** Evaluation as the sum of eq(point, i) * v[i]. */
  lemma {:induction false} MleIsDot(v: seq<Fe>, point: seq<Fe>)
    requires |v| == Pow2(|point|)
    ensures Mle(v, point) == Dot(v, EqVec(point, 1))
    decreases |point|
  {
    if point == [] {
      assert Dot(v, [1]) == Add(Mul(v[0], 1), Dot(v[1..], [1][1..]));
      MulOne(v[0]);
      AddZero(v[0]);
    } else {
      var h := Pow2(|point| - 1);
      var rest := point[1..];
      MleIsDot(v[..h], rest);
      MleIsDot(v[h..], rest);
      var e := EqVec(point, 1);
      DotSplit(v, e, h);
      MulOne(point[0]);
      var s0 := Sub(1, point[0]);
      assert e[..h] == EqVec(rest, s0) && e[h..] == EqVec(rest, point[0]);
      MulOne(s0);
      EqVecScaled(rest, s0, 1);
      EqVecScaled(rest, point[0], 1);
      DotScaled(s0, v[..h], EqVec(rest, 1), e[..h]);
      DotScaled(point[0], v[h..], EqVec(rest, 1), e[h..]);
      LerpWeights(point[0], Mle(v[..h], rest), Mle(v[h..], rest));
    }
  }

  ghost predicate IsSum(u: seq<Fe>, v: seq<Fe>, w: seq<Fe>) {
    |u| == |v| == |w| && forall i {:trigger w[i]} {:trigger u[i]} {:trigger v[i]} | 0 <= i < |w| :: w[i] == Add(u[i], v[i])
  }

  lemma {:induction false} MleSum(u: seq<Fe>, v: seq<Fe>, w: seq<Fe>, point: seq<Fe>)
    requires |w| == Pow2(|point|) && IsSum(u, v, w)
    ensures Mle(w, point) == Add(Mle(u, point), Mle(v, point))
    decreases |point|
  {
    if point == [] {
    } else {
      var h := Pow2(|point| - 1);
      MleSum(u[..h], v[..h], w[..h], point[1..]);
      MleSum(u[h..], v[h..], w[h..], point[1..]);
      LerpSum(point[0], Mle(u[..h], point[1..]), Mle(u[h..], point[1..]), Mle(v[..h], point[1..]), Mle(v[h..], point[1..]));
    }
  }

  lemma LerpSum(x: Fe, a: Fe, b: Fe, c: Fe, d: Fe)
    ensures Lerp(x, Add(a, c), Add(b, d)) == Add(Lerp(x, a, b), Lerp(x, c, d))
  {
    LiftSelf(x);
    LiftSelf(a);
    LiftSelf(b);
    LiftSelf(c);
    LiftSelf(d);
    LiftAdd(a, c);
    LiftAdd(b, d);
    LiftLerp(x, a + c, b + d);
    LiftLerp(x, a, b);
    LiftLerp(x, c, d);
    LiftAdd(a + x * (b - a), c + x * (d - c));
    assert a + c + x * (b + d - (a + c)) == a + x * (b - a) + (c + x * (d - c));
  }

  lemma {:induction false} MleScaled(a: Fe, v: seq<Fe>, w: seq<Fe>, point: seq<Fe>)
    requires |v| == Pow2(|point|) && IsScaled(a, v, w)
    ensures Mle(w, point) == Mul(a, Mle(v, point))
    decreases |point|
  {
    if point == [] {
    } else {
      var h := Pow2(|point| - 1);
      MleScaled(a, v[..h], w[..h], point[1..]);
      MleScaled(a, v[h..], w[h..], point[1..]);
      LerpScaled(point[0], a, Mle(v[..h], point[1..]), Mle(v[h..], point[1..]));
    }
  }

  lemma LerpScaled(x: Fe, a: Fe, b: Fe, c: Fe)
    ensures Lerp(x, Mul(a, b), Mul(a, c)) == Mul(a, Lerp(x, b, c))
  {
    LiftSelf(x);
    LiftSelf(a);
    LiftSelf(b);
    LiftSelf(c);
    LiftMul(a, b);
    LiftMul(a, c);
    LiftLerp(x, a * b, a * c);
    LiftLerp(x, b, c);
    LiftMul(a, b + x * (c - b));
    assert a * b + x * (a * c - a * b) == a * (b + x * (c - b));
  }

  // ----- hypercube points

  /** to_big_endian_in_field for an index below 2^n. */
  function Bits(i: nat, n: nat): (b: seq<Fe>)
    ensures |b| == n
    decreases n
  {
    if n == 0 then []
    else if i < Pow2(n - 1) then [0] + Bits(i, n - 1)
    else [1] + Bits(i - Pow2(n - 1), n - 1)
  }

  /** At a hypercube point the polynomial takes the stored value. */
  lemma {:induction false} MleAtBits(v: seq<Fe>, i: nat, n: nat)
    requires |v| == Pow2(n) && i < Pow2(n)
    ensures Mle(v, Bits(i, n)) == v[i]
    decreases n
  {
    if n > 0 {
      var h := Pow2(n - 1);
      if i < h {
        assert Bits(i, n)[1..] == Bits(i, n - 1);
        MleAtBits(v[..h], i, n - 1);
        LerpEnds(v[i], Mle(v[h..], Bits(i, n - 1)));
      } else {
        assert Bits(i, n)[1..] == Bits(i - h, n - 1);
        MleAtBits(v[h..], i - h, n - 1);
        LerpEnds(Mle(v[..h], Bits(i - h, n - 1)), v[i]);
      }
    }
  }

  /** Values that agree at every point of the hypercube are the same vector. */
  lemma {:induction false} EqVecAtBits(i: nat, n: nat, s: Fe)
    requires i < Pow2(n)
    ensures forall j {:trigger EqVec(Bits(i, n), s)[j]} | 0 <= j < Pow2(n) :: EqVec(Bits(i, n), s)[j] == if j == i then s else 0
    decreases n
  {
    if n > 0 {
      var h := Pow2(n - 1);
      MulOne(s);
      AddZero(s);
      if i < h {
        assert Bits(i, n)[1..] == Bits(i, n - 1);
        EqVecAtBits(i, n - 1, s);
        EqVecZero(Bits(i, n - 1));
      } else {
        assert Bits(i, n)[1..] == Bits(i - h, n - 1);
        EqVecAtBits(i - h, n - 1, s);
        EqVecZero(Bits(i - h, n - 1));
      }
    }
  }

  lemma {:induction false} EqVecZero(point: seq<Fe>)
    ensures forall j {:trigger EqVec(point, 0)[j]} | 0 <= j < Pow2(|point|) :: EqVec(point, 0)[j] == 0
    decreases |point|
  {
    if point == [] {
    } else {
      MulOne(point[0]);
      AddZero(0);
      EqVecZero(point[1..]);
    }
  }

  /** Bit j of the big-endian form is obtained by shifting and masking. */
  lemma {:induction false} BitsAt(i: nat, n: nat, j: nat)
    requires i < Pow2(n) && j < n
    ensures Bits(i, n)[j] == if i / Pow2(n - 1 - j) % 2 == 1 then 1 else 0
    decreases n
  {
    var h := Pow2(n - 1);
    if j == 0 {
      if i < h {
        DivModOfRow(0, i, h);
      } else {
        DivModOfRow(1, i - h, h);
      }
    } else if i < h {
      BitsAt(i, n - 1, j - 1);
    } else {
      BitsAt(i - h, n - 1, j - 1);
      Pow2Add(j, n - 1 - j);
      BitBelow(i - h, Pow2(j - 1), Pow2(n - 1 - j));
    }
  }

  /** Adding an even multiple of d does not change the bit at weight d. */
  lemma BitBelow(x: nat, g: nat, d: nat)
    requires d > 0
    ensures (x + 2 * g * d) / d % 2 == x / d % 2
  {
    DivShift(x, 2 * g, d);
  }
}
