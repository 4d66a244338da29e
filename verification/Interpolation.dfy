/**
 Univariate polynomials by coefficients: sum, product, Newton interpolation and the Lagrange
 basis (crates/backend/poly/src/dense_poly.rs).
 */
module Interpolation {
  import opened Field
  import opened Prime
  import opened Coefficients

  datatype Option<T> = None | Some(value: T)

  // ----- sums

  function PolyAdd(p: seq<Fe>, q: seq<Fe>): (r: seq<Fe>)
    ensures |r| == if |p| >= |q| then |p| else |q|
    ensures forall i {:trigger r[i]} | 0 <= i < |r| ::
              r[i] == if i < |p| && i < |q| then Add(p[i], q[i]) else if i < |p| then p[i] else q[i]
  {
    seq(if |p| >= |q| then |p| else |q|, i requires 0 <= i < |p| || 0 <= i < |q| =>
      if i < |p| && i < |q| then Add(p[i], q[i]) else if i < |p| then p[i] else q[i])
  }

  lemma {:induction false} HornerAdd(p: seq<Fe>, q: seq<Fe>, x: Fe)
    ensures Horner(PolyAdd(p, q), x) == Add(Horner(p, x), Horner(q, x))
    decreases |p|
  {
    if p == [] {
      assert PolyAdd(p, q) == q;
      AddZero(Horner(q, x));
    } else if q == [] {
      assert PolyAdd(p, q) == p;
      AddZero(Horner(p, x));
    } else {
      assert PolyAdd(p, q)[1..] == PolyAdd(p[1..], q[1..]);
      HornerAdd(p[1..], q[1..], x);
      SumOfSteps(Horner(p[1..], x), Horner(q[1..], x), p[0], q[0], x);
    }
  }

  lemma SumOfSteps(a: Fe, b: Fe, c: Fe, d: Fe, x: Fe)
    ensures Add(Mul(Add(a, b), x), Add(c, d)) == Add(Add(Mul(a, x), c), Add(Mul(b, x), d))
  {
    LiftSelf(a);
    LiftSelf(b);
    LiftSelf(c);
    LiftSelf(d);
    LiftSelf(x);
    LiftAdd(a, b);
    LiftMul(a + b, x);
    LiftAdd(c, d);
    LiftAdd((a + b) * x, c + d);
    LiftMul(a, x);
    LiftMul(b, x);
    LiftAdd(a * x, c);
    LiftAdd(b * x, d);
    LiftAdd(a * x + c, b * x + d);
    assert (a + b) * x + (c + d) == a * x + c + (b * x + d);
  }

  /** Add for &DensePolynomial: the shorter list is added into a copy of the longer one. */
  method AddPolynomials(p: seq<Fe>, q: seq<Fe>) returns (sum: seq<Fe>)
    ensures sum == PolyAdd(p, q)
    ensures forall x: Fe :: Horner(sum, x) == Add(Horner(p, x), Horner(q, x))
  {
    var big, small := q, p;
    if |p| >= |q| {
      big, small := p, q;
    }
    sum := big;
    for i := 0 to |small|
      invariant |sum| == |big|
      invariant forall k {:trigger sum[k]} | 0 <= k < |big| :: sum[k] == if k < i then Add(big[k], small[k]) else big[k]
    {
      sum := sum[i := Add(sum[i], small[i])];
    }
    forall k {:trigger sum[k]} | 0 <= k < |sum|
      ensures sum[k] == PolyAdd(p, q)[k]
    {
      if k < |small| {
        AddComm(big[k], small[k]);
      }
    }
    assert sum == PolyAdd(p, q);
    forall x: Fe {
      HornerAdd(p, q, x);
    }
  }

  ghost function PolyScale(c: Fe, p: seq<Fe>): (r: seq<Fe>)
    ensures |r| == |p| && forall i {:trigger r[i]} | 0 <= i < |r| :: r[i] == Mul(p[i], c)
  {
    seq(|p|, i requires 0 <= i < |p| => Mul(p[i], c))
  }

  lemma {:induction false} HornerScale(c: Fe, p: seq<Fe>, x: Fe)
    ensures Horner(PolyScale(c, p), x) == Mul(Horner(p, x), c)
    decreases |p|
  {
    if p == [] {
      MulOne(c);
    } else {
      assert PolyScale(c, p)[1..] == PolyScale(c, p[1..]);
      HornerScale(c, p[1..], x);
      var h := Horner(p[1..], x);
      Distributes(c, Mul(h, x), p[0]);
      MulAssoc(h, x, c);
      MulComm(x, c);
      MulAssoc(h, c, x);
    }
  }

  // ----- products

  lemma {:induction false} HornerUpdate(p: seq<Fe>, k: nat, c: Fe, x: Fe)
    requires k < |p|
    ensures Horner(p[k := Add(p[k], c)], x) == Add(Horner(p, x), Mul(c, Pow(x, k)))
    decreases k
  {
    var u := p[k := Add(p[k], c)];
    var h := Mul(Horner(p[1..], x), x);
    if k == 0 {
      assert u[1..] == p[1..];
      MulOne(c);
      AddAssoc(h, p[0], c);
    } else {
      assert u[1..] == p[1..][k - 1 := Add(p[1..][k - 1], c)];
      HornerUpdate(p[1..], k - 1, c, x);
      MulComm(x, Pow(x, k - 1));
      StepWithExtra(Horner(p[1..], x), c, Pow(x, k - 1), x, p[0]);
    }
  }

  lemma StepWithExtra(h: Fe, c: Fe, w: Fe, x: Fe, p: Fe)
    ensures Add(Mul(Add(h, Mul(c, w)), x), p) == Add(Add(Mul(h, x), p), Mul(c, Mul(w, x)))
  {
    LiftSelf(h);
    LiftSelf(c);
    LiftSelf(w);
    LiftSelf(x);
    LiftSelf(p);
    LiftMul(c, w);
    LiftAdd(h, c * w);
    LiftMul(h + c * w, x);
    LiftAdd((h + c * w) * x, p);
    LiftMul(h, x);
    LiftAdd(h * x, p);
    LiftMul(w, x);
    LiftMul(c, w * x);
    LiftAdd(h * x + p, c * (w * x));
    assert (h + c * w) * x + p == h * x + p + c * (w * x);
  }

  lemma {:induction false} HornerSnoc(p: seq<Fe>, k: nat, x: Fe)
    requires k < |p|
    ensures Horner(p[..k + 1], x) == Add(Horner(p[..k], x), Mul(p[k], Pow(x, k)))
    decreases k
  {
    assert p[..k + 1][1..] == p[1..][..k];
    if k == 0 {
      AddZero(p[0]);
      MulOne(p[0]);
      MulOne(x);
    } else {
      assert p[..k][1..] == p[1..][..k - 1];
      HornerSnoc(p[1..], k - 1, x);
      MulComm(x, Pow(x, k - 1));
      StepWithExtra(Horner(p[1..][..k - 1], x), p[k], Pow(x, k - 1), x, p[0]);
    }
  }

  lemma {:induction false} HornerOfZeros(p: seq<Fe>, x: Fe)
    requires forall i {:trigger p[i]} | 0 <= i < |p| :: p[i] == 0
    ensures Horner(p, x) == 0
    decreases |p|
  {
    if p != [] {
      HornerOfZeros(p[1..], x);
      MulOne(x);
      AddZero(0);
    }
  }

  /** The value of the partial product after rows ..i and the first j entries of row i. */
  ghost function PartialProduct(p: seq<Fe>, q: seq<Fe>, i: nat, j: nat, x: Fe): Fe
    requires i <= |p| && j <= |q| && (j > 0 ==> i < |p|)
  {
    Add(Mul(Horner(p[..i], x), Horner(q, x)),
        if j == 0 then 0 else Mul(Mul(p[i], Pow(x, i)), Horner(q[..j], x)))
  }

  lemma ProductCell(p: seq<Fe>, q: seq<Fe>, i: nat, j: nat, x: Fe)
    requires i < |p| && j < |q|
    ensures PartialProduct(p, q, i, j + 1, x)
         == Add(PartialProduct(p, q, i, j, x), Mul(Mul(p[i], q[j]), Pow(x, i + j)))
  {
    HornerSnoc(q, j, x);
    PowAdd(x, i, j);
    if j == 0 {
      assert q[..0] == [];
      AddZero(Mul(q[0], Pow(x, 0)));
      MulOne(Mul(p[i], Pow(x, i)));
    }
    CellTerm(Mul(Horner(p[..i], x), Horner(q, x)), p[i], Pow(x, i), Horner(q[..j], x), q[j], Pow(x, j));
  }

  lemma CellTerm(d: Fe, a: Fe, u: Fe, h: Fe, b: Fe, v: Fe)
    ensures Add(d, Mul(Mul(a, u), Add(h, Mul(b, v)))) == Add(Add(d, Mul(Mul(a, u), h)), Mul(Mul(a, b), Mul(u, v)))
  {
    LiftSelf(d);
    LiftSelf(a);
    LiftSelf(u);
    LiftSelf(h);
    LiftSelf(b);
    LiftSelf(v);
    LiftMul(a, u);
    LiftMul(b, v);
    LiftAdd(h, b * v);
    LiftMul(a * u, h + b * v);
    LiftAdd(d, a * u * (h + b * v));
    LiftMul(a * u, h);
    LiftAdd(d, a * u * h);
    LiftMul(a, b);
    LiftMul(u, v);
    LiftMul(a * b, u * v);
    LiftAdd(d + a * u * h, a * b * (u * v));
    CellPolynomial(d, a, u, h, b, v);
  }

  lemma CellPolynomial(d: int, a: int, u: int, h: int, b: int, v: int)
    ensures d + a * u * (h + b * v) == d + a * u * h + a * b * (u * v)
  {
    assert a * u * (h + b * v) == a * u * h + a * u * (b * v);
    assert a * u * (b * v) == a * b * (u * v) by {
      assert a * u * (b * v) == a * (u * (b * v));
      assert u * (b * v) == b * (u * v);
    }
  }

  lemma ProductRow(p: seq<Fe>, q: seq<Fe>, i: nat, x: Fe)
    requires i < |p| && q != []
    ensures PartialProduct(p, q, i + 1, 0, x) == PartialProduct(p, q, i, |q|, x)
  {
    HornerSnoc(p, i, x);
    assert q[..|q|] == q;
    var a, b, h := Horner(p[..i], x), Mul(p[i], Pow(x, i)), Horner(q, x);
    Distributes(h, a, b);
    AddZero(Mul(Add(a, b), h));
  }

  /** Mul for &DensePolynomial. */
  method MulPolynomials(p: seq<Fe>, q: seq<Fe>) returns (prod: seq<Fe>)
    requires |p| + |q| > 0
    ensures |prod| == |p| + |q| - 1
    ensures forall x: Fe :: Horner(prod, x) == Mul(Horner(p, x), Horner(q, x))
  {
    hide Horner, PartialProduct;
    prod := seq(|p| + |q| - 1, _ => 0);
    forall x: Fe ensures Horner(prod, x) == PartialProduct(p, q, 0, 0, x) {
      HornerOfZeros(prod, x);
      NoProduct(p, q, x);
    }
    for i := 0 to |p|
      invariant |prod| == |p| + |q| - 1
      invariant forall x: Fe :: Horner(prod, x) == PartialProduct(p, q, i, 0, x)
    {
      for j := 0 to |q|
        invariant |prod| == |p| + |q| - 1
        invariant forall x: Fe :: Horner(prod, x) == PartialProduct(p, q, i, j, x)
      {
        ghost var before := prod;
        prod := prod[i + j := Add(prod[i + j], Mul(p[i], q[j]))];
        forall x: Fe ensures Horner(prod, x) == PartialProduct(p, q, i, j + 1, x) {
          HornerUpdate(before, i + j, Mul(p[i], q[j]), x);
          ProductCell(p, q, i, j, x);
        }
      }
      forall x: Fe ensures Horner(prod, x) == PartialProduct(p, q, i + 1, 0, x) {
        if q == [] {
          NothingTimes(p, q, i, x);
        } else {
          ProductRow(p, q, i, x);
        }
      }
    }
    forall x: Fe ensures Horner(prod, x) == Mul(Horner(p, x), Horner(q, x)) {
      WholeProduct(p, q, x);
    }
  }

  lemma NoProduct(p: seq<Fe>, q: seq<Fe>, x: Fe)
    ensures PartialProduct(p, q, 0, 0, x) == 0
  {
    assert p[..0] == [];
    MulOne(Horner(q, x));
    AddZero(0);
  }

  lemma NothingTimes(p: seq<Fe>, q: seq<Fe>, i: nat, x: Fe)
    requires q == [] && i < |p|
    ensures PartialProduct(p, q, i + 1, 0, x) == PartialProduct(p, q, i, 0, x)
  {
    MulOne(Horner(p[..i], x));
    MulOne(Horner(p[..i + 1], x));
  }

  lemma WholeProduct(p: seq<Fe>, q: seq<Fe>, x: Fe)
    ensures PartialProduct(p, q, |p|, 0, x) == Mul(Horner(p, x), Horner(q, x))
  {
    assert p[..|p|] == p;
    AddZero(Mul(Horner(p, x), Horner(q, x)));
  }

  // ----- roots

  /** The quotient of synthetic division by x - a. */
  ghost function Quotient(p: seq<Fe>, a: Fe): (q: seq<Fe>)
    ensures |q| == if p == [] then 0 else |p| - 1
    decreases |p|
  {
    if |p| <= 1 then [] else [Horner(p[1..], a)] + Quotient(p[1..], a)
  }

  lemma {:induction false} QuotientIs(p: seq<Fe>, a: Fe, x: Fe)
    ensures Sub(Horner(p, x), Horner(p, a)) == Mul(Sub(x, a), Horner(Quotient(p, a), x))
    decreases |p|
  {
    if |p| <= 1 {
      MulOne(Sub(x, a));
      AddZero(Horner(p, x));
      if |p| == 1 {
        MulOne(x);
        MulOne(a);
      }
    } else {
      QuotientIs(p[1..], a, x);
      assert Quotient(p, a)[1..] == Quotient(p[1..], a);
      DivisionStep(Horner(p[1..], x), Horner(p[1..], a), p[0], x, a, Horner(Quotient(p[1..], a), x));
    }
  }

  lemma DivisionStep(u: Fe, v: Fe, c: Fe, x: Fe, a: Fe, q: Fe)
    requires Sub(u, v) == Mul(Sub(x, a), q)
    ensures Sub(Add(Mul(u, x), c), Add(Mul(v, a), c)) == Mul(Sub(x, a), Add(Mul(q, x), v))
  {
    var d := Sub(x, a);
    // u x - v a = (u - v) x + v (x - a)
    SplitDifference(u, v, c, x, a);
    MulAssoc(d, q, x);
    Distributes(d, Mul(q, x), v);
    MulComm(v, d);
  }

  lemma SplitDifference(u: Fe, v: Fe, c: Fe, x: Fe, a: Fe)
    ensures Sub(Add(Mul(u, x), c), Add(Mul(v, a), c)) == Add(Mul(Sub(u, v), x), Mul(v, Sub(x, a)))
  {
    LiftSelf(u);
    LiftSelf(v);
    LiftSelf(c);
    LiftSelf(x);
    LiftSelf(a);
    LiftMul(u, x);
    LiftAdd(u * x, c);
    LiftMul(v, a);
    LiftAdd(v * a, c);
    LiftSub(u * x + c, v * a + c);
    LiftSub(u, v);
    LiftMul(u - v, x);
    LiftSub(x, a);
    LiftMul(v, x - a);
    LiftAdd((u - v) * x, v * (x - a));
    assert u * x + c - (v * a + c) == (u - v) * x + v * (x - a);
  }

  ghost predicate Distinct(nodes: seq<Fe>) {
    forall i, j {:trigger nodes[i], nodes[j]} | 0 <= i < j < |nodes| :: nodes[i] != nodes[j]
  }

  /** A polynomial with no more coefficients than distinct roots is zero everywhere. */
  lemma {:induction false} TooManyRoots(p: seq<Fe>, nodes: seq<Fe>, x: Fe)
    requires |p| <= |nodes| && Distinct(nodes)
    requires forall i {:trigger nodes[i]} | 0 <= i < |nodes| :: Horner(p, nodes[i]) == 0
    ensures Horner(p, x) == 0
    decreases |p|
  {
    if p != [] {
      var a := nodes[0];
      var q := Quotient(p, a);
      forall i {:trigger nodes[1..][i]} | 0 <= i < |nodes[1..]|
        ensures Horner(q, nodes[1..][i]) == 0
      {
        var b := nodes[i + 1];
        QuotientIs(p, a, b);
        AddZero(0);
        DifferenceZero(b, a);
        NoZeroDivisors(Sub(b, a), Horner(q, b));
      }
      TooManyRoots(q, nodes[1..], x);
      QuotientIs(p, a, x);
      MulOne(Sub(x, a));
      AddZero(Horner(p, x));
    }
  }

  lemma MinusOneTimes(a: Fe, b: Fe)
    ensures Add(a, Mul(b, Neg(1))) == Sub(a, b)
  {
    LiftSelf(a);
    LiftSelf(b);
    LiftSelf(1);
    LiftNeg(1);
    LiftMul(b, -1);
    LiftAdd(a, b * -1);
    LiftSub(a, b);
    assert a + b * -1 == a - b;
  }

  /** Two polynomials with at most n coefficients that agree at n nodes agree everywhere. */
  lemma LowDegreeUnique(p: seq<Fe>, q: seq<Fe>, nodes: seq<Fe>, x: Fe)
    requires |p| <= |nodes| && |q| <= |nodes| && Distinct(nodes)
    requires forall i {:trigger nodes[i]} | 0 <= i < |nodes| :: Horner(p, nodes[i]) == Horner(q, nodes[i])
    ensures Horner(p, x) == Horner(q, x)
  {
    var d := PolyAdd(p, PolyScale(Neg(1), q));
    forall z: Fe
      ensures Horner(d, z) == Sub(Horner(p, z), Horner(q, z))
    {
      HornerAdd(p, PolyScale(Neg(1), q), z);
      HornerScale(Neg(1), q, z);
      MinusOneTimes(Horner(p, z), Horner(q, z));
    }
    forall i {:trigger nodes[i]} | 0 <= i < |nodes|
      ensures Horner(d, nodes[i]) == 0
    {
      DifferenceZero(Horner(p, nodes[i]), Horner(q, nodes[i]));
    }
    TooManyRoots(d, nodes, x);
    DifferenceZero(Horner(p, x), Horner(q, x));
  }

  // ----- Newton interpolation

  /** The first coordinates of a list of points. */
  function Nodes(values: seq<(Fe, Fe)>): (r: seq<Fe>)
    ensures |r| == |values| && forall i {:trigger r[i]} | 0 <= i < |r| :: r[i] == values[i].0
  {
    seq(|values|, i requires 0 <= i < |values| => values[i].0)
  }

  method AllUnique(values: seq<(Fe, Fe)>) returns (ok: bool)
    ensures ok <==> Distinct(Nodes(values))
  {
    var seen: set<Fe> := {};
    ghost var nodes := Nodes(values);
    for i := 0 to |values|
      invariant forall k {:trigger nodes[k]} | 0 <= k < i :: nodes[k] in seen
      invariant forall x | x in seen :: x in nodes[..i]
      invariant Distinct(nodes[..i])
    {
      if values[i].0 in seen {
        assert nodes[i] in nodes[..i];
        return false;
      }
      seen := seen + {values[i].0};
      assert nodes[..i + 1] == nodes[..i] + [nodes[i]];
    }
    assert nodes[..|values|] == nodes;
    return true;
  }

  /** The product of x - s over a list. */
  ghost function ProdDiff(s: seq<Fe>, x: Fe): Fe {
    if s == [] then 1 else Mul(ProdDiff(s[..|s| - 1], x), Sub(x, s[|s| - 1]))
  }

  lemma {:induction false} ProdDiffZero(s: seq<Fe>, x: Fe)
    ensures ProdDiff(s, x) == 0 <==> x in s
  {
    if s != [] {
      var l := s[|s| - 1];
      assert s == s[..|s| - 1] + [l];
      ProdDiffZero(s[..|s| - 1], x);
      DifferenceZero(x, l);
      if ProdDiff(s, x) == 0 {
        NoZeroDivisors(ProdDiff(s[..|s| - 1], x), Sub(x, l));
      }
      MulOne(Sub(x, l));
      MulOne(ProdDiff(s[..|s| - 1], x));
    }
  }

  /** lagrange_interpolation: each step corrects the value at one more node. */
  method LagrangeInterpolation(values: seq<(Fe, Fe)>) returns (r: Option<seq<Fe>>)
    ensures r.None? <==> !Distinct(Nodes(values))
    ensures r.Some? ==> |r.value| == |values|
    ensures r.Some? ==> forall i {:trigger values[i]} | 0 <= i < |values| :: Horner(r.value, values[i].0) == values[i].1
    ensures forall p: seq<Fe>, x: Fe | r.Some? && |p| <= |values| && PassesThrough(p, values) ::
              Horner(r.value, x) == Horner(p, x)
  {
    var n := |values|;
    if n == 0 {
      return Some([]);
    }
    var unique := AllUnique(values);
    if !unique {
      return None;
    }
    ghost var nodes := Nodes(values);
    var result: seq<Fe> := [];
    var basis: seq<Fe> := [1];
    BasisStart(nodes);
    hide Horner, ProdDiff;
    for i := 0 to n
      invariant |result| == i && |basis| == i + 1
      invariant forall x: Fe :: Horner(basis, x) == ProdDiff(nodes[..i], x)
      invariant forall k {:trigger values[k]} | 0 <= k < i :: Horner(result, values[k].0) == values[k].1
    {
      var x, y := values[i].0, values[i].1;
      var currentY := Evaluate(result, x);
      var delta := Sub(y, currentY);
      var basisEval := Evaluate(basis, x);
      assert x !in nodes[..i] by {
        assert nodes[i] == x && forall k {:trigger nodes[k]} | 0 <= k < i :: nodes[k] != x;
      }
      ProdDiffZero(nodes[..i], x);
      var c := Mul(delta, Inverse(basisEval));
      var term := ScalePolynomial(basis, c);
      ghost var before := result;
      result := AddPolynomials(result, term);
      CorrectedValue(y, currentY, basisEval);
      forall k {:trigger values[k]} | 0 <= k < i
        ensures Horner(result, values[k].0) == values[k].1
      {
        assert nodes[..i][k] == values[k].0;
        ProdDiffZero(nodes[..i], values[k].0);
        MulOne(c);
        AddZero(Horner(before, values[k].0));
      }
      ghost var was := basis;
      basis := MulPolynomials(basis, [Neg(x), 1]);
      forall z: Fe ensures Horner(basis, z) == ProdDiff(nodes[..i + 1], z) {
        BasisStep(nodes, i, z);
      }
    }
    forall p: seq<Fe>, x: Fe | |p| <= n && PassesThrough(p, values)
      ensures Horner(result, x) == Horner(p, x)
    {
      assert forall i {:trigger nodes[i]} | 0 <= i < |nodes| :: Horner(result, values[i].0) == Horner(p, values[i].0);
      LowDegreeUnique(result, p, nodes, x);
    }
    return Some(result);
  }

  ghost predicate PassesThrough(p: seq<Fe>, values: seq<(Fe, Fe)>) {
    forall i {:trigger values[i]} | 0 <= i < |values| :: Horner(p, values[i].0) == values[i].1
  }

  lemma BasisStart(nodes: seq<Fe>)
    ensures forall x: Fe :: Horner([1], x) == ProdDiff(nodes[..0], x)
  {
    forall x: Fe ensures Horner([1], x) == ProdDiff(nodes[..0], x) {
      assert [1][1..] == [];
      MulOne(x);
      AddZero(1);
    }
  }

  lemma BasisStep(nodes: seq<Fe>, i: nat, z: Fe)
    requires i < |nodes|
    ensures Mul(ProdDiff(nodes[..i], z), Horner([Neg(nodes[i]), 1], z)) == ProdDiff(nodes[..i + 1], z)
  {
    var t := nodes[..i + 1];
    assert t[..|t| - 1] == nodes[..i] && t[|t| - 1] == nodes[i];
    var m := [Neg(nodes[i]), 1];
    assert m[1..] == [1] && m[1..][1..] == [];
    MulOne(z);
    AddZero(1);
    assert Horner(m[1..], z) == 1;
    MonomialValue(z, nodes[i]);
  }

  lemma MonomialValue(z: Fe, a: Fe)
    ensures Add(Mul(1, z), Neg(a)) == Sub(z, a)
  {
    MulOne(z);
    LiftSelf(z);
    LiftSelf(a);
    LiftNeg(a);
    var n: int := 0 - a;
    LiftAdd(z, n);
    LiftSub(z, a);
    assert z + n == z - a;
  }

  lemma CorrectedValue(y: Fe, current: Fe, b: Fe)
    requires b != 0
    ensures Add(current, Mul(b, Mul(Sub(y, current), Inverse(b)))) == y
  {
    var d, i := Sub(y, current), Inverse(b);
    MulComm(d, i);
    MulAssoc(b, i, d);
    MulOne(d);
    AddOfSub(y, current);
  }

  lemma AddOfSub(y: Fe, c: Fe)
    ensures Add(c, Sub(y, c)) == y
  {
    LiftSelf(y);
    LiftSelf(c);
    LiftSub(y, c);
    LiftAdd(c, y - c);
  }

  /** DensePolynomial::evaluate. */
  method Evaluate(coeffs: seq<Fe>, x: Fe) returns (r: Fe)
    ensures r == Horner(coeffs, x)
  {
    r := 0;
    var k := |coeffs|;
    while k > 0
      invariant 0 <= k <= |coeffs| && r == Horner(coeffs[k..], x)
    {
      k := k - 1;
      assert coeffs[k..][1..] == coeffs[k + 1..];
      r := Add(Mul(r, x), coeffs[k]);
    }
    assert coeffs[0..] == coeffs;
  }

  method ScalePolynomial(p: seq<Fe>, c: Fe) returns (r: seq<Fe>)
    ensures |r| == |p|
    ensures forall x: Fe :: Horner(r, x) == Mul(Horner(p, x), c)
  {
    r := p;
    for i := 0 to |p|
      invariant |r| == |p|
      invariant forall k {:trigger r[k]} | 0 <= k < |p| :: r[k] == if k < i then Mul(p[k], c) else p[k]
    {
      r := r[i := Mul(r[i], c)];
    }
    assert r == PolyScale(c, p);
    forall x: Fe {
      HornerScale(c, p, x);
    }
  }

  // ----- the Lagrange basis

  function Without<T>(s: seq<T>, i: nat): (r: seq<T>)
    requires i < |s|
    ensures |r| == |s| - 1
  {
    s[..i] + s[i + 1..]
  }

  /** The first j nodes without node i. */
  ghost function WithoutUpTo(nodes: seq<Fe>, i: nat, j: nat): seq<Fe>
    requires i < |nodes| && j <= |nodes|
  {
    if j <= i then nodes[..j] else nodes[..i] + nodes[i + 1..j]
  }

  lemma WithoutNext(nodes: seq<Fe>, i: nat, j: nat)
    requires i < |nodes| && j < |nodes|
    ensures WithoutUpTo(nodes, i, j + 1) == if j == i then WithoutUpTo(nodes, i, j) else WithoutUpTo(nodes, i, j) + [nodes[j]]
  {
  }

  lemma ProdDiffLast(s: seq<Fe>, x: Fe, point: Fe)
    ensures ProdDiff(s + [x], point) == Mul(ProdDiff(s, point), Sub(point, x))
  {
    assert (s + [x])[..|s|] == s;
  }

  /** prod_excluding: the filtered product over j != i. */
  method ProdExcluding(nodes: seq<Fe>, i: nat, point: Fe) returns (acc: Fe)
    requires i < |nodes|
    ensures acc == ProdDiff(Without(nodes, i), point)
  {
    acc := 1;
    for j := 0 to |nodes|
      invariant acc == ProdDiff(WithoutUpTo(nodes, i, j), point)
    {
      WithoutNext(nodes, i, j);
      if j != i {
        ProdDiffLast(WithoutUpTo(nodes, i, j), nodes[j], point);
        acc := Mul(acc, Sub(point, nodes[j]));
      }
    }
    assert nodes[i + 1..|nodes|] == nodes[i + 1..];
  }

  ghost function NodeInverse(nodes: seq<Fe>, i: nat): (d: Fe)
    requires i < |nodes| && Distinct(nodes)
    ensures Mul(ProdDiff(Without(nodes, i), nodes[i]), d) == 1
  {
    WithoutSelf(nodes, i);
    Inverse(ProdDiff(Without(nodes, i), nodes[i]))
  }

  /** The value at t of the i-th basis polynomial on the nodes. */
  ghost function BasisValue(nodes: seq<Fe>, i: nat, t: Fe): Fe
    requires i < |nodes| && Distinct(nodes)
  {
    Mul(ProdDiff(Without(nodes, i), t), NodeInverse(nodes, i))
  }

  lemma WithoutSelf(nodes: seq<Fe>, i: nat)
    requires i < |nodes| && Distinct(nodes)
    ensures ProdDiff(Without(nodes, i), nodes[i]) != 0
    ensures forall j | 0 <= j < |nodes| && j != i :: nodes[j] in Without(nodes, i)
  {
    ProdDiffZero(Without(nodes, i), nodes[i]);
    assert nodes[i] !in nodes[..i] && nodes[i] !in nodes[i + 1..];
    forall j | 0 <= j < |nodes| && j != i ensures nodes[j] in Without(nodes, i) {
      if j < i {
        assert nodes[..i][j] == nodes[j];
      } else {
        assert nodes[i + 1..][j - i - 1] == nodes[j];
      }
    }
  }

  lemma BasisAtNode(nodes: seq<Fe>, i: nat, j: nat)
    requires i < |nodes| && j < |nodes| && Distinct(nodes)
    ensures BasisValue(nodes, i, nodes[j]) == if i == j then 1 else 0
  {
    WithoutSelf(nodes, i);
    if i != j {
      ProdDiffZero(Without(nodes, i), nodes[j]);
      MulOne(NodeInverse(nodes, i));
    }
  }

  /** Coefficients of the product of x - s. */
  ghost function ProdCoeffs(s: seq<Fe>): (p: seq<Fe>)
    ensures |p| == |s| + 1
  {
    if s == [] then [1]
    else
      var p := ProdCoeffs(s[..|s| - 1]);
      PolyAdd([0] + p, PolyScale(Neg(s[|s| - 1]), p))
  }

  lemma {:induction false} ProdCoeffsValue(s: seq<Fe>, x: Fe)
    ensures Horner(ProdCoeffs(s), x) == ProdDiff(s, x)
  {
    if s == [] {
      assert [1][1..] == [];
      MulOne(x);
      AddZero(1);
    } else {
      var l := s[|s| - 1];
      var p := ProdCoeffs(s[..|s| - 1]);
      ProdCoeffsValue(s[..|s| - 1], x);
      HornerAdd([0] + p, PolyScale(Neg(l), p), x);
      HornerScale(Neg(l), p, x);
      assert ([0] + p)[1..] == p;
      AddZero(Mul(Horner(p, x), x));
      var h := Horner(p, x);
      Distributes(h, x, Neg(l));
      MonomialValue(x, l);
      MulOne(x);
    }
  }

  /** Coefficients of the sum of p(node_i) * L_i over the first k nodes. */
  ghost function BasisSumCoeffs(p: seq<Fe>, nodes: seq<Fe>, k: nat): (c: seq<Fe>)
    requires k <= |nodes| && Distinct(nodes)
    ensures |c| <= |nodes|
  {
    if k == 0 then []
    else
      var l := PolyScale(NodeInverse(nodes, k - 1), ProdCoeffs(Without(nodes, k - 1)));
      PolyAdd(BasisSumCoeffs(p, nodes, k - 1), PolyScale(Horner(p, nodes[k - 1]), l))
  }

  /** Sum over the first k nodes of L_i(t) * p(node_i). */
  ghost function BasisSum(p: seq<Fe>, nodes: seq<Fe>, k: nat, t: Fe): Fe
    requires k <= |nodes| && Distinct(nodes)
  {
    if k == 0 then 0
    else Add(BasisSum(p, nodes, k - 1, t), Mul(BasisValue(nodes, k - 1, t), Horner(p, nodes[k - 1])))
  }

  lemma {:induction false} BasisSumValue(p: seq<Fe>, nodes: seq<Fe>, k: nat, t: Fe)
    requires k <= |nodes| && Distinct(nodes)
    ensures Horner(BasisSumCoeffs(p, nodes, k), t) == BasisSum(p, nodes, k, t)
  {
    if k > 0 {
      BasisSumValue(p, nodes, k - 1, t);
      var w := Without(nodes, k - 1);
      var d := NodeInverse(nodes, k - 1);
      var l := PolyScale(d, ProdCoeffs(w));
      ProdCoeffsValue(w, t);
      HornerScale(d, ProdCoeffs(w), t);
      HornerScale(Horner(p, nodes[k - 1]), l, t);
      HornerAdd(BasisSumCoeffs(p, nodes, k - 1), PolyScale(Horner(p, nodes[k - 1]), l), t);
    }
  }

  lemma {:induction false} BasisSumAtNode(p: seq<Fe>, nodes: seq<Fe>, k: nat, j: nat)
    requires k <= |nodes| && j < |nodes| && Distinct(nodes)
    ensures BasisSum(p, nodes, k, nodes[j]) == if j < k then Horner(p, nodes[j]) else 0
  {
    if k > 0 {
      BasisSumAtNode(p, nodes, k - 1, j);
      BasisAtNode(nodes, k - 1, j);
      var v := Horner(p, nodes[k - 1]);
      MulOne(v);
      AddZero(v);
      AddZero(BasisSum(p, nodes, k - 1, nodes[j]));
    }
  }

  /** Basis values reproduce every polynomial that has at most as many coefficients as there are nodes. */
  lemma BasisReproduces(p: seq<Fe>, nodes: seq<Fe>, t: Fe)
    requires |p| <= |nodes| && Distinct(nodes)
    ensures BasisSum(p, nodes, |nodes|, t) == Horner(p, t)
  {
    var c := BasisSumCoeffs(p, nodes, |nodes|);
    forall i {:trigger nodes[i]} | 0 <= i < |nodes|
      ensures Horner(c, nodes[i]) == Horner(p, nodes[i])
    {
      BasisSumValue(p, nodes, |nodes|, nodes[i]);
      BasisSumAtNode(p, nodes, |nodes|, i);
    }
    LowDegreeUnique(c, p, nodes, t);
    BasisSumValue(p, nodes, |nodes|, t);
  }

  /** lagrange_basis_evals. */
  method LagrangeBasisEvals(nodes: seq<Fe>, targets: seq<Fe>) returns (evals: seq<seq<Fe>>)
    requires Distinct(nodes)
    ensures |evals| == |targets|
    ensures forall t {:trigger evals[t]} | 0 <= t < |targets| :: |evals[t]| == |nodes|
    ensures forall t, i {:trigger evals[t][i]} | 0 <= t < |targets| && 0 <= i < |nodes| ::
              evals[t][i] == BasisValue(nodes, i, targets[t])
  {
    var inverses: seq<Fe> := [];
    for i := 0 to |nodes|
      invariant |inverses| == i
      invariant forall k {:trigger inverses[k]} | 0 <= k < i :: inverses[k] == NodeInverse(nodes, k)
    {
      WithoutSelf(nodes, i);
      var den := ProdExcluding(nodes, i, nodes[i]);
      inverses := inverses + [Inverse(den)];
    }
    evals := [];
    for t := 0 to |targets|
      invariant |evals| == t
      invariant forall s {:trigger evals[s]} | 0 <= s < t :: |evals[s]| == |nodes|
      invariant forall s, i {:trigger evals[s][i]} | 0 <= s < t && 0 <= i < |nodes| ::
                  evals[s][i] == BasisValue(nodes, i, targets[s])
    {
      var row: seq<Fe> := [];
      for i := 0 to |nodes|
        invariant |row| == i
        invariant forall k {:trigger row[k]} | 0 <= k < i :: row[k] == BasisValue(nodes, k, targets[t])
      {
        var num := ProdExcluding(nodes, i, targets[t]);
        row := row + [Mul(num, inverses[i])];
      }
      evals := evals + [row];
    }
  }
}
