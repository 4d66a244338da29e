/**
 What combining claims with powers of gamma keeps: the error of the combined claim is a polynomial in
 gamma whose coefficients are the errors of the single claims (crates/whir/src/open.rs).
 */
module CombinedClaims {
  import opened Arith
  import opened Field
  import opened Prime
  import opened Multilinear
  import opened Coefficients
  import opened Interpolation
  import opened WhirConstraints
  import opened StackedStatements

  // ----- polynomials

  lemma {:induction false} HornerAppend(a: seq<Fe>, b: seq<Fe>, x: Fe)
    ensures Horner(a + b, x) == Add(Horner(a, x), Mul(Pow(x, |a|), Horner(b, x)))
    decreases |a|
  {
    if a == [] {
      assert a + b == b;
      MulOne(Horner(b, x));
      AddZero(Horner(b, x));
    } else {
      assert (a + b)[1..] == a[1..] + b;
      HornerAppend(a[1..], b, x);
      AppendStep(Horner(a[1..], x), Pow(x, |a| - 1), Horner(b, x), x, a[0]);
    }
  }

  lemma AppendStep(h: Fe, p: Fe, b: Fe, x: Fe, a: Fe)
    ensures Add(Mul(Add(h, Mul(p, b)), x), a) == Add(Add(Mul(h, x), a), Mul(Mul(x, p), b))
  {
    LiftSelf(h);
    LiftSelf(p);
    LiftSelf(b);
    LiftSelf(x);
    LiftSelf(a);
    LiftMul(p, b);
    var t := p * b;
    LiftAdd(h, t);
    LiftMul(h + t, x);
    LiftAdd((h + t) * x, a);
    LiftMul(h, x);
    LiftAdd(h * x, a);
    LiftMul(x, p);
    LiftMul(x * p, b);
    LiftAdd(h * x + a, x * p * b);
    assert (h + t) * x == h * x + t * x;
    assert t * x == x * p * b;
  }

  lemma HornerWithGap(a: seq<Fe>, zeros: seq<Fe>, b: seq<Fe>, x: Fe)
    requires AllZero(zeros)
    ensures Horner(a + zeros + b, x) == Add(Horner(a, x), Mul(Pow(x, |a| + |zeros|), Horner(b, x)))
  {
    HornerAppend(a + zeros, b, x);
    HornerAppend(a, zeros, x);
    HornerOfZeros(zeros, x);
    MulOne(Pow(x, |a|));
    AddZero(Horner(a, x));
  }

  ghost predicate AllZero(p: seq<Fe>) { forall i {:trigger p[i]} | 0 <= i < |p| :: p[i] == 0 }

  /** All nodes but one, which is 0 if one of them is. */
  lemma OneZeroAtMost(nodes: seq<Fe>) returns (rest: seq<Fe>)
    requires nodes != [] && Distinct(nodes)
    ensures |rest| == |nodes| - 1 && Distinct(rest)
    ensures forall i {:trigger rest[i]} | 0 <= i < |rest| :: rest[i] != 0 && rest[i] in nodes
  {
    var z: nat := 0;
    if exists i {:trigger nodes[i]} :: 0 <= i < |nodes| && nodes[i] == 0 {
      z :| z < |nodes| && nodes[z] == 0;
    }
    rest := nodes[..z] + nodes[z + 1..];
    forall i, j {:trigger rest[i], rest[j]} | 0 <= i < j < |rest| ensures rest[i] != rest[j] {
      assert rest[i] == nodes[if i < z then i else i + 1] && rest[j] == nodes[if j < z then j else j + 1];
    }
    forall i {:trigger rest[i]} | 0 <= i < |rest| ensures rest[i] != 0 && rest[i] in nodes {
      assert rest[i] == nodes[if i < z then i else i + 1];
    }
  }

  /** A polynomial with as many roots as coefficients has no coefficient but 0. */
  lemma {:induction false} OnlyZero(p: seq<Fe>, nodes: seq<Fe>)
    requires |p| <= |nodes| && Distinct(nodes) && forall i {:trigger nodes[i]} | 0 <= i < |nodes| :: Horner(p, nodes[i]) == 0
    ensures AllZero(p)
    decreases |p|
  {
    if p != [] {
      TooManyRoots(p, nodes, 0);
      var tail := p[1..];
      MulOne(Horner(tail, 0));
      AddZero(p[0]);
      var rest := OneZeroAtMost(nodes);
      forall i {:trigger rest[i]} | 0 <= i < |rest| ensures Horner(tail, rest[i]) == 0 {
        AddZero(Mul(Horner(tail, rest[i]), rest[i]));
        NoZeroDivisors(Horner(tail, rest[i]), rest[i]);
      }
      OnlyZero(tail, rest);
      forall i {:trigger p[i]} | 0 <= i < |p| ensures p[i] == 0 {
        assert i > 0 ==> p[i] == tail[i - 1];
      }
    }
  }

  // ----- errors

  ghost predicate SelectorsFit(s: SparseStatement) {
    |s.point| <= s.total && forall i {:trigger s.values[i]} | 0 <= i < |s.values| :: s.values[i].selector < Pow2(s.total - |s.point|)
  }

  /** What the values claim too little, claim by claim. */
  ghost function ErrorsOf(v: seq<Fe>, s: SparseStatement): (r: seq<Fe>)
    requires SelectorsFit(s) && |v| == Pow2(s.total)
    ensures |r| == |s.values|
    ensures forall i {:trigger r[i]} | 0 <= i < |r| :: r[i] == Sub(BlockProduct(v, s, s.values[i].selector), s.values[i].value)
  {
    seq<Fe>(|s.values|, i requires 0 <= i < |s.values| => Sub(BlockProduct(v, s, s.values[i].selector), s.values[i].value))
  }

  /** The errors of all statements, with a 0 wherever a power of gamma is skipped. */
  ghost function Errors(v: seq<Fe>, stmts: seq<SparseStatement>, n: nat, logPacking: nat): (r: seq<Fe>)
    requires |v| == Pow2(n) && AllWellFormed(stmts, n, logPacking)
    ensures |r| <= ClaimCount(stmts) + |stmts|
  {
    if stmts == [] then []
    else
      assert WellFormed(stmts[0], n, logPacking);
      ErrorsOf(v, stmts[0]) + Skipped(stmts[0], logPacking) + Errors(v, stmts[1..], n, logPacking)
  }

  function Skipped(s: SparseStatement, logPacking: nat): (r: seq<Fe>)
    ensures |s.values| + |r| == Advance(s, logPacking) && AllZero(r)
  {
    if Advance(s, logPacking) > |s.values| then [0] else []
  }

  /** Adding a multiple of one block's weights. */
  lemma OneBlock(v: seq<Fe>, w: seq<Fe>, s: SparseStatement, selector: nat, g: Fe)
    requires |s.point| <= s.total && |v| == |w| == Pow2(s.total) && selector < Pow2(s.total - |s.point|)
    ensures selector * Pow2(|s.point|) + Pow2(|s.point|) <= |w|
    ensures Dot(v, AddVec(w, selector * Pow2(|s.point|), Scaled(g, InnerVec(s)))) == Add(Dot(v, w), Mul(g, BlockProduct(v, s, selector)))
  {
    hide Dot, InnerVec, Placed, Pow2;
    var k, size := s.total - |s.point|, Pow2(|s.point|);
    var vec := InnerVec(s);
    Pow2Add(k, |s.point|);
    BlockBounds(selector, Pow2(k), size);
    var placed := Placed(selector, k, vec);
    var scaled, r := Scaled(g, placed), AddVec(w, selector * size, Scaled(g, vec));
    forall i {:trigger r[i]} | 0 <= i < |r| ensures Add(w[i], scaled[i]) == r[i] {
      PlacedAt(selector, k, vec, i);
      MulOne(g);
      AddZero(w[i]);
    }
    DotAdd(v, w, scaled, r);
    DotScaled(g, v, placed, scaled);
  }

  lemma ErrorStep(w: Fe, g: Fe, b: Fe, x: Fe, sum: Fe, h: Fe, gamma: Fe)
    ensures Add(Add(w, Mul(g, b)), Add(sum, Mul(Mul(g, gamma), h)))
         == Add(w, Add(Add(Mul(g, x), sum), Mul(g, Add(Mul(h, gamma), Sub(b, x)))))
  {
    LiftSelf(w);
    LiftSelf(g);
    LiftSelf(b);
    LiftSelf(x);
    LiftSelf(sum);
    LiftSelf(h);
    LiftSelf(gamma);
    LiftMul(g, b);
    LiftAdd(w, g * b);
    LiftMul(g, gamma);
    LiftMul(g * gamma, h);
    LiftAdd(sum, g * gamma * h);
    LiftAdd(w + g * b, sum + g * gamma * h);
    LiftMul(g, x);
    LiftAdd(g * x, sum);
    LiftMul(h, gamma);
    LiftSub(b, x);
    var t := h * gamma;
    LiftAdd(t, b - x);
    LiftMul(g, t + (b - x));
    LiftAdd(g * x + sum, g * (t + (b - x)));
    LiftAdd(w, g * x + sum + g * (t + (b - x)));
    ErrorIdentity(g, t, b, x);
    assert g * gamma * h == g * t;
  }

  lemma ErrorIdentity(g: int, t: int, b: int, x: int)
    ensures g * x + g * (t + (b - x)) == g * b + g * t
  {
  }

  /** The claims of one statement. */
  lemma {:induction false} StatementError(v: seq<Fe>, w: seq<Fe>, s: SparseStatement, g: Fe, gamma: Fe)
    requires SelectorsFit(s) && |v| == |w| == Pow2(s.total)
    ensures forall i {:trigger s.values[i]} | 0 <= i < |s.values| :: s.values[i].selector * Pow2(|s.point|) + Pow2(|s.point|) <= |w|
    ensures Dot(v, AddClaims(w, s.values, InnerVec(s), g, gamma))
         == Add(Dot(v, w), Add(SumClaims(s.values, g, gamma), Mul(g, Horner(ErrorsOf(v, s), gamma))))
    decreases |s.values|
  {
    hide Dot, BlockProduct, InnerVec, Pow2;
    forall i {:trigger s.values[i]} | 0 <= i < |s.values| ensures s.values[i].selector * Pow2(|s.point|) + Pow2(|s.point|) <= |w| {
      OneBlock(v, w, s, s.values[i].selector, g);
    }
    if s.values == [] {
      MulOne(g);
      AddZero(0);
      AddZero(Dot(v, w));
    } else {
      var x, rest := s.values[0], s.(values := s.values[1..]);
      OneBlock(v, w, s, x.selector, g);
      var w1 := AddVec(w, x.selector * Pow2(|s.point|), Scaled(g, InnerVec(s)));
      StatementError(v, w1, rest, Mul(g, gamma), gamma);
      SameBlocks(v, s, rest);
      ErrorStep(Dot(v, w), g, BlockProduct(v, s, x.selector), x.value, SumClaims(rest.values, Mul(g, gamma), gamma),
                Horner(ErrorsOf(v, rest), gamma), gamma);
    }
  }

  lemma SameBlocks(v: seq<Fe>, s: SparseStatement, rest: SparseStatement)
    requires SelectorsFit(s) && |v| == Pow2(s.total) && s.values != [] && rest == s.(values := s.values[1..])
    ensures SelectorsFit(rest) && InnerVec(rest) == InnerVec(s) && ErrorsOf(v, rest) == ErrorsOf(v, s)[1..]
  {
    assert forall i {:trigger rest.values[i]} | 0 <= i < |rest.values| :: rest.values[i] == s.values[i + 1];
    var a, b := ErrorsOf(v, rest), ErrorsOf(v, s)[1..];
    forall i | 0 <= i < |a| ensures a[i] == b[i] {
      assert BlockProduct(v, rest, rest.values[i].selector) == BlockProduct(v, s, s.values[i + 1].selector);
    }
  }

  lemma AdvanceStep(d: Fe, sum1: Fe, g: Fe, h: Fe, p: Fe, sum2: Fe, e: Fe)
    ensures Add(Add(d, Add(sum1, Mul(g, h))), Add(sum2, Mul(Mul(g, p), e))) == Add(d, Add(Add(sum1, sum2), Mul(g, Add(h, Mul(p, e)))))
  {
    LiftSelf(d);
    LiftSelf(sum1);
    LiftSelf(g);
    LiftSelf(h);
    LiftSelf(p);
    LiftSelf(sum2);
    LiftSelf(e);
    LiftMul(g, h);
    LiftAdd(sum1, g * h);
    LiftAdd(d, sum1 + g * h);
    LiftMul(g, p);
    LiftMul(g * p, e);
    LiftAdd(sum2, g * p * e);
    LiftAdd(d + (sum1 + g * h), sum2 + g * p * e);
    LiftAdd(sum1, sum2);
    LiftMul(p, e);
    var t := p * e;
    LiftAdd(h, t);
    LiftMul(g, h + t);
    LiftAdd(sum1 + sum2, g * (h + t));
    LiftAdd(d, sum1 + sum2 + g * (h + t));
    assert g * (h + t) == g * h + g * t;
    assert g * p * e == g * t;
  }

  /** The errors of one statement, then those of the others. */
  lemma ErrorsAppend(v: seq<Fe>, stmts: seq<SparseStatement>, n: nat, logPacking: nat, x: Fe)
    requires stmts != [] && |v| == Pow2(n) && AllWellFormed(stmts, n, logPacking)
    ensures SelectorsFit(stmts[0]) && stmts[0].total == n
    ensures Horner(Errors(v, stmts, n, logPacking), x)
         == Add(Horner(ErrorsOf(v, stmts[0]), x), Mul(Pow(x, Advance(stmts[0], logPacking)), Horner(Errors(v, stmts[1..], n, logPacking), x)))
  {
    hide Advance, TakesSparseBranch, BlockProduct, DistinctSelectors, Horner, Pow, Pow2;
    var s := stmts[0];
    assert WellFormed(s, n, logPacking);
    HornerWithGap(ErrorsOf(v, s), Skipped(s, logPacking), Errors(v, stmts[1..], n, logPacking), x);
  }

  /** The combined weights measure all claims at once: the combined claim, and the errors weighted with their powers of gamma. */
  lemma {:induction false} WeightsMeasure(v: seq<Fe>, w: seq<Fe>, stmts: seq<SparseStatement>, n: nat, logPacking: nat, g: Fe, gamma: Fe)
    requires |v| == |w| == Pow2(n) && AllWellFormed(stmts, n, logPacking)
    ensures Dot(v, ProverWeights(w, stmts, n, logPacking, g, gamma))
         == Add(Dot(v, w), Add(ProverSum(stmts, logPacking, g, gamma), Mul(g, Horner(Errors(v, stmts, n, logPacking), gamma))))
    decreases |stmts|
  {
    hide Dot, InnerVec, Horner, AddClaims, SumClaims, Advance, Errors, Pow, Pow2;
    if stmts == [] {
      NoErrors(v, n, logPacking, gamma);
      MulOne(g);
      AddZero(0);
      AddZero(Dot(v, w));
    } else {
      var s, rest := stmts[0], stmts[1..];
      assert WellFormed(s, n, logPacking);
      ErrorsAppend(v, stmts, n, logPacking, gamma);
      StatementError(v, w, s, g, gamma);
      var p := Pow(gamma, Advance(s, logPacking));
      WeightsMeasure(v, AddClaims(w, s.values, InnerVec(s), g, gamma), rest, n, logPacking, Mul(g, p), gamma);
      AdvanceStep(Dot(v, w), SumClaims(s.values, g, gamma), g, Horner(ErrorsOf(v, s), gamma), p,
                  ProverSum(rest, logPacking, Mul(g, p), gamma), Horner(Errors(v, rest, n, logPacking), gamma));
    }
  }

  lemma NoErrors(v: seq<Fe>, n: nat, logPacking: nat, x: Fe)
    requires |v| == Pow2(n)
    ensures Horner(Errors(v, [], n, logPacking), x) == 0
  {
  }

  /** The error of the combined claim is the polynomial of the single errors at gamma. */
  lemma CombinedError(v: seq<Fe>, stmts: seq<SparseStatement>, n: nat, logPacking: nat, gamma: Fe)
    requires |v| == Pow2(n) && AllWellFormed(stmts, n, logPacking)
    ensures Sub(Dot(v, ProverWeights(Zeros(Pow2(n)), stmts, n, logPacking, 1, gamma)), ProverSum(stmts, logPacking, 1, gamma))
         == Horner(Errors(v, stmts, n, logPacking), gamma)
  {
    hide Dot, Horner, ProverWeights, ProverSum, Errors, Pow2;
    var zeros, sum, e := Zeros(Pow2(n)), ProverSum(stmts, logPacking, 1, gamma), Horner(Errors(v, stmts, n, logPacking), gamma);
    WeightsMeasure(v, zeros, stmts, n, logPacking, 1, gamma);
    DotCommute(v, zeros);
    DotZero(zeros, v);
    MulOne(e);
    AddZero(Add(sum, e));
    AddComm(sum, e);
    AddThenSub(e, sum);
  }

  lemma AddThenSub(a: Fe, b: Fe)
    ensures Sub(Add(a, b), b) == a
  {
    LiftSelf(a);
    LiftSelf(b);
    LiftAdd(a, b);
    LiftSub(a + b, b);
  }

  // ----- what the combined claim forces

  lemma StatementErrorsZero(v: seq<Fe>, s: SparseStatement)
    requires SelectorsFit(s) && |v| == Pow2(s.total)
    ensures AllZero(ErrorsOf(v, s)) <==> StatementTrue(v, s)
  {
    hide BlockProduct;
    var e := ErrorsOf(v, s);
    forall i {:trigger e[i]} | 0 <= i < |e| ensures e[i] == 0 <==> ValueTrue(v, s, s.values[i]) {
      DifferenceZero(BlockProduct(v, s, s.values[i].selector), s.values[i].value);
    }
    if AllZero(e) {
      forall i {:trigger s.values[i]} | 0 <= i < |s.values| ensures ValueTrue(v, s, s.values[i]) {
        assert e[i] == 0;
      }
    }
  }

  lemma ZeroAppend(a: seq<Fe>, b: seq<Fe>)
    ensures AllZero(a + b) <==> AllZero(a) && AllZero(b)
  {
    if AllZero(a + b) {
      forall i {:trigger a[i]} | 0 <= i < |a| ensures a[i] == 0 {
        assert (a + b)[i] == a[i];
      }
      forall i {:trigger b[i]} | 0 <= i < |b| ensures b[i] == 0 {
        assert (a + b)[|a| + i] == b[i];
      }
    }
  }

  lemma {:induction false} ErrorsZero(v: seq<Fe>, stmts: seq<SparseStatement>, n: nat, logPacking: nat)
    requires |v| == Pow2(n) && AllWellFormed(stmts, n, logPacking)
    ensures AllZero(Errors(v, stmts, n, logPacking)) <==> AllTrue(v, stmts)
    decreases |stmts|
  {
    hide AllZero, StatementTrue, ErrorsOf, Skipped, Pow2, DistinctSelectors, TakesSparseBranch;
    if stmts == [] {
      ZeroAppend([], []);
      assert AllZero([]) by { NothingIsZero(); }
    } else {
      var s, rest := stmts[0], stmts[1..];
      assert WellFormed(s, n, logPacking);
      ErrorsZero(v, rest, n, logPacking);
      StatementErrorsZero(v, s);
      ZeroAppend(ErrorsOf(v, s) + Skipped(s, logPacking), Errors(v, rest, n, logPacking));
      ZeroAppend(ErrorsOf(v, s), Skipped(s, logPacking));
      AllTrueAppend(v, [s], rest);
      assert [s] + rest == stmts;
    }
  }

  lemma NothingIsZero()
    ensures AllZero([])
  {
  }

  /** The combined claim, at one gamma. */
  ghost predicate CombinedTrue(v: seq<Fe>, stmts: seq<SparseStatement>, n: nat, logPacking: nat, gamma: Fe)
    requires |v| == Pow2(n) && AllWellFormed(stmts, n, logPacking)
  {
    Dot(v, ProverWeights(Zeros(Pow2(n)), stmts, n, logPacking, 1, gamma)) == ProverSum(stmts, logPacking, 1, gamma)
  }

  /** True claims combine to a true claim, whatever gamma is. */
  lemma TrueCombines(v: seq<Fe>, stmts: seq<SparseStatement>, n: nat, logPacking: nat, gamma: Fe)
    requires |v| == Pow2(n) && AllWellFormed(stmts, n, logPacking) && AllTrue(v, stmts)
    ensures CombinedTrue(v, stmts, n, logPacking, gamma)
  {
    hide AllTrue, Errors, ProverWeights, ProverSum, Dot, Pow2;
    ErrorsZero(v, stmts, n, logPacking);
    CombinedError(v, stmts, n, logPacking, gamma);
    HornerOfZeros(Errors(v, stmts, n, logPacking), gamma);
    DifferenceZero(Dot(v, ProverWeights(Zeros(Pow2(n)), stmts, n, logPacking, 1, gamma)), ProverSum(stmts, logPacking, 1, gamma));
  }

  /** Claims that combine to a true claim for more gammas than there are claims and statements are true. */
  lemma CombinedForces(v: seq<Fe>, stmts: seq<SparseStatement>, n: nat, logPacking: nat, gammas: seq<Fe>)
    requires |v| == Pow2(n) && AllWellFormed(stmts, n, logPacking)
    requires Distinct(gammas) && |gammas| >= ClaimCount(stmts) + |stmts|
    requires forall i {:trigger gammas[i]} | 0 <= i < |gammas| :: CombinedTrue(v, stmts, n, logPacking, gammas[i])
    ensures AllTrue(v, stmts)
  {
    hide AllTrue, ProverWeights, ProverSum, Dot, Horner, ClaimCount, Pow2;
    var e := Errors(v, stmts, n, logPacking);
    assert |e| <= |gammas|;
    hide Errors;
    forall i {:trigger gammas[i]} | 0 <= i < |gammas| ensures Horner(e, gammas[i]) == 0 {
      assert CombinedTrue(v, stmts, n, logPacking, gammas[i]);
      CombinedError(v, stmts, n, logPacking, gammas[i]);
      DifferenceZero(Dot(v, ProverWeights(Zeros(Pow2(n)), stmts, n, logPacking, 1, gammas[i])), ProverSum(stmts, logPacking, 1, gammas[i]));
    }
    OnlyZero(e, gammas);
    ErrorsZero(v, stmts, n, logPacking);
  }
}
