/**
 Combining sparse evaluation claims into one weight polynomial: the prover's dense buffer
 (crates/whir/src/open.rs) against the verifier's closed form (crates/whir/src/verify.rs).
 */
module WhirConstraints {
  import opened Arith
  import opened Field
  import opened Multilinear
  import opened NextPolynomial

  datatype SparseValue = SparseValue(selector: nat, value: Fe)

  datatype SparseStatement = SparseStatement(total: nat, point: seq<Fe>, values: seq<SparseValue>, isNext: bool)

  function SelectorVars(s: SparseStatement): nat
    requires |s.point| <= s.total
  {
    s.total - |s.point|
  }

  /** The branch of combine_statement that adds equality vectors one claim at a time. */
  predicate TakesSparseBranch(s: SparseStatement, logPacking: nat) {
    !s.isNext && (|s.values| == 1 || |s.point| < logPacking)
  }

  ghost predicate DistinctSelectors(values: seq<SparseValue>) {
    forall i, j {:trigger values[i], values[j]} | 0 <= i < j < |values| :: values[i].selector != values[j].selector
  }

  /** What the prover demands of one statement: its assertions and its slice bounds. */
  ghost predicate WellFormed(s: SparseStatement, n: nat, logPacking: nat) {
    && s.total == n && |s.point| <= n
    && (forall i {:trigger s.values[i]} | 0 <= i < |s.values| :: s.values[i].selector < Pow2(n - |s.point|))
    && (s.isNext ==> logPacking <= |s.point|)
    && (!TakesSparseBranch(s, logPacking) ==> DistinctSelectors(s.values))
  }

  // ----- adding a vector to one block of the buffer

  function AddVec(w: seq<Fe>, start: nat, vec: seq<Fe>): (r: seq<Fe>)
    requires start + |vec| <= |w|
    ensures |r| == |w|
    ensures forall i {:trigger r[i]} | 0 <= i < |r| ::
              r[i] == if start <= i < start + |vec| then Add(w[i], vec[i - start]) else w[i]
  {
    seq(|w|, i requires 0 <= i < |w| => if start <= i < start + |vec| then Add(w[i], vec[i - start]) else w[i])
  }

  function Scaled(c: Fe, v: seq<Fe>): (r: seq<Fe>)
    ensures |r| == |v| && IsScaled(c, v, r)
  {
    seq(|v|, i requires 0 <= i < |v| => Mul(c, v[i]))
  }

  /** The vector placed in block `sel` of a zero buffer. */
  ghost function Placed(sel: nat, s: nat, vec: seq<Fe>): (r: seq<Fe>)
    requires sel < Pow2(s)
    ensures |r| == Pow2(s) * |vec|
    decreases s
  {
    if s == 0 then vec
    else
      var h := Pow2(s - 1);
      ShiftProduct(Pow2(s), h, |vec|);
      var zeros := seq(h * |vec|, _ => 0);
      if sel < h then Placed(sel, s - 1, vec) + zeros else zeros + Placed(sel - h, s - 1, vec)
  }

  lemma {:induction false} PlacedAt(sel: nat, s: nat, vec: seq<Fe>, i: nat)
    requires sel < Pow2(s) && i < Pow2(s) * |vec|
    ensures 0 <= sel * |vec| && sel * |vec| + |vec| <= Pow2(s) * |vec|
    ensures Placed(sel, s, vec)[i] == if sel * |vec| <= i < sel * |vec| + |vec| then vec[i - sel * |vec|] else 0
    decreases s
  {
    var size := |vec|;
    BlockBounds(sel, Pow2(s), size);
    if s > 0 {
      var h := Pow2(s - 1);
      ShiftProduct(Pow2(s), h, size);
      if sel < h {
        BlockBounds(sel, h, size);
        if i < h * size {
          PlacedAt(sel, s - 1, vec, i);
        }
      } else {
        BlockBounds(sel - h, h, size);
        ShiftProduct(sel, h, size);
        if i >= h * size {
          PlacedAt(sel - h, s - 1, vec, i - h * size);
        }
      }
    }
  }

  lemma PlacedHalves(sel: nat, s: nat, vec: seq<Fe>, g: nat)
    requires s > 0 && sel < Pow2(s) && g == Pow2(s - 1) * |vec|
    ensures |Placed(sel, s, vec)| == 2 * g
    ensures sel < Pow2(s - 1) ==>
              Placed(sel, s, vec)[..g] == Placed(sel, s - 1, vec) && Placed(sel, s, vec)[g..] == seq(g, _ => 0)
    ensures sel >= Pow2(s - 1) ==>
              Placed(sel, s, vec)[..g] == seq(g, _ => 0) && Placed(sel, s, vec)[g..] == Placed(sel - Pow2(s - 1), s - 1, vec)
  {
    ShiftProduct(Pow2(s), Pow2(s - 1), |vec|);
  }

  lemma {:induction false} MlePlaced(sel: nat, s: nat, vec: seq<Fe>, y: seq<Fe>)
    requires sel < Pow2(s) && |y| >= s && |vec| == Pow2(|y| - s)
    ensures Pow2(s) * |vec| == Pow2(|y|)
    ensures Mle(Placed(sel, s, vec), y) == Mul(Eq(Bits(sel, s), y[..s]), Mle(vec, y[s..]))
    decreases s
  {
    hide Placed, Eq;
    Pow2Add(s, |y| - s);
    if s == 0 {
      PlacedWhole(vec, y);
    } else {
      var g := Pow2(|y| - 1);
      Pow2Add(s - 1, |y| - s);
      PlacedHalves(sel, s, vec, g);
      var t := y[1..];
      assert t[s - 1..] == y[s..];
      var b := if sel < Pow2(s - 1) then sel else sel - Pow2(s - 1);
      MlePlaced(b, s - 1, vec, t);
      MleConstant(seq(g, _ => 0), t, 0);
      SelectorStep(sel, s, y, Mle(vec, y[s..]));
    }
  }

  lemma PlacedWhole(vec: seq<Fe>, y: seq<Fe>)
    requires |vec| == Pow2(|y|)
    ensures Mle(Placed(0, 0, vec), y) == Mul(Eq(Bits(0, 0), y[..0]), Mle(vec, y[0..]))
  {
    assert y[0..] == y;
    MulOne(Mle(vec, y));
  }

  lemma SelectorStep(sel: nat, s: nat, y: seq<Fe>, m: Fe)
    requires 0 < s <= |y| && sel < Pow2(s)
    ensures sel < Pow2(s - 1) ==>
              Lerp(y[0], Mul(Eq(Bits(sel, s - 1), y[1..][..s - 1]), m), 0) == Mul(Eq(Bits(sel, s), y[..s]), m)
    ensures sel >= Pow2(s - 1) ==>
              Lerp(y[0], 0, Mul(Eq(Bits(sel - Pow2(s - 1), s - 1), y[1..][..s - 1]), m)) == Mul(Eq(Bits(sel, s), y[..s]), m)
  {
    var b := if sel < Pow2(s - 1) then sel else sel - Pow2(s - 1);
    assert y[1..][..s - 1] == y[..s][1..];
    assert Bits(sel, s)[1..] == Bits(b, s - 1);
    var e := Eq(Bits(b, s - 1), y[..s][1..]);
    EqFactorEnds(y[0]);
    LerpWeights(y[0], Mul(e, m), 0);
    LerpWeights(y[0], 0, Mul(e, m));
    MulOne(y[0]);
    MulOne(Sub(1, y[0]));
    AddZero(Mul(Sub(1, y[0]), Mul(e, m)));
    AddZero(Mul(y[0], Mul(e, m)));
    MulAssoc(Sub(1, y[0]), e, m);
    MulAssoc(y[0], e, m);
  }

  lemma EqFactorEnds(r: Fe)
    ensures EqFactor(0, r) == Sub(1, r) && EqFactor(1, r) == r
  {
    EqFactorWeights(0, r);
    EqFactorWeights(1, r);
    MulOne(r);
    MulOne(Sub(1, r));
    AddZero(Sub(1, r));
    AddZero(r);
    AddZero(1);
  }

  /** Adding a vector to block `sel` adds its value, weighted by the selector, to the polynomial. */
  lemma MleAddVec(w: seq<Fe>, sel: nat, s: nat, vec: seq<Fe>, y: seq<Fe>)
    requires |w| == Pow2(|y|) && sel < Pow2(s) && |y| >= s && |vec| == Pow2(|y| - s)
    ensures 0 <= sel * |vec| && sel * |vec| + |vec| <= |w|
    ensures Mle(AddVec(w, sel * |vec|, vec), y) == Add(Mle(w, y), Mul(Eq(Bits(sel, s), y[..s]), Mle(vec, y[s..])))
  {
    MlePlaced(sel, s, vec, y);
    BlockBounds(sel, Pow2(s), |vec|);
    var p := Placed(sel, s, vec);
    var r := AddVec(w, sel * |vec|, vec);
    forall i | 0 <= i < |w|
      ensures r[i] == Add(w[i], p[i])
    {
      PlacedAt(sel, s, vec, i);
      AddZero(w[i]);
    }
    assert IsSum(w, p, r);
    MleSum(w, p, r, y);
  }

  // ----- the specification of the prover's buffer and sum

  /** The dense form of a statement's inner weight polynomial. */
  ghost function InnerVec(s: SparseStatement): (v: seq<Fe>)
    ensures |v| == Pow2(|s.point|)
  {
    if s.isNext then Folded(s.point) else EqVec(s.point, 1)
  }

  /** The claims of one statement, in their listed order, with weights g, g * gamma, ... */
  ghost function AddClaims(w: seq<Fe>, values: seq<SparseValue>, vec: seq<Fe>, g: Fe, gamma: Fe): (r: seq<Fe>)
    requires forall i {:trigger values[i]} | 0 <= i < |values| :: values[i].selector * |vec| + |vec| <= |w|
    ensures |r| == |w|
    decreases |values|
  {
    if values == [] then w
    else
      var first := values[0].selector * |vec|;
      AddClaims(AddVec(w, first, Scaled(g, vec)), values[1..], vec, Mul(g, gamma), gamma)
  }

  ghost function SumClaims(values: seq<SparseValue>, g: Fe, gamma: Fe): Fe {
    if values == [] then 0 else Add(Mul(g, values[0].value), SumClaims(values[1..], Mul(g, gamma), gamma))
  }

  /** How far the prover moves the power of gamma: one step even for an empty statement of the dense branch. */
  function Advance(s: SparseStatement, logPacking: nat): nat {
    if TakesSparseBranch(s, logPacking) || |s.values| > 0 then |s.values| else 1
  }

  lemma SelectorFits(s: SparseStatement, n: nat, logPacking: nat, i: nat)
    requires WellFormed(s, n, logPacking) && i < |s.values|
    ensures s.values[i].selector * Pow2(|s.point|) + Pow2(|s.point|) <= Pow2(n)
  {
    Pow2Add(n - |s.point|, |s.point|);
    BlockBounds(s.values[i].selector, Pow2(n - |s.point|), Pow2(|s.point|));
  }

  ghost predicate AllWellFormed(stmts: seq<SparseStatement>, n: nat, logPacking: nat) {
    forall i {:trigger stmts[i]} | 0 <= i < |stmts| :: WellFormed(stmts[i], n, logPacking)
  }

  ghost function ProverWeights(w: seq<Fe>, stmts: seq<SparseStatement>, n: nat, logPacking: nat, g: Fe, gamma: Fe): (r: seq<Fe>)
    requires |w| == Pow2(n) && AllWellFormed(stmts, n, logPacking)
    ensures |r| == |w|
    decreases |stmts|
  {
    if stmts == [] then w
    else
      var s := stmts[0];
      assert forall i {:trigger s.values[i]} | 0 <= i < |s.values| :: s.values[i].selector * Pow2(|s.point|) + Pow2(|s.point|) <= |w| by {
        forall i | 0 <= i < |s.values| ensures s.values[i].selector * Pow2(|s.point|) + Pow2(|s.point|) <= |w| {
          SelectorFits(s, n, logPacking, i);
        }
      }
      ProverWeights(AddClaims(w, s.values, InnerVec(s), g, gamma), stmts[1..], n, logPacking,
                    Mul(g, Pow(gamma, Advance(s, logPacking))), gamma)
  }

  ghost function ProverSum(stmts: seq<SparseStatement>, logPacking: nat, g: Fe, gamma: Fe): Fe
    decreases |stmts|
  {
    if stmts == [] then 0
    else Add(SumClaims(stmts[0].values, g, gamma),
             ProverSum(stmts[1..], logPacking, Mul(g, Pow(gamma, Advance(stmts[0], logPacking))), gamma))
  }

  // ----- the verifier's closed form

  /** The value at y of a statement's inner weight polynomial. */
  function CommonWeight(s: SparseStatement, y: seq<Fe>): Fe
    requires |s.point| <= |y|
  {
    var inner := y[|y| - |s.point|..];
    if s.isNext then Next(s.point, inner) else Eq(s.point, inner)
  }

  ghost function EvalClaims(values: seq<SparseValue>, s: nat, common: Fe, y: seq<Fe>, g: Fe, gamma: Fe): Fe
    requires s <= |y|
    decreases |values|
  {
    if values == [] then 0
    else Add(Mul(Mul(Eq(Bits(values[0].selector, s), y[..s]), common), g),
             EvalClaims(values[1..], s, common, y, Mul(g, gamma), gamma))
  }

  ghost function VerifierValue(stmts: seq<SparseStatement>, y: seq<Fe>, g: Fe, gamma: Fe): Fe
    requires forall i {:trigger stmts[i]} | 0 <= i < |stmts| :: stmts[i].total == |y| && |stmts[i].point| <= |y|
    decreases |stmts|
  {
    if stmts == [] then 0
    else
      var s := stmts[0];
      Add(EvalClaims(s.values, SelectorVars(s), CommonWeight(s, y), y, g, gamma),
          VerifierValue(stmts[1..], y, Mul(g, Pow(gamma, |s.values|)), gamma))
  }

  ghost function VerifierSum(stmts: seq<SparseStatement>, g: Fe, gamma: Fe): Fe
    decreases |stmts|
  {
    if stmts == [] then 0
    else Add(SumClaims(stmts[0].values, g, gamma), VerifierSum(stmts[1..], Mul(g, Pow(gamma, |stmts[0].values|)), gamma))
  }

  // ----- agreement

  lemma InnerVecEvaluates(s: SparseStatement, y: seq<Fe>)
    requires |s.point| <= |y|
    ensures Mle(InnerVec(s), y[|y| - |s.point|..]) == CommonWeight(s, y)
  {
    var inner := y[|y| - |s.point|..];
    if s.isNext {
      FoldedEvaluates(s.point, inner);
    } else {
      MleEqVec(s.point, 1, inner);
      MulOne(Eq(s.point, inner));
    }
  }

  lemma {:induction false} MleAddClaims(w: seq<Fe>, values: seq<SparseValue>, vec: seq<Fe>, g: Fe, gamma: Fe, s: nat, y: seq<Fe>)
    requires |w| == Pow2(|y|) && s <= |y| && |vec| == Pow2(|y| - s)
    requires forall i {:trigger values[i]} | 0 <= i < |values| :: values[i].selector < Pow2(s)
    requires forall i {:trigger values[i]} | 0 <= i < |values| :: values[i].selector * |vec| + |vec| <= |w|
    ensures Mle(AddClaims(w, values, vec, g, gamma), y)
         == Add(Mle(w, y), EvalClaims(values, s, Mle(vec, y[s..]), y, g, gamma))
    decreases |values|
  {
    var m := Mle(vec, y[s..]);
    if values == [] {
      AddZero(Mle(w, y));
    } else {
      var sel := values[0].selector;
      var sc := Scaled(g, vec);
      MleAddVec(w, sel, s, sc, y);
      MleScaled(g, vec, sc, y[s..]);
      var w1 := AddVec(w, sel * |vec|, sc);
      MleAddClaims(w1, values[1..], vec, Mul(g, gamma), gamma, s, y);
      var e := Eq(Bits(sel, s), y[..s]);
      MulComm(g, m);
      MulAssoc(e, m, g);
      AddAssoc(Mle(w, y), Mul(Mul(e, m), g), EvalClaims(values[1..], s, m, y, Mul(g, gamma), gamma));
    }
  }

  /**
   An empty statement of the dense branch moves gamma on, so the two sides agree when no such
   statement stands before a claim.
   */
  ghost predicate Aligned(stmts: seq<SparseStatement>, logPacking: nat)
    decreases |stmts|
  {
    stmts == []
    || ((Advance(stmts[0], logPacking) == |stmts[0].values| || ClaimCount(stmts[1..]) == 0) && Aligned(stmts[1..], logPacking))
  }

  function ClaimCount(stmts: seq<SparseStatement>): nat {
    if stmts == [] then 0 else |stmts[0].values| + ClaimCount(stmts[1..])
  }

  lemma {:induction false} NoClaims(stmts: seq<SparseStatement>, n: nat, logPacking: nat, w: seq<Fe>, y: seq<Fe>, g: Fe, h: Fe, gamma: Fe)
    requires |w| == Pow2(n) && |y| == n && AllWellFormed(stmts, n, logPacking) && ClaimCount(stmts) == 0
    ensures ProverWeights(w, stmts, n, logPacking, g, gamma) == w
    ensures VerifierValue(stmts, y, h, gamma) == 0
    ensures ProverSum(stmts, logPacking, g, gamma) == VerifierSum(stmts, h, gamma) == 0
    decreases |stmts|
  {
    AddZero(0);
    if stmts != [] {
      NoClaims(stmts[1..], n, logPacking, w, y, Mul(g, Pow(gamma, Advance(stmts[0], logPacking))),
               Mul(h, Pow(gamma, |stmts[0].values|)), gamma);
    }
  }

  /** The prover's weight polynomial is the verifier's closed form at every point, and the sums agree. */
  lemma {:induction false} CombinationAgrees(w: seq<Fe>, stmts: seq<SparseStatement>, n: nat, logPacking: nat, g: Fe, gamma: Fe, y: seq<Fe>)
    requires |w| == Pow2(n) && |y| == n && AllWellFormed(stmts, n, logPacking) && Aligned(stmts, logPacking)
    ensures Mle(ProverWeights(w, stmts, n, logPacking, g, gamma), y) == Add(Mle(w, y), VerifierValue(stmts, y, g, gamma))
    ensures ProverSum(stmts, logPacking, g, gamma) == VerifierSum(stmts, g, gamma)
    decreases |stmts|
  {
    if stmts == [] {
      AddZero(Mle(w, y));
    } else {
      var s := stmts[0];
      var v := |s.point|;
      forall i | 0 <= i < |s.values|
        ensures s.values[i].selector * Pow2(v) + Pow2(v) <= |w|
      {
        SelectorFits(s, n, logPacking, i);
      }
      var w1 := AddClaims(w, s.values, InnerVec(s), g, gamma);
      MleAddClaims(w, s.values, InnerVec(s), g, gamma, n - v, y);
      InnerVecEvaluates(s, y);
      var g1 := Mul(g, Pow(gamma, |s.values|));
      var here := EvalClaims(s.values, n - v, CommonWeight(s, y), y, g, gamma);
      if Advance(s, logPacking) == |s.values| {
        CombinationAgrees(w1, stmts[1..], n, logPacking, g1, gamma, y);
      } else {
        NoClaims(stmts[1..], n, logPacking, w1, y, Mul(g, Pow(gamma, 1)), g1, gamma);
        AddZero(Add(Mle(w, y), here));
      }
      AddAssoc(Mle(w, y), here, VerifierValue(stmts[1..], y, g1, gamma));
    }
  }

  // ----- when exactly the powers of gamma agree

  ghost function Exponents(from: nat, count: nat): (e: seq<nat>)
    ensures |e| == count
  {
    seq(count, i requires 0 <= i => from + i)
  }

  /** The exponent of gamma that the prover gives to each claim. */
  ghost function ProverExponents(stmts: seq<SparseStatement>, logPacking: nat, e: nat): (r: seq<nat>)
    ensures |r| == ClaimCount(stmts)
    decreases |stmts|
  {
    if stmts == [] then []
    else Exponents(e, |stmts[0].values|) + ProverExponents(stmts[1..], logPacking, e + Advance(stmts[0], logPacking))
  }

  /** The verifier simply counts claims. */
  lemma {:induction false} ProverExponentsAtLeast(stmts: seq<SparseStatement>, logPacking: nat, e: nat)
    ensures forall i {:trigger ProverExponents(stmts, logPacking, e)[i]} | 0 <= i < ClaimCount(stmts) ::
              ProverExponents(stmts, logPacking, e)[i] >= e + i
    decreases |stmts|
  {
    if stmts != [] {
      ProverExponentsAtLeast(stmts[1..], logPacking, e + Advance(stmts[0], logPacking));
    }
  }

  /** The two sides use the same powers if and only if the statements are aligned. */
  lemma {:induction false} AlignedIffSameExponents(stmts: seq<SparseStatement>, logPacking: nat, e: nat)
    ensures ProverExponents(stmts, logPacking, e) == Exponents(e, ClaimCount(stmts)) <==> Aligned(stmts, logPacking)
    decreases |stmts|
  {
    if stmts != [] {
      var k, a := |stmts[0].values|, Advance(stmts[0], logPacking);
      var count := ClaimCount(stmts[1..]);
      var rest := ProverExponents(stmts[1..], logPacking, e + a);
      AlignedIffSameExponents(stmts[1..], logPacking, e + a);
      ExponentsSplit(e, k, count);
      SamePrefix(Exponents(e, k), rest, Exponents(e + k, count));
      if a != k && count > 0 {
        ProverExponentsAtLeast(stmts[1..], logPacking, e + a);
        assert rest[0] > Exponents(e + k, count)[0];
      }
    }
  }

  lemma ExponentsSplit(e: nat, k: nat, count: nat)
    ensures Exponents(e, k + count) == Exponents(e, k) + Exponents(e + k, count)
  {
  }

  lemma SamePrefix(p: seq<nat>, u: seq<nat>, v: seq<nat>)
    ensures p + u == p + v <==> u == v
  {
    assert (p + u)[|p|..] == u && (p + v)[|p|..] == v;
  }

  /** The disagreement is real: an empty dense statement before a claim changes the prover's sum. */
  lemma EmptyStatementDisagrees()
    ensures var stmts := [SparseStatement(0, [], [], false), SparseStatement(0, [], [SparseValue(0, 1)], false)];
            && AllWellFormed(stmts, 0, 0)
            && !Aligned(stmts, 0)
            && ProverSum(stmts, 0, 1, 2) == 2
            && VerifierSum(stmts, 1, 2) == 1
  {
    var empty, claim := SparseStatement(0, [], [], false), SparseStatement(0, [], [SparseValue(0, 1)], false);
    var stmts := [empty, claim];
    assert stmts[1..] == [claim] && [claim][1..] == [];
    assert claim.values[1..] == [];
    assert Pow(2, 1) == Mul(2, Pow(2, 0)) && Pow(2, 0) == 1;
    MulOne(2);
    MulOne(1);
    AddZero(1);
    AddZero(2);
    assert SumClaims(claim.values, 2, 2) == Add(Mul(2, 1), SumClaims(claim.values[1..], Mul(2, 2), 2));
    assert SumClaims(claim.values, 1, 2) == Add(Mul(1, 1), SumClaims(claim.values[1..], Mul(1, 2), 2));
    assert ProverSum([claim], 0, 2, 2) == Add(SumClaims(claim.values, 2, 2), ProverSum([], 0, Mul(2, Pow(2, 1)), 2));
    assert VerifierSum([claim], 1, 2) == Add(SumClaims(claim.values, 1, 2), VerifierSum([], Mul(1, Pow(2, 1)), 2));
  }

  // ----- the order of the blocks does not matter

  ghost function AddAt(w: seq<Fe>, starts: seq<nat>, powers: seq<Fe>, vec: seq<Fe>): (r: seq<Fe>)
    requires |starts| == |powers|
    requires forall i {:trigger starts[i]} | 0 <= i < |starts| :: starts[i] + |vec| <= |w|
    ensures |r| == |w|
    decreases |starts|
  {
    if starts == [] then w
    else AddAt(AddVec(w, starts[0], Scaled(powers[0], vec)), starts[1..], powers[1..], vec)
  }

  ghost predicate Disjoint(starts: seq<nat>, size: nat) {
    forall i, j {:trigger starts[i], starts[j]} | 0 <= i < |starts| && 0 <= j < |starts| && i != j ::
      starts[i] + size <= starts[j] || starts[j] + size <= starts[i]
  }

  ghost predicate Covered(x: int, starts: seq<nat>, size: nat) {
    exists i {:trigger starts[i]} :: 0 <= i < |starts| && starts[i] <= x < starts[i] + size
  }

  /** r is w with `powers[i] * vec` added to the block at `starts[i]`, for every i. */
  ghost predicate AddedAt(w: seq<Fe>, r: seq<Fe>, starts: seq<nat>, powers: seq<Fe>, vec: seq<Fe>)
    requires |starts| == |powers|
  {
    && |r| == |w|
    && (forall i {:trigger starts[i]} | 0 <= i < |starts| :: starts[i] + |vec| <= |w|)
    && (forall i, x {:trigger starts[i], r[x]} | 0 <= i < |starts| && starts[i] <= x < starts[i] + |vec| ::
          r[x] == Add(w[x], Mul(powers[i], vec[x - starts[i]])))
    && (forall x {:trigger r[x]} | 0 <= x < |w| && !Covered(x, starts, |vec|) :: r[x] == w[x])
  }

  lemma {:induction false} AddAtIsAddedAt(w: seq<Fe>, starts: seq<nat>, powers: seq<Fe>, vec: seq<Fe>)
    requires |starts| == |powers| && Disjoint(starts, |vec|)
    requires forall i {:trigger starts[i]} | 0 <= i < |starts| :: starts[i] + |vec| <= |w|
    ensures AddedAt(w, AddAt(w, starts, powers, vec), starts, powers, vec)
    decreases |starts|
  {
    if starts != [] {
      var w1 := AddVec(w, starts[0], Scaled(powers[0], vec));
      var rest, pr := starts[1..], powers[1..];
      assert Disjoint(rest, |vec|) by {
        forall i, j {:trigger rest[i], rest[j]} | 0 <= i < |rest| && 0 <= j < |rest| && i != j
          ensures rest[i] + |vec| <= rest[j] || rest[j] + |vec| <= rest[i]
        {
          assert rest[i] == starts[i + 1] && rest[j] == starts[j + 1];
        }
      }
      AddAtIsAddedAt(w1, rest, pr, vec);
      AddedAtCons(w, w1, AddAt(w1, rest, pr, vec), starts, powers, vec);
    }
  }

  lemma CoveredCons(x: int, starts: seq<nat>, size: nat)
    requires starts != []
    ensures Covered(x, starts, size) <==> starts[0] <= x < starts[0] + size || Covered(x, starts[1..], size)
  {
    var rest := starts[1..];
    if Covered(x, rest, size) {
      var j :| 0 <= j < |rest| && rest[j] <= x < rest[j] + size;
      assert rest[j] == starts[j + 1];
    }
    if Covered(x, starts, size) {
      var i :| 0 <= i < |starts| && starts[i] <= x < starts[i] + size;
      assert i > 0 ==> rest[i - 1] == starts[i];
    }
  }

  lemma NotCoveredTwice(x: int, starts: seq<nat>, size: nat)
    requires starts != [] && Disjoint(starts, size) && starts[0] <= x < starts[0] + size
    ensures !Covered(x, starts[1..], size)
  {
    var rest := starts[1..];
    forall j {:trigger rest[j]} | 0 <= j < |rest|
      ensures !(rest[j] <= x < rest[j] + size)
    {
      assert rest[j] == starts[j + 1];
    }
  }

  lemma AddedAtCons(w: seq<Fe>, w1: seq<Fe>, r: seq<Fe>, starts: seq<nat>, powers: seq<Fe>, vec: seq<Fe>)
    requires |starts| == |powers| > 0 && Disjoint(starts, |vec|) && |w1| == |w|
    requires forall i {:trigger starts[i]} | 0 <= i < |starts| :: starts[i] + |vec| <= |w|
    requires w1 == AddVec(w, starts[0], Scaled(powers[0], vec))
    requires AddedAt(w1, r, starts[1..], powers[1..], vec)
    ensures AddedAt(w, r, starts, powers, vec)
  {
    hide Covered;
    var rest := starts[1..];
    forall i, x {:trigger starts[i], r[x]} | 0 <= i < |starts| && starts[i] <= x < starts[i] + |vec|
      ensures r[x] == Add(w[x], Mul(powers[i], vec[x - starts[i]]))
    {
      if i == 0 {
        NotCoveredTwice(x, starts, |vec|);
        assert r[x] == w1[x];
      } else {
        assert rest[i - 1] == starts[i];
        assert r[x] == Add(w1[x], Mul(powers[1..][i - 1], vec[x - rest[i - 1]]));
        assert starts[0] + |vec| <= starts[i] || starts[i] + |vec| <= starts[0];
      }
    }
    forall x {:trigger r[x]} | 0 <= x < |w| && !Covered(x, starts, |vec|)
      ensures r[x] == w[x]
    {
      CoveredCons(x, starts, |vec|);
    }
  }

  /** Two buffers with the same additions are equal, in whatever order the blocks were listed. */
  lemma SameAdditions(w: seq<Fe>, r: seq<Fe>, q: seq<Fe>, starts: seq<nat>, powers: seq<Fe>, vec: seq<Fe>,
                      order: seq<nat>, ordStarts: seq<nat>, ordPowers: seq<Fe>)
    requires |starts| == |powers| && AddedAt(w, r, starts, powers, vec)
    requires |ordStarts| == |ordPowers| == |order| && AddedAt(w, q, ordStarts, ordPowers, vec)
    requires forall k {:trigger order[k]} | 0 <= k < |order| ::
               order[k] < |starts| && ordStarts[k] == starts[order[k]] && ordPowers[k] == powers[order[k]]
    requires forall i | 0 <= i < |starts| :: i in order
    ensures r == q
  {
    forall x | 0 <= x < |w|
      ensures r[x] == q[x]
    {
      if Covered(x, starts, |vec|) {
        var i :| 0 <= i < |starts| && starts[i] <= x < starts[i] + |vec|;
        assert i in order;
        var k :| 0 <= k < |order| && order[k] == i;
        assert ordStarts[k] <= x < ordStarts[k] + |vec|;
      } else {
        forall k {:trigger ordStarts[k]} | 0 <= k < |ordStarts|
          ensures !(ordStarts[k] <= x < ordStarts[k] + |vec|)
        {
          assert starts[order[k]] == ordStarts[k];
        }
      }
    }
  }

  // ----- combine_statement

  ghost function Zeros(n: nat): (z: seq<Fe>)
    ensures |z| == n && forall i {:trigger z[i]} | 0 <= i < n :: z[i] == 0
  {
    seq(n, _ => 0)
  }

  ghost predicate SortedBySelector(values: seq<SparseValue>, order: seq<nat>, n: nat) {
    && n <= |values|
    && (forall k {:trigger order[k]} | 0 <= k < |order| :: order[k] < n)
    && (forall j, k {:trigger order[j], order[k]} | 0 <= j < k < |order| && order[k] < n && order[j] < n ::
          values[order[j]].selector < values[order[k]].selector)
  }

  /** `sort_by_key(selector)` on the indices of the claims. */
  method SortBySelector(values: seq<SparseValue>) returns (order: seq<nat>)
    requires DistinctSelectors(values)
    ensures |order| == |values|
    ensures SortedBySelector(values, order, |values|)
    ensures forall i | 0 <= i < |values| :: i in order
  {
    hide DistinctSelectors;
    order := [];
    for i := 0 to |values|
      invariant |order| == i && SortedBySelector(values, order, i)
      invariant forall j | 0 <= j < i :: j in order
    {
      var at := i;
      while at > 0 && values[order[at - 1]].selector > values[i].selector
        invariant 0 <= at <= i
        invariant forall k {:trigger order[k]} | at <= k < i :: values[i].selector < values[order[k]].selector
      {
        at := at - 1;
      }
      ghost var before := order;
      order := order[..at] + [i] + order[at..];
      InsertMembers(before, order, at, i);
      InsertSorted(values, before, order, at, i);
    }
  }

  lemma InsertSorted(values: seq<SparseValue>, before: seq<nat>, now: seq<nat>, at: nat, i: nat)
    requires DistinctSelectors(values) && i < |values| && SortedBySelector(values, before, i)
    requires at <= |before| && now == before[..at] + [i] + before[at..]
    requires forall k {:trigger before[k]} | at <= k < |before| :: values[i].selector < values[before[k]].selector
    requires at > 0 ==> values[before[at - 1]].selector <= values[i].selector
    ensures SortedBySelector(values, now, i + 1)
  {
    forall k {:trigger before[k]} | 0 <= k < at
      ensures values[before[k]].selector < values[i].selector
    {
      assert values[before[k]].selector != values[i].selector;
      assert k < at - 1 ==> values[before[k]].selector < values[before[at - 1]].selector;
    }
    forall j, k {:trigger now[j], now[k]} | 0 <= j < k < |now|
      ensures values[now[j]].selector < values[now[k]].selector
    {
      var jj, kk := if j < at then j else j - 1, if k < at then k else k - 1;
      if j == at {
        assert now[k] == before[kk];
      } else if k == at {
        assert now[j] == before[jj];
      } else {
        assert now[j] == before[jj] && now[k] == before[kk];
      }
    }
  }

  lemma InsertMembers(before: seq<nat>, now: seq<nat>, at: nat, x: nat)
    requires at <= |before| && now == before[..at] + [x] + before[at..]
    ensures x in now && forall j | j in before :: j in now
  {
    assert now[at] == x;
    forall j | j in before
      ensures j in now
    {
      var k :| 0 <= k < |before| && before[k] == j;
      assert now[if k < at then k else k + 1] == j;
    }
  }

  /** Adds `c * vec` to the block of the buffer that starts at `start`. */
  method AddToBlock(w: array<Fe>, start: nat, vec: seq<Fe>, c: Fe)
    requires start + |vec| <= w.Length
    modifies w
    ensures w[..] == AddVec(old(w[..]), start, Scaled(c, vec))
  {
    ghost var was := w[..];
    for i := 0 to |vec|
      invariant forall x {:trigger w[x]} | 0 <= x < w.Length ::
                  w[x] == if start <= x < start + i then Add(was[x], Mul(c, vec[x - start])) else was[x]
    {
      w[start + i] := Add(w[start + i], Mul(c, vec[i]));
    }
  }

  ghost function Powers(g: Fe, gamma: Fe, n: nat): (p: seq<Fe>)
    ensures |p| == n
    decreases n
  {
    if n == 0 then [] else [g] + Powers(Mul(g, gamma), gamma, n - 1)
  }

  lemma {:induction false} PowersSnoc(g: Fe, gamma: Fe, n: nat)
    ensures Powers(g, gamma, n + 1) == Powers(g, gamma, n) + [Mul(g, Pow(gamma, n))]
    decreases n
  {
    if n == 0 {
      MulOne(g);
      assert Powers(g, gamma, 1) == [g] + Powers(Mul(g, gamma), gamma, 0);
    } else {
      PowersSnoc(Mul(g, gamma), gamma, n - 1);
      MulAssoc(g, gamma, Pow(gamma, n - 1));
    }
  }

  ghost function Starts(values: seq<SparseValue>, size: nat): (r: seq<nat>)
    ensures |r| == |values|
    ensures forall i {:trigger r[i]} | 0 <= i < |r| :: r[i] == values[i].selector * size
  {
    seq(|values|, i requires 0 <= i < |values| => values[i].selector * size)
  }

  lemma {:induction false} AddClaimsIsAddAt(w: seq<Fe>, values: seq<SparseValue>, vec: seq<Fe>, g: Fe, gamma: Fe)
    requires forall i {:trigger values[i]} | 0 <= i < |values| :: values[i].selector * |vec| + |vec| <= |w|
    ensures AddClaims(w, values, vec, g, gamma) == AddAt(w, Starts(values, |vec|), Powers(g, gamma, |values|), vec)
    decreases |values|
  {
    if values != [] {
      var starts, powers := Starts(values, |vec|), Powers(g, gamma, |values|);
      assert starts[1..] == Starts(values[1..], |vec|);
      assert powers[1..] == Powers(Mul(g, gamma), gamma, |values| - 1);
      assert starts[0] == values[0].selector * |vec|;
      AddClaimsIsAddAt(AddVec(w, starts[0], Scaled(g, vec)), values[1..], vec, Mul(g, gamma), gamma);
    }
  }

  lemma StartsDisjoint(values: seq<SparseValue>, size: nat)
    requires DistinctSelectors(values)
    ensures Disjoint(Starts(values, size), size)
  {
    var starts := Starts(values, size);
    forall i, j {:trigger starts[i], starts[j]} | 0 <= i < |starts| && 0 <= j < |starts| && i != j
      ensures starts[i] + size <= starts[j] || starts[j] + size <= starts[i]
    {
      var a, b := values[i].selector, values[j].selector;
      if i < j {
        assert a != b;
      } else {
        assert values[j].selector != values[i].selector;
      }
      if a < b {
        MulMonotone(a + 1, b, size);
      } else {
        MulMonotone(b + 1, a, size);
      }
    }
  }

  /** The dense branch: blocks are visited in selector order, powers are taken in listed order. */
  method AddDenseClaims(weights: array<Fe>, values: seq<SparseValue>, vec: seq<Fe>, powers: seq<Fe>)
    requires DistinctSelectors(values) && |powers| == |values|
    requires forall i {:trigger values[i]} | 0 <= i < |values| :: values[i].selector * |vec| + |vec| <= weights.Length
    modifies weights
    ensures weights[..] == AddAt(old(weights[..]), Starts(values, |vec|), powers, vec)
  {
    hide AddAt;
    ghost var was := weights[..];
    var order := SortBySelector(values);
    ghost var starts := Starts(values, |vec|);
    ghost var doneStarts: seq<nat> := [];
    ghost var donePowers: seq<Fe> := [];
    StartsDisjoint(values, |vec|);
    for t := 0 to |order|
      invariant |doneStarts| == |donePowers| == t
      invariant forall k {:trigger order[k]} | 0 <= k < t :: doneStarts[k] == starts[order[k]] && donePowers[k] == powers[order[k]]
      invariant AddedAt(was, weights[..], doneStarts, donePowers, vec)
    {
      var e := values[order[t]];
      ghost var before := weights[..];
      assert starts[order[t]] == e.selector * |vec|;
      OrderDisjoint(values, starts, order, doneStarts, t, |vec|);
      AddToBlock(weights, e.selector * |vec|, vec, powers[order[t]]);
      AddedAtSnoc(was, before, weights[..], doneStarts, donePowers, vec, starts[order[t]], powers[order[t]]);
      doneStarts := doneStarts + [starts[order[t]]];
      donePowers := donePowers + [powers[order[t]]];
    }
    AddAtIsAddedAt(was, starts, powers, vec);
    SameAdditions(was, AddAt(was, starts, powers, vec), weights[..], starts, powers, vec, order, doneStarts, donePowers);
  }

  lemma OrderDisjoint(values: seq<SparseValue>, starts: seq<nat>, order: seq<nat>, done: seq<nat>, t: nat, size: nat)
    requires starts == Starts(values, size) && Disjoint(starts, size)
    requires t < |order| && |done| == t
    requires SortedBySelector(values, order, |values|)
    requires forall k {:trigger order[k]} | 0 <= k < t :: done[k] == starts[order[k]]
    ensures forall x {:trigger Covered(x, done, size)} | starts[order[t]] <= x < starts[order[t]] + size :: !Covered(x, done, size)
  {
    forall x | starts[order[t]] <= x < starts[order[t]] + size
      ensures !Covered(x, done, size)
    {
      forall k {:trigger done[k]} | 0 <= k < t
        ensures !(done[k] <= x < done[k] + size)
      {
        assert values[order[k]].selector < values[order[t]].selector;
        assert starts[order[k]] + size <= starts[order[t]] || starts[order[t]] + size <= starts[order[k]];
      }
    }
  }

  lemma CoveredSnoc(x: int, starts: seq<nat>, s: nat, size: nat)
    ensures Covered(x, starts + [s], size) <==> Covered(x, starts, size) || s <= x < s + size
  {
    var all := starts + [s];
    if Covered(x, starts, size) {
      var i :| 0 <= i < |starts| && starts[i] <= x < starts[i] + size;
      assert all[i] == starts[i];
    }
    assert all[|starts|] == s;
    if Covered(x, all, size) {
      var i :| 0 <= i < |all| && all[i] <= x < all[i] + size;
      assert i < |starts| ==> starts[i] == all[i];
    }
  }

  lemma AddedAtSnoc(w: seq<Fe>, before: seq<Fe>, now: seq<Fe>, starts: seq<nat>, powers: seq<Fe>, vec: seq<Fe>, s: nat, c: Fe)
    requires |starts| == |powers| && AddedAt(w, before, starts, powers, vec)
    requires s + |vec| <= |w| && now == AddVec(before, s, Scaled(c, vec))
    requires forall x {:trigger Covered(x, starts, |vec|)} | s <= x < s + |vec| :: !Covered(x, starts, |vec|)
    ensures AddedAt(w, now, starts + [s], powers + [c], vec)
  {
    var all, allPowers := starts + [s], powers + [c];
    forall i, x {:trigger all[i], now[x]} | 0 <= i < |all| && all[i] <= x < all[i] + |vec|
      ensures now[x] == Add(w[x], Mul(allPowers[i], vec[x - all[i]]))
    {
      if i < |starts| {
        assert starts[i] == all[i];
        assert Covered(x, starts, |vec|);
        assert before[x] == Add(w[x], Mul(powers[i], vec[x - starts[i]]));
      } else {
        assert !Covered(x, starts, |vec|);
        assert before[x] == w[x];
      }
    }
    forall x {:trigger now[x]} | 0 <= x < |w| && !Covered(x, all, |vec|)
      ensures now[x] == w[x]
    {
      CoveredSnoc(x, starts, s, |vec|);
      assert before[x] == w[x];
    }
  }

  lemma EqVecAsScaled(point: seq<Fe>, g: Fe)
    ensures EqVec(point, g) == Scaled(g, EqVec(point, 1))
  {
    EqVecScaled(point, g, 1);
    MulOne(g);
  }

  lemma NextPower(g: Fe, gamma: Fe, k: nat)
    ensures Mul(Mul(g, Pow(gamma, k)), gamma) == Mul(g, Pow(gamma, k + 1))
  {
    MulAssoc(g, Pow(gamma, k), gamma);
    MulComm(Pow(gamma, k), gamma);
  }

  lemma {:induction false} SumClaimsSnoc(values: seq<SparseValue>, k: nat, g: Fe, gamma: Fe)
    requires k < |values|
    ensures SumClaims(values[..k + 1], g, gamma)
         == Add(SumClaims(values[..k], g, gamma), Mul(Mul(g, Pow(gamma, k)), values[k].value))
    decreases k
  {
    var here := values[..k + 1];
    if k == 0 {
      assert here[1..] == [];
      MulOne(g);
      AddZero(Mul(g, values[0].value));
    } else {
      assert here[1..] == values[1..][..k] && values[..k][1..] == values[1..][..k - 1];
      SumClaimsSnoc(values[1..], k - 1, Mul(g, gamma), gamma);
      MulAssoc(g, gamma, Pow(gamma, k - 1));
      AddAssoc(Mul(g, values[0].value), SumClaims(values[1..][..k - 1], Mul(g, gamma), gamma),
               Mul(Mul(g, Pow(gamma, k)), values[k].value));
    }
  }

  lemma {:induction false} AddClaimsSnoc(w: seq<Fe>, values: seq<SparseValue>, k: nat, vec: seq<Fe>, g: Fe, gamma: Fe)
    requires k < |values|
    requires forall i {:trigger values[i]} | 0 <= i < |values| :: values[i].selector * |vec| + |vec| <= |w|
    ensures AddClaims(w, values[..k + 1], vec, g, gamma)
         == AddVec(AddClaims(w, values[..k], vec, g, gamma), values[k].selector * |vec|, Scaled(Mul(g, Pow(gamma, k)), vec))
    decreases k
  {
    hide AddVec, Scaled;
    var here := values[..k + 1];
    if k == 0 {
      assert here[1..] == [];
      MulOne(g);
    } else {
      assert here[1..] == values[1..][..k] && values[..k][1..] == values[1..][..k - 1];
      AddClaimsSnoc(AddVec(w, values[0].selector * |vec|, Scaled(g, vec)), values[1..], k - 1, vec, Mul(g, gamma), gamma);
      MulAssoc(g, gamma, Pow(gamma, k - 1));
    }
  }

  /** The sparse branch: compute_sparse_eval_eq_packed for every claim. */
  method AddSparseClaims(weights: array<Fe>, s: SparseStatement, g: Fe, gamma: Fe, sum0: Fe, ghost n: nat, ghost logPacking: nat)
    returns (sum: Fe, gammaPow: Fe)
    requires !s.isNext && WellFormed(s, n, logPacking) && weights.Length == Pow2(n)
    modifies weights
    ensures forall i {:trigger s.values[i]} | 0 <= i < |s.values| :: s.values[i].selector * Pow2(|s.point|) + Pow2(|s.point|) <= weights.Length
    ensures weights[..] == AddClaims(old(weights[..]), s.values, EqVec(s.point, 1), g, gamma)
    ensures sum == Add(sum0, SumClaims(s.values, g, gamma))
    ensures gammaPow == Mul(g, Pow(gamma, |s.values|))
  {
    hide AddClaims, AddVec, Scaled, WellFormed, SumClaims;
    forall i {:trigger s.values[i]} | 0 <= i < |s.values|
      ensures s.values[i].selector * Pow2(|s.point|) + Pow2(|s.point|) <= weights.Length
    {
      SelectorFits(s, n, logPacking, i);
    }
    ghost var was := weights[..];
    ghost var vec := EqVec(s.point, 1);
    var values := s.values;
    sum, gammaPow := sum0, g;
    NoClaimsYet(was, vec, g, gamma);
    MulOne(g);
    AddZero(sum0);
    assert values[..0] == [];
    for k := 0 to |values|
      invariant weights[..] == AddClaims(was, values[..k], vec, g, gamma)
      invariant sum == Add(sum0, SumClaims(values[..k], g, gamma))
      invariant gammaPow == Mul(g, Pow(gamma, k))
    {
      var e := values[k];
      AddClaimsSnoc(was, values, k, vec, g, gamma);
      SumClaimsSnoc(values, k, g, gamma);
      EqVecAsScaled(s.point, gammaPow);
      AddEqToBlock(weights, e.selector * Pow2(|s.point|), s.point, gammaPow);
      MulComm(e.value, gammaPow);
      AddAssoc(sum0, SumClaims(values[..k], g, gamma), Mul(gammaPow, e.value));
      sum := Add(sum, Mul(e.value, gammaPow));
      NextPower(g, gamma, k);
      gammaPow := Mul(gammaPow, gamma);
    }
    assert values[..|values|] == values;
  }

  lemma NoClaimsYet(w: seq<Fe>, vec: seq<Fe>, g: Fe, gamma: Fe)
    ensures AddClaims(w, [], vec, g, gamma) == w && SumClaims([], g, gamma) == 0
  {
  }

  /** compute_eval_eq on one block: the two halves are filled recursively. */
  method AddEqToBlock(w: array<Fe>, start: nat, point: seq<Fe>, scalar: Fe)
    requires start + Pow2(|point|) <= w.Length
    modifies w
    ensures w[..] == AddVec(old(w[..]), start, EqVec(point, scalar))
    decreases |point|
  {
    ghost var was := w[..];
    if point == [] {
      w[start] := Add(w[start], scalar);
      assert w[..] == AddVec(was, start, [scalar]);
    } else {
      var half := Pow2(|point| - 1);
      var s1 := Mul(scalar, point[0]);
      var s0 := Sub(scalar, s1);
      AddEqToBlock(w, start, point[1..], s0);
      AddEqToBlock(w, start + half, point[1..], s1);
      assert w[..] == AddVec(was, start, EqVec(point[1..], s0) + EqVec(point[1..], s1));
    }
  }

  /** The list of powers for the dense branch: at least one entry, even without claims. */
  method GammaPowers(g: Fe, gamma: Fe, count: nat) returns (powers: seq<Fe>)
    ensures powers == Powers(g, gamma, if count == 0 then 1 else count)
  {
    var n := if count == 0 then 1 else count;
    powers := [g];
    MulOne(g);
    assert Powers(g, gamma, 1) == [g] + Powers(Mul(g, gamma), gamma, 0);
    for k := 1 to n
      invariant powers == Powers(g, gamma, k) && powers[k - 1] == Mul(g, Pow(gamma, k - 1))
    {
      PowersSnoc(g, gamma, k);
      NextPower(g, gamma, k - 1);
      powers := powers + [Mul(powers[k - 1], gamma)];
    }
  }

  method SumInListedOrder(values: seq<SparseValue>, powers: seq<Fe>, sum0: Fe, ghost g: Fe, ghost gamma: Fe) returns (sum: Fe)
    requires powers == Powers(g, gamma, |values|)
    ensures sum == Add(sum0, SumClaims(values, g, gamma))
  {
    hide SumClaims;
    sum := sum0;
    NoClaimsYet([], [], g, gamma);
    AddZero(sum0);
    assert values[..0] == [];
    for k := 0 to |values|
      invariant sum == Add(sum0, SumClaims(values[..k], g, gamma))
    {
      SumClaimsSnoc(values, k, g, gamma);
      PowersAt(g, gamma, |values|, k);
      MulComm(values[k].value, powers[k]);
      AddAssoc(sum0, SumClaims(values[..k], g, gamma), Mul(powers[k], values[k].value));
      sum := Add(sum, Mul(values[k].value, powers[k]));
    }
    assert values[..|values|] == values;
  }

  /** The dense branch of combine_statement. */
  method AddDenseStatement(weights: array<Fe>, s: SparseStatement, g: Fe, gamma: Fe, sum0: Fe, ghost n: nat, ghost logPacking: nat)
    returns (sum: Fe, gammaPow: Fe)
    requires WellFormed(s, n, logPacking) && !TakesSparseBranch(s, logPacking) && weights.Length == Pow2(n)
    modifies weights
    ensures forall i {:trigger s.values[i]} | 0 <= i < |s.values| :: s.values[i].selector * Pow2(|s.point|) + Pow2(|s.point|) <= weights.Length
    ensures weights[..] == AddClaims(old(weights[..]), s.values, InnerVec(s), g, gamma)
    ensures sum == Add(sum0, SumClaims(s.values, g, gamma))
    ensures gammaPow == Mul(g, Pow(gamma, Advance(s, logPacking)))
  {
    hide AddClaims, SumClaims, AddAt, Powers, Folded, EqVec;
    forall i {:trigger s.values[i]} | 0 <= i < |s.values|
      ensures s.values[i].selector * Pow2(|s.point|) + Pow2(|s.point|) <= weights.Length
    {
      SelectorFits(s, n, logPacking, i);
    }
    var values := s.values;
    var inner := InnerVector(s);
    var powers := GammaPowers(g, gamma, |values|);
    var last := |powers| - 1;
    PowersAt(g, gamma, |powers|, last);
    NextPower(g, gamma, last);
    gammaPow := Mul(powers[last], gamma);
    PowersPrefix(g, gamma, |powers|, |values|);
    sum := SumInListedOrder(values, powers[..|values|], sum0, g, gamma);
    AddClaimsIsAddAt(weights[..], values, inner, g, gamma);
    AddDenseClaims(weights, values, inner, powers[..|values|]);
  }

  method InnerVector(s: SparseStatement) returns (v: seq<Fe>)
    ensures v == InnerVec(s)
  {
    if s.isNext {
      var next := MatrixNextMleFolded(s.point);
      v := next[..];
    } else {
      v := EqVec(s.point, 1);
    }
  }

  lemma PowersPrefix(g: Fe, gamma: Fe, n: nat, k: nat)
    requires k <= n <= k + 1
    ensures Powers(g, gamma, n)[..k] == Powers(g, gamma, k)
  {
    if k < n {
      PowersSnoc(g, gamma, k);
    }
  }

  lemma {:induction false} PowersAt(g: Fe, gamma: Fe, n: nat, k: nat)
    requires k < n
    ensures Powers(g, gamma, n)[k] == Mul(g, Pow(gamma, k))
    decreases k
  {
    MulOne(g);
    if k > 0 {
      PowersAt(Mul(g, gamma), gamma, n - 1, k - 1);
      MulAssoc(g, gamma, Pow(gamma, k - 1));
    }
  }

  /** combine_statement. */
  method CombineStatement(stmts: seq<SparseStatement>, gamma: Fe, n: nat, logPacking: nat) returns (weights: array<Fe>, sum: Fe)
    requires stmts != [] && AllWellFormed(stmts, n, logPacking)
    ensures fresh(weights) && weights.Length == Pow2(n)
    ensures weights[..] == ProverWeights(Zeros(Pow2(n)), stmts, n, logPacking, 1, gamma)
    ensures sum == ProverSum(stmts, logPacking, 1, gamma)
    ensures Aligned(stmts, logPacking) ==> sum == VerifierSum(stmts, 1, gamma)
    ensures Aligned(stmts, logPacking) ==>
              forall y: seq<Fe> | |y| == n :: Mle(weights[..], y) == VerifierValue(stmts, y, 1, gamma)
  {
    hide ProverWeights, ProverSum, AddClaims, SumClaims, Aligned, VerifierValue, VerifierSum;
    weights := new Fe[Pow2(n)](_ => 0);
    ghost var zeros := weights[..];
    assert zeros == Zeros(Pow2(n));
    sum := 0;
    var gammaPow: Fe := 1;
    assert stmts[0..] == stmts;
    AddZero(ProverSum(stmts, logPacking, 1, gamma));
    for k := 0 to |stmts|
      invariant weights.Length == Pow2(n) && AllWellFormed(stmts[k..], n, logPacking)
      invariant ProverWeights(zeros, stmts, n, logPacking, 1, gamma)
             == ProverWeights(weights[..], stmts[k..], n, logPacking, gammaPow, gamma)
      invariant ProverSum(stmts, logPacking, 1, gamma) == Add(sum, ProverSum(stmts[k..], logPacking, gammaPow, gamma))
    {
      var s := stmts[k];
      assert stmts[k..][0] == s && stmts[k..][1..] == stmts[k + 1..];
      ProverStep(weights[..], stmts[k..], n, logPacking, gammaPow, gamma, sum);
      if TakesSparseBranch(s, logPacking) {
        sum, gammaPow := AddSparseClaims(weights, s, gammaPow, gamma, sum, n, logPacking);
      } else {
        sum, gammaPow := AddDenseStatement(weights, s, gammaPow, gamma, sum, n, logPacking);
      }
    }
    assert stmts[|stmts|..] == [];
    ProverEnd(weights[..], n, logPacking, gammaPow, gamma, sum);
    if Aligned(stmts, logPacking) {
      CombinationFromZero(stmts, n, logPacking, gamma);
    }
  }

  lemma ProverStep(w: seq<Fe>, stmts: seq<SparseStatement>, n: nat, logPacking: nat, g: Fe, gamma: Fe, sum: Fe)
    requires stmts != [] && |w| == Pow2(n) && AllWellFormed(stmts, n, logPacking)
    ensures forall i {:trigger stmts[0].values[i]} | 0 <= i < |stmts[0].values| ::
              stmts[0].values[i].selector * Pow2(|stmts[0].point|) + Pow2(|stmts[0].point|) <= |w|
    ensures AllWellFormed(stmts[1..], n, logPacking)
    ensures ProverWeights(w, stmts, n, logPacking, g, gamma)
         == ProverWeights(AddClaims(w, stmts[0].values, InnerVec(stmts[0]), g, gamma), stmts[1..], n, logPacking,
                          Mul(g, Pow(gamma, Advance(stmts[0], logPacking))), gamma)
    ensures Add(sum, ProverSum(stmts, logPacking, g, gamma))
         == Add(Add(sum, SumClaims(stmts[0].values, g, gamma)),
                ProverSum(stmts[1..], logPacking, Mul(g, Pow(gamma, Advance(stmts[0], logPacking))), gamma))
  {
    forall i {:trigger stmts[0].values[i]} | 0 <= i < |stmts[0].values|
      ensures stmts[0].values[i].selector * Pow2(|stmts[0].point|) + Pow2(|stmts[0].point|) <= |w|
    {
      SelectorFits(stmts[0], n, logPacking, i);
    }
    AddAssoc(sum, SumClaims(stmts[0].values, g, gamma),
             ProverSum(stmts[1..], logPacking, Mul(g, Pow(gamma, Advance(stmts[0], logPacking))), gamma));
  }

  lemma ProverEnd(w: seq<Fe>, n: nat, logPacking: nat, g: Fe, gamma: Fe, sum: Fe)
    requires |w| == Pow2(n)
    ensures ProverWeights(w, [], n, logPacking, g, gamma) == w
    ensures Add(sum, ProverSum([], logPacking, g, gamma)) == sum
  {
    AddZero(sum);
  }

  lemma CombinationFromZero(stmts: seq<SparseStatement>, n: nat, logPacking: nat, gamma: Fe)
    requires AllWellFormed(stmts, n, logPacking) && Aligned(stmts, logPacking)
    ensures ProverSum(stmts, logPacking, 1, gamma) == VerifierSum(stmts, 1, gamma)
    ensures forall y: seq<Fe> | |y| == n ::
              Mle(ProverWeights(Zeros(Pow2(n)), stmts, n, logPacking, 1, gamma), y) == VerifierValue(stmts, y, 1, gamma)
  {
    hide ProverWeights, ProverSum, VerifierValue, VerifierSum;
    var zeros := Zeros(Pow2(n));
    CombinationAgrees(zeros, stmts, n, logPacking, 1, gamma, Zeros(n));
    forall y: seq<Fe> | |y| == n
      ensures Mle(ProverWeights(zeros, stmts, n, logPacking, 1, gamma), y) == VerifierValue(stmts, y, 1, gamma)
    {
      CombinationAgrees(zeros, stmts, n, logPacking, 1, gamma, y);
      MleConstant(zeros, y, 0);
      AddZero(VerifierValue(stmts, y, 1, gamma));
    }
  }

  // ----- the verifier's loops

  /** combine_constraints: the claimed sum and one power of gamma per claim. */
  method CombineConstraints(claimed: Fe, constraints: seq<SparseStatement>, gen: Fe) returns (sum: Fe, randomness: seq<Fe>)
    ensures sum == Add(claimed, VerifierSum(constraints, 1, gen))
    ensures randomness == Powers(1, gen, ClaimCount(constraints))
  {
    hide VerifierSum, SumClaims, Powers;
    sum := claimed;
    ghost var count := 0;
    randomness := [1];
    FirstPower(gen);
    MulOne(1);
    AddZero(VerifierSum(constraints, 1, gen));
    assert constraints[0..] == constraints;
    for k := 0 to |constraints|
      invariant 0 <= count && randomness == Powers(1, gen, count + 1)
      invariant count + ClaimCount(constraints[k..]) == ClaimCount(constraints)
      invariant Add(claimed, VerifierSum(constraints, 1, gen))
             == Add(sum, VerifierSum(constraints[k..], Mul(1, Pow(gen, count)), gen))
    {
      var smt := constraints[k];
      var values := smt.values;
      ghost var g := Mul(1, Pow(gen, count));
      ghost var sum0 := sum;
      assert constraints[k..][0] == smt && constraints[k..][1..] == constraints[k + 1..];
      VerifierSumStep(constraints[k..], g, gen, sum);
      NoClaimsYet([], [], g, gen);
      AddZero(sum);
      assert values[..0] == [];
      for j := 0 to |values|
        invariant randomness == Powers(1, gen, count + j + 1)
        invariant sum == Add(sum0, SumClaims(values[..j], g, gen))
      {
        PowersAt(1, gen, count + j + 1, count + j);
        PowerShift(gen, count, j);
        SumClaimsSnoc(values, j, g, gen);
        AddAssoc(sum0, SumClaims(values[..j], g, gen), Mul(Mul(g, Pow(gen, j)), values[j].value));
        sum := Add(sum, Mul(randomness[|randomness| - 1], values[j].value));
        PowersSnoc(1, gen, count + j + 1);
        NextPower(1, gen, count + j);
        randomness := randomness + [Mul(randomness[|randomness| - 1], gen)];
      }
      assert values[..|values|] == values;
      PowerShift(gen, count, |values|);
      count := count + |values|;
    }
    assert constraints[|constraints|..] == [];
    VerifierSumEnd(Mul(1, Pow(gen, count)), gen, sum);
    PowersPrefix(1, gen, count + 1, count);
    randomness := randomness[..|randomness| - 1];
  }

  lemma FirstPower(gen: Fe)
    ensures Powers(1, gen, 1) == [1]
    ensures Mul(1, Pow(gen, 0)) == 1
  {
    MulOne(1);
    assert Powers(1, gen, 1) == [1] + Powers(Mul(1, gen), gen, 0);
  }

  lemma PowerShift(gen: Fe, count: nat, j: nat)
    ensures Mul(Mul(1, Pow(gen, count)), Pow(gen, j)) == Mul(1, Pow(gen, count + j))
  {
    PowAdd(gen, count, j);
    MulAssoc(1, Pow(gen, count), Pow(gen, j));
  }

  lemma VerifierSumStep(c: seq<SparseStatement>, g: Fe, gen: Fe, sum: Fe)
    requires c != []
    ensures Add(sum, VerifierSum(c, g, gen))
         == Add(Add(sum, SumClaims(c[0].values, g, gen)), VerifierSum(c[1..], Mul(g, Pow(gen, |c[0].values|)), gen))
  {
    AddAssoc(sum, SumClaims(c[0].values, g, gen), VerifierSum(c[1..], Mul(g, Pow(gen, |c[0].values|)), gen));
  }

  lemma VerifierSumEnd(g: Fe, gen: Fe, sum: Fe)
    ensures Add(sum, VerifierSum([], g, gen)) == sum
  {
    AddZero(sum);
  }

  /** eq_poly_outside. */
  method EqPolyOutside(p: seq<Fe>, q: seq<Fe>) returns (acc: Fe)
    requires |p| == |q|
    ensures acc == Eq(p, q)
  {
    acc := 1;
    MulOne(Eq(p, q));
    assert p[0..] == p && q[0..] == q;
    for i := 0 to |p|
      invariant Eq(p, q) == Mul(acc, Eq(p[i..], q[i..]))
    {
      assert p[i..][1..] == p[i + 1..] && q[i..][1..] == q[i + 1..];
      MulAssoc(acc, EqFactor(p[i], q[i]), Eq(p[i + 1..], q[i + 1..]));
      acc := Mul(acc, Sub(Sub(Add(1, Mul(p[i], Double(q[i]))), p[i]), q[i]));
    }
    MulOne(acc);
  }

  /** The product over the selector bits, most significant first. */
  method SelectorProduct(selector: nat, s: nat, y: seq<Fe>) returns (acc: Fe)
    requires selector < Pow2(s) && s <= |y|
    ensures acc == Eq(Bits(selector, s), y[..s])
  {
    ghost var b := Bits(selector, s);
    ghost var t := y[..s];
    acc := 1;
    MulOne(Eq(b, t));
    assert b[0..] == b && t[0..] == t;
    for j := 0 to s
      invariant Eq(b, t) == Mul(acc, Eq(b[j..], t[j..]))
    {
      assert b[j..][1..] == b[j + 1..] && t[j..][1..] == t[j + 1..];
      BitsAt(selector, s, j);
      EqFactorEnds(y[j]);
      var factor := if selector / Pow2(s - 1 - j) % 2 == 0 then Sub(1, y[j]) else y[j];
      assert factor == EqFactor(b[j], t[j]);
      MulAssoc(acc, factor, Eq(b[j + 1..], t[j + 1..]));
      acc := Mul(acc, factor);
    }
    MulOne(acc);
  }

  method CommonWeightOf(s: SparseStatement, y: seq<Fe>) returns (c: Fe)
    requires |s.point| <= |y|
    ensures c == CommonWeight(s, y)
  {
    var inner := y[|y| - |s.point|..];
    if s.isNext {
      c := NextMle(s.point, inner);
    } else {
      c := EqPolyOutside(s.point, inner);
    }
  }

  /** A claim the verifier can weigh: its selector fits the leading coordinates. */
  ghost predicate Evaluable(s: SparseStatement, n: nat) {
    && s.total == n && |s.point| <= n
    && forall i {:trigger s.values[i]} | 0 <= i < |s.values| :: s.values[i].selector < Pow2(n - |s.point|)
  }

  lemma {:induction false} EvalClaimsSnoc(values: seq<SparseValue>, k: nat, s: nat, common: Fe, y: seq<Fe>, g: Fe, gamma: Fe)
    requires k < |values| && s <= |y|
    ensures EvalClaims(values[..k + 1], s, common, y, g, gamma)
         == Add(EvalClaims(values[..k], s, common, y, g, gamma),
                Mul(Mul(Eq(Bits(values[k].selector, s), y[..s]), common), Mul(g, Pow(gamma, k))))
    decreases k
  {
    var here := values[..k + 1];
    var term := Mul(Eq(Bits(values[0].selector, s), y[..s]), common);
    if k == 0 {
      assert here[1..] == [];
      MulOne(g);
      AddZero(Mul(term, g));
    } else {
      assert here[1..] == values[1..][..k] && values[..k][1..] == values[1..][..k - 1];
      EvalClaimsSnoc(values[1..], k - 1, s, common, y, Mul(g, gamma), gamma);
      MulAssoc(g, gamma, Pow(gamma, k - 1));
      AddAssoc(Mul(term, g), EvalClaims(values[1..][..k - 1], s, common, y, Mul(g, gamma), gamma),
               Mul(Mul(Eq(Bits(values[k].selector, s), y[..s]), common), Mul(g, Pow(gamma, k))));
    }
  }

  /** One statement of eval_constraints_poly, reading its powers from position `at` on. */
  method EvalStatement(s: SparseStatement, y: seq<Fe>, randomness: seq<Fe>, at: nat, value0: Fe, ghost gamma: Fe) returns (value: Fe)
    requires Evaluable(s, |y|) && at + |s.values| <= |randomness| && randomness == Powers(1, gamma, |randomness|)
    ensures value == Add(value0, EvalClaims(s.values, SelectorVars(s), CommonWeight(s, y), y, Mul(1, Pow(gamma, at)), gamma))
  {
    hide EvalClaims, Powers, CommonWeight;
    var common := CommonWeightOf(s, y);
    var n := SelectorVars(s);
    ghost var g := Mul(1, Pow(gamma, at));
    value := value0;
    NoEvalsYet(n, common, y, g, gamma);
    AddZero(value0);
    assert s.values[..0] == [];
    for k := 0 to |s.values|
      invariant value == Add(value0, EvalClaims(s.values[..k], n, common, y, g, gamma))
    {
      var selected := SelectorProduct(s.values[k].selector, n, y);
      var eval := Mul(selected, common);
      PowersAt(1, gamma, |randomness|, at + k);
      PowerShift(gamma, at, k);
      EvalClaimsSnoc(s.values, k, n, common, y, g, gamma);
      AddAssoc(value0, EvalClaims(s.values[..k], n, common, y, g, gamma), Mul(eval, randomness[at + k]));
      value := Add(value, Mul(eval, randomness[at + k]));
    }
    assert s.values[..|s.values|] == s.values;
  }

  lemma NoEvalsYet(s: nat, common: Fe, y: seq<Fe>, g: Fe, gamma: Fe)
    requires s <= |y|
    ensures EvalClaims([], s, common, y, g, gamma) == 0
  {
  }

  datatype Round = Round(gamma: Fe, stmts: seq<SparseStatement>)

  ghost predicate AllEvaluable(stmts: seq<SparseStatement>, n: nat) {
    forall i {:trigger stmts[i]} | 0 <= i < |stmts| :: Evaluable(stmts[i], n)
  }

  /** One round of eval_constraints_poly. */
  method EvalRound(stmts: seq<SparseStatement>, y: seq<Fe>, randomness: seq<Fe>, value0: Fe, ghost gamma: Fe) returns (value: Fe)
    requires AllEvaluable(stmts, |y|) && randomness == Powers(1, gamma, ClaimCount(stmts))
    ensures value == Add(value0, VerifierValue(stmts, y, 1, gamma))
  {
    hide VerifierValue, EvalClaims, Powers;
    value := value0;
    var i := 0;
    assert stmts[0..] == stmts;
    MulOne(1);
    for k := 0 to |stmts|
      invariant 0 <= i && i + ClaimCount(stmts[k..]) == ClaimCount(stmts)
      invariant Add(value0, VerifierValue(stmts, y, 1, gamma))
             == Add(value, VerifierValue(stmts[k..], y, Mul(1, Pow(gamma, i)), gamma))
    {
      var smt := stmts[k];
      assert stmts[k..][0] == smt && stmts[k..][1..] == stmts[k + 1..];
      VerifierValueStep(stmts[k..], y, Mul(1, Pow(gamma, i)), gamma, value);
      PowerShift(gamma, i, |smt.values|);
      value := EvalStatement(smt, y, randomness, i, value, gamma);
      i := i + |smt.values|;
    }
    assert stmts[|stmts|..] == [];
    VerifierValueEnd(y, Mul(1, Pow(gamma, i)), gamma, value);
  }

  lemma VerifierValueStep(stmts: seq<SparseStatement>, y: seq<Fe>, g: Fe, gamma: Fe, value: Fe)
    requires stmts != [] && AllEvaluable(stmts, |y|)
    ensures Add(value, VerifierValue(stmts, y, g, gamma))
         == Add(Add(value, EvalClaims(stmts[0].values, SelectorVars(stmts[0]), CommonWeight(stmts[0], y), y, g, gamma)),
                VerifierValue(stmts[1..], y, Mul(g, Pow(gamma, |stmts[0].values|)), gamma))
  {
    AddAssoc(value, EvalClaims(stmts[0].values, SelectorVars(stmts[0]), CommonWeight(stmts[0], y), y, g, gamma),
             VerifierValue(stmts[1..], y, Mul(g, Pow(gamma, |stmts[0].values|)), gamma));
  }

  lemma VerifierValueEnd(y: seq<Fe>, g: Fe, gamma: Fe, value: Fe)
    ensures Add(value, VerifierValue([], y, g, gamma)) == value
  {
    AddZero(value);
  }
}
