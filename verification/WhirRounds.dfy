/**
 The weight polynomial over all rounds of the opening protocol: between rounds the prover
 folds its buffer and adds the out-of-domain and in-domain claims of the new round
 (crates/whir/src/open.rs); at the end the verifier evaluates one closed form over the
 concatenated folding randomness (crates/whir/src/verify.rs).
 */
module WhirRounds {
  import opened Arith
  import opened Field
  import opened Multilinear
  import opened WhirConstraints
  import opened Coefficients

  // ----- adding the claims of a round

  /** SparseStatement::dense for every point. */
  ghost function DenseStatements(points: seq<seq<Fe>>, evaluations: seq<Fe>): (r: seq<SparseStatement>)
    requires |points| == |evaluations|
    ensures |r| == |points|
    ensures forall i {:trigger r[i]} | 0 <= i < |r| ::
              r[i] == SparseStatement(|points[i]|, points[i], [SparseValue(0, evaluations[i])], false)
  {
    seq(|points|, i requires 0 <= i < |points| =>
      SparseStatement(|points[i]|, points[i], [SparseValue(0, evaluations[i])], false))
  }

  class SumcheckSingle {
    var weights: array<Fe>
    var sum: Fe

    constructor (w: array<Fe>, s: Fe)
      ensures weights == w && sum == s
    {
      weights, sum := w, s;
    }

    /**
     add_new_equality: `combination` holds the powers g, g * gamma, ... of the round's
     randomness that belong to these points.
     */
    method AddNewEquality(points: seq<seq<Fe>>, evaluations: seq<Fe>, combination: seq<Fe>,
                          ghost n: nat, ghost g: Fe, ghost gamma: Fe)
      requires |points| == |evaluations| == |combination| && combination == Powers(g, gamma, |points|)
      requires weights.Length == Pow2(n) && forall i {:trigger points[i]} | 0 <= i < |points| :: |points[i]| == n
      modifies this`sum, weights
      ensures AllWellFormed(DenseStatements(points, evaluations), n, 0)
      ensures weights[..] == ProverWeights(old(weights[..]), DenseStatements(points, evaluations), n, 0, g, gamma)
      ensures sum == Add(old(sum), ProverSum(DenseStatements(points, evaluations), 0, g, gamma))
    {
      hide ProverWeights, ProverSum, Powers, AddVec;
      DenseWellFormed(points, evaluations, n);
      ghost var stmts := DenseStatements(points, evaluations);
      ghost var was := weights[..];
      assert stmts[..0] == [];
      ProverEnd(was, n, 0, g, gamma, sum);
      for k := 0 to |points|
        invariant weights.Length == Pow2(n) && weights == old(weights) && sum == old(sum)
        invariant AllWellFormed(stmts[..k], n, 0)
        invariant weights[..] == ProverWeights(was, stmts[..k], n, 0, g, gamma)
      {
        PowersAt(g, gamma, |points|, k);
        DenseSnoc(was, stmts, k, n, g, gamma);
        AddEqToBlock(weights, 0, points[k], combination[k]);
      }
      assert stmts[..|points|] == stmts;
      ghost var now := weights[..];
      ghost var sum0 := sum;
      ProverEnd(was, n, 0, g, gamma, sum0);
      for k := 0 to |points|
        invariant weights == old(weights) && weights[..] == now
        invariant sum == Add(sum0, ProverSum(stmts[..k], 0, g, gamma))
      {
        PowersAt(g, gamma, |points|, k);
        DenseSumSnoc(stmts, k, g, gamma);
        AddAssoc(sum0, ProverSum(stmts[..k], 0, g, gamma), Mul(combination[k], evaluations[k]));
        sum := Add(sum, Mul(combination[k], evaluations[k]));
      }
      assert stmts[..|points|] == stmts;
    }
  }

  lemma DenseWellFormed(points: seq<seq<Fe>>, evaluations: seq<Fe>, n: nat)
    requires |points| == |evaluations| && forall i {:trigger points[i]} | 0 <= i < |points| :: |points[i]| == n
    ensures AllWellFormed(DenseStatements(points, evaluations), n, 0)
    ensures AllEvaluable(DenseStatements(points, evaluations), n)
    ensures Aligned(DenseStatements(points, evaluations), 0)
    ensures ClaimCount(DenseStatements(points, evaluations)) == |points|
    decreases |points|
  {
    var stmts := DenseStatements(points, evaluations);
    forall i {:trigger stmts[i]} | 0 <= i < |stmts|
      ensures WellFormed(stmts[i], n, 0) && Evaluable(stmts[i], n)
    {
      assert |points[i]| == n;
    }
    if points != [] {
      DenseWellFormed(points[1..], evaluations[1..], n);
      assert stmts[1..] == DenseStatements(points[1..], evaluations[1..]);
    }
  }

  ghost predicate IsDense(s: SparseStatement, n: nat) {
    s.total == n && |s.point| == n && !s.isNext && |s.values| == 1 && s.values[0].selector == 0
  }

  ghost predicate AllDense(stmts: seq<SparseStatement>, n: nat) {
    forall i {:trigger stmts[i]} | 0 <= i < |stmts| :: IsDense(stmts[i], n)
  }

  lemma DenseFits(stmts: seq<SparseStatement>, n: nat)
    requires AllDense(stmts, n)
    ensures AllWellFormed(stmts, n, 0)
  {
    forall i {:trigger stmts[i]} | 0 <= i < |stmts| ensures WellFormed(stmts[i], n, 0) {
      assert IsDense(stmts[i], n);
    }
  }

  lemma OneClaim(w: seq<Fe>, s: SparseStatement, n: nat, g: Fe, gamma: Fe)
    requires IsDense(s, n) && |w| == Pow2(n)
    ensures |InnerVec(s)| == |w|
    ensures AddClaims(w, s.values, InnerVec(s), g, gamma) == AddVec(w, 0, EqVec(s.point, g))
    ensures SumClaims(s.values, g, gamma) == Mul(g, s.values[0].value)
    ensures Mul(g, Pow(gamma, Advance(s, 0))) == Mul(g, gamma)
  {
    hide AddVec, EqVec;
    EqVecAsScaled(s.point, g);
    var none := s.values[1..];
    assert none == [];
    assert SumClaims(none, Mul(g, gamma), gamma) == 0;
    AddZero(Mul(g, s.values[0].value));
    assert Pow(gamma, 1) == Mul(gamma, Pow(gamma, 0));
    MulOne(gamma);
    var w1 := AddVec(w, 0, Scaled(g, EqVec(s.point, 1)));
    assert AddClaims(w1, none, EqVec(s.point, 1), Mul(g, gamma), gamma) == w1;
  }

  lemma DenseStep(w: seq<Fe>, s: SparseStatement, rest: seq<SparseStatement>, n: nat, g: Fe, gamma: Fe)
    requires IsDense(s, n) && |w| == Pow2(n) && AllDense(rest, n)
    ensures AllWellFormed([s] + rest, n, 0) && AllWellFormed(rest, n, 0)
    ensures ProverWeights(w, [s] + rest, n, 0, g, gamma)
         == ProverWeights(AddVec(w, 0, EqVec(s.point, g)), rest, n, 0, Mul(g, gamma), gamma)
    ensures ProverSum([s] + rest, 0, g, gamma) == Add(Mul(g, s.values[0].value), ProverSum(rest, 0, Mul(g, gamma), gamma))
  {
    assert |s.values| == 1;
    hide AddVec, EqVec, AddClaims, SumClaims, InnerVec, Advance, ProverWeights, ProverSum, IsDense;
    var all := [s] + rest;
    assert AllDense(all, n);
    DenseFits(rest, n);
    DenseFits(all, n);
    assert all[1..] == rest;
    OneClaim(w, s, n, g, gamma);
    AddZero(0);
    ProverStep(w, all, n, 0, g, gamma, 0);
    AddZero(ProverSum(all, 0, g, gamma));
    AddZero(Mul(g, s.values[0].value));
    AddComm(0, Mul(g, s.values[0].value));
    AddComm(0, ProverSum(all, 0, g, gamma));
  }

  lemma {:induction false} DenseSnoc(w: seq<Fe>, stmts: seq<SparseStatement>, k: nat, n: nat, g: Fe, gamma: Fe)
    requires k < |stmts| && |w| == Pow2(n) && AllDense(stmts, n)
    ensures AllWellFormed(stmts[..k + 1], n, 0) && AllWellFormed(stmts[..k], n, 0)
    ensures ProverWeights(w, stmts[..k + 1], n, 0, g, gamma)
         == AddVec(ProverWeights(w, stmts[..k], n, 0, g, gamma), 0, EqVec(stmts[k].point, Mul(g, Pow(gamma, k))))
    decreases k
  {
    var s := stmts[0];
    assert IsDense(s, n) && |s.point| == n && |s.values| == 1;
    hide ProverWeights, AddVec, EqVec, IsDense;
    DenseFits(stmts[..k + 1], n);
    DenseFits(stmts[..k], n);
    if k == 0 {
      assert stmts[..1] == [s] + [] && stmts[..0] == [];
      DenseStep(w, s, [], n, g, gamma);
      ProverEnd(w, n, 0, g, gamma, 0);
      ProverEnd(AddVec(w, 0, EqVec(s.point, g)), n, 0, Mul(g, gamma), gamma, 0);
      MulOne(g);
    } else {
      var t := stmts[1..];
      assert stmts[..k + 1] == [s] + t[..k] && stmts[..k] == [s] + t[..k - 1];
      DenseStep(w, s, t[..k], n, g, gamma);
      DenseStep(w, s, t[..k - 1], n, g, gamma);
      DenseSnoc(AddVec(w, 0, EqVec(s.point, g)), t, k - 1, n, Mul(g, gamma), gamma);
      MulAssoc(g, gamma, Pow(gamma, k - 1));
    }
  }

  lemma {:induction false} DenseSumSnoc(stmts: seq<SparseStatement>, k: nat, g: Fe, gamma: Fe)
    requires k < |stmts| && forall i {:trigger stmts[i]} | 0 <= i < |stmts| :: !stmts[i].isNext && |stmts[i].values| == 1
    ensures ProverSum(stmts[..k + 1], 0, g, gamma)
         == Add(ProverSum(stmts[..k], 0, g, gamma), Mul(Mul(g, Pow(gamma, k)), stmts[k].values[0].value))
    decreases k
  {
    var s := stmts[0];
    var t := stmts[1..];
    assert s.values[1..] == [];
    assert SumClaims(s.values, g, gamma) == Add(Mul(g, s.values[0].value), SumClaims([], Mul(g, gamma), gamma));
    AddZero(Mul(g, s.values[0].value));
    assert stmts[..k + 1][1..] == t[..k];
    if k == 0 {
      MulOne(g);
      AddZero(Mul(g, s.values[0].value));
      AddComm(0, Mul(g, s.values[0].value));
    } else {
      assert stmts[..k][1..] == t[..k - 1];
      assert Pow(gamma, 1) == Mul(gamma, Pow(gamma, 0));
      MulOne(gamma);
      DenseSumSnoc(t, k - 1, Mul(g, gamma), gamma);
      MulAssoc(g, gamma, Pow(gamma, k - 1));
      AddAssoc(Mul(g, s.values[0].value), ProverSum(t[..k - 1], 0, Mul(g, gamma), gamma),
               Mul(Mul(g, Pow(gamma, k)), stmts[k].values[0].value));
    }
  }

  // ----- all rounds together

  /** Every round lists claims over the variables that are left when it starts. */
  ghost predicate RoundsFit(rounds: seq<Round>, foldings: seq<nat>, n: nat, logPacking: nat)
    decreases |rounds|
  {
    rounds == []
    || (&& AllWellFormed(rounds[0].stmts, n, logPacking) && Aligned(rounds[0].stmts, logPacking)
        && (|rounds| > 1 ==> foldings != [] && foldings[0] <= n && RoundsFit(rounds[1..], foldings[1..], n - foldings[0], logPacking)))
  }

  /** The prover's buffer through the rounds, folded down to one value at the end. */
  ghost function ProverFinalWeight(w: seq<Fe>, rounds: seq<Round>, foldings: seq<nat>, logPacking: nat, point: seq<Fe>): Fe
    requires |w| == Pow2(|point|) && RoundsFit(rounds, foldings, |point|, logPacking)
    decreases |rounds|
  {
    if rounds == [] then FoldMany(w, point, 0)[0]
    else
      var w1 := ProverWeights(w, rounds[0].stmts, |point|, logPacking, 1, rounds[0].gamma);
      if |rounds| == 1 then FoldMany(w1, point, 0)[0]
      else
        var k := foldings[0];
        ProverFinalWeight(FoldMany(w1, point[..k], |point| - k), rounds[1..], foldings[1..], logPacking, point[k..])
  }

  /** eval_constraints_poly: the point loses the coordinates folded before each round. */
  ghost function VerifierFinalWeight(rounds: seq<Round>, foldings: seq<nat>, point: seq<Fe>, logPacking: nat): Fe
    requires RoundsFit(rounds, foldings, |point|, logPacking)
    decreases |rounds|
  {
    if rounds == [] then 0
    else Add(VerifierValue(rounds[0].stmts, point, 1, rounds[0].gamma),
             if |rounds| == 1 then 0
             else VerifierFinalWeight(rounds[1..], foldings[1..], point[foldings[0]..], logPacking))
  }

  lemma FoldedToPoint(w: seq<Fe>, point: seq<Fe>)
    requires |w| == Pow2(|point|)
    ensures FoldMany(w, point, 0)[0] == Mle(w, point)
  {
    MleFoldMany(w, point, []);
    assert point + [] == point;
  }

  /** The prover's last weight is what the verifier computes, whatever the buffer started with. */
  lemma {:induction false} RoundsAgree(w: seq<Fe>, rounds: seq<Round>, foldings: seq<nat>, logPacking: nat, point: seq<Fe>)
    requires |w| == Pow2(|point|) && RoundsFit(rounds, foldings, |point|, logPacking)
    ensures ProverFinalWeight(w, rounds, foldings, logPacking, point)
         == Add(Mle(w, point), VerifierFinalWeight(rounds, foldings, point, logPacking))
    decreases |rounds|
  {
    hide FoldMany, VerifierValue, ProverWeights, AllWellFormed, Aligned;
    if rounds == [] {
      FoldedToPoint(w, point);
      AddZero(Mle(w, point));
    } else {
      var n := |point|;
      var gamma := rounds[0].gamma;
      var w1 := ProverWeights(w, rounds[0].stmts, n, logPacking, 1, gamma);
      CombinationAgrees(w, rounds[0].stmts, n, logPacking, 1, gamma, point);
      AllEvaluableOf(rounds[0].stmts, n, logPacking);
      var here := VerifierValue(rounds[0].stmts, point, 1, gamma);
      AddZero(here);
      if |rounds| == 1 {
        FoldedToPoint(w1, point);
      } else {
        var k := foldings[0];
        assert point == point[..k] + point[k..];
        MleFoldMany(w1, point[..k], point[k..]);
        RoundsAgree(FoldMany(w1, point[..k], n - k), rounds[1..], foldings[1..], logPacking, point[k..]);
        AddAssoc(Mle(w, point), here, VerifierFinalWeight(rounds[1..], foldings[1..], point[k..], logPacking));
      }
    }
  }

  lemma AllEvaluableOf(stmts: seq<SparseStatement>, n: nat, logPacking: nat)
    requires AllWellFormed(stmts, n, logPacking)
    ensures AllEvaluable(stmts, n)
  {
  }

  /** The coordinates folded in the first rounds. */
  function FoldedVars(foldings: seq<nat>): nat { if foldings == [] then 0 else foldings[0] + FoldedVars(foldings[1..]) }

  /** The last round adds its combined weight, at the coordinates that are left when it starts. */
  lemma {:induction false} LastRoundAdds(rounds: seq<Round>, foldings: seq<nat>, point: seq<Fe>, logPacking: nat)
    requires rounds != [] && RoundsFit(rounds, foldings, |point|, logPacking)
    ensures var k := |rounds| - 1;
            && k <= |foldings| && FoldedVars(foldings[..k]) <= |point| && RoundsFit(rounds[..k], foldings, |point|, logPacking)
            && AllEvaluable(rounds[k].stmts, |point| - FoldedVars(foldings[..k]))
            && VerifierFinalWeight(rounds, foldings, point, logPacking)
               == Add(VerifierFinalWeight(rounds[..k], foldings, point, logPacking),
                      VerifierValue(rounds[k].stmts, point[FoldedVars(foldings[..k])..], 1, rounds[k].gamma))
    decreases |rounds|
  {
    hide VerifierValue, AllWellFormed, Aligned;
    AllEvaluableOf(rounds[0].stmts, |point|, logPacking);
    var k := |rounds| - 1;
    var here := VerifierValue(rounds[0].stmts, point, 1, rounds[0].gamma);
    if k == 0 {
      assert point[0..] == point;
      AddComm(here, 0);
    } else {
      var f := foldings[0];
      LastRoundAdds(rounds[1..], foldings[1..], point[f..], logPacking);
      assert foldings[..k] == [f] + foldings[1..][..k - 1];
      assert rounds[1..][..k - 1] == rounds[..k][1..];
      assert point[f..][FoldedVars(foldings[1..][..k - 1])..] == point[FoldedVars(foldings[..k])..];
      AddAssoc(here, VerifierFinalWeight(rounds[1..][..k - 1], foldings[1..], point[f..], logPacking),
               VerifierValue(rounds[k].stmts, point[FoldedVars(foldings[..k])..], 1, rounds[k].gamma));
      if k == 1 {
        AddZero(here);
      }
    }
  }

  /** eval_constraints_poly. */
  method EvalConstraintsPoly(rounds: seq<Round>, randomness: seq<seq<Fe>>, foldings: seq<nat>, point0: seq<Fe>, ghost logPacking: nat)
    returns (value: Fe)
    requires RoundsFit(rounds, foldings, |point0|, logPacking) && |randomness| == |rounds|
    requires forall r {:trigger rounds[r]} | 0 <= r < |rounds| ::
               randomness[r] == Powers(1, rounds[r].gamma, ClaimCount(rounds[r].stmts))
    ensures value == VerifierFinalWeight(rounds, foldings, point0, logPacking)
    ensures value == ProverFinalWeight(Zeros(Pow2(|point0|)), rounds, foldings, logPacking, point0)
  {
    hide VerifierValue, AllWellFormed, Aligned, Powers;
    value := 0;
    var point := point0;
    assert rounds[0..] == rounds && foldings[0..] == foldings;
    AddZero(VerifierFinalWeight(rounds, foldings, point0, logPacking));
    for r := 0 to |rounds|
      invariant r > 0 ==> r - 1 <= |foldings|
      invariant r < |rounds| ==>
                  && (r > 0 ==> r - 1 < |foldings| && foldings[r - 1] <= |point|)
                  && var p := if r > 0 then point[foldings[r - 1]..] else point;
                     && RoundsFit(rounds[r..], foldings[r..], |p|, logPacking)
                     && VerifierFinalWeight(rounds, foldings, point0, logPacking)
                        == Add(value, VerifierFinalWeight(rounds[r..], foldings[r..], p, logPacking))
      invariant r == |rounds| ==> value == VerifierFinalWeight(rounds, foldings, point0, logPacking)
    {
      if r > 0 {
        point := point[foldings[r - 1]..];
      }
      var round := rounds[r];
      assert rounds[r..][0] == round && rounds[r..][1..] == rounds[r + 1..];
      AllEvaluableOf(round.stmts, |point|, logPacking);
      ghost var before := value;
      value := EvalRound(round.stmts, point, randomness[r], value, round.gamma);
      if r + 1 < |rounds| {
        assert foldings[r..][0] == foldings[r] && foldings[r..][1..] == foldings[r + 1..];
        AddAssoc(before, VerifierValue(round.stmts, point, 1, round.gamma),
                 VerifierFinalWeight(rounds[r + 1..], foldings[r + 1..], point[foldings[r]..], logPacking));
      } else {
        AddZero(VerifierValue(round.stmts, point, 1, round.gamma));
      }
    }
    RoundsAgree(Zeros(Pow2(|point0|)), rounds, foldings, logPacking, point0);
    MleConstant(Zeros(Pow2(|point0|)), point0, 0);
    AddZero(VerifierFinalWeight(rounds, foldings, point0, logPacking));
  }

  // ----- the final polynomial

  /** verify_constraint_coeffs on a dense statement at an expanded point. */
  method VerifyConstraintCoeffs(s: SparseStatement, coeffs: seq<Fe>) returns (ok: bool)
    requires |s.point| > 0 && s.total == |s.point|
    requires s.point == Expand(s.point[0], |s.point|)
    ensures ok <==> forall i {:trigger s.values[i]} | 0 <= i < |s.values| :: Horner(coeffs, s.point[0]) == s.values[i].value
  {
    var acc: Fe := 0;
    var k := |coeffs|;
    while k > 0
      invariant 0 <= k <= |coeffs| && acc == Horner(coeffs[k..], s.point[0])
    {
      k := k - 1;
      assert coeffs[k..][1..] == coeffs[k + 1..];
      acc := Add(Mul(acc, s.point[0]), coeffs[k]);
    }
    assert coeffs[0..] == coeffs;
    ok := true;
    for i := 0 to |s.values|
      invariant ok <==> forall j {:trigger s.values[j]} | 0 <= j < i :: acc == s.values[j].value
    {
      ok := ok && acc == s.values[i].value;
    }
  }

  /** On the honest coefficients the check accepts exactly the evaluations of the folded polynomial. */
  lemma FinalConstraintMeaning(v: seq<Fe>, s: SparseStatement)
    requires |s.point| > 0 && |v| == Pow2(|s.point|)
    requires s.point == Expand(s.point[0], |s.point|)
    ensures Horner(BitReversed(Differences(v, |s.point|), |s.point|), s.point[0]) == Mle(v, s.point)
    ensures EvalCoeffs(BitReversed(Differences(v, |s.point|), |s.point|), Reversed(s.point)) == Mle(v, s.point)
  {
    CoefficientsMeaning(v, s.point, s.point[0]);
  }
}
