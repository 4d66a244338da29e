/**
 What misaligned powers of gamma do to the sums: for any list of statements whose powers differ,
 some claimed values and some gamma give the prover and the verifier different sums
 (combine_statement, crates/whir/src/open.rs, and combine_constraints, crates/whir/src/verify.rs).
 */
module MisalignedClaims {
  import opened Arith
  import opened Field
  import opened Prime
  import opened DftSpec
  import opened WhirConstraints

  // ----- all values 0, except the last one

  function Zeroed(values: seq<SparseValue>): (r: seq<SparseValue>)
    ensures |r| == |values|
  {
    if values == [] then [] else [values[0].(value := 0)] + Zeroed(values[1..])
  }

  function LastOne(values: seq<SparseValue>): (r: seq<SparseValue>)
    ensures |r| == |values|
  {
    if values == [] then []
    else if |values| == 1 then [values[0].(value := 1)]
    else [values[0].(value := 0)] + LastOne(values[1..])
  }

  /** The same statements with claimed values 0, and 1 for the very last claim. */
  function OnlyLast(stmts: seq<SparseStatement>): (r: seq<SparseStatement>)
    ensures |r| == |stmts|
  {
    if stmts == [] then []
    else [stmts[0].(values := if ClaimCount(stmts[1..]) > 0 then Zeroed(stmts[0].values) else LastOne(stmts[0].values))] + OnlyLast(stmts[1..])
  }

  predicate SameClaims(a: seq<SparseValue>, b: seq<SparseValue>) {
    |a| == |b| && forall i {:trigger a[i]} {:trigger b[i]} | 0 <= i < |a| :: a[i].selector == b[i].selector
  }

  /** The same statements up to the claimed values. */
  predicate SameShape(s: seq<SparseStatement>, t: seq<SparseStatement>) {
    |s| == |t| && forall i {:trigger s[i]} {:trigger t[i]} | 0 <= i < |s| ::
      s[i].total == t[i].total && s[i].point == t[i].point && s[i].isNext == t[i].isNext && SameClaims(s[i].values, t[i].values)
  }

  lemma {:induction false} ZeroedSame(values: seq<SparseValue>)
    ensures SameClaims(values, Zeroed(values)) && SameClaims(values, LastOne(values))
    decreases |values|
  {
    if values != [] {
      ZeroedSame(values[1..]);
    }
  }

  lemma {:induction false} OnlyLastShape(stmts: seq<SparseStatement>)
    ensures SameShape(stmts, OnlyLast(stmts)) && ClaimCount(OnlyLast(stmts)) == ClaimCount(stmts)
    decreases |stmts|
  {
    if stmts != [] {
      OnlyLastShape(stmts[1..]);
      ZeroedSame(stmts[0].values);
    }
  }

  lemma {:induction false} SumZeroed(values: seq<SparseValue>, g: Fe, gamma: Fe)
    ensures SumClaims(Zeroed(values), g, gamma) == 0
    decreases |values|
  {
    if values != [] {
      SumZeroed(values[1..], Mul(g, gamma), gamma);
      assert Zeroed(values)[1..] == Zeroed(values[1..]);
      MulOne(g);
      AddZero(0);
    }
  }

  lemma {:induction false} SumLastOne(values: seq<SparseValue>, g: Fe, gamma: Fe)
    requires values != []
    ensures SumClaims(LastOne(values), g, gamma) == Mul(g, Pow(gamma, |values| - 1))
    decreases |values|
  {
    var r := LastOne(values);
    MulOne(g);
    if |values| == 1 {
      assert r[1..] == [];
      AddZero(g);
    } else {
      assert r[1..] == LastOne(values[1..]);
      SumLastOne(values[1..], Mul(g, gamma), gamma);
      MulAssoc(g, gamma, Pow(gamma, |values| - 2));
      AddZero(Mul(g, Pow(gamma, |values| - 1)));
    }
  }

  // ----- the exponent of the last claim

  function ProverLast(stmts: seq<SparseStatement>, logPacking: nat): nat
    requires ClaimCount(stmts) > 0
  {
    if ClaimCount(stmts[1..]) > 0 then Advance(stmts[0], logPacking) + ProverLast(stmts[1..], logPacking) else |stmts[0].values| - 1
  }

  /** The prover is ahead by one for every empty dense statement before the last claim. */
  lemma {:induction false} ProverAhead(stmts: seq<SparseStatement>, logPacking: nat)
    requires ClaimCount(stmts) > 0
    ensures ClaimCount(stmts) - 1 <= ProverLast(stmts, logPacking) <= ClaimCount(stmts) - 1 + |stmts|
    ensures Aligned(stmts, logPacking) <==> ProverLast(stmts, logPacking) == ClaimCount(stmts) - 1
    decreases |stmts|
  {
    if ClaimCount(stmts[1..]) > 0 {
      ProverAhead(stmts[1..], logPacking);
    } else {
      NoClaimsAligned(stmts[1..], logPacking);
    }
  }

  lemma {:induction false} NoClaimsAligned(stmts: seq<SparseStatement>, logPacking: nat)
    requires ClaimCount(stmts) == 0
    ensures Aligned(stmts, logPacking)
    decreases |stmts|
  {
    if stmts != [] {
      NoClaimsAligned(stmts[1..], logPacking);
    }
  }

  lemma {:induction false} SumsWithoutClaims(stmts: seq<SparseStatement>, logPacking: nat, g: Fe, gamma: Fe)
    requires ClaimCount(stmts) == 0
    ensures ProverSum(stmts, logPacking, g, gamma) == 0 && VerifierSum(stmts, g, gamma) == 0
    decreases |stmts|
  {
    AddZero(0);
    if stmts != [] {
      SumsWithoutClaims(stmts[1..], logPacking, Mul(g, Pow(gamma, Advance(stmts[0], logPacking))), gamma);
      SumsWithoutClaims(stmts[1..], logPacking, Mul(g, Pow(gamma, |stmts[0].values|)), gamma);
    }
  }

  /** With these values each side's sum is a single power of gamma. */
  lemma {:induction false} SumsOfLast(stmts: seq<SparseStatement>, logPacking: nat, g: Fe, gamma: Fe)
    requires ClaimCount(stmts) > 0
    ensures ProverSum(OnlyLast(stmts), logPacking, g, gamma) == Mul(g, Pow(gamma, ProverLast(stmts, logPacking)))
    ensures VerifierSum(OnlyLast(stmts), g, gamma) == Mul(g, Pow(gamma, ClaimCount(stmts) - 1))
    decreases |stmts|
  {
    var s, k := stmts[0], |stmts[0].values|;
    var a := Advance(s, logPacking);
    var t := OnlyLast(stmts);
    assert t[1..] == OnlyLast(stmts[1..]);
    OnlyLastShape(stmts[1..]);
    if ClaimCount(stmts[1..]) > 0 {
      SumZeroed(s.values, g, gamma);
      SumsOfLast(stmts[1..], logPacking, Mul(g, Pow(gamma, a)), gamma);
      SumsOfLast(stmts[1..], logPacking, Mul(g, Pow(gamma, k)), gamma);
      JoinPowers(g, gamma, a, ProverLast(stmts[1..], logPacking));
      JoinPowers(g, gamma, k, ClaimCount(stmts[1..]) - 1);
    } else {
      SumLastOne(s.values, g, gamma);
      SumsWithoutClaims(t[1..], logPacking, Mul(g, Pow(gamma, a)), gamma);
      SumsWithoutClaims(t[1..], logPacking, Mul(g, Pow(gamma, k)), gamma);
      AddZero(Mul(g, Pow(gamma, k - 1)));
    }
  }

  lemma JoinPowers(g: Fe, gamma: Fe, m: nat, n: nat)
    ensures Add(0, Mul(Mul(g, Pow(gamma, m)), Pow(gamma, n))) == Mul(g, Pow(gamma, m + n))
  {
    MulAssoc(g, Pow(gamma, m), Pow(gamma, n));
    PowAdd(gamma, m, n);
    AddZero(Mul(g, Pow(gamma, m + n)));
  }

  // ----- a gamma of large order

  /** No smaller positive power of the generator of order 2^b is 1. */
  lemma {:induction false} GeneratorOrder(b: nat, k: nat)
    requires b <= TWO_ADICITY && 0 < k < Pow2(b)
    ensures Pow(TwoAdicGenerator(b), k) != 1
    decreases b
  {
    var g, h := TwoAdicGenerator(b), k / 2;
    if k == 2 * h {
      PowMul(g, 2, h);
      PowTwo(g);
      GeneratorSquare(b - 1);
      GeneratorOrder(b - 1, h);
    } else if Pow(g, k) == 1 {
      GeneratorHalfOrder(b);
      PowMul(g, k, Pow2(b - 1));
      PowOne(Pow2(b - 1));
      PowMul(g, Pow2(b - 1), k);
      assert k * Pow2(b - 1) == Pow2(b - 1) * k;
      OddPower(k, h);
    }
  }

  lemma OddPower(k: nat, h: nat)
    requires k == 2 * h + 1
    ensures Pow(P - 1, k) == P - 1
  {
    var m: Fe := P - 1;
    PowAdd(m, 2 * h, 1);
    PowMul(m, 2, h);
    PowTwo(m);
    LiftSelf(m);
    LiftMul(m, m);
    assert m * m == 1 + P * (P - 2);
    ResCong(1, P - 2);
    LiftSelf(1);
    PowOne(h);
    PowTwo(m);
    MulOne(m);
    assert Pow(m, 1) == Mul(m, Pow(m, 0));
  }

  /** Statements whose powers are not aligned: for some claimed values and some gamma the two sums differ. */
  lemma MisalignedSumsDiffer(stmts: seq<SparseStatement>, logPacking: nat) returns (claims: seq<SparseStatement>, gamma: Fe)
    requires !Aligned(stmts, logPacking) && |stmts| < Pow2(TWO_ADICITY)
    ensures SameShape(stmts, claims) && ProverSum(claims, logPacking, 1, gamma) != VerifierSum(claims, 1, gamma)
  {
    if ClaimCount(stmts) == 0 {
      NoClaimsAligned(stmts, logPacking);
    }
    claims, gamma := OnlyLast(stmts), TwoAdicGenerator(TWO_ADICITY);
    OnlyLastShape(stmts);
    ProverAhead(stmts, logPacking);
    SumsOfLast(stmts, logPacking, 1, gamma);
    var n := ClaimCount(stmts) - 1;
    var d := ProverLast(stmts, logPacking) - n;
    GeneratorOrder(TWO_ADICITY, d);
    GeneratorHalfOrder(TWO_ADICITY);
    if gamma == 0 {
      MulOne(Pow(gamma, Pow2(TWO_ADICITY - 1) - 1));
    }
    DifferentPowers(gamma, n, d);
    MulOne(Pow(gamma, n));
    MulOne(Pow(gamma, n + d));
  }

  lemma {:induction false} PowNonZero(a: Fe, n: nat)
    requires a != 0
    ensures Pow(a, n) != 0
  {
    if n > 0 {
      PowNonZero(a, n - 1);
      ProductNonZero(a, Pow(a, n - 1));
    }
  }

  lemma ProductNonZero(a: Fe, b: Fe)
    requires a != 0 && b != 0
    ensures Mul(a, b) != 0
  {
    var i := Inverse(a);
    MulAssoc(i, a, b);
    MulComm(a, i);
    MulOne(b);
    MulOne(i);
  }

  lemma DifferentPowers(a: Fe, n: nat, d: nat)
    requires Pow(a, d) != 1 && d > 0
    ensures Pow(a, n + d) == Pow(a, n) ==> a == 0 && n > 0
  {
    PowAdd(a, n, d);
    if Pow(a, n + d) == Pow(a, n) && a != 0 {
      PowNonZero(a, n);
      var i := Inverse(Pow(a, n));
      MulAssoc(i, Pow(a, n), Pow(a, d));
      MulComm(Pow(a, n), i);
      MulOne(Pow(a, d));
    }
    if a == 0 && n == 0 {
      MulOne(Pow(a, d - 1));
    }
  }
}
