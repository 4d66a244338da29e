/**
 Back-loaded batching of AIR sumchecks of different sizes (prove_batched_air_sumcheck,
 crates/sub_protocols/src/air_sumcheck.rs), the verifier's loop
 (crates/backend/sumcheck/src/verify.rs) and its final formula
 (crates/lean_prover/src/verify_execution.rs).
 */
module AirBatch {
  import opened Field
  import opened Multilinear
  import opened Coefficients
  import opened Interpolation
  import opened AirRounds
  import opened AirSession

  // ----- the equality factor times a polynomial

  /** expand_bare_to_full. */
  method ExpandBareToFull(bare: seq<Fe>, alpha: Fe) returns (full: seq<Fe>)
    requires bare != []
    ensures |full| == |bare| + 1
    ensures forall x: Fe :: Horner(full, x) == Mul(EqFactor(alpha, x), Horner(bare, x))
  {
    hide Horner, EqFactor;
    var oneMinusAlpha := Sub(1, alpha);
    var twoAlphaMinusOne := Sub(Double(alpha), 1);
    var d := |bare| - 1;
    full := [Mul(oneMinusAlpha, bare[0])];
    for k := 1 to d + 1
      invariant |full| == k && full[0] == Mul(oneMinusAlpha, bare[0])
      invariant forall i {:trigger full[i]} | 1 <= i < k ::
                  full[i] == Add(Mul(oneMinusAlpha, bare[i]), Mul(twoAlphaMinusOne, bare[i - 1]))
    {
      full := full + [Add(Mul(oneMinusAlpha, bare[k]), Mul(twoAlphaMinusOne, bare[k - 1]))];
    }
    full := full + [Mul(twoAlphaMinusOne, bare[d])];
    ghost var p, q := PolyScale(oneMinusAlpha, bare), [0] + PolyScale(twoAlphaMinusOne, bare);
    ghost var s := PolyAdd(p, q);
    forall i | 0 <= i < |full| ensures full[i] == s[i] {
      if i < |bare| {
        MulComm(bare[i], oneMinusAlpha);
      }
      if i > 0 {
        MulComm(bare[i - 1], twoAlphaMinusOne);
      }
      AddZero(Mul(bare[0], oneMinusAlpha));
    }
    assert full == s;
    forall x: Fe ensures Horner(full, x) == Mul(EqFactor(alpha, x), Horner(bare, x)) {
      HornerAdd(p, q, x);
      HornerScale(oneMinusAlpha, bare, x);
      HornerOfShift(PolyScale(twoAlphaMinusOne, bare), x);
      HornerScale(twoAlphaMinusOne, bare, x);
      EqFactorAsLine(Horner(bare, x), alpha, x);
    }
  }

  lemma HornerOfShift(p: seq<Fe>, x: Fe)
    ensures Horner([0] + p, x) == Mul(Horner(p, x), x)
  {
    assert ([0] + p)[1..] == p;
    AddZero(Mul(Horner(p, x), x));
  }

  lemma EqFactorAsLine(h: Fe, alpha: Fe, x: Fe)
    ensures Add(Mul(h, Sub(1, alpha)), Mul(Mul(h, Sub(Double(alpha), 1)), x)) == Mul(EqFactor(alpha, x), h)
  {
    LiftSelf(h);
    LiftSelf(alpha);
    LiftSelf(x);
    LiftSelf(1);
    LiftSub(1, alpha);
    LiftMul(h, 1 - alpha);
    LiftAdd(alpha, alpha);
    LiftSub(alpha + alpha, 1);
    LiftMul(h, alpha + alpha - 1);
    LiftMul(h * (alpha + alpha - 1), x);
    LiftAdd(h * (1 - alpha), h * (alpha + alpha - 1) * x);
    LiftAdd(x, x);
    LiftMul(alpha, x + x);
    LiftAdd(1, alpha * (x + x));
    LiftSub(1 + alpha * (x + x), alpha);
    LiftSub(1 + alpha * (x + x) - alpha, x);
    LiftMul(1 + alpha * (x + x) - alpha - x, h);
    EqFactorPolynomial(h, alpha, x);
  }

  lemma EqFactorPolynomial(h: int, a: int, x: int)
    ensures h * (1 - a) + h * (a + a - 1) * x == (1 + a * (x + x) - a - x) * h
  {
    assert h * (a + a - 1) * x == h * ((a + a - 1) * x);
    assert (a + a - 1) * x == a * (x + x) - x;
    assert h * (1 - a) + h * (a * (x + x) - x) == h * (1 - a + (a * (x + x) - x));
  }

  lemma EqFactorAtEnds(alpha: Fe)
    ensures EqFactor(alpha, 0) == Sub(1, alpha) && EqFactor(alpha, 1) == alpha
  {
    EqFactorWeights(alpha, 0);
    EqFactorWeights(alpha, 1);
    LerpEnds(Sub(1, alpha), alpha);
  }

  // ----- the verifier

  /** The target before round |polys|: the claimed sum, then the last polynomial at the last challenge. */
  function TargetAfter(polys: seq<seq<Fe>>, challenges: seq<Fe>, expected: Fe): Fe
    requires |polys| == |challenges|
  {
    if polys == [] then expected else Horner(polys[|polys| - 1], challenges[|polys| - 1])
  }

  /** What next_sumcheck_polynomial enforces in every round. */
  ghost predicate RoundChecks(polys: seq<seq<Fe>>, challenges: seq<Fe>, expected: Fe)
    requires |polys| == |challenges|
  {
    forall r {:trigger polys[r]} | 0 <= r < |polys| ::
      Add(Horner(polys[r], 0), Horner(polys[r], 1)) == TargetAfter(polys[..r], challenges[..r], expected)
  }

  lemma ChecksByIndex(polys: seq<seq<Fe>>, challenges: seq<Fe>, expected: Fe)
    requires |polys| == |challenges|
    ensures RoundChecks(polys, challenges, expected) <==>
            && (polys != [] ==> Add(Horner(polys[0], 0), Horner(polys[0], 1)) == expected)
            && forall r {:trigger challenges[r]} | 0 <= r < |challenges| - 1 ::
                 Add(Horner(polys[r + 1], 0), Horner(polys[r + 1], 1)) == Horner(polys[r], challenges[r])
    ensures TargetAfter(polys, challenges, expected) == if polys == [] then expected else Horner(polys[|polys| - 1], challenges[|polys| - 1])
  {
    hide Horner;
    forall r: nat {:trigger polys[r]} | r < |polys|
      ensures r == 0 ==> TargetAfter(polys[..r], challenges[..r], expected) == expected
      ensures r > 0 ==> TargetAfter(polys[..r], challenges[..r], expected) == Horner(polys[r - 1], challenges[r - 1])
    {
    }
    if RoundChecks(polys, challenges, expected) {
      forall r {:trigger challenges[r]} | 0 <= r < |challenges| - 1
        ensures Add(Horner(polys[r + 1], 0), Horner(polys[r + 1], 1)) == Horner(polys[r], challenges[r])
      {
        var next := polys[r + 1];
      }
    }
  }

  /** sumcheck_verify on the polynomials it reads: every one adds up to the value of the one before at its challenge. */
  method SumcheckVerify(polys: seq<seq<Fe>>, challenges: seq<Fe>, expected: Fe) returns (ok: bool, target: Fe)
    requires |polys| == |challenges|
    ensures ok <==>
            && (polys != [] ==> Add(Horner(polys[0], 0), Horner(polys[0], 1)) == expected)
            && forall r {:trigger challenges[r]} | 0 <= r < |challenges| - 1 ::
                 Add(Horner(polys[r + 1], 0), Horner(polys[r + 1], 1)) == Horner(polys[r], challenges[r])
    ensures ok ==> target == if polys == [] then expected else Horner(polys[|polys| - 1], challenges[|polys| - 1])
    ensures ok <==> RoundChecks(polys, challenges, expected)
    ensures ok ==> target == TargetAfter(polys, challenges, expected)
  {
    ChecksByIndex(polys, challenges, expected);
    hide RoundChecks, TargetAfter, Horner;
    target := expected;
    for round := 0 to |polys|
      invariant target == if round == 0 then expected else Horner(polys[round - 1], challenges[round - 1])
      invariant round > 0 ==> Add(Horner(polys[0], 0), Horner(polys[0], 1)) == expected
      invariant forall r {:trigger challenges[r]} | 0 <= r < round - 1 ::
                  Add(Horner(polys[r + 1], 0), Horner(polys[r + 1], 1)) == Horner(polys[r], challenges[r])
    {
      var h0 := Evaluate(polys[round], 0);
      var h1 := Evaluate(polys[round], 1);
      if Add(h0, h1) != target {
        return false, target;
      }
      target := Evaluate(polys[round], challenges[round]);
    }
    return true, target;
  }

  /** The two polynomials of a round differ, and agree at the round's challenge. */
  ghost predicate MeetAt(p: seq<Fe>, q: seq<Fe>, challenge: Fe) {
    (Horner(p, 0) != Horner(q, 0) || Horner(p, 1) != Horner(q, 1)) && Horner(p, challenge) == Horner(q, challenge)
  }

  /**
   A run accepted for a wrong sum that ends with the right target: against the polynomials of a run for the right sum, in some
   round a different polynomial was sent that agrees with the right one at the challenge.
   */
  lemma {:induction false} WrongSumMeets(polys: seq<seq<Fe>>, right: seq<seq<Fe>>, challenges: seq<Fe>, wrong: Fe, sum: Fe) returns (r: nat)
    requires |polys| == |right| == |challenges| && wrong != sum
    requires RoundChecks(polys, challenges, wrong) && RoundChecks(right, challenges, sum)
    requires TargetAfter(polys, challenges, wrong) == TargetAfter(right, challenges, sum)
    ensures r < |polys| && MeetAt(polys[r], right[r], challenges[r])
    decreases |polys|
  {
    r := |polys| - 1;
    var p, q := polys[r], right[r];
    if Horner(p, 0) == Horner(q, 0) && Horner(p, 1) == Horner(q, 1) {
      assert TargetAfter(polys[..r], challenges[..r], wrong) == TargetAfter(right[..r], challenges[..r], sum);
      ChecksBefore(polys, challenges, wrong);
      ChecksBefore(right, challenges, sum);
      r := WrongSumMeets(polys[..r], right[..r], challenges[..r], wrong, sum);
    }
  }

  lemma ChecksBefore(polys: seq<seq<Fe>>, challenges: seq<Fe>, expected: Fe)
    requires |polys| == |challenges| > 0 && RoundChecks(polys, challenges, expected)
    ensures RoundChecks(polys[..|polys| - 1], challenges[..|polys| - 1], expected)
  {
    var k := |polys| - 1;
    forall r {:trigger polys[..k][r]} | 0 <= r < k
      ensures Add(Horner(polys[..k][r], 0), Horner(polys[..k][r], 1)) == TargetAfter(polys[..k][..r], challenges[..k][..r], expected)
    {
      assert polys[..k][..r] == polys[..r] && challenges[..k][..r] == challenges[..r] && polys[..k][r] == polys[r];
    }
  }

  function Product(c: seq<Fe>): Fe {
    if c == [] then 1 else Mul(Product(c[..|c| - 1]), c[|c| - 1])
  }

  /** natural_ordering_point_for_session. */
  function NaturalPoint(challenges: seq<Fe>, n: nat): (p: seq<Fe>)
    requires n <= |challenges|
    ensures |p| == n
  {
    Reversed(challenges[|challenges| - n..])
  }

  /** back_loaded_table_contribution. */
  function Contribution(busPoint: seq<Fe>, challenges: seq<Fe>, natural: seq<Fe>, constraintEval: Fe, etaPower: Fe): Fe
    requires |busPoint| == |natural| <= |challenges|
  {
    Mul(Mul(Mul(etaPower, Product(challenges[..|challenges| - |busPoint|])), Eq(busPoint, natural)), constraintEval)
  }

  // ----- the prover

  /** The per-session weights eta^i * k_i. */
  ghost function Weights(eta: seq<Fe>, k: seq<Fe>): (w: seq<Fe>)
    requires |eta| == |k|
    ensures |w| == |k| && forall i {:trigger w[i]} | 0 <= i < |w| :: w[i] == Mul(eta[i], k[i])
  {
    seq(|k|, i requires 0 <= i < |k| => Mul(eta[i], k[i]))
  }

  ghost function ValuesAt(parts: seq<seq<Fe>>, x: Fe): (v: seq<Fe>)
    ensures |v| == |parts| && forall i {:trigger v[i]} {:trigger parts[i]} | 0 <= i < |v| :: v[i] == Horner(parts[i], x)
  {
    seq(|parts|, i requires 0 <= i < |parts| => Horner(parts[i], x))
  }

  lemma DotSnoc(u: seq<Fe>, v: seq<Fe>, a: Fe, b: Fe)
    requires |u| == |v|
    ensures Dot(u + [a], v + [b]) == Add(Dot(u, v), Mul(a, b))
  {
    DotSplit(u + [a], v + [b], |u|);
    assert (u + [a])[..|u|] == u && (v + [b])[..|u|] == v;
    assert (u + [a])[|u|..] == [a] && (v + [b])[|u|..] == [b];
    assert Dot([a], [b]) == Add(Mul(a, b), Dot([a][1..], [b][1..]));
    AddZero(Mul(a, b));
  }

  lemma {:induction false} DotSame(w: seq<Fe>, u: seq<Fe>, w1: seq<Fe>, u1: seq<Fe>)
    requires |w| == |u| == |w1| == |u1|
    requires forall i {:trigger w[i]} | 0 <= i < |w| :: Mul(w[i], u[i]) == Mul(w1[i], u1[i])
    ensures Dot(w, u) == Dot(w1, u1)
    decreases |w|
  {
    if w != [] {
      forall i {:trigger w[1..][i]} | 0 <= i < |w[1..]| ensures Mul(w[1..][i], u[1..][i]) == Mul(w1[1..][i], u1[1..][i]) {
        assert w[1..][i] == w[i + 1];
      }
      DotSame(w[1..], u[1..], w1[1..], u1[1..]);
    }
  }

  /** Adds weight * part into the combined coefficients. */
  method AddScaled(combined0: seq<Fe>, part: seq<Fe>, weight: Fe) returns (combined: seq<Fe>)
    requires |part| <= |combined0|
    ensures |combined| == |combined0|
    ensures forall x: Fe :: Horner(combined, x) == Add(Horner(combined0, x), Mul(weight, Horner(part, x)))
  {
    hide Horner;
    combined := combined0;
    forall x: Fe ensures Horner(combined, x) == Add(Horner(combined0, x), Mul(weight, Horner(part[..0], x))) {
      NothingAdded(Horner(combined0, x), part, weight, x);
    }
    for i := 0 to |part|
      invariant |combined| == |combined0|
      invariant forall x: Fe :: Horner(combined, x) == Add(Horner(combined0, x), Mul(weight, Horner(part[..i], x)))
    {
      ghost var before := combined;
      combined := combined[i := Add(combined[i], Mul(weight, part[i]))];
      forall x: Fe ensures Horner(combined, x) == Add(Horner(combined0, x), Mul(weight, Horner(part[..i + 1], x))) {
        HornerUpdate(before, i, Mul(weight, part[i]), x);
        HornerSnoc(part, i, x);
        Distributes(weight, Horner(part[..i], x), Mul(part[i], Pow(x, i)));
        MulAssoc(weight, part[i], Pow(x, i));
        AddAssoc(Horner(combined0, x), Mul(weight, Horner(part[..i], x)), Mul(Mul(weight, part[i]), Pow(x, i)));
      }
    }
    assert part[..|part|] == part;
  }

  lemma NothingAdded(h: Fe, part: seq<Fe>, weight: Fe, x: Fe)
    ensures h == Add(h, Mul(weight, Horner(part[..0], x)))
  {
    MulOne(weight);
    AddZero(h);
  }

  /** A session that waits contributes the constant-sum line sum * X. */
  lemma WaitingLine(combined: seq<Fe>, after: seq<Fe>, weight: Fe, sum: Fe)
    requires |combined| >= 2 && after == combined[1 := Add(combined[1], Mul(weight, sum))]
    ensures forall x: Fe :: Horner(after, x) == Add(Horner(combined, x), Mul(weight, Horner([0, sum], x)))
    ensures forall x: Fe :: Horner([0, sum], x) == Mul(sum, x)
  {
    forall x: Fe
      ensures Horner([0, sum], x) == Mul(sum, x)
      ensures Horner(after, x) == Add(Horner(combined, x), Mul(weight, Horner([0, sum], x)))
    {
      HornerUpdate(combined, 1, Mul(weight, sum), x);
      assert Pow(x, 1) == Mul(x, Pow(x, 0));
      MulOne(x);
      assert [0, sum] == [0] + [sum];
      HornerOfShift([sum], x);
      assert [sum][1..] == [];
      AddZero(sum);
      assert Horner([sum], x) == sum;
      MulAssoc(weight, sum, x);
    }
  }

  ghost predicate AllValid(sessions: seq<AirSumcheckSession>)
    reads sessions
  {
    forall i {:trigger sessions[i]} | 0 <= i < |sessions| :: sessions[i].Valid()
  }

  ghost predicate AllDifferent(sessions: seq<AirSumcheckSession>) {
    forall i, j {:trigger sessions[i], sessions[j]} | 0 <= i < j < |sessions| :: sessions[i] != sessions[j]
  }

  /** Every session has bound exactly the challenges since it joined. */
  ghost predicate InStep(sessions: seq<AirSumcheckSession>, challenges: seq<Fe>, nRounds: nat)
    reads sessions
  {
    forall i {:trigger sessions[i]} | 0 <= i < |sessions| ::
      && sessions[i].initialNVars <= nRounds
      && sessions[i].bound == Reversed(challenges[Joined(nRounds - sessions[i].initialNVars, |challenges|)..])
  }

  /** The round a session joins at, capped by the rounds done. */
  function Joined(join: int, round: nat): (j: nat)
    ensures j <= round
  {
    if join < 0 then 0 else if join < round then join else round
  }

  /** Coordinates the prover divides by. */
  ghost predicate NonZero(alphas: seq<Fe>) { forall i {:trigger alphas[i]} | 0 <= i < |alphas| :: alphas[i] != 0 }

  ghost predicate AllNonZero(sessions: seq<AirSumcheckSession>) {
    forall i {:trigger sessions[i]} | 0 <= i < |sessions| :: NonZero(sessions[i].alphas)
  }

  ghost function Sums(sessions: seq<AirSumcheckSession>): (s: seq<Fe>)
    reads sessions
    ensures |s| == |sessions|
    ensures forall i {:trigger s[i]} {:trigger sessions[i]} | 0 <= i < |s| :: s[i] == sessions[i].sum
  {
    seq(|sessions|, i requires 0 <= i < |sessions| reads sessions => sessions[i].sum)
  }

  /** The polynomial a session sends: sum * X before it joins, eq * bare afterwards. */
  ghost predicate IsPart(s: AirSumcheckSession, part: seq<Fe>, bare: Option<seq<Fe>>, round: nat, join: int)
    requires s.Valid()
    reads s
  {
    if round < join then
      bare.None? && forall x: Fe :: Horner(part, x) == Mul(s.sum, x)
    else
      && bare.Some? && s.eqFactor != []
      && (forall x: Fe :: Horner(part, x) == Mul(EqFactor(s.EqAlpha(), x), Horner(bare.value, x)))
      && Add(Horner(part, 0), Horner(part, 1)) == s.sum
      && (s.Honest() ==> forall z: Fe :: Horner(bare.value, z) == RoundValue(s.air, s.table, s.eqFactor, s.bound, s.missingMulFactor, z))
  }

  lemma PartSum(s: AirSumcheckSession, part: seq<Fe>, bare: Option<seq<Fe>>, round: nat, join: int)
    requires s.Valid() && IsPart(s, part, bare, round, join)
    ensures Add(Horner(part, 0), Horner(part, 1)) == s.sum
  {
    if round < join {
      MulOne(s.sum);
      AddZero(s.sum);
    }
  }

  lemma StillFree(s: AirSumcheckSession, round: nat, nRounds: nat)
    requires s.Valid() && s.initialNVars <= nRounds && round < nRounds && nRounds - s.initialNVars <= round
    requires |s.bound| == round - (nRounds - s.initialNVars) && NonZero(s.alphas)
    ensures s.eqFactor != [] && s.EqAlpha() != 0
  {
  }

  /** in_phase_1: the storage is still packed. */
  predicate InPhase1(roundsDone: nat, n: nat, laneBits: nat) {
    roundsDone + laneBits < Pivot(n) && roundsDone + laneBits + 1 < n
  }

  method SessionPart(s: AirSumcheckSession, round: nat, nRounds: nat, laneBits: nat)
    returns (part: seq<Fe>, bare: Option<seq<Fe>>)
    requires s.Valid() && s.initialNVars <= nRounds && round < nRounds && nRounds - s.initialNVars <= round
    requires |s.bound| == round - (nRounds - s.initialNVars) && NonZero(s.alphas)
    ensures |part| == s.air.degree + 2 && IsPart(s, part, bare, round, nRounds - s.initialNVars)
  {
    StillFree(s, round, nRounds);
    assert 1 <= s.air.degree;
    hide AirSumcheckSession.Valid, AirSumcheckSession.Honest, Horner, RoundValue, EqFactor;
    var packed := InPhase1(s.roundsDone, s.initialNVars, laneBits);
    var p := s.ComputeBareRoundPoly(!packed, laneBits, packed);
    part := ExpandBareToFull(p, s.EqAlpha());
    bare := Some(p);
    EqFactorAtEnds(s.EqAlpha());
  }
}
