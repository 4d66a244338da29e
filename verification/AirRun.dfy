/**
 A whole run of the batched AIR sumcheck: every combined polynomial sums to the previous
 target, and the last target is what the verifier's formula gives
 (crates/sub_protocols/src/air_sumcheck.rs, crates/lean_prover/src/verify_execution.rs).
 */
module AirRun {
  import opened Field
  import opened Multilinear
  import opened Coefficients
  import opened Interpolation
  import opened StorageLayout
  import opened AirRounds
  import opened AirSession
  import opened AirBatch

  // ----- one round

  ghost predicate IsCombination(combined: seq<Fe>, w: seq<Fe>, parts: seq<seq<Fe>>)
    requires |w| == |parts|
  {
    forall x: Fe :: Horner(combined, x) == Dot(w, ValuesAt(parts, x))
  }

  lemma OneMorePart(before: seq<Fe>, after: seq<Fe>, w: seq<Fe>, parts: seq<seq<Fe>>, weight: Fe, part: seq<Fe>)
    requires |w| == |parts| && IsCombination(before, w, parts)
    requires forall x: Fe :: Horner(after, x) == Add(Horner(before, x), Mul(weight, Horner(part, x)))
    ensures IsCombination(after, w + [weight], parts + [part])
  {
    hide Horner;
    forall x: Fe ensures Horner(after, x) == Dot(w + [weight], ValuesAt(parts + [part], x)) {
      assert ValuesAt(parts + [part], x) == ValuesAt(parts, x) + [Horner(part, x)];
      DotSnoc(w, ValuesAt(parts, x), weight, Horner(part, x));
    }
  }

  lemma NoParts(zeros: seq<Fe>)
    requires forall i {:trigger zeros[i]} | 0 <= i < |zeros| :: zeros[i] == 0
    ensures IsCombination(zeros, [], [])
  {
    forall x: Fe ensures Horner(zeros, x) == Dot([], ValuesAt([], x)) {
      HornerOfZeros(zeros, x);
    }
  }

  ghost predicate AllParts(sessions: seq<AirSumcheckSession>, parts: seq<seq<Fe>>, bares: seq<Option<seq<Fe>>>, round: nat, nRounds: nat, count: nat)
    requires AllValid(sessions) && |parts| >= count && |bares| >= count && |sessions| >= count
    reads sessions
  {
    forall i {:trigger sessions[i]} | 0 <= i < count ::
      IsPart(sessions[i], parts[i], bares[i], round, nRounds - sessions[i].initialNVars)
  }

  ghost predicate DegreesFit(sessions: seq<AirSumcheckSession>, bound: nat) {
    forall i {:trigger sessions[i]} | 0 <= i < |sessions| :: sessions[i].air.degree + 1 <= bound
  }

  lemma BoundLength(s: AirSumcheckSession, challenges: seq<Fe>, nRounds: nat)
    requires s.initialNVars <= nRounds && |challenges| <= nRounds
    requires s.bound == Reversed(challenges[Joined(nRounds - s.initialNVars, |challenges|)..])
    ensures nRounds - s.initialNVars <= |challenges| ==> |s.bound| == |challenges| - (nRounds - s.initialNVars)
    ensures nRounds - s.initialNVars >= |challenges| ==> s.bound == []
  {
  }

  /** One session's contribution to the combined polynomial. */
  method CombineOne(session: AirSumcheckSession, weight: Fe, combined0: seq<Fe>, round: nat, nRounds: nat, laneBits: nat,
                    ghost challenges: seq<Fe>)
    returns (combined: seq<Fe>, bare: Option<seq<Fe>>, ghost part: seq<Fe>)
    requires session.Valid() && session.initialNVars <= nRounds && NonZero(session.alphas)
    requires |challenges| == round < nRounds && |combined0| >= 2 && |combined0| >= session.air.degree + 2
    requires session.bound == Reversed(challenges[Joined(nRounds - session.initialNVars, round)..])
    ensures |combined| == |combined0|
    ensures IsPart(session, part, bare, round, nRounds - session.initialNVars)
    ensures forall x: Fe :: Horner(combined, x) == Add(Horner(combined0, x), Mul(weight, Horner(part, x)))
  {
    hide Horner, IsPart, AirSumcheckSession.Valid, NonZero;
    var joinRound := nRounds - session.initialNVars;
    BoundLength(session, challenges, nRounds);
    if round < joinRound {
      combined := combined0[1 := Add(combined0[1], Mul(weight, session.sum))];
      part := [0, session.sum];
      bare := None;
      WaitingLine(combined0, combined, weight, session.sum);
      WaitingPart(session, round, joinRound);
    } else {
      var full;
      full, bare := SessionPart(session, round, nRounds, laneBits);
      part := full;
      combined := AddScaled(combined0, full, weight);
    }
  }

  /** The combined polynomial of a round. */
  method CombineRound(sessions: seq<AirSumcheckSession>, etaPowers: seq<Fe>, k: seq<Fe>, round: nat, nRounds: nat,
                      maxFullDegree: nat, laneBits: nat, ghost challenges: seq<Fe>)
    returns (combined: seq<Fe>, bares: seq<Option<seq<Fe>>>, ghost parts: seq<seq<Fe>>)
    requires |etaPowers| == |k| == |sessions| && |challenges| == round < nRounds
    requires AllValid(sessions) && InStep(sessions, challenges, nRounds) && AllNonZero(sessions)
    requires DegreesFit(sessions, maxFullDegree) && 1 <= maxFullDegree
    ensures |combined| == maxFullDegree + 1 && |bares| == |parts| == |sessions|
    ensures AllParts(sessions, parts, bares, round, nRounds, |sessions|)
    ensures IsCombination(combined, Weights(etaPowers, k), parts)
  {
    hide Horner, IsPart, IsCombination, AirSumcheckSession.Valid, NonZero, Joined;
    combined := seq(maxFullDegree + 1, _ => 0);
    bares := [];
    parts := [];
    ghost var all := Weights(etaPowers, k);
    NoParts(combined);
    assert all[..0] == [];
    for idx := 0 to |sessions|
      invariant |combined| == maxFullDegree + 1 && |bares| == |parts| == idx
      invariant AllParts(sessions, parts, bares, round, nRounds, idx)
      invariant IsCombination(combined, all[..idx], parts)
    {
      var session := sessions[idx];
      assert session.Valid() && NonZero(session.alphas) && session.air.degree + 1 <= maxFullDegree;
      var weight := Mul(etaPowers[idx], k[idx]);
      ghost var before := combined;
      var bare;
      ghost var part;
      combined, bare, part := CombineOne(session, weight, combined, round, nRounds, laneBits, challenges);
      OneMorePart(before, combined, all[..idx], parts, weight, part);
      assert all[..idx + 1] == all[..idx] + [weight];
      bares := bares + [bare];
      parts := parts + [part];
    }
    assert all[..|sessions|] == all;
  }

  lemma WaitingPart(s: AirSumcheckSession, round: nat, join: int)
    requires s.Valid() && round < join
    requires forall x: Fe :: Horner([0, s.sum], x) == Mul(s.sum, x)
    ensures IsPart(s, [0, s.sum], None, round, join)
  {
  }

  /** The combined polynomial sums to the weighted sum of the sessions' claims. */
  lemma CombinedSum(sessions: seq<AirSumcheckSession>, w: seq<Fe>, combined: seq<Fe>, parts: seq<seq<Fe>>,
                    bares: seq<Option<seq<Fe>>>, round: nat, nRounds: nat)
    requires AllValid(sessions) && |parts| == |bares| == |w| == |sessions|
    requires AllParts(sessions, parts, bares, round, nRounds, |sessions|) && IsCombination(combined, w, parts)
    ensures Add(Horner(combined, 0), Horner(combined, 1)) == Dot(w, Sums(sessions))
  {
    hide Horner, IsPart, AirSumcheckSession.Valid;
    var s := Sums(sessions);
    forall i {:trigger s[i]} | 0 <= i < |s|
      ensures Add(ValuesAt(parts, 0)[i], ValuesAt(parts, 1)[i]) == s[i]
    {
      assert sessions[i].Valid();
      PartSum(sessions[i], parts[i], bares[i], round, nRounds - sessions[i].initialNVars);
    }
    DotAdd(w, ValuesAt(parts, 0), ValuesAt(parts, 1), s);
  }

  // ----- answering the challenge

  ghost predicate AllHonest(sessions: seq<AirSumcheckSession>)
    requires AllValid(sessions)
    reads sessions
  {
    forall i {:trigger sessions[i]} | 0 <= i < |sessions| :: sessions[i].Honest()
  }

  /** One session after the challenge: it waits unchanged, or binds one more variable. */
  ghost predicate Stepped(s: AirSumcheckSession, part: seq<Fe>, round: nat, join: int, c: Fe, sum0: Fe, bound0: seq<Fe>, honest0: bool)
    reads s
  {
    && s.Valid()
    && (if round < join then s.sum == sum0 && s.bound == bound0 else s.bound == [c] + bound0 && s.sum == Horner(part, c))
    && (honest0 ==> s.Honest())
  }

  method ProcessOne(s: AirSumcheckSession, bare: seq<Fe>, c: Fe, ghost part: seq<Fe>, ghost round: nat, ghost join: int)
    requires s.Valid() && round >= join && IsPart(s, part, Some(bare), round, join)
    modifies s
    ensures Stepped(s, part, round, join, c, old(s.sum), old(s.bound), old(s.Honest()))
  {
    assert s.eqFactor != [];
    assert Horner(part, c) == Mul(EqFactor(s.EqAlpha(), c), Horner(bare, c));
    MulComm(EqFactor(s.EqAlpha(), c), Horner(bare, c));
    assert s.Honest() ==>
      Horner(bare, c) == RoundValue(s.air, s.table, s.eqFactor, s.bound, s.missingMulFactor, c);
    hide Horner, AirSumcheckSession.Valid, AirSumcheckSession.Honest, RoundValue, EqFactor;
    s.ProcessChallenge(c, bare);
  }

  ghost function MultiplierAfter(k: Fe, c: Fe, round: nat, join: int): Fe {
    if round < join then Mul(k, c) else k
  }

  ghost function Bounds(sessions: seq<AirSumcheckSession>): (b: seq<seq<Fe>>)
    reads sessions
    ensures |b| == |sessions|
    ensures forall i {:trigger b[i]} {:trigger sessions[i]} | 0 <= i < |b| :: b[i] == sessions[i].bound
  {
    seq(|sessions|, i requires 0 <= i < |sessions| reads sessions => sessions[i].bound)
  }

  /** The first `count` sessions have stepped and their multipliers moved on accordingly. */
  ghost predicate AllStepped(sessions: seq<AirSumcheckSession>, parts: seq<seq<Fe>>, round: nat, nRounds: nat, c: Fe,
                             k0: seq<Fe>, k: seq<Fe>, sums: seq<Fe>, bounds: seq<seq<Fe>>, honest: bool, count: nat)
    requires |parts| == |sessions| == |k| == |k0| == |sums| == |bounds| && count <= |sessions|
    reads sessions
  {
    forall i {:trigger sessions[i]} | 0 <= i < count ::
      Stepped(sessions[i], parts[i], round, nRounds - sessions[i].initialNVars, c, sums[i], bounds[i], honest)
      && k[i] == MultiplierAfter(k0[i], c, round, nRounds - sessions[i].initialNVars)
  }

  /** A session that has not answered the challenge yet. */
  ghost predicate Due(s: AirSumcheckSession, part: seq<Fe>, bare: Option<seq<Fe>>, round: nat, join: int, sum0: Fe, bound0: seq<Fe>, honest0: bool)
    reads s
  {
    s.Valid() && IsPart(s, part, bare, round, join) && s.sum == sum0 && s.bound == bound0 && (honest0 ==> s.Honest())
  }

  /** One session and its multiplier answer the challenge. */
  method AnswerOne(session: AirSumcheckSession, bare: Option<seq<Fe>>, k0: Fe, round: nat, joinRound: int, challenge: Fe,
                   ghost part: seq<Fe>, ghost sum0: Fe, ghost bound0: seq<Fe>, ghost honest: bool)
    returns (k: Fe)
    requires Due(session, part, bare, round, joinRound, sum0, bound0, honest)
    modifies session
    ensures Stepped(session, part, round, joinRound, challenge, sum0, bound0, honest)
    ensures k == MultiplierAfter(k0, challenge, round, joinRound)
  {
    hide Horner, IsPart, AirSumcheckSession.Valid, AirSumcheckSession.Honest, Stepped;
    PartIsBare(session, part, bare, round, joinRound);
    k := k0;
    if round < joinRound {
      k := Mul(k, challenge);
      WaitingStep(session, part, round, joinRound, challenge, honest);
    } else if bare.Some? {
      ghost var wasHonest := session.Honest();
      ProcessOne(session, bare.value, challenge, part, round, joinRound);
      HonestyWeakens(session, part, round, joinRound, challenge, sum0, bound0, wasHonest, honest);
    }
  }

  /** The sessions from `from` on have not answered the challenge yet. */
  ghost predicate AllDue(sessions: seq<AirSumcheckSession>, parts: seq<seq<Fe>>, bares: seq<Option<seq<Fe>>>, round: nat, nRounds: nat,
                         sums: seq<Fe>, bounds: seq<seq<Fe>>, honest: bool, from: nat)
    requires |parts| == |bares| == |sessions| == |sums| == |bounds|
    reads sessions
  {
    forall i {:trigger sessions[i]} | from <= i < |sessions| ::
      Due(sessions[i], parts[i], bares[i], round, nRounds - sessions[i].initialNVars, sums[i], bounds[i], honest)
  }

  /** Session idx answers; the earlier ones have, the later ones have not. */
  method AnswerNext(sessions: seq<AirSumcheckSession>, bares: seq<Option<seq<Fe>>>, k1: seq<Fe>, round: nat, nRounds: nat, challenge: Fe, idx: nat,
                    ghost parts: seq<seq<Fe>>, ghost k0: seq<Fe>, ghost sums: seq<Fe>, ghost bounds: seq<seq<Fe>>, ghost honest: bool)
    returns (k: seq<Fe>)
    requires |k0| == |k1| == |parts| == |bares| == |sessions| == |sums| == |bounds| && AllDifferent(sessions) && idx < |sessions|
    requires AllDue(sessions, parts, bares, round, nRounds, sums, bounds, honest, idx) && k1[idx] == k0[idx]
    requires AllStepped(sessions, parts, round, nRounds, challenge, k0, k1, sums, bounds, honest, idx)
    modifies sessions[idx]
    ensures |k| == |k1| && k == k1[idx := k[idx]]
    ensures AllDue(sessions, parts, bares, round, nRounds, sums, bounds, honest, idx + 1)
    ensures AllStepped(sessions, parts, round, nRounds, challenge, k0, k, sums, bounds, honest, idx + 1)
  {
    hide Horner, IsPart, AirSumcheckSession.Valid, AirSumcheckSession.Honest, Stepped, MultiplierAfter, Due;
    var session := sessions[idx];
    var kNew := AnswerOne(session, bares[idx], k1[idx], round, nRounds - session.initialNVars, challenge, parts[idx], sums[idx], bounds[idx], honest);
    k := k1[idx := kNew];
  }

  method ProcessRound(sessions: seq<AirSumcheckSession>, bares: seq<Option<seq<Fe>>>, k0: seq<Fe>, round: nat, nRounds: nat,
                      challenge: Fe, ghost parts: seq<seq<Fe>>)
    returns (k: seq<Fe>)
    requires |k0| == |sessions| == |bares| == |parts| && AllDifferent(sessions) && AllValid(sessions)
    requires AllParts(sessions, parts, bares, round, nRounds, |sessions|)
    modifies sessions
    ensures |k| == |k0|
    ensures AllStepped(sessions, parts, round, nRounds, challenge, k0, k, old(Sums(sessions)), old(Bounds(sessions)),
                       old(AllHonest(sessions)), |sessions|)
  {
    hide Horner, IsPart, AirSumcheckSession.Valid, AirSumcheckSession.Honest, Stepped, MultiplierAfter;
    k := k0;
    ghost var sums, bounds, honest := Sums(sessions), Bounds(sessions), AllHonest(sessions);
    assert AllDue(sessions, parts, bares, round, nRounds, sums, bounds, honest, 0);
    assert AllStepped(sessions, parts, round, nRounds, challenge, k0, k, sums, bounds, honest, 0);
    hide Due, AllDue, AllParts, AllHonest, AllValid, AllDifferent, AllStepped, Sums, Bounds;
    for idx := 0 to |sessions|
      invariant |k| == |k0|
      invariant forall i {:trigger k[i]} | idx <= i < |k0| :: k[i] == k0[i]
      invariant AllDue(sessions, parts, bares, round, nRounds, sums, bounds, honest, idx)
      invariant AllStepped(sessions, parts, round, nRounds, challenge, k0, k, sums, bounds, honest, idx)
    {
      k := AnswerNext(sessions, bares, k, round, nRounds, challenge, idx, parts, k0, sums, bounds, honest);
    }
  }

  lemma WaitingStep(s: AirSumcheckSession, part: seq<Fe>, round: nat, join: int, c: Fe, honest: bool)
    requires s.Valid() && round < join && (honest ==> s.Honest())
    ensures Stepped(s, part, round, join, c, s.sum, s.bound, honest)
  {
  }

  lemma HonestyWeakens(s: AirSumcheckSession, part: seq<Fe>, round: nat, join: int, c: Fe, sum0: Fe, bound0: seq<Fe>, strong: bool, weak: bool)
    requires Stepped(s, part, round, join, c, sum0, bound0, strong) && (weak ==> strong)
    ensures Stepped(s, part, round, join, c, sum0, bound0, weak)
  {
  }

  lemma PartIsBare(s: AirSumcheckSession, part: seq<Fe>, bare: Option<seq<Fe>>, round: nat, join: int)
    requires s.Valid() && IsPart(s, part, bare, round, join)
    ensures bare.Some? <==> round >= join
  {
  }

  // ----- the run

  ghost predicate Multipliers(k: seq<Fe>, sessions: seq<AirSumcheckSession>, challenges: seq<Fe>, nRounds: nat) {
    |k| == |sessions|
    && forall i {:trigger k[i]} {:trigger sessions[i]} | 0 <= i < |k| ::
         k[i] == Product(challenges[..Joined(nRounds - sessions[i].initialNVars, |challenges|)])
  }

  lemma BoundStep(challenges: seq<Fe>, c: Fe, join: int)
    ensures join > |challenges| ==> Reversed((challenges + [c])[Joined(join, |challenges| + 1)..]) == []
    ensures join == |challenges| ==> Reversed((challenges + [c])[Joined(join, |challenges| + 1)..]) == [c]
    ensures join <= |challenges| ==>
              Reversed((challenges + [c])[Joined(join, |challenges| + 1)..]) == [c] + Reversed(challenges[Joined(join, |challenges|)..])
    ensures join > |challenges| ==> Reversed(challenges[Joined(join, |challenges|)..]) == []
  {
    if join <= |challenges| {
      var j := Joined(join, |challenges|);
      assert (challenges + [c])[j..] == challenges[j..] + [c];
      ReversedSnoc(challenges[j..], c);
    }
  }

  lemma MultiplierStep(challenges: seq<Fe>, c: Fe, join: int, k: Fe)
    requires k == Product(challenges[..Joined(join, |challenges|)])
    ensures MultiplierAfter(k, c, |challenges|, join) == Product((challenges + [c])[..Joined(join, |challenges| + 1)])
  {
    var all := challenges + [c];
    if |challenges| < join {
      assert all[..|challenges| + 1] == all && all[..|challenges|] == challenges;
      assert challenges[..|challenges|] == challenges;
    } else {
      var j := Joined(join, |challenges|);
      assert all[..j] == challenges[..j];
    }
  }

  /** The weighted claims after the challenge are the combined polynomial's value there. */
  lemma TargetStep(etaPowers: seq<Fe>, k: seq<Fe>, k1: seq<Fe>, sums: seq<Fe>, sums1: seq<Fe>, vals: seq<Fe>, waiting: seq<bool>, c: Fe)
    requires |etaPowers| == |k| == |k1| == |sums| == |sums1| == |vals| == |waiting|
    requires forall i {:trigger waiting[i]} | 0 <= i < |k| ::
               if waiting[i] then vals[i] == Mul(sums[i], c) && sums1[i] == sums[i] && k1[i] == Mul(k[i], c)
               else sums1[i] == vals[i] && k1[i] == k[i]
    ensures Dot(Weights(etaPowers, k1), sums1) == Dot(Weights(etaPowers, k), vals)
  {
    var w1, w := Weights(etaPowers, k1), Weights(etaPowers, k);
    forall i {:trigger w1[i]} | 0 <= i < |w1| ensures Mul(w1[i], sums1[i]) == Mul(w[i], vals[i]) {
      if waiting[i] {
        MulAssoc(etaPowers[i], k[i], c);
        MulAssoc(w[i], c, sums[i]);
        MulComm(c, sums[i]);
      }
    }
    DotSame(w1, sums1, w, vals);
  }

  method MaxRounds(sessions: seq<AirSumcheckSession>) returns (n: nat)
    ensures forall i {:trigger sessions[i]} | 0 <= i < |sessions| :: sessions[i].initialNVars <= n
    ensures n > 0 ==> exists i {:trigger sessions[i]} :: 0 <= i < |sessions| && sessions[i].initialNVars == n
  {
    n := 0;
    for i := 0 to |sessions|
      invariant forall j {:trigger sessions[j]} | 0 <= j < i :: sessions[j].initialNVars <= n
      invariant n > 0 ==> exists j {:trigger sessions[j]} :: 0 <= j < i && sessions[j].initialNVars == n
    {
      if sessions[i].initialNVars > n {
        n := sessions[i].initialNVars;
      }
    }
  }

  method MaxFullDegree(sessions: seq<AirSumcheckSession>) returns (d: nat)
    ensures d >= 1 && DegreesFit(sessions, d)
  {
    d := 1;
    for i := 0 to |sessions|
      invariant d >= 1 && forall j {:trigger sessions[j]} | 0 <= j < i :: sessions[j].air.degree + 1 <= d
    {
      if sessions[i].air.degree + 1 > d {
        d := sessions[i].air.degree + 1;
      }
    }
  }

  /** eta.powers(). */
  method EtaPowers(eta: Fe, count: nat) returns (p: seq<Fe>)
    ensures |p| == count && forall i {:trigger p[i]} | 0 <= i < count :: p[i] == Pow(eta, i)
  {
    p := [];
    var power: Fe := 1;
    for i := 0 to count
      invariant |p| == i && power == Pow(eta, i)
      invariant forall j {:trigger p[j]} | 0 <= j < i :: p[j] == Pow(eta, j)
    {
      p := p + [power];
      MulComm(power, eta);
      power := Mul(power, eta);
    }
  }

  /** What one round does to the run's invariants. */
  lemma RoundKeeps(sessions: seq<AirSumcheckSession>, parts: seq<seq<Fe>>, challenges: seq<Fe>, c: Fe, nRounds: nat,
                   k: seq<Fe>, k1: seq<Fe>, sums: seq<Fe>, bounds: seq<seq<Fe>>, honest: bool)
    requires |parts| == |sessions| == |k| == |k1| == |sums| == |bounds| && BoundsInStep(sessions, bounds, challenges, nRounds)
    requires Multipliers(k, sessions, challenges, nRounds)
    requires AllStepped(sessions, parts, |challenges|, nRounds, c, k, k1, sums, bounds, honest, |sessions|)
    ensures AllValid(sessions) && InStep(sessions, challenges + [c], nRounds)
    ensures Multipliers(k1, sessions, challenges + [c], nRounds)
    ensures honest ==> AllHonest(sessions)
  {
    hide AirSumcheckSession.Valid, AirSumcheckSession.Honest, Horner, Joined, MultiplierAfter;
    forall i {:trigger sessions[i]} | 0 <= i < |sessions|
      ensures sessions[i].Valid()
      ensures honest ==> sessions[i].Honest()
      ensures sessions[i].initialNVars <= nRounds
      ensures sessions[i].bound == Reversed((challenges + [c])[Joined(nRounds - sessions[i].initialNVars, |challenges| + 1)..])
      ensures k1[i] == Product((challenges + [c])[..Joined(nRounds - sessions[i].initialNVars, |challenges| + 1)])
    {
      var join := nRounds - sessions[i].initialNVars;
      assert Stepped(sessions[i], parts[i], |challenges|, join, c, sums[i], bounds[i], honest);
      BoundStep(challenges, c, join);
      MultiplierStep(challenges, c, join, k[i]);
    }
  }

  ghost predicate BoundsInStep(sessions: seq<AirSumcheckSession>, bounds: seq<seq<Fe>>, challenges: seq<Fe>, nRounds: nat)
    requires |bounds| == |sessions|
  {
    forall i {:trigger bounds[i]} {:trigger sessions[i]} | 0 <= i < |sessions| ::
      && sessions[i].initialNVars <= nRounds
      && bounds[i] == Reversed(challenges[Joined(nRounds - sessions[i].initialNVars, |challenges|)..])
  }

  ghost predicate Waits(s: AirSumcheckSession, nRounds: nat, round: nat) { round < nRounds - s.initialNVars }

  ghost function Waiting(sessions: seq<AirSumcheckSession>, nRounds: nat, round: nat): (w: seq<bool>)
    ensures |w| == |sessions| && forall i {:trigger w[i]} | 0 <= i < |w| :: w[i] == Waits(sessions[i], nRounds, round)
  {
    seq(|sessions|, i requires 0 <= i < |sessions| => Waits(sessions[i], nRounds, round))
  }

  lemma WaitingValues(sessions: seq<AirSumcheckSession>, parts: seq<seq<Fe>>, bares: seq<Option<seq<Fe>>>, round: nat, nRounds: nat, c: Fe)
    requires AllValid(sessions) && |parts| == |bares| == |sessions|
    requires AllParts(sessions, parts, bares, round, nRounds, |sessions|)
    ensures forall i {:trigger ValuesAt(parts, c)[i]} | 0 <= i < |sessions| ::
              Waits(sessions[i], nRounds, round) ==> ValuesAt(parts, c)[i] == Mul(sessions[i].sum, c)
  {
    hide AirSumcheckSession.Valid, Horner;
    forall i {:trigger ValuesAt(parts, c)[i]} | 0 <= i < |sessions|
      ensures Waits(sessions[i], nRounds, round) ==> ValuesAt(parts, c)[i] == Mul(sessions[i].sum, c)
    {
      assert IsPart(sessions[i], parts[i], bares[i], round, nRounds - sessions[i].initialNVars);
    }
  }

  lemma ChecksSnoc(polys: seq<seq<Fe>>, challenges: seq<Fe>, expected: Fe, poly: seq<Fe>, c: Fe)
    requires |polys| == |challenges| && RoundChecks(polys, challenges, expected)
    requires Add(Horner(poly, 0), Horner(poly, 1)) == TargetAfter(polys, challenges, expected)
    ensures RoundChecks(polys + [poly], challenges + [c], expected)
    ensures TargetAfter(polys + [poly], challenges + [c], expected) == Horner(poly, c)
  {
    var p, q := polys + [poly], challenges + [c];
    forall r {:trigger p[r]} | 0 <= r < |p|
      ensures Add(Horner(p[r], 0), Horner(p[r], 1)) == TargetAfter(p[..r], q[..r], expected)
    {
      if r < |polys| {
        assert p[..r] == polys[..r] && q[..r] == challenges[..r];
        assert polys[r] == p[r];
      } else {
        assert p[..r] == polys && q[..r] == challenges;
      }
    }
  }

  /** One round: the polynomial is sent, then every session answers the challenge. */
  method RunRound(sessions: seq<AirSumcheckSession>, etaPowers: seq<Fe>, k0: seq<Fe>, challenges: seq<Fe>, challenge: Fe,
                  nRounds: nat, maxFullDegree: nat, laneBits: nat)
    returns (combined: seq<Fe>, k: seq<Fe>)
    requires AllDifferent(sessions) && AllValid(sessions) && AllNonZero(sessions) && |etaPowers| == |k0| == |sessions|
    requires InStep(sessions, challenges, nRounds) && Multipliers(k0, sessions, challenges, nRounds)
    requires |challenges| < nRounds && DegreesFit(sessions, maxFullDegree) && 1 <= maxFullDegree
    modifies sessions
    ensures AllValid(sessions) && |k| == |sessions|
    ensures InStep(sessions, challenges + [challenge], nRounds) && Multipliers(k, sessions, challenges + [challenge], nRounds)
    ensures Add(Horner(combined, 0), Horner(combined, 1)) == old(Dot(Weights(etaPowers, k0), Sums(sessions)))
    ensures Horner(combined, challenge) == Dot(Weights(etaPowers, k), Sums(sessions))
    ensures old(AllHonest(sessions)) ==> AllHonest(sessions)
  {
    hide Horner, AirSumcheckSession.Valid, AirSumcheckSession.Honest, IsPart, IsCombination, AllStepped, Joined, NonZero,
      MultiplierAfter, Waits;
    var round := |challenges|;
    var bares;
    ghost var parts;
    combined, bares, parts := CombineRound(sessions, etaPowers, k0, round, nRounds, maxFullDegree, laneBits, challenges);
    CombinedSum(sessions, Weights(etaPowers, k0), combined, parts, bares, round, nRounds);
    WaitingValues(sessions, parts, bares, round, nRounds, challenge);
    ghost var vals := ValuesAt(parts, challenge);
    ghost var sums := Sums(sessions);
    ghost var bounds, honest := Bounds(sessions), AllHonest(sessions);
    k := ProcessRound(sessions, bares, k0, round, nRounds, challenge, parts);
    RoundKeeps(sessions, parts, challenges, challenge, nRounds, k0, k, sums, bounds, honest);
    NewSums(sessions, parts, challenges, challenge, nRounds, k0, k, sums, bounds, honest, vals);
    TargetStep(etaPowers, k0, k, sums, Sums(sessions), vals, Waiting(sessions, nRounds, round), challenge);
    CombinationAt(combined, Weights(etaPowers, k0), parts, challenge);
  }

  ghost predicate Fresh(sessions: seq<AirSumcheckSession>, nRounds: nat)
    reads sessions
  {
    forall i {:trigger sessions[i]} | 0 <= i < |sessions| :: sessions[i].bound == [] && sessions[i].initialNVars <= nRounds
  }

  /** All rounds of the prover. */
  method RunRounds(sessions: seq<AirSumcheckSession>, etaPowers: seq<Fe>, sampled: seq<Fe>, maxFullDegree: nat, laneBits: nat)
    returns (polys: seq<seq<Fe>>, ghost k: seq<Fe>)
    requires AllDifferent(sessions) && AllValid(sessions) && AllNonZero(sessions) && |etaPowers| == |sessions|
    requires Fresh(sessions, |sampled|) && DegreesFit(sessions, maxFullDegree) && 1 <= maxFullDegree
    modifies sessions
    ensures |polys| == |sampled| && AllValid(sessions) && |k| == |sessions|
    ensures RoundChecks(polys, sampled, Dot(etaPowers, old(Sums(sessions))))
    ensures InStep(sessions, sampled, |sampled|) && Multipliers(k, sessions, sampled, |sampled|)
    ensures TargetAfter(polys, sampled, Dot(etaPowers, old(Sums(sessions)))) == Dot(Weights(etaPowers, k), Sums(sessions))
    ensures old(AllHonest(sessions)) ==> AllHonest(sessions)
  {
    hide *;
    var multipliers: seq<Fe> := Ones(|sessions|);
    polys := [];
    var nRounds := |sampled|;
    ghost var expected := Dot(etaPowers, Sums(sessions));
    ghost var honest := AllHonest(sessions);
    RunStart(sessions, etaPowers, multipliers, sampled, expected);
    for round := 0 to nRounds
      invariant |polys| == round && |multipliers| == |sessions| && AllValid(sessions)
      invariant InStep(sessions, sampled[..round], nRounds) && Multipliers(multipliers, sessions, sampled[..round], nRounds)
      invariant honest ==> AllHonest(sessions)
      invariant RoundChecks(polys, sampled[..round], expected)
      invariant TargetAfter(polys, sampled[..round], expected) == Dot(Weights(etaPowers, multipliers), Sums(sessions))
    {
      var combined;
      combined, multipliers := RunRound(sessions, etaPowers, multipliers, sampled[..round], sampled[round], nRounds, maxFullDegree, laneBits);
      ChecksSnoc(polys, sampled[..round], expected, combined, sampled[round]);
      polys := polys + [combined];
      assert sampled[..round + 1] == sampled[..round] + [sampled[round]];
    }
    assert sampled[..nRounds] == sampled;
    k := multipliers;
  }

  function Ones(n: nat): (r: seq<Fe>)
    ensures |r| == n && forall i {:trigger r[i]} | 0 <= i < n :: r[i] == 1
  {
    seq(n, _ => 1)
  }

  /**
   prove_batched_air_sumcheck: `sampled` are the challenges the transcript returns.  Whatever
   they are, every combined polynomial sums to the previous target, and honest sessions end
   with the claims the verifier's formula needs.
   */
  method ProveBatchedAirSumcheck(sessions: seq<AirSumcheckSession>, eta: Fe, sampled: seq<Fe>, laneBits: nat)
    returns (polys: seq<seq<Fe>>, etaPowers: seq<Fe>)
    requires AllDifferent(sessions) && AllValid(sessions) && AllNonZero(sessions) && Fresh(sessions, |sampled|)
    requires |sampled| > 0 ==> exists i {:trigger sessions[i]} :: 0 <= i < |sessions| && sessions[i].initialNVars == |sampled|
    modifies sessions
    ensures |polys| == |sampled| && AllValid(sessions) && |etaPowers| == |sessions| && TablesFit(sessions, |sampled|)
    ensures forall i {:trigger etaPowers[i]} | 0 <= i < |etaPowers| :: etaPowers[i] == Pow(eta, i)
    ensures RoundChecks(polys, sampled, Dot(etaPowers, old(Sums(sessions))))
    ensures forall i {:trigger sessions[i]} | 0 <= i < |sessions| ::
              sessions[i].initialNVars <= |sampled| && sessions[i].bound == NaturalPoint(sampled, sessions[i].initialNVars)
    ensures PointsFit(BusPoints(sessions), |sampled|)
    ensures old(AllHonest(sessions)) ==>
              TargetAfter(polys, sampled, Dot(etaPowers, old(Sums(sessions))))
              == ContributionSum(BusPoints(sessions), sampled, FinalEvals(sessions, sampled), etaPowers, |sessions|)
  {
    var nRounds := MaxRounds(sessions);
    assert nRounds == |sampled|;
    hide *;
    var maxFullDegree := MaxFullDegree(sessions);
    etaPowers := EtaPowers(eta, |sessions|);
    ghost var honest := AllHonest(sessions);
    ghost var k;
    polys, k := RunRounds(sessions, etaPowers, sampled, maxFullDegree, laneBits);
    FinalBound(sessions, sampled);
    PointsOfTables(sessions, |sampled|);
    if honest {
      FinalTarget(sessions, sampled, etaPowers, k);
    }
  }

  lemma CombinationAt(combined: seq<Fe>, w: seq<Fe>, parts: seq<seq<Fe>>, x: Fe)
    requires |w| == |parts| && IsCombination(combined, w, parts)
    ensures Horner(combined, x) == Dot(w, ValuesAt(parts, x))
  {
  }

  lemma NewSums(sessions: seq<AirSumcheckSession>, parts: seq<seq<Fe>>, challenges: seq<Fe>, c: Fe, nRounds: nat,
                k: seq<Fe>, k1: seq<Fe>, sums: seq<Fe>, bounds: seq<seq<Fe>>, honest: bool, vals: seq<Fe>)
    requires |parts| == |sessions| == |k| == |k1| == |sums| == |bounds| && vals == ValuesAt(parts, c)
    requires forall i {:trigger vals[i]} | 0 <= i < |sessions| :: Waits(sessions[i], nRounds, |challenges|) ==> vals[i] == Mul(sums[i], c)
    requires AllStepped(sessions, parts, |challenges|, nRounds, c, k, k1, sums, bounds, honest, |sessions|)
    ensures forall i {:trigger Waiting(sessions, nRounds, |challenges|)[i]} | 0 <= i < |k| ::
              if Waiting(sessions, nRounds, |challenges|)[i]
              then vals[i] == Mul(sums[i], c) && Sums(sessions)[i] == sums[i] && k1[i] == Mul(k[i], c)
              else Sums(sessions)[i] == vals[i] && k1[i] == k[i]
  {
    hide AirSumcheckSession.Valid, AirSumcheckSession.Honest, Horner;
    forall i {:trigger Waiting(sessions, nRounds, |challenges|)[i]} | 0 <= i < |k|
      ensures if Waiting(sessions, nRounds, |challenges|)[i]
              then vals[i] == Mul(sums[i], c) && Sums(sessions)[i] == sums[i] && k1[i] == Mul(k[i], c)
              else Sums(sessions)[i] == vals[i] && k1[i] == k[i]
    {
      assert Stepped(sessions[i], parts[i], |challenges|, nRounds - sessions[i].initialNVars, c, sums[i], bounds[i], honest);
      var v := vals[i];
    }
  }

  lemma RunStart(sessions: seq<AirSumcheckSession>, etaPowers: seq<Fe>, k: seq<Fe>, sampled: seq<Fe>, expected: Fe)
    requires |etaPowers| == |k| == |sessions| && forall i {:trigger k[i]} | 0 <= i < |k| :: k[i] == 1
    requires Fresh(sessions, |sampled|)
    requires expected == Dot(etaPowers, Sums(sessions))
    ensures InStep(sessions, sampled[..0], |sampled|) && Multipliers(k, sessions, sampled[..0], |sampled|)
    ensures RoundChecks([], sampled[..0], expected) && TargetAfter([], sampled[..0], expected) == Dot(Weights(etaPowers, k), Sums(sessions))
  {
    var w := Weights(etaPowers, k);
    forall i {:trigger w[i]} | 0 <= i < |w| ensures w[i] == etaPowers[i] {
      MulOne(etaPowers[i]);
    }
    assert w == etaPowers;
  }

  // ----- the verifier's last check

  ghost predicate TablesFit(sessions: seq<AirSumcheckSession>, n: nat) {
    forall i {:trigger sessions[i]} | 0 <= i < |sessions| ::
      sessions[i].initialNVars <= n && |sessions[i].alphas| == sessions[i].initialNVars
      && IsTable(sessions[i].table, sessions[i].initialNVars)
  }

  ghost function BusPoints(sessions: seq<AirSumcheckSession>): (r: seq<seq<Fe>>)
    ensures |r| == |sessions| && forall i {:trigger r[i]} | 0 <= i < |r| :: r[i] == sessions[i].alphas
  {
    seq(|sessions|, i requires 0 <= i < |sessions| => sessions[i].alphas)
  }

  /** The constraint at each table's column values at its natural-order point. */
  ghost function FinalEvals(sessions: seq<AirSumcheckSession>, sampled: seq<Fe>): (r: seq<Fe>)
    requires TablesFit(sessions, |sampled|)
    ensures |r| == |sessions|
    ensures forall i {:trigger r[i]} | 0 <= i < |r| ::
              sessions[i].initialNVars <= |sampled| && IsTable(sessions[i].table, sessions[i].initialNVars)
              && r[i] == sessions[i].air.eval(RowAt(sessions[i].table, NaturalPoint(sampled, sessions[i].initialNVars)))
  {
    seq<Fe>(|sessions|, i requires 0 <= i < |sessions| =>
      sessions[i].air.eval(RowAt(sessions[i].table, NaturalPoint(sampled, sessions[i].initialNVars))))
  }

  ghost predicate PointsFit(busPoints: seq<seq<Fe>>, n: nat) {
    forall i {:trigger busPoints[i]} | 0 <= i < |busPoints| :: |busPoints[i]| <= n
  }

  /** The first `count` terms of the verifier's final value. */
  ghost function ContributionSum(busPoints: seq<seq<Fe>>, challenges: seq<Fe>, evals: seq<Fe>, etaPowers: seq<Fe>, count: nat): Fe
    requires count <= |busPoints| == |evals| == |etaPowers| && PointsFit(busPoints, |challenges|)
  {
    if count == 0 then 0
    else
      var point := busPoints[count - 1];
      Add(ContributionSum(busPoints, challenges, evals, etaPowers, count - 1),
          Contribution(point, challenges, NaturalPoint(challenges, |point|), evals[count - 1], etaPowers[count - 1]))
  }

  /** eq_poly_outside and the product of the early challenges, as the verifier computes them. */
  method VerifierFinalValue(busPoints: seq<seq<Fe>>, challenges: seq<Fe>, evals: seq<Fe>, etaPowers: seq<Fe>) returns (value: Fe)
    requires |busPoints| == |evals| == |etaPowers| && PointsFit(busPoints, |challenges|)
    ensures value == ContributionSum(busPoints, challenges, evals, etaPowers, |busPoints|)
  {
    value := 0;
    for i := 0 to |busPoints|
      invariant value == ContributionSum(busPoints, challenges, evals, etaPowers, i)
    {
      var point := busPoints[i];
      var natural := NaturalPoint(challenges, |point|);
      value := Add(value, Contribution(point, challenges, natural, evals[i], etaPowers[i]));
    }
  }

  lemma FinalBound(sessions: seq<AirSumcheckSession>, sampled: seq<Fe>)
    requires AllValid(sessions) && InStep(sessions, sampled, |sampled|)
    ensures TablesFit(sessions, |sampled|)
    ensures forall i {:trigger sessions[i]} | 0 <= i < |sessions| ::
              sessions[i].initialNVars <= |sampled| && sessions[i].bound == NaturalPoint(sampled, sessions[i].initialNVars)
  {
  }

  lemma OneContribution(s: AirSumcheckSession, sampled: seq<Fe>, eta: Fe, k: Fe)
    requires s.Valid() && s.Honest() && s.initialNVars <= |sampled| && s.bound == NaturalPoint(sampled, s.initialNVars)
    requires k == Product(sampled[..|sampled| - s.initialNVars])
    ensures Mul(Mul(eta, k), s.sum)
         == Contribution(s.alphas, sampled, s.bound, s.air.eval(RowAt(s.table, s.bound)), eta)
  {
    hide Stored, LenFits, HasDegree, Eq;
    assert s.eqFactor == [] && s.alphas[0..] == s.alphas;
    assert Bits(0, 0) + s.bound == s.bound;
    var c := s.air.eval(RowAt(s.table, s.bound));
    assert Claim(s.air, s.table, [], s.bound) == c;
    MulComm(c, Eq(s.alphas, s.bound));
    MulAssoc(Mul(eta, k), Eq(s.alphas, s.bound), c);
  }

  lemma ContributionAt(sessions: seq<AirSumcheckSession>, sampled: seq<Fe>, etaPowers: seq<Fe>, k: seq<Fe>, i: nat)
    requires AllValid(sessions) && AllHonest(sessions) && |etaPowers| == |k| == |sessions| && i < |sessions|
    requires InStep(sessions, sampled, |sampled|) && Multipliers(k, sessions, sampled, |sampled|)
    requires TablesFit(sessions, |sampled|)
    ensures Mul(Weights(etaPowers, k)[i], Sums(sessions)[i])
         == Contribution(BusPoints(sessions)[i], sampled, NaturalPoint(sampled, |BusPoints(sessions)[i]|),
                         FinalEvals(sessions, sampled)[i], etaPowers[i])
  {
    hide AirSumcheckSession.Valid, AirSumcheckSession.Honest, Contribution;
    var s := sessions[i];
    assert s.Valid() && s.Honest();
    assert k[i] == Product(sampled[..|sampled| - s.initialNVars]);
    OneContribution(s, sampled, etaPowers[i], k[i]);
    var e := FinalEvals(sessions, sampled)[i];
  }

  lemma {:induction false} PartialTarget(sessions: seq<AirSumcheckSession>, sampled: seq<Fe>, etaPowers: seq<Fe>, k: seq<Fe>, count: nat)
    requires AllValid(sessions) && AllHonest(sessions) && |etaPowers| == |k| == |sessions| && count <= |sessions|
    requires InStep(sessions, sampled, |sampled|) && Multipliers(k, sessions, sampled, |sampled|)
    requires TablesFit(sessions, |sampled|)
    ensures PointsFit(BusPoints(sessions), |sampled|)
    ensures Dot(Weights(etaPowers, k)[..count], Sums(sessions)[..count])
         == ContributionSum(BusPoints(sessions), sampled, FinalEvals(sessions, sampled), etaPowers, count)
  {
    hide AirSumcheckSession.Valid, AirSumcheckSession.Honest, Contribution, InStep, Multipliers, AllHonest, AllValid, Weights, Sums, FinalEvals;
    PointsOfTables(sessions, |sampled|);
    if count > 0 {
      PartialTarget(sessions, sampled, etaPowers, k, count - 1);
      var w, v := Weights(etaPowers, k), Sums(sessions);
      var i := count - 1;
      assert w[..count] == w[..i] + [w[i]] && v[..count] == v[..i] + [v[i]];
      DotSnoc(w[..i], v[..i], w[i], v[i]);
      ContributionAt(sessions, sampled, etaPowers, k, i);
    }
  }

  lemma PointsOfTables(sessions: seq<AirSumcheckSession>, n: nat)
    requires TablesFit(sessions, n)
    ensures PointsFit(BusPoints(sessions), n)
  {
  }

  /** The last target is the verifier's sum of table contributions. */
  lemma FinalTarget(sessions: seq<AirSumcheckSession>, sampled: seq<Fe>, etaPowers: seq<Fe>, k: seq<Fe>)
    requires AllValid(sessions) && AllHonest(sessions) && |etaPowers| == |k| == |sessions|
    requires InStep(sessions, sampled, |sampled|) && Multipliers(k, sessions, sampled, |sampled|)
    requires TablesFit(sessions, |sampled|) && PointsFit(BusPoints(sessions), |sampled|)
    ensures Dot(Weights(etaPowers, k), Sums(sessions))
         == ContributionSum(BusPoints(sessions), sampled, FinalEvals(sessions, sampled), etaPowers, |sessions|)
  {
    PartialTarget(sessions, sampled, etaPowers, k, |sessions|);
    var w, v := Weights(etaPowers, k), Sums(sessions);
    assert w[..|sessions|] == w && v[..|sessions|] == v;
  }
}
