/**
 AirSumcheckSession: one table's sumcheck, with its state between rounds
 (crates/sub_protocols/src/air_sumcheck.rs).
 */
module AirSession {
  import opened Arith
  import opened Field
  import opened Prime
  import opened Multilinear
  import opened Coefficients
  import opened Interpolation
  import opened StorageLayout
  import opened AirRounds
  import opened AirAccumulation

  const ENDIANNESS_PIVOT_AIR: nat := 12

  function Pivot(n: nat): (p: nat)
    ensures p <= n
  {
    if ENDIANNESS_PIVOT_AIR < n then ENDIANNESS_PIVOT_AIR else n
  }

  /** `rows.next_multiple_of(2^pivot).min(2^n)`. */
  function PaddedRows(rows: nat, n: nat): (r: nat)
  {
    var c := Pow2(Pivot(n));
    var up := NextMultiple(rows, c);
    if up < Pow2(n) then up else Pow2(n)
  }

  function NextMultiple(x: nat, c: nat): nat
    requires c > 0
  {
    NonNegativeProduct((x + c - 1) / c, c);
    (x + c - 1) / c * c
  }

  lemma NextMultipleBound(x: nat, c: nat)
    requires c > 0
    ensures NextMultiple(x, c) >= x && exists q: nat :: IsMultiple(NextMultiple(x, c), c, q)
  {
    var q := (x + c - 1) / c;
    assert x + c - 1 == q * c + (x + c - 1) % c;
    assert IsMultiple(NextMultiple(x, c), c, q);
  }

  /** Rows from `rows` on repeat the last row. */
  ghost predicate PaddedFrom(columns: seq<seq<Fe>>, n: nat, rows: nat)
    requires IsTable(columns, n)
  {
    forall i {:trigger RowOf(columns, i)} | rows <= i < Pow2(n) :: RowOf(columns, i) == RowOf(columns, Pow2(n) - 1)
  }

  ghost predicate IsWhole(len: nat, chunk: nat) { exists q: nat :: IsMultiple(len, chunk, q) }

  /** The active length: whole chunks while a chunk bit is left. */
  ghost predicate LenFits(len: nat, h: nat, m: nat) {
    len <= Pow2(m) && (m > h ==> IsWhole(len, Pow2(m - h)))
  }

  lemma LenHalves(len: nat, h: nat, m: nat)
    requires m > 0 && LenFits(len, h, m)
    ensures PairAligned(len, FoldBit(h, m)) && LenFits(CeilHalf(len), h, m - 1)
  {
    if m > h {
      var q: nat :| IsMultiple(len, Pow2(m - h), q);
      assert q * Pow2(m - h) == 2 * (q * Pow2(m - 1 - h));
      assert len == 2 * (q * Pow2(m - 1 - h));
      assert IsMultiple(CeilHalf(len), Pow2(m - 1 - h), q);
    }
  }

  /** The value of the table's claim while m variables are free: sum of eq(alphas, i) * C(row i). */
  ghost function Claim(air: Air, table: seq<seq<Fe>>, alphas: seq<Fe>, tail: seq<Fe>): Fe
    requires IsTable(table, |alphas| + |tail|)
  {
    Mle(ConstraintValues(air.eval, table, |alphas|, tail), alphas)
  }

  /** What the round polynomial must be at z: the claim with one more variable bound, times the bound weights. */
  ghost function RoundValue(air: Air, table: seq<seq<Fe>>, alphas: seq<Fe>, tail: seq<Fe>, mmf: Fe, z: Fe): Fe
    requires alphas != [] && IsTable(table, |alphas| + |tail|)
  {
    var t := [z] + tail;
    assert |alphas[..|alphas| - 1]| + |t| == |alphas| + |tail|;
    Mul(Claim(air, table, alphas[..|alphas| - 1], t), mmf)
  }

  class AirSumcheckSession {
    var multilinears: seq<seq<Fe>>
    var eqFactor: seq<Fe>
    var currentUnpaddedLen: nat
    var sum: Fe
    var missingMulFactor: Fe
    const air: Air
    const low: Option<LowAir>
    const initialNVars: nat
    const constraintsEvalAtPadding: Fe
    var roundsDone: nat
    ghost const table: seq<seq<Fe>>
    ghost const alphas: seq<Fe>
    /** The challenges so far, latest first. */
    ghost var bound: seq<Fe>

    ghost predicate Valid()
      reads this
    {
      && |alphas| == initialNVars && IsTable(table, initialNVars) && |table| == air.columns
      && 1 <= air.degree && air.degree < P && HasDegree(air.eval, air.columns, air.degree)
      && (low.Some? ==> Splits(air, low.value))
      && |bound| == roundsDone <= initialNVars
      && eqFactor == alphas[..initialNVars - roundsDone]
      && missingMulFactor == Eq(alphas[initialNVars - roundsDone..], bound)
      && Stored(multilinears, table, initialNVars - Pivot(initialNVars), |eqFactor|, bound)
      && LenFits(currentUnpaddedLen, initialNVars - Pivot(initialNVars), |eqFactor|)
      && (forall j {:trigger RowOf(multilinears, j)} | currentUnpaddedLen <= j < Pow2(|eqFactor|) ::
            air.eval(RowOf(multilinears, j)) == constraintsEvalAtPadding)
      && (forall i, j {:trigger RowOf(multilinears, i), RowOf(multilinears, j)} |
            currentUnpaddedLen <= i < Pow2(|eqFactor|) && currentUnpaddedLen <= j < Pow2(|eqFactor|) ::
            RowOf(multilinears, i) == RowOf(multilinears, j))
    }

    /** The stored sum is the claim about the table, weighted by the bound coordinates. */
    ghost predicate Honest()
      requires Valid()
      reads this
    {
      sum == Mul(Claim(air, table, eqFactor, bound), missingMulFactor)
    }

    /** new; `wordBits` is the width of usize. */
    constructor (columns: seq<seq<Fe>>, eqFactor: seq<Fe>, sum: Fe, air: Air, low: Option<LowAir>,
                 nonPaddedRows: nat, n: nat, wordBits: nat)
      requires IsTable(columns, n) && |eqFactor| == n && |columns| == air.columns && n > 0
      requires 1 <= air.degree < P && HasDegree(air.eval, air.columns, air.degree)
      requires low.Some? ==> Splits(air, low.value)
      requires PaddedFrom(columns, n, nonPaddedRows) && n <= wordBits
      ensures Valid() && table == columns && alphas == eqFactor && this.air == air && initialNVars == n && roundsDone == 0
      ensures bound == [] && this.eqFactor == eqFactor && this.sum == sum
      ensures missingMulFactor == 1
      ensures Honest() <==> sum == Claim(air, columns, eqFactor, [])
      ensures currentUnpaddedLen == PaddedRows(nonPaddedRows, n)
    {
      hide Splits, HasDegree, Stored;
      var pivot := Pivot(n);
      var stored := ChunkReverseAll(columns, n - pivot, pivot, wordBits);
      StoredInitially(stored, columns, n - pivot, n);
      var len := PaddedRows(nonPaddedRows, n);
      var padding := air.eval(RowOf(columns, Pow2(n) - 1));
      PaddedStorage(stored, columns, n, nonPaddedRows);
      NothingBound(eqFactor);
      multilinears := stored;
      this.eqFactor := eqFactor;
      currentUnpaddedLen := len;
      this.sum := sum;
      missingMulFactor := 1;
      this.air := air;
      this.low := low;
      initialNVars := n;
      constraintsEvalAtPadding := padding;
      roundsDone := 0;
      table := columns;
      alphas := eqFactor;
      bound := [];
      new;
      MulOne(Claim(air, columns, this.eqFactor, []));
    }

    method PermutedAlphas(len: nat) returns (r: seq<Fe>)
      requires Valid() && len <= |eqFactor|
      ensures r == Permuted(eqFactor[..len], initialNVars - Pivot(initialNVars))
    {
      var headLen := if initialNVars - Pivot(initialNVars) < len then initialNVars - Pivot(initialNVars) else len;
      var base := eqFactor[..len];
      r := base[..headLen];
      var k := len;
      assert base[headLen..len] == base[headLen..];
      while k > headLen
        invariant headLen <= k <= len
        invariant r + Reversed(base[headLen..k]) == Permuted(base, initialNVars - Pivot(initialNVars))
      {
        k := k - 1;
        assert base[headLen..k + 1] == base[headLen..k] + [base[k]];
        ReversedSnoc(base[headLen..k], base[k]);
        r := r + [base[k]];
      }
      assert base[headLen..headLen] == [];
    }

    /** padding_eq_sum. */
    method PaddingEqSum(unpaddedLen: nat) returns (s: Fe)
      requires Valid() && eqFactor != [] && LenFits(unpaddedLen, initialNVars - Pivot(initialNVars), |eqFactor|)
      ensures CeilHalf(unpaddedLen) <= Pow2(|eqFactor| - 1)
      ensures s == Mle(ZerosThenOnes(CeilHalf(unpaddedLen), Pow2(|eqFactor| - 1)),
                       Permuted(eqFactor[..|eqFactor| - 1], initialNVars - Pivot(initialNVars)))
    {
      hide Mle, MleOfZerosThenOnes, Permuted, PairAligned, LenFits;
      var len := initialNVars - roundsDone;
      ghost var h := initialNVars - Pivot(initialNVars);
      var point := PermutedAlphas(len);
      assert eqFactor[..len] == eqFactor;
      var bit := FoldingBit();
      LenHalves(unpaddedLen, h, len);
      ghost var rest := eqFactor[..len - 1];
      assert rest + [eqFactor[len - 1]] == eqFactor;
      PermutedInserted(rest, h, eqFactor[len - 1]);
      point := point[len - 1 - bit := 0];
      assert point == Inserted(Permuted(rest, h), bit, 0);
      PaddingWeights(unpaddedLen, bit, Permuted(rest, h));
      LenFitsSize(unpaddedLen, h, len);
      s := MleOfZerosThenOnes(unpaddedLen, point);
    }

    /** folding_bit. */
    method FoldingBit() returns (b: nat)
      requires Valid() && eqFactor != []
      ensures b == FoldBit(initialNVars - Pivot(initialNVars), |eqFactor|)
    {
      b := if roundsDone < Pivot(initialNVars) then Pivot(initialNVars) - 1 - roundsDone else 0;
    }

    /** The weighted sums over all pairs at 0, 2, 3, ..., padding included. */
    method RoundEvaluations(mustUnpack: bool, laneBits: nat, split: bool) returns (evals: seq<Fe>)
      requires Valid() && eqFactor != []
      ensures |evals| == air.degree
      ensures forall k {:trigger evals[k]} | 0 <= k < |evals| ::
                evals[k] == RoundValue(air, table, eqFactor, bound, missingMulFactor, EvalNode(k))
    {
      hide Horner, Stored, LenFits, Splits, HasDegree, RoundValue, Claim, Eq, Permuted, EqVec, Looks, Lookup, ActiveSum, LowPartner;
      ghost var h := initialNVars - Pivot(initialNVars);
      var m := initialNVars - roundsDone;
      var point := PermutedAlphas(m - 1);
      var splitEq := NewSplitEq(point, mustUnpack, laneBits);
      forall j: nat {:trigger Looks(splitEq, j)} | j < Pow2(m - 1)
        ensures Looks(splitEq, j) && Lookup(splitEq, j) == EqVec(point, 1)[j]
      {
        LookupIsEq(point, mustUnpack, laneBits, j);
      }
      var active := CeilHalf(currentUnpaddedLen);
      var all := Pow2(m - 1);
      var padding: Fe := 0;
      var eqSum := PaddingEqSum(currentUnpaddedLen);
      if active < all {
        padding := Mul(constraintsEvalAtPadding, eqSum);
      }
      var bit := FoldingBit();
      StoredShape(multilinears, table, h, m, bound);
      var raw := ComputeRawPoly(multilinears, air, if split then low else None, splitEq, bit, active, m, point);
      evals := [];
      for i := 0 to |raw|
        invariant |evals| == i
        invariant forall k {:trigger evals[k]} | 0 <= k < i ::
                    evals[k] == RoundValue(air, table, eqFactor, bound, missingMulFactor, EvalNode(k))
      {
        RawIsRoundValue(this, bit, EvalNode(i), active, padding, point);
        evals := evals + [Mul(Add(raw[i], padding), missingMulFactor)];
      }
    }

    /** compute_bare_round_poly: the value at 1 comes from the claimed sum, the rest is interpolated. */
    method ComputeBareRoundPoly(mustUnpack: bool, laneBits: nat, split: bool) returns (coeffs: seq<Fe>)
      requires Valid() && eqFactor != [] && EqAlpha() != 0
      ensures |coeffs| == air.degree + 1
      ensures Add(Mul(Sub(1, EqAlpha()), Horner(coeffs, 0)), Mul(EqAlpha(), Horner(coeffs, 1))) == sum
      ensures Honest() ==> forall z: Fe :: Horner(coeffs, z) == RoundValue(air, table, eqFactor, bound, missingMulFactor, z)
    {
      assert 1 <= air.degree < P;
      hide Horner, Valid, Honest, RoundValue;
      var evals := RoundEvaluations(mustUnpack, laneBits, split);
      var alpha := EqAlpha();
      var atOne := Mul(Sub(sum, Mul(Sub(1, alpha), evals[0])), Inverse(alpha));
      QuotientCompletes(sum, alpha, evals[0], atOne);
      var full := [evals[0], atOne] + evals[1..];
      var values: seq<(Fe, Fe)> := [];
      for i := 0 to |full|
        invariant |values| == i
        invariant forall k {:trigger values[k]} | 0 <= k < i :: values[k] == (k, full[k])
      {
        values := values + [(i, full[i])];
      }
      var interpolated := LagrangeInterpolation(values);
      assert Distinct(Nodes(values));
      coeffs := interpolated.value;
      assert values[0] == (0, evals[0]) && values[1] == (1, atOne);
      if Honest() {
        ghost var c := HonestPolynomial(this, evals, atOne, values);
      }
    }

    function EqAlpha(): Fe
      requires eqFactor != []
      reads this
    {
      eqFactor[|eqFactor| - 1]
    }

    /** process_challenge. */
    method ProcessChallenge(challenge: Fe, poly: seq<Fe>)
      requires Valid() && eqFactor != []
      modifies this
      ensures Valid()
      ensures bound == [challenge] + old(bound) && roundsDone == old(roundsDone) + 1
      ensures eqFactor == old(eqFactor[..|eqFactor| - 1])
      ensures sum == Mul(Horner(poly, challenge), EqFactor(old(EqAlpha()), challenge))
      ensures old(Honest())
              && Horner(poly, challenge) == old(RoundValue(air, table, eqFactor, bound, missingMulFactor, challenge))
              ==> Honest()
    {
      hide Horner, Stored, LenFits, Splits, HasDegree, Claim, Eq, EqFactor, PairAligned, FoldedAt;
      ghost var h := initialNVars - Pivot(initialNVars);
      ghost var m := initialNVars - roundsDone;
      ghost var was := eqFactor;
      ghost var before := multilinears;
      ghost var mmf := missingMulFactor;
      var alpha := EqAlpha();
      var eqEval := Add(Mul(Sub(1, alpha), Sub(1, challenge)), Mul(alpha, challenge));
      EqFactorOrder(alpha, challenge);
      var value := Evaluate(poly, challenge);
      WeightStep(alphas, m, challenge, bound);
      MulComm(missingMulFactor, eqEval);
      StoredShape(multilinears, table, h, m, bound);
      StoredStep(multilinears, table, h, m, bound, challenge);
      var bit := FoldingBit();
      LenHalves(currentUnpaddedLen, h, m);
      LenFitsSize(currentUnpaddedLen, h, m);
      var folded := FoldAll(multilinears, challenge, bit, m);
      FoldedPaddingRows(before, bit, challenge, m, currentUnpaddedLen, air, constraintsEvalAtPadding);
      sum := Mul(value, eqEval);
      missingMulFactor := Mul(missingMulFactor, eqEval);
      multilinears := folded;
      currentUnpaddedLen := CeilHalf(currentUnpaddedLen);
      roundsDone := roundsDone + 1;
      eqFactor := eqFactor[..|eqFactor| - 1];
      bound := [challenge] + bound;
      assert alphas[..m][..m - 1] == alphas[..m - 1];
      MulAssoc(Claim(air, table, was[..|was| - 1], bound), mmf, eqEval);
    }

    /** final_column_evals: the columns at the reversed challenges. */
    method FinalColumnEvals() returns (evals: seq<Fe>)
      requires Valid() && eqFactor == []
      ensures |evals| == |table| && IsTable(table, |bound|) && evals == RowAt(table, bound)
      ensures Honest() ==> sum == Mul(air.eval(evals), Eq(alphas, bound))
    {
      StoredShape(multilinears, table, initialNVars - Pivot(initialNVars), 0, bound);
      evals := RowOf(multilinears, 0);
      StoredRow(multilinears, table, initialNVars - Pivot(initialNVars), 0, bound, 0);
      assert Permuted(Bits(0, 0), initialNVars - Pivot(initialNVars)) + bound == bound;
      assert alphas[0..] == alphas;
      assert Bits(0, 0) + bound == bound;
      assert Claim(air, table, [], bound) == air.eval(RowAt(table, Bits(0, 0) + bound));
    }
  }

  lemma StoredShape(cols: seq<seq<Fe>>, table: seq<seq<Fe>>, h: nat, m: nat, tail: seq<Fe>)
    requires Stored(cols, table, h, m, tail)
    ensures |cols| == |table| && IsTable(cols, m) && IsTable(table, m + |tail|)
  {
  }

  lemma EqFactorOrder(l: Fe, r: Fe)
    ensures Add(Mul(Sub(1, l), Sub(1, r)), Mul(l, r)) == EqFactor(l, r)
  {
    EqFactorWeights(l, r);
    AddComm(Mul(l, r), Mul(Sub(1, l), Sub(1, r)));
  }

  /** One more bound coordinate multiplies the weight by its factor. */
  lemma WeightStep(alphas: seq<Fe>, m: nat, c: Fe, bound: seq<Fe>)
    requires 0 < m <= |alphas| && |bound| == |alphas| - m
    ensures Eq(alphas[m - 1..], [c] + bound) == Mul(EqFactor(alphas[m - 1], c), Eq(alphas[m..], bound))
  {
    assert alphas[m - 1..][1..] == alphas[m..];
    assert ([c] + bound)[1..] == bound;
  }

  lemma QuotientCompletes(sum: Fe, alpha: Fe, p0: Fe, p1: Fe)
    requires alpha != 0 && p1 == Mul(Sub(sum, Mul(Sub(1, alpha), p0)), Inverse(alpha))
    ensures Add(Mul(Sub(1, alpha), p0), Mul(alpha, p1)) == sum
  {
    var d := Sub(sum, Mul(Sub(1, alpha), p0));
    MulComm(d, Inverse(alpha));
    MulAssoc(alpha, Inverse(alpha), d);
    MulOne(d);
    AddOfSub(sum, Mul(Sub(1, alpha), p0));
  }

  method FoldAll(cols: seq<seq<Fe>>, challenge: Fe, bit: nat, ghost m: nat) returns (folded: seq<seq<Fe>>)
    requires bit < m && IsTable(cols, m)
    ensures folded == FoldedColumns(cols, bit, challenge, m)
  {
    hide FoldedAt;
    Pow2Monotone(bit, m - 1);
    folded := [];
    for k := 0 to |cols|
      invariant |folded| == k
      invariant forall i {:trigger folded[i]} | 0 <= i < k :: |cols[i]| == Pow2(m) && folded[i] == FoldedAt(cols[i], bit, challenge, m)
    {
      assert |cols[k]| == Pow2(m);
      var f := FoldMultilinearAtBit(cols[k], challenge, bit, m);
      folded := folded + [f];
    }
    assert folded == FoldedColumns(cols, bit, challenge, m);
  }

  /** Padding rows fold to the padding row. */
  lemma FoldedPaddingRows(cols: seq<seq<Fe>>, bit: nat, alpha: Fe, m: nat, len: nat, air: Air, pad: Fe)
    requires bit < m && IsTable(cols, m) && len <= Pow2(m) && PairAligned(len, bit)
    requires forall j {:trigger RowOf(cols, j)} | len <= j < Pow2(m) :: air.eval(RowOf(cols, j)) == pad
    requires forall i, j {:trigger RowOf(cols, i), RowOf(cols, j)} | len <= i < Pow2(m) && len <= j < Pow2(m) ::
               RowOf(cols, i) == RowOf(cols, j)
    ensures forall j {:trigger RowOf(FoldedColumns(cols, bit, alpha, m), j)} | CeilHalf(len) <= j < Pow2(m - 1) ::
              RowOf(FoldedColumns(cols, bit, alpha, m), j) == RowOf(cols, Pow2(m) - 1)
              && air.eval(RowOf(FoldedColumns(cols, bit, alpha, m), j)) == pad
  {
    hide FoldedAt, PairAligned;
    var f := FoldedColumns(cols, bit, alpha, m);
    forall j {:trigger RowOf(f, j)} | CeilHalf(len) <= j < Pow2(m - 1)
      ensures RowOf(f, j) == RowOf(cols, Pow2(m) - 1) && air.eval(RowOf(f, j)) == pad
    {
      PaddedPairExists(len, bit, m, j);
      var r, s := RowOf(f, j), RowOf(cols, Pow2(m) - 1);
      forall k | 0 <= k < |r| ensures r[k] == s[k] {
        var last := cols[k][Pow2(m) - 1];
        forall i {:trigger cols[k][i]} | len <= i < |cols[k]| ensures cols[k][i] == last {
          assert RowOf(cols, i)[k] == cols[k][i];
          assert RowOf(cols, i) == s;
        }
        FoldedPadding(cols[k], bit, alpha, m, len, last);
      }
      assert r == s;
      assert air.eval(s) == pad;
    }
  }

  lemma PaddedPairExists(len: nat, bit: nat, m: nat, j: nat)
    requires bit < m && len <= Pow2(m) && PairAligned(len, bit) && CeilHalf(len) <= j < Pow2(m - 1)
    ensures len <= Pow2(m) - 1
  {
  }

  /** The padded sum of one evaluation point is the round's value. */
  lemma RawIsRoundValue(s: AirSumcheckSession, bit: nat, z: Fe, active: nat, padding: Fe, point: seq<Fe>)
    requires s.Valid() && s.eqFactor != [] && bit == FoldBit(s.initialNVars - Pivot(s.initialNVars), |s.eqFactor|)
    requires point == Permuted(s.eqFactor[..|s.eqFactor| - 1], s.initialNVars - Pivot(s.initialNVars))
    requires active == CeilHalf(s.currentUnpaddedLen) <= Pow2(|s.eqFactor| - 1)
    requires padding == if active < Pow2(|s.eqFactor| - 1)
                        then Mul(s.constraintsEvalAtPadding, Mle(ZerosThenOnes(active, Pow2(|s.eqFactor| - 1)), point)) else 0
    requires IsTable(s.multilinears, |s.eqFactor|)
    ensures Mul(Add(ActiveSum(s.air.eval, s.multilinears, bit, |s.eqFactor|, point, z, active), padding), s.missingMulFactor)
         == RoundValue(s.air, s.table, s.eqFactor, s.bound, s.missingMulFactor, z)
  {
    hide Stored, LenFits, HasDegree, Splits, Permuted, Mle, FoldedAt, PairAligned, EqVec, ConstraintValues, Eq;
    var m := |s.eqFactor|;
    var h := s.initialNVars - Pivot(s.initialNVars);
    var rest := s.eqFactor[..m - 1];
    StoredStep(s.multilinears, s.table, h, m, s.bound, z);
    var f := FoldedColumns(s.multilinears, bit, z, m);
    StorageSum(s.air.eval, f, s.table, h, rest, [z] + s.bound);
    LenHalves(s.currentUnpaddedLen, h, m);
    LenFitsSize(s.currentUnpaddedLen, h, m);
    FoldedPaddingRows(s.multilinears, bit, z, m, s.currentUnpaddedLen, s.air, s.constraintsEvalAtPadding);
    var w := RowValues(s.air.eval, f, m - 1);
    forall j {:trigger w[j]} | active <= j < |w| ensures w[j] == s.constraintsEvalAtPadding {
      var r := RowOf(f, j);
    }
    WholeSum(w, point, active, s.constraintsEvalAtPadding, padding);
  }

  lemma WholeSum(w: seq<Fe>, point: seq<Fe>, active: nat, pad: Fe, padding: Fe)
    requires |w| == Pow2(|point|) && active <= |w|
    requires forall j {:trigger w[j]} | active <= j < |w| :: w[j] == pad
    requires padding == if active < |w| then Mul(pad, Mle(ZerosThenOnes(active, |w|), point)) else 0
    ensures Add(Dot(w[..active], EqVec(point, 1)[..active]), padding) == Mle(w, point)
  {
    ActivePlusPadding(w, point, active, pad);
    if active == |w| {
      MleConstant(ZerosThenOnes(active, |w|), point, 0);
      MulOne(pad);
    }
  }

  /** The round's values form a polynomial of the constraint's degree. */
  lemma RoundIsPolynomial(s: AirSumcheckSession, bit: nat) returns (c: seq<Fe>)
    requires s.Valid() && s.eqFactor != [] && bit == FoldBit(s.initialNVars - Pivot(s.initialNVars), |s.eqFactor|)
    ensures |c| <= s.air.degree + 1
    ensures forall z: Fe :: Horner(c, z) == RoundValue(s.air, s.table, s.eqFactor, s.bound, s.missingMulFactor, z)
  {
    hide Stored, LenFits, HasDegree, Splits, Permuted, Mle, FoldedAt, EqVec, ConstraintValues, Eq, Horner, RowValues;
    var m := |s.eqFactor|;
    var h := s.initialNVars - Pivot(s.initialNVars);
    var rest := s.eqFactor[..m - 1];
    StoredShape(s.multilinears, s.table, h, m, s.bound);
    var d := RoundPolynomial(s.air, s.multilinears, bit, m, Permuted(rest, h));
    c := PolyScale(s.missingMulFactor, d);
    forall z: Fe
      ensures Horner(c, z) == RoundValue(s.air, s.table, s.eqFactor, s.bound, s.missingMulFactor, z)
    {
      HornerScale(s.missingMulFactor, d, z);
      StoredStep(s.multilinears, s.table, h, m, s.bound, z);
      StorageSum(s.air.eval, FoldedColumns(s.multilinears, bit, z, m), s.table, h, rest, [z] + s.bound);
    }
  }

  /** The claim splits over the last free variable. */
  lemma ClaimSplits(air: Air, table: seq<seq<Fe>>, alphas: seq<Fe>, tail: seq<Fe>)
    requires alphas != [] && IsTable(table, |alphas| + |tail|)
    ensures Claim(air, table, alphas, tail)
         == Lerp(alphas[|alphas| - 1],
                 Claim(air, table, alphas[..|alphas| - 1], [0] + tail), Claim(air, table, alphas[..|alphas| - 1], [1] + tail))
  {
    hide Mle;
    var m := |alphas|;
    var rest := alphas[..m - 1];
    assert rest + [alphas[m - 1]] == alphas;
    var w := ConstraintValues(air.eval, table, m, tail);
    MleLast(w, rest, alphas[m - 1]);
    var e, o := ConstraintValues(air.eval, table, m - 1, [0] + tail), ConstraintValues(air.eval, table, m - 1, [1] + tail);
    forall i {:trigger e[i]} {:trigger o[i]} | 0 <= i < Pow2(m - 1)
      ensures w[2 * i] == e[i] && w[2 * i + 1] == o[i]
    {
      BitsLast(2 * i, m);
      BitsLast(2 * i + 1, m);
      assert Bits(2 * i, m) + tail == Bits(i, m - 1) + ([0] + tail);
      assert Bits(2 * i + 1, m) + tail == Bits(i, m - 1) + ([1] + tail);
    }
    assert Evens(w) == e && Odds(w) == o;
  }

  /** On an honest sum the value derived at 1 is the round's value there. */
  lemma HonestAtOne(s: AirSumcheckSession, alpha: Fe, p0: Fe, p1: Fe)
    requires s.Valid() && s.Honest() && s.eqFactor != [] && alpha == s.EqAlpha() != 0
    requires p0 == RoundValue(s.air, s.table, s.eqFactor, s.bound, s.missingMulFactor, 0)
    requires Add(Mul(Sub(1, alpha), p0), Mul(alpha, p1)) == s.sum
    ensures p1 == RoundValue(s.air, s.table, s.eqFactor, s.bound, s.missingMulFactor, 1)
  {
    hide Stored, LenFits, HasDegree, Splits, Claim, Eq;
    StoredShape(s.multilinears, s.table, s.initialNVars - Pivot(s.initialNVars), |s.eqFactor|, s.bound);
    ClaimSplits(s.air, s.table, s.eqFactor, s.bound);
    var rest := s.eqFactor[..|s.eqFactor| - 1];
    var c0, c1 := Claim(s.air, s.table, rest, [0] + s.bound), Claim(s.air, s.table, rest, [1] + s.bound);
    var mmf := s.missingMulFactor;
    LerpScaled(alpha, mmf, c0, c1);
    MulComm(mmf, c0);
    MulComm(mmf, c1);
    MulComm(mmf, Lerp(alpha, c0, c1));
    LerpWeights(alpha, p0, Mul(c1, mmf));
    CancelSum(alpha, Mul(Sub(1, alpha), p0), p1, Mul(c1, mmf));
  }

  /** On an honest sum all interpolated values lie on the round's polynomial. */
  lemma HonestPolynomial(s: AirSumcheckSession, evals: seq<Fe>, atOne: Fe, values: seq<(Fe, Fe)>) returns (c: seq<Fe>)
    requires s.Valid() && s.Honest() && s.eqFactor != [] && s.EqAlpha() != 0
    requires |evals| == s.air.degree && |values| == s.air.degree + 1 <= P
    requires forall k {:trigger evals[k]} | 0 <= k < |evals| ::
               evals[k] == RoundValue(s.air, s.table, s.eqFactor, s.bound, s.missingMulFactor, EvalNode(k))
    requires Add(Mul(Sub(1, s.EqAlpha()), evals[0]), Mul(s.EqAlpha(), atOne)) == s.sum
    requires forall k {:trigger values[k]} | 0 <= k < |values| :: values[k] == (k, ([evals[0], atOne] + evals[1..])[k])
    ensures |c| <= |values| && PassesThrough(c, values)
    ensures forall z: Fe :: Horner(c, z) == RoundValue(s.air, s.table, s.eqFactor, s.bound, s.missingMulFactor, z)
  {
    var h := s.initialNVars - Pivot(s.initialNVars);
    c := RoundIsPolynomial(s, FoldBit(h, |s.eqFactor|));
    hide Horner, RoundValue, Stored, LenFits, Splits, HasDegree, Eq, Claim;
    HonestAtOne(s, s.EqAlpha(), evals[0], atOne);
    forall k {:trigger values[k]} | 0 <= k < |values|
      ensures Horner(c, values[k].0) == values[k].1
    {
      if k != 1 {
        var i := if k == 0 then 0 else k - 1;
        assert values[k] == (EvalNode(i), evals[i]);
      }
    }
  }

  lemma CancelSum(alpha: Fe, u: Fe, x: Fe, y: Fe)
    requires alpha != 0 && Add(u, Mul(alpha, x)) == Add(u, Mul(alpha, y))
    ensures x == y
  {
    SubOfAdd(u, Mul(alpha, x));
    SubOfAdd(u, Mul(alpha, y));
    Distributes(alpha, x, y);
    AddZero(Mul(alpha, x));
    NoZeroDivisors(alpha, Sub(x, y));
    DifferenceZero(x, y);
  }

  lemma SubOfAdd(u: Fe, v: Fe)
    ensures Sub(Add(u, v), u) == v
  {
    LiftSelf(u);
    LiftSelf(v);
    LiftAdd(u, v);
    LiftSub(u + v, u);
  }

  lemma LenFitsSize(len: nat, h: nat, m: nat)
    requires LenFits(len, h, m)
    ensures len <= Pow2(m)
  {
  }

  lemma NothingBound(alphas: seq<Fe>)
    ensures alphas[..|alphas|] == alphas
    ensures |alphas[|alphas|..]| == 0 && Eq(alphas[|alphas|..], []) == 1
  {
  }

  method ChunkReverseAll(columns: seq<seq<Fe>>, h: nat, pivot: nat, wordBits: nat) returns (stored: seq<seq<Fe>>)
    requires IsTable(columns, h + pivot) && pivot <= wordBits
    ensures |stored| == |columns|
    ensures forall k {:trigger stored[k]} | 0 <= k < |columns| ::
              |columns[k]| == Pow2(h + pivot) && stored[k] == ChunkReversed(columns[k], h, pivot)
  {
    stored := [];
    for k := 0 to |columns|
      invariant |stored| == k
      invariant forall i {:trigger stored[i]} | 0 <= i < k ::
                  |columns[i]| == Pow2(h + pivot) && stored[i] == ChunkReversed(columns[i], h, pivot)
    {
      var c := ChunkBitReverse(columns[k], h, pivot, wordBits);
      stored := stored + [c];
    }
  }

  lemma PaddedRowsFit(rows: nat, n: nat)
    ensures LenFits(PaddedRows(rows, n), n - Pivot(n), n)
    ensures PaddedRows(rows, n) == Pow2(n) || PaddedRows(rows, n) >= rows
    ensures IsWhole(PaddedRows(rows, n), Pow2(Pivot(n)))
  {
    hide NextMultiple;
    var c := Pow2(Pivot(n));
    NextMultipleBound(rows, c);
    Pow2Add(n - Pivot(n), Pivot(n));
    if NextMultiple(rows, c) < Pow2(n) {
      var q: nat :| IsMultiple(NextMultiple(rows, c), c, q);
      assert IsMultiple(PaddedRows(rows, n), c, q);
    } else {
      assert IsMultiple(PaddedRows(rows, n), c, Pow2(n - Pivot(n)));
    }
    assert n - (n - Pivot(n)) == Pivot(n);
  }

  /** Storage rows past the padded length come from padding rows. */
  lemma PaddedStorage(stored: seq<seq<Fe>>, columns: seq<seq<Fe>>, n: nat, rows: nat)
    requires IsTable(columns, n) && IsTable(stored, n) && |stored| == |columns| && PaddedFrom(columns, n, rows)
    requires forall k {:trigger stored[k]} | 0 <= k < |columns| ::
               |columns[k]| == Pow2(n - Pivot(n) + Pivot(n)) && stored[k] == ChunkReversed(columns[k], n - Pivot(n), Pivot(n))
    ensures LenFits(PaddedRows(rows, n), n - Pivot(n), n)
    ensures forall j {:trigger RowOf(stored, j)} | PaddedRows(rows, n) <= j < Pow2(n) ::
              RowOf(stored, j) == RowOf(columns, Pow2(n) - 1)
  {
    hide ChunkIndex, PaddedRows, LenFits;
    var p := Pivot(n);
    PaddedRowsFit(rows, n);
    var q: nat :| IsMultiple(PaddedRows(rows, n), Pow2(p), q);
    ChunkIndicesFit(n - p, p);
    forall j {:trigger RowOf(stored, j)} | PaddedRows(rows, n) <= j < Pow2(n)
      ensures RowOf(stored, j) == RowOf(columns, Pow2(n) - 1)
    {
      ChunkIndexBounds(j, p, q);
      var i := ChunkIndex(j, p);
      assert rows <= i < Pow2(n);
      var r, s := RowOf(stored, j), RowOf(columns, i);
      assert s == RowOf(columns, Pow2(n) - 1);
      forall k | 0 <= k < |r| ensures r[k] == s[k] {
        assert stored[k] == ChunkReversed(columns[k], n - p, p);
      }
      assert r == s;
    }
  }
}
