/**
 The accumulation loops of the AIR sumcheck round: constraints are evaluated on every active
 pair at 0, 2, 3, ..., either directly or with the low-degree part interpolated
 (compute_raw_poly_impl and compute_raw_poly_degree_split, crates/sub_protocols/src/air_sumcheck.rs).
 */
module AirAccumulation {
  import opened Arith
  import opened Field
  import opened Prime
  import opened Multilinear
  import opened Coefficients
  import opened Interpolation
  import opened StorageLayout
  import opened AirRounds

  // ----- the split equality table

  /** SplitEq: two half-size tables, or one full table once packing is exhausted. */
  datatype SplitEq = SplitEq(eqLo: seq<Fe>, eqHi: seq<Fe>, remainder: seq<Fe>)

  function NewSplitEq(point: seq<Fe>, mustUnpack: bool, laneBits: nat): SplitEq {
    var n := |point|;
    var lanes := if laneBits > 1 then laneBits else 1;
    var hiVars := if n / 2 > lanes then n / 2 else lanes;
    if mustUnpack || hiVars > n then SplitEq([1], [], EqVec(point, 1))
    else SplitEq(EqVec(point[..n - hiVars], 1), EqVec(point[n - hiVars..], 1), [])
  }

  function HighPart(i: nat, size: nat): nat
    requires size > 0
  {
    i / size
  }

  lemma PartsOfIndex(i: nat, h: nat, size: nat)
    requires size > 0
    ensures i < h * size ==> HighPart(i, size) < h
    ensures i < size ==> HighPart(i, size) == 0 && LowPart(i, size) == i
    ensures i >= h * size ==>
              HighPart(i, size) == h + HighPart(i - h * size, size) && LowPart(i, size) == LowPart(i - h * size, size)
  {
    if i < h * size {
      DivBound(i, size, h);
    } else {
      ShiftedDivision(i - h * size, h, size);
    }
    if i < size {
      DivModOfRow(0, i, size);
    }
  }

  predicate Looks(s: SplitEq, i: nat) {
    if s.remainder != [] || s.eqHi == [] then s.eqLo != [] && i < |s.remainder|
    else if |s.eqLo| > 1 then HighPart(i, |s.eqHi|) < |s.eqLo|
    else s.eqLo != [] && i < |s.eqHi|
  }

  function Lookup(s: SplitEq, i: nat): Fe
    requires Looks(s, i)
  {
    if s.remainder != [] || s.eqHi == [] then Mul(s.remainder[i], s.eqLo[0])
    else if |s.eqLo| > 1 then Mul(s.eqLo[HighPart(i, |s.eqHi|)], s.eqHi[LowPart(i, |s.eqHi|)])
    else Mul(s.eqHi[i], s.eqLo[0])
  }

  lemma {:induction false} EqVecOfParts(p: seq<Fe>, q: seq<Fe>, scalar: Fe, i: nat, size: nat)
    requires i < Pow2(|p|) * size && size == Pow2(|q|)
    ensures |p + q| == |p| + |q| && i < |EqVec(p + q, scalar)| && HighPart(i, size) < Pow2(|p|)
    ensures EqVec(p + q, scalar)[i] == Mul(EqVec(p, scalar)[HighPart(i, size)], EqVec(q, 1)[LowPart(i, size)])
    decreases |p|
  {
    hide HighPart, LowPart;
    Pow2Add(|p|, |q|);
    PartsOfIndex(i, Pow2(|p|), size);
    if p == [] {
      assert p + q == q;
      PartsOfIndex(i, 1, size);
      EqVecScaled(q, scalar, 1);
      MulOne(scalar);
    } else {
      assert (p + q)[1..] == p[1..] + q;
      var h := Pow2(|p| - 1);
      Pow2Add(|p| - 1, |q|);
      ShiftProduct(Pow2(|p|), h, size);
      PartsOfIndex(i, h, size);
      var s1 := Mul(scalar, p[0]);
      if i < h * size {
        EqVecOfParts(p[1..], q, Sub(scalar, s1), i, size);
      } else {
        EqVecOfParts(p[1..], q, s1, i - h * size, size);
      }
    }
  }

  lemma ShiftedDivision(i: nat, h: nat, size: nat)
    requires size > 0
    ensures i + h * size >= 0 && (i + h * size) / size == i / size + h && (i + h * size) % size == i % size
  {
    NonNegativeProduct(h, size);
    DivShift(i, h, size);
    SplitShift(i / size, h, size, i % size);
    assert i == i / size * size + i % size;
  }

  lemma LookupInParts(p: seq<Fe>, q: seq<Fe>, i: nat)
    requires i < Pow2(|p| + |q|)
    ensures Looks(SplitEq(EqVec(p, 1), EqVec(q, 1), []), i) && |EqVec(p + q, 1)| == Pow2(|p| + |q|)
    ensures Lookup(SplitEq(EqVec(p, 1), EqVec(q, 1), []), i) == EqVec(p + q, 1)[i]
  {
    hide HighPart, LowPart, EqVec;
    var lo, hi := EqVec(p, 1), EqVec(q, 1);
    Pow2Add(|p|, |q|);
    EqVecOfParts(p, q, 1, i, |hi|);
    if |lo| <= 1 {
      PartsOfIndex(i, 1, |hi|);
      MulComm(lo[0], hi[i]);
    }
  }

  lemma LookupInFull(e: seq<Fe>, i: nat)
    requires i < |e|
    ensures Looks(SplitEq([1], [], e), i) && Lookup(SplitEq([1], [], e), i) == e[i]
  {
    MulOne(e[i]);
  }

  /** Every lookup returns the equality polynomial's value. */
  lemma LookupIsEq(point: seq<Fe>, mustUnpack: bool, laneBits: nat, i: nat)
    requires i < Pow2(|point|)
    ensures Looks(NewSplitEq(point, mustUnpack, laneBits), i)
    ensures Lookup(NewSplitEq(point, mustUnpack, laneBits), i) == EqVec(point, 1)[i]
  {
    hide EqVec, Looks, Lookup;
    var n := |point|;
    var lanes := if laneBits > 1 then laneBits else 1;
    var hiVars := if n / 2 > lanes then n / 2 else lanes;
    if mustUnpack || hiVars > n {
      LookupInFull(EqVec(point, 1), i);
    } else {
      assert point[..n - hiVars] + point[n - hiVars..] == point;
      LookupInParts(point[..n - hiVars], point[n - hiVars..], i);
    }
  }

  // ----- evaluating one pair

  /** The i-th evaluation point: 0, 2, 3, 4, ... */
  function EvalNode(i: nat): (z: nat) { if i == 0 then 0 else i + 1 }

  method AddAll(point: seq<Fe>, diff: seq<Fe>) returns (r: seq<Fe>)
    requires |point| == |diff|
    ensures |r| == |point| && forall k {:trigger r[k]} | 0 <= k < |r| :: r[k] == Add(point[k], diff[k])
  {
    r := point;
    for k := 0 to |point|
      invariant |r| == |point|
      invariant forall j {:trigger r[j]} | 0 <= j < |r| :: r[j] == if j < k then Add(point[j], diff[j]) else point[j]
    {
      r := r[k := Add(r[k], diff[k])];
    }
  }

  lemma LerpNext(z: nat, x: Fe, y: Fe)
    requires z + 1 < P
    ensures Lerp(z + 1, x, y) == Add(Lerp(z, x, y), Sub(y, x))
  {
    LiftSelf(x);
    LiftSelf(y);
    LiftSelf(z);
    LiftSelf(z + 1);
    LiftLerp(z, x, y);
    LiftLerp(z + 1, x, y);
    LiftSub(y, x);
    LiftAdd(x + z * (y - x), y - x);
    assert x + (z + 1) * (y - x) == x + z * (y - x) + (y - x);
  }

  /** Advancing the row by the difference moves to the next integer point of the line. */
  method Advance(row: seq<Fe>, diff: seq<Fe>, ghost lo: seq<Fe>, ghost hi: seq<Fe>, ghost z: nat) returns (r: seq<Fe>)
    requires |lo| == |hi| == |row| == |diff| && z + 1 < P && row == Line(lo, hi, z)
    requires forall k {:trigger diff[k]} | 0 <= k < |diff| :: diff[k] == Sub(hi[k], lo[k])
    ensures r == Line(lo, hi, z + 1)
  {
    r := AddAll(row, diff);
    forall k {:trigger r[k]} | 0 <= k < |r| ensures r[k] == Line(lo, hi, z + 1)[k] {
      assert diff[k] == Sub(hi[k], lo[k]);
      LerpNext(z, lo[k], hi[k]);
    }
    assert r == Line(lo, hi, z + 1);
  }

  method Difference(lo: seq<Fe>, hi: seq<Fe>) returns (diff: seq<Fe>)
    requires |lo| == |hi|
    ensures |diff| == |lo|
    ensures forall k {:trigger diff[k]} | 0 <= k < |diff| :: diff[k] == Sub(hi[k], lo[k])
    ensures lo == Line(lo, hi, 0)
  {
    diff := [];
    for k := 0 to |lo|
      invariant |diff| == k
      invariant forall j {:trigger diff[j]} | 0 <= j < k :: diff[j] == Sub(hi[j], lo[j])
    {
      diff := diff + [Sub(hi[k], lo[k])];
    }
    LineEnds(lo, hi);
  }

  lemma LineEnds(lo: seq<Fe>, hi: seq<Fe>)
    requires |lo| == |hi|
    ensures Line(lo, hi, 0) == lo && Line(lo, hi, 1) == hi
  {
    forall k | 0 <= k < |lo| ensures Line(lo, hi, 0)[k] == lo[k] && Line(lo, hi, 1)[k] == hi[k] {
      LerpEnds(lo[k], hi[k]);
    }
  }

  /** The evaluations of one pair (compute_raw_poly_impl). */
  method EvaluatePair(air: Air, lo: seq<Fe>, hi: seq<Fe>) returns (evals: seq<Fe>)
    requires |lo| == |hi| == air.columns && 1 <= air.degree < P
    ensures |evals| == air.degree
    ensures forall i {:trigger evals[i]} | 0 <= i < |evals| :: evals[i] == air.eval(Line(lo, hi, EvalNode(i)))
  {
    var diff := Difference(lo, hi);
    evals := [air.eval(lo)];
    var row := lo;
    if air.degree > 1 {
      row := Advance(row, diff, lo, hi, 0);
    }
    for i := 1 to air.degree
      invariant |evals| == i
      invariant air.degree > 1 ==> row == Line(lo, hi, i)
      invariant forall k {:trigger evals[k]} | 0 <= k < i :: evals[k] == air.eval(Line(lo, hi, EvalNode(k)))
    {
      row := Advance(row, diff, lo, hi, i);
      evals := evals + [air.eval(row)];
    }
  }

  // ----- skipping the low-degree constraints

  /**
   The split of a constraint into a low-degree part and the rest; the rest is computed from the
   row and a state that is linear along every line (low_degree_air, cached_state, skip_low).
   */
  datatype LowAir = LowAir(lowDegree: nat, low: seq<Fe> -> Fe, state: seq<Fe> -> seq<Fe>, high: (seq<Fe>, seq<Fe>) -> Fe)

  ghost predicate Splits(air: Air, la: LowAir) {
    && 1 <= la.lowDegree < air.degree
    && HasDegree(la.low, air.columns, la.lowDegree)
    && (forall row: seq<Fe> {:trigger air.eval(row)} | |row| == air.columns ::
          air.eval(row) == Add(la.high(row, la.state(row)), la.low(row)))
    && (forall p: seq<Fe>, q: seq<Fe>, z: Fe {:trigger la.state(Line(p, q, z))} | |p| == |q| == air.columns ::
          |la.state(p)| == |la.state(q)| && la.state(Line(p, q, z)) == Line(la.state(p), la.state(q), z))
  }

  lemma HalfWayState(s0: Fe, s1: Fe, s2: Fe, t: Fe)
    requires s2 == Lerp(2, s0, s1)
    ensures Add(s0, Mul(Sub(s2, s0), Halve(t))) == Lerp(t, s0, s1)
  {
    LiftSelf(s0);
    LiftSelf(s1);
    LiftSelf(t);
    LiftSelf(2);
    LiftSelf(HALF);
    LiftLerp(2, s0, s1);
    LiftSub(s0 + 2 * (s1 - s0), s0);
    LiftMul(t, HALF);
    LiftMul(2 * (s1 - s0), t * HALF);
    LiftAdd(s0, 2 * (s1 - s0) * (t * HALF));
    LiftLerp(t, s0, s1);
    ResCong(s0 + t * (s1 - s0), t * (s1 - s0));
    TwiceHalf(s1 - s0, t);
  }

  lemma TwiceHalf(d: int, t: int)
    ensures 2 * d * (t * HALF) == t * d + P * (t * d)
  {
    assert 2 * HALF == 1 + P;
    assert 2 * d * (t * HALF) == t * d * (2 * HALF);
  }

  /** The cached state at t, from the states at 0 and 2. */
  method StateAt(s0: seq<Fe>, s2: seq<Fe>, t: Fe, ghost s1: seq<Fe>) returns (s: seq<Fe>)
    requires |s0| == |s1| == |s2| && s2 == Line(s0, s1, 2)
    ensures s == Line(s0, s1, t)
  {
    s := [];
    for i := 0 to |s0|
      invariant |s| == i
      invariant forall k {:trigger s[k]} | 0 <= k < i :: s[k] == Lerp(t, s0[k], s1[k])
    {
      HalfWayState(s0[i], s1[i], s2[i], t);
      s := s + [Add(s0[i], Mul(Sub(s2[i], s0[i]), Halve(t)))];
    }
  }

  /** sum of low_evals[i] * lagrange_coeffs[i]. */
  method InterpolateLow(lowEvals: seq<Fe>, coeffs: seq<Fe>, ghost nodes: seq<Fe>, ghost p: seq<Fe>, ghost t: Fe) returns (r: Fe)
    requires |lowEvals| == |coeffs| == |nodes| && Distinct(nodes) && |p| <= |nodes|
    requires forall i {:trigger lowEvals[i]} | 0 <= i < |nodes| :: lowEvals[i] == Horner(p, nodes[i])
    requires forall i {:trigger coeffs[i]} | 0 <= i < |nodes| :: coeffs[i] == BasisValue(nodes, i, t)
    ensures r == Horner(p, t)
  {
    hide Horner, BasisValue;
    r := 0;
    for i := 0 to |coeffs|
      invariant r == BasisSum(p, nodes, i, t)
    {
      MulComm(lowEvals[i], coeffs[i]);
      r := Add(r, Mul(lowEvals[i], coeffs[i]));
    }
    BasisReproduces(p, nodes, t);
  }

  /** low_zs and hi_zs. */
  function LowNodes(d: nat): (r: seq<Fe>)
    requires d + 1 < P
    ensures |r| == d + 1 && forall i {:trigger r[i]} | 0 <= i < |r| :: r[i] == EvalNode(i)
  {
    seq<Fe>(d + 1, i requires 0 <= i < d + 1 => EvalNode(i))
  }

  function HighNodes(d: nat, degree: nat): (r: seq<Fe>)
    requires d < degree < P
    ensures |r| == degree - d - 1 && forall t {:trigger r[t]} | 0 <= t < |r| :: r[t] == EvalNode(d + 1 + t)
  {
    seq<Fe>(degree - d - 1, t requires 0 <= t < degree - d - 1 => d + 2 + t)
  }

  lemma NextNode(d: nat, degree: nat, t: nat)
    requires d < degree < P && t < degree - d - 1
    ensures HighNodes(d, degree)[t] == EvalNode(d + 1 + t) == d + 1 + t + 1
  {
  }

  /** All constraints at the first nodes, where the low-degree values are kept. */
  method FirstEvaluations(air: Air, la: LowAir, lo: seq<Fe>, diff: seq<Fe>, ghost hi: seq<Fe>, ghost low: seq<Fe>)
    returns (evals: seq<Fe>, lowEvals: seq<Fe>, row: seq<Fe>, state2: seq<Fe>)
    requires |lo| == |hi| == air.columns == |diff| && 1 <= la.lowDegree && la.lowDegree + 1 < P
    requires forall k {:trigger diff[k]} | 0 <= k < |diff| :: diff[k] == Sub(hi[k], lo[k])
    requires forall z: Fe {:trigger Line(lo, hi, z)} :: la.low(Line(lo, hi, z)) == Horner(low, z)
    requires Horner(low, 0) == la.low(lo)
    ensures |evals| == |lowEvals| == la.lowDegree + 1 && row == Line(lo, hi, la.lowDegree + 1) && state2 == la.state(Line(lo, hi, 2))
    ensures forall k {:trigger evals[k]} | 0 <= k < |evals| :: evals[k] == air.eval(Line(lo, hi, EvalNode(k)))
    ensures forall k {:trigger lowEvals[k]} | 0 <= k < |lowEvals| :: lowEvals[k] == Horner(low, LowNodes(la.lowDegree)[k])
  {
    hide Horner;
    LineEnds(lo, hi);
    evals := [air.eval(lo)];
    lowEvals := [la.low(lo)];
    row := Advance(lo, diff, lo, hi, 0);
    state2 := la.state(lo);
    for i := 1 to la.lowDegree + 1
      invariant |evals| == |lowEvals| == i && row == Line(lo, hi, i)
      invariant i > 1 ==> state2 == la.state(Line(lo, hi, 2))
      invariant forall k {:trigger evals[k]} | 0 <= k < i :: evals[k] == air.eval(Line(lo, hi, EvalNode(k)))
      invariant forall k {:trigger lowEvals[k]} | 0 <= k < i :: lowEvals[k] == Horner(low, EvalNode(k))
    {
      row := Advance(row, diff, lo, hi, i);
      evals := evals + [air.eval(row)];
      lowEvals := lowEvals + [la.low(row)];
      if i == 1 {
        state2 := la.state(row);
      }
    }
  }

  /** The evaluations of one pair, low-degree constraints skipped at the last points (compute_raw_poly_degree_split). */
  method EvaluatePairSplit(air: Air, la: LowAir, lagrange: seq<seq<Fe>>, lo: seq<Fe>, hi: seq<Fe>) returns (evals: seq<Fe>)
    requires |lo| == |hi| == air.columns && 1 <= air.degree < P && Splits(air, la)
    requires Distinct(LowNodes(la.lowDegree))
    requires |lagrange| == air.degree - la.lowDegree - 1
    requires forall t {:trigger lagrange[t]} | 0 <= t < |lagrange| :: |lagrange[t]| == la.lowDegree + 1
    requires forall t, i {:trigger lagrange[t][i]} | 0 <= t < |lagrange| && 0 <= i < la.lowDegree + 1 ::
               lagrange[t][i] == BasisValue(LowNodes(la.lowDegree), i, HighNodes(la.lowDegree, air.degree)[t])
    ensures |evals| == air.degree
    ensures forall i {:trigger evals[i]} | 0 <= i < |evals| :: evals[i] == air.eval(Line(lo, hi, EvalNode(i)))
  {
    assert 1 <= la.lowDegree < air.degree;
    hide Horner, BasisValue, Splits, Distinct, EvalNode;
    var diff := Difference(lo, hi);
    var nFull := la.lowDegree + 1;
    ghost var low := LowAlongLine(air, la, lo, hi);
    var state0 := la.state(lo);
    var lowEvals, row, state2;
    evals, lowEvals, row, state2 := FirstEvaluations(air, la, lo, diff, hi, low);
    ghost var state1 := la.state(hi);
    StateLine(air, la, lo, hi, 2);
    for t := 0 to air.degree - nFull
      invariant |evals| == nFull + t && row == Line(lo, hi, nFull + t)
      invariant forall k {:trigger evals[k]} | 0 <= k < |evals| :: evals[k] == air.eval(Line(lo, hi, EvalNode(k)))
    {
      row := Advance(row, diff, lo, hi, nFull + t);
      NextNode(la.lowDegree, air.degree, t);
      var coeffs := lagrange[t];
      var value := SplitValue(air, la, coeffs, lo, hi, nFull + t + 1, row, state0, state1, state2, lowEvals, low);
      evals := evals + [value];
    }
  }

  /** The full constraint from the high-degree part and the interpolated rest. */
  method SplitValue(air: Air, la: LowAir, coeffs: seq<Fe>, ghost lo: seq<Fe>, ghost hi: seq<Fe>, target: Fe, row: seq<Fe>,
                    state0: seq<Fe>, ghost state1: seq<Fe>, state2: seq<Fe>, lowEvals: seq<Fe>, ghost low: seq<Fe>) returns (value: Fe)
    requires |lo| == |hi| == air.columns && Splits(air, la) && la.lowDegree + 1 < P && Distinct(LowNodes(la.lowDegree))
    requires |coeffs| == |lowEvals| == la.lowDegree + 1 && |low| <= la.lowDegree + 1 && row == Line(lo, hi, target)
    requires state0 == la.state(lo) && state1 == la.state(hi) && state2 == la.state(Line(lo, hi, 2)) && |state0| == |state1| == |state2|
    requires state2 == Line(state0, state1, 2)
    requires forall i {:trigger lowEvals[i]} | 0 <= i < |lowEvals| :: lowEvals[i] == Horner(low, LowNodes(la.lowDegree)[i])
    requires forall i {:trigger coeffs[i]} | 0 <= i < |coeffs| :: coeffs[i] == BasisValue(LowNodes(la.lowDegree), i, target)
    requires la.low(row) == Horner(low, target)
    ensures value == air.eval(row)
  {
    hide Horner, BasisValue, HasDegree;
    StateLine(air, la, lo, hi, target);
    var cached := StateAt(state0, state2, target, state1);
    var lowValue := InterpolateLow(lowEvals, coeffs, LowNodes(la.lowDegree), low, target);
    value := Add(la.high(row, cached), lowValue);
    assert air.eval(row) == Add(la.high(row, la.state(row)), la.low(row));
  }

  lemma StateLine(air: Air, la: LowAir, lo: seq<Fe>, hi: seq<Fe>, z: Fe)
    requires Splits(air, la) && |lo| == |hi| == air.columns
    ensures |la.state(lo)| == |la.state(hi)| && la.state(Line(lo, hi, z)) == Line(la.state(lo), la.state(hi), z)
  {
  }

  lemma LowAlongLine(air: Air, la: LowAir, lo: seq<Fe>, hi: seq<Fe>) returns (c: seq<Fe>)
    requires Splits(air, la) && |lo| == |hi| == air.columns
    ensures |c| <= la.lowDegree + 1
    ensures forall z: Fe {:trigger Line(lo, hi, z)} :: la.low(Line(lo, hi, z)) == Horner(c, z)
    ensures Horner(c, 0) == la.low(lo)
  {
    assert LineHasDegree(la.low, lo, hi, la.lowDegree);
    c := LineCoeffs(la.low, lo, hi, la.lowDegree);
    LineEnds(lo, hi);
    assert IsLinePolynomial(la.low, lo, hi, c);
    forall z: Fe {:trigger Line(lo, hi, z)} ensures la.low(Line(lo, hi, z)) == Horner(c, z) {
    }
    assert Horner(c, 0) == la.low(Line(lo, hi, 0));
  }

  // ----- all active pairs

  /** The weighted sum over the first k pairs at z. */
  ghost function ActiveSum(f: seq<Fe> -> Fe, cols: seq<seq<Fe>>, bit: nat, m: nat, point: seq<Fe>, z: Fe, k: nat): Fe
    requires bit < m && IsTable(cols, m) && |point| == m - 1 && k <= Pow2(m - 1)
  {
    Dot(RowValues(f, FoldedColumns(cols, bit, z, m), m - 1)[..k], EqVec(point, 1)[..k])
  }

  lemma ActiveSumStep(f: seq<Fe> -> Fe, cols: seq<seq<Fe>>, bit: nat, m: nat, point: seq<Fe>, z: Fe, k: nat)
    requires bit < m && IsTable(cols, m) && |point| == m - 1 && k < Pow2(m - 1)
    ensures LowPartner(k, Pow2(bit)) + Pow2(bit) < Pow2(m)
    ensures ActiveSum(f, cols, bit, m, point, z, k + 1)
         == Add(ActiveSum(f, cols, bit, m, point, z, k),
                Mul(f(Line(RowOf(cols, LowPartner(k, Pow2(bit))), RowOf(cols, LowPartner(k, Pow2(bit)) + Pow2(bit)), z)),
                    EqVec(point, 1)[k]))
  {
    hide LowPartner, EqVec, FoldedColumns;
    FoldedRow(cols, bit, m, k, z);
    var w, e := RowValues(f, FoldedColumns(cols, bit, z, m), m - 1), EqVec(point, 1);
    DotSplit(w[..k + 1], e[..k + 1], k);
    assert w[..k + 1][..k] == w[..k] && e[..k + 1][..k] == e[..k];
    var u, v := w[..k + 1][k..], e[..k + 1][k..];
    assert u == [w[k]] && v == [e[k]];
    assert u[1..] == [] && v[1..] == [];
    AddZero(Mul(w[k], e[k]));
  }

  /** compute_raw_poly: the sums over the active pairs at every evaluation point. */
  method ComputeRawPoly(cols: seq<seq<Fe>>, air: Air, low: Option<LowAir>, eq: SplitEq, bit: nat, active: nat,
                        ghost m: nat, ghost point: seq<Fe>) returns (acc: seq<Fe>)
    requires bit < m && IsTable(cols, m) && |cols| == air.columns && |point| == m - 1 && active <= Pow2(m - 1)
    requires 1 <= air.degree < P
    requires low.Some? ==> Splits(air, low.value)
    requires forall j: nat {:trigger Looks(eq, j)} | j < Pow2(m - 1) :: Looks(eq, j) && Lookup(eq, j) == EqVec(point, 1)[j]
    ensures |acc| == air.degree
    ensures forall i {:trigger acc[i]} | 0 <= i < air.degree ::
              acc[i] == ActiveSum(air.eval, cols, bit, m, point, EvalNode(i), active)
  {
    hide LowPartner, ActiveSum, EqVec, Splits, BasisValue, Line, Looks, Lookup;
    var lagrange: seq<seq<Fe>> := [];
    if low.Some? {
      LowDegreeFits(air, low.value);
      lagrange := LagrangeBasisEvals(LowNodes(low.value.lowDegree), HighNodes(low.value.lowDegree, air.degree));
    }
    PartnersFit(bit, m);
    acc := seq(air.degree, _ => 0);
    forall z: Fe ensures ActiveSum(air.eval, cols, bit, m, point, z, 0) == 0 {
      NothingSummed(air.eval, cols, bit, m, point, z);
    }
    for newJ := 0 to active
      invariant |acc| == air.degree
      invariant forall i {:trigger acc[i]} | 0 <= i < air.degree ::
                  acc[i] == ActiveSum(air.eval, cols, bit, m, point, EvalNode(i), newJ)
    {
      var i0 := LowPartner(newJ, Pow2(bit));
      var i1 := i0 + Pow2(bit);
      assert Looks(eq, newJ);
      var partialEq := Lookup(eq, newJ);
      var lo, hi := RowOf(cols, i0), RowOf(cols, i1);
      var evals;
      if low.Some? {
        evals := EvaluatePairSplit(air, low.value, lagrange, lo, hi);
      } else {
        evals := EvaluatePair(air, lo, hi);
      }
      ghost var before := acc;
      for i := 0 to air.degree
        invariant |acc| == air.degree
        invariant forall k {:trigger acc[k]} | 0 <= k < air.degree ::
                    acc[k] == if k < i then Add(before[k], Mul(evals[k], partialEq)) else before[k]
      {
        acc := acc[i := Add(acc[i], Mul(evals[i], partialEq))];
      }
      forall i {:trigger acc[i]} | 0 <= i < air.degree
        ensures acc[i] == ActiveSum(air.eval, cols, bit, m, point, EvalNode(i), newJ + 1)
      {
        ActiveSumStep(air.eval, cols, bit, m, point, EvalNode(i), newJ);
        assert before[i] == ActiveSum(air.eval, cols, bit, m, point, EvalNode(i), newJ);
      }
    }
  }

  lemma LowDegreeFits(air: Air, la: LowAir)
    requires Splits(air, la) && air.degree < P
    ensures la.lowDegree < air.degree && Distinct(LowNodes(la.lowDegree))
  {
  }

  lemma NothingSummed(f: seq<Fe> -> Fe, cols: seq<seq<Fe>>, bit: nat, m: nat, point: seq<Fe>, z: Fe)
    requires bit < m && IsTable(cols, m) && |point| == m - 1
    ensures ActiveSum(f, cols, bit, m, point, z, 0) == 0
  {
  }
}
