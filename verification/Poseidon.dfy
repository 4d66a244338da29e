/**
 The Poseidon permutation over 16 field elements: the optimised rounds against the plain
 definition (permute_generic, crates/backend/koala-bear/src/poseidon1_koalabear_16.rs).  The
 table of round constants is a parameter.
 */
module Poseidon {
  import opened Field
  import opened Multilinear
  import opened Interpolation
  import opened LinearAlgebra
  import opened MdsLayer
  import opened SparseRounds

  const POSEIDON1_WIDTH: nat := 16
  const POSEIDON1_HALF_FULL_ROUNDS: nat := 4
  const POSEIDON1_PARTIAL_ROUNDS: nat := 20
  const POSEIDON1_N_ROUNDS: nat := 2 * POSEIDON1_HALF_FULL_ROUNDS + POSEIDON1_PARTIAL_ROUNDS

  function Mds(): (m: seq<seq<Fe>>)
    ensures IsMatrix(m, POSEIDON1_WIDTH, POSEIDON1_WIDTH)
  {
    assert |MDS_CIRC_COL| == POSEIDON1_WIDTH;
    CirculantMatrix(MDS_CIRC_COL)
  }

  // ----- the definition

  function CubeAll(s: seq<Fe>): (r: seq<Fe>)
    ensures |r| == |s| && forall i {:trigger r[i]} | 0 <= i < |r| :: r[i] == Cube(s[i])
  {
    seq(|s|, i requires 0 <= i < |s| => Cube(s[i]))
  }

  ghost predicate IsState(s: seq<Fe>) { |s| == POSEIDON1_WIDTH }

  ghost predicate AllStates(rcs: seq<seq<Fe>>) { forall i {:trigger rcs[i]} | 0 <= i < |rcs| :: |rcs[i]| == POSEIDON1_WIDTH }

  ghost function FullRounds(s: seq<Fe>, rcs: seq<seq<Fe>>): (r: seq<Fe>)
    requires IsState(s) && AllStates(rcs)
    ensures IsState(r)
    decreases |rcs|
  {
    if rcs == [] then s else FullRounds(MatVec(Mds(), CubeAll(Plus(s, rcs[0]))), rcs[1..])
  }

  ghost predicate IsConstantTable(rc: seq<seq<Fe>>) { |rc| == POSEIDON1_N_ROUNDS && AllStates(rc) }

  function InitialConstants(rc: seq<seq<Fe>>): seq<seq<Fe>>
    requires |rc| == POSEIDON1_N_ROUNDS
  {
    rc[..POSEIDON1_HALF_FULL_ROUNDS]
  }

  function PartialConstants(rc: seq<seq<Fe>>): seq<seq<Fe>>
    requires |rc| == POSEIDON1_N_ROUNDS
  {
    rc[POSEIDON1_HALF_FULL_ROUNDS..POSEIDON1_HALF_FULL_ROUNDS + POSEIDON1_PARTIAL_ROUNDS]
  }

  function FinalConstants(rc: seq<seq<Fe>>): seq<seq<Fe>>
    requires |rc| == POSEIDON1_N_ROUNDS
  {
    rc[POSEIDON1_HALF_FULL_ROUNDS + POSEIDON1_PARTIAL_ROUNDS..]
  }

  /** Full rounds, partial rounds, full rounds: each adds constants, cubes and multiplies by the dense matrix. */
  ghost function Permutation(s: seq<Fe>, rc: seq<seq<Fe>>): (r: seq<Fe>)
    requires IsState(s) && IsConstantTable(rc)
  {
    FullRounds(PartialRounds(Mds(), FullRounds(s, InitialConstants(rc)), PartialConstants(rc)), FinalConstants(rc))
  }

  // ----- precomputation

  datatype Precomputed = Precomputed(
    sparseFirstRoundConstants: seq<Fe>,
    sparseMI: seq<seq<Fe>>,
    sparseFirstRow: seq<seq<Fe>>,
    sparseV: seq<seq<Fe>>,
    sparseRoundConstants: seq<Fe>)

  ghost predicate IsPrecomputed(pre: Precomputed, rc: seq<seq<Fe>>)
    requires IsConstantTable(rc)
  {
    && |pre.sparseFirstRow| == |pre.sparseV| == POSEIDON1_PARTIAL_ROUNDS
    && |pre.sparseRoundConstants| == POSEIDON1_PARTIAL_ROUNDS - 1
    && Collapsed(Mds(), POSEIDON1_WIDTH, PartialConstants(rc), pre.sparseFirstRoundConstants, pre.sparseRoundConstants + [0])
    && Factors(Mds(), POSEIDON1_WIDTH, pre.sparseFirstRow, pre.sparseV, pre.sparseMI)
  }

  /** The inversions that precomputation performs all succeed. */
  ghost predicate InversesExist() {
    !IsSingular(Mds(), POSEIDON1_WIDTH)
    && forall k {:trigger StepFails(Mds(), POSEIDON1_WIDTH, k)} | 0 <= k < POSEIDON1_PARTIAL_ROUNDS :: !StepFails(Mds(), POSEIDON1_WIDTH, k)
  }

  /** precomputed(): None is a panic of an inversion. */
  method Precompute(rc: seq<seq<Fe>>) returns (r: Option<Precomputed>)
    requires IsConstantTable(rc)
    ensures r.Some? <==> InversesExist()
    ensures r.Some? ==> IsPrecomputed(r.value, rc)
  {
    hide Factors, Collapsed, IsSingular, StepFails, IsInverse, CirculantMatrix;
    var mds := Mds();
    var partialRc := PartialConstants(rc);
    var mdsInv := MatrixInverse(mds, POSEIDON1_WIDTH);
    if mdsInv.None? {
      return None;
    }
    var first, scalars := EquivalentRoundConstants(partialRc, mdsInv.value, POSEIDON1_WIDTH, mds);
    var matrices := ComputeEquivalentMatrices(mds, POSEIDON1_WIDTH, POSEIDON1_PARTIAL_ROUNDS);
    if matrices.None? {
      return None;
    }
    var rows := FirstRows(mds[0][0], matrices.value.wHat, POSEIDON1_WIDTH);
    return Some(Precomputed(first, matrices.value.mI, rows, matrices.value.v, scalars));
  }

  // ----- the optimised permutation

  method AddConstants(state: array<Fe>, c: seq<Fe>)
    requires state.Length == |c|
    modifies state
    ensures state[..] == Plus(old(state[..]), c)
  {
    ghost var was := state[..];
    for i := 0 to state.Length
      invariant forall j {:trigger state[j]} | 0 <= j < state.Length :: state[j] == if j < i then Add(was[j], c[j]) else was[j]
    {
      state[i] := Add(state[i], c[i]);
    }
  }

  method CubeEntries(state: array<Fe>)
    modifies state
    ensures state[..] == CubeAll(old(state[..]))
  {
    ghost var was := state[..];
    for i := 0 to state.Length
      invariant forall j {:trigger state[j]} | 0 <= j < state.Length :: state[j] == if j < i then Cube(was[j]) else was[j]
    {
      state[i] := Cube(state[i]);
    }
  }

  /** full_round. */
  method FullRound(state: array<Fe>, rc: seq<Fe>)
    requires state.Length == |rc| == POSEIDON1_WIDTH
    modifies state
    ensures state[..] == MatVec(Mds(), CubeAll(Plus(old(state[..]), rc)))
  {
    AddConstants(state, rc);
    CubeEntries(state);
    MdsCirc16(state);
  }

  method ApplyFullRounds(state: array<Fe>, rcs: seq<seq<Fe>>)
    requires state.Length == POSEIDON1_WIDTH && AllStates(rcs)
    modifies state
    ensures state[..] == FullRounds(old(state[..]), rcs)
  {
    hide MatVec, CubeAll, Plus, Mds;
    assert rcs[0..] == rcs;
    for r := 0 to |rcs|
      invariant AllStates(rcs[r..])
      invariant FullRounds(state[..], rcs[r..]) == FullRounds(old(state[..]), rcs)
    {
      assert rcs[r..][0] == rcs[r] && rcs[r..][1..] == rcs[r + 1..];
      FullRound(state, rcs[r]);
    }
  }

  /** state[i] = sum of input[j] * m[i][j]. */
  method ApplyDense(state: array<Fe>, m: seq<seq<Fe>>)
    requires IsMatrix(m, state.Length, state.Length)
    modifies state
    ensures state[..] == MatVec(m, old(state[..]))
  {
    hide Dot;
    var input := state[..];
    for i := 0 to state.Length
      invariant forall k {:trigger state[k]} | 0 <= k < i :: state[k] == Dot(m[k], input)
    {
      state[i] := 0;
      DotPrefixStart(input, m[i]);
      for j := 0 to state.Length
        invariant forall k {:trigger state[k]} | 0 <= k < i :: state[k] == Dot(m[k], input)
        invariant state[i] == Dot(input[..j], m[i][..j])
      {
        DotPrefix(input, m[i], j);
        state[i] := Add(state[i], Mul(input[j], m[i][j]));
      }
      assert input[..state.Length] == input && m[i][..state.Length] == m[i];
      DotCommute(input, m[i]);
    }
  }

  lemma DotPrefixStart(u: seq<Fe>, v: seq<Fe>)
    requires |u| == |v|
    ensures Dot(u[..0], v[..0]) == 0
  {
  }

  /** One partial round: S-box and scalar on the first entry, then the sparse step. */
  method PartialRound(state: array<Fe>, c: Fe, addConstant: bool, row: seq<Fe>, v: seq<Fe>)
    requires state.Length == |row| == |v| > 0
    modifies state
    ensures state[..] == SparseApply(row, v, CubeAndAdd(if addConstant then c else 0, old(state[..])))
  {
    ghost var was := state[..];
    state[0] := Cube(state[0]);
    AddZero(state[0]);
    if addConstant {
      state[0] := Add(state[0], c);
    }
    ghost var y := CubeAndAdd(if addConstant then c else 0, was);
    assert state[..] == y;
    var oldS0 := state[0];
    var current := state[..];
    var dot := ParityDot(current, row);
    state[0] := dot;
    for i := 1 to state.Length
      invariant state[0] == Dot(y, row)
      invariant forall k {:trigger state[k]} | 1 <= k < state.Length ::
                  state[k] == if k < i then Add(y[k], Mul(y[0], v[k - 1])) else y[k]
    {
      state[i] := Add(state[i], Mul(oldS0, v[i - 1]));
    }
    assert state[..] == SparseApply(row, v, y);
  }

  class Poseidon1KoalaBear16 {
    const pre: Precomputed

    constructor (pre: Precomputed)
      ensures this.pre == pre
    {
      this.pre := pre;
    }

    /** The sparse partial rounds are the dense ones. */
    method ApplyPartialRounds(state: array<Fe>, ghost rc: seq<seq<Fe>>)
      requires state.Length == POSEIDON1_WIDTH && IsConstantTable(rc) && IsPrecomputed(pre, rc)
      modifies state
      ensures state[..] == PartialRounds(Mds(), old(state[..]), PartialConstants(rc))
    {
      FactorsShape(pre, rc);
      hide Plus, MatVec, SparseApply, Mds, CubeAndAdd;
      ghost var input := state[..];
      AddConstants(state, pre.sparseFirstRoundConstants);
      ghost var cs := pre.sparseRoundConstants + [0];
      ghost var shifted := state[..];
      ApplyDense(state, pre.sparseMI);
      ghost var start := state[..];
      var rows, vs := pre.sparseFirstRow, pre.sparseV;
      assert rows[0..] == rows && vs[0..] == vs && cs[0..] == cs;
      for r := 0 to POSEIDON1_PARTIAL_ROUNDS
        invariant AllLength(rows[r..], POSEIDON1_WIDTH) && AllLength(vs[r..], POSEIDON1_WIDTH)
        invariant SparseRun(rows[r..], vs[r..], cs[r..], state[..]) == SparseRun(rows, vs, cs, start)
      {
        assert rows[r..][0] == rows[r] && vs[r..][0] == vs[r] && cs[r..][0] == cs[r];
        assert rows[r..][1..] == rows[r + 1..] && vs[r..][1..] == vs[r + 1..] && cs[r..][1..] == cs[r + 1..];
        var addConstant := r < POSEIDON1_PARTIAL_ROUNDS - 1;
        var c := if addConstant then pre.sparseRoundConstants[r] else 0;
        PartialRound(state, c, addConstant, rows[r], vs[r]);
      }
      OptimisedIsPlain(pre, rc, input, shifted);
    }

    /** permute_generic. */
    method Permute(state: array<Fe>, rc: seq<seq<Fe>>)
      requires state.Length == POSEIDON1_WIDTH && IsConstantTable(rc) && IsPrecomputed(pre, rc)
      modifies state
      ensures state[..] == Permutation(old(state[..]), rc)
    {
      hide FullRounds, PartialRounds, IsPrecomputed, Mds;
      ApplyFullRounds(state, InitialConstants(rc));
      ApplyPartialRounds(state, rc);
      ApplyFullRounds(state, FinalConstants(rc));
    }
  }

  lemma FactorsShape(pre: Precomputed, rc: seq<seq<Fe>>)
    requires IsConstantTable(rc) && IsPrecomputed(pre, rc)
    ensures |pre.sparseFirstRoundConstants| == POSEIDON1_WIDTH && IsMatrix(pre.sparseMI, POSEIDON1_WIDTH, POSEIDON1_WIDTH)
    ensures AllLength(pre.sparseFirstRow, POSEIDON1_WIDTH) && AllLength(pre.sparseV, POSEIDON1_WIDTH)
    ensures |pre.sparseFirstRow| == |pre.sparseV| == POSEIDON1_PARTIAL_ROUNDS == |pre.sparseRoundConstants| + 1
  {
  }

  lemma OptimisedIsPlain(pre: Precomputed, rc: seq<seq<Fe>>, input: seq<Fe>, shifted: seq<Fe>)
    requires IsConstantTable(rc) && IsPrecomputed(pre, rc) && IsState(input)
    requires |pre.sparseFirstRoundConstants| == POSEIDON1_WIDTH && shifted == Plus(input, pre.sparseFirstRoundConstants)
    requires AllLength(pre.sparseFirstRow, POSEIDON1_WIDTH) && AllLength(pre.sparseV, POSEIDON1_WIDTH)
    requires IsMatrix(pre.sparseMI, POSEIDON1_WIDTH, POSEIDON1_WIDTH)
    ensures SparseRun(pre.sparseFirstRow, pre.sparseV, pre.sparseRoundConstants + [0], MatVec(pre.sparseMI, shifted))
         == PartialRounds(Mds(), input, PartialConstants(rc))
  {
    hide MatVec, Mds;
    var cs := pre.sparseRoundConstants + [0];
    assert DenseRun(Mds(), cs, shifted) == SparseRun(pre.sparseFirstRow, pre.sparseV, cs, MatVec(pre.sparseMI, shifted));
  }

  /** Every state and every table: when the inverses exist, the optimised permutation is the plain one. */
  method PermuteWithTable(state: array<Fe>, rc: seq<seq<Fe>>) returns (ok: bool)
    requires state.Length == POSEIDON1_WIDTH && IsConstantTable(rc)
    modifies state
    ensures ok <==> InversesExist()
    ensures ok ==> state[..] == Permutation(old(state[..]), rc)
  {
    hide *;
    var pre := Precompute(rc);
    ok := pre.Some?;
    if ok {
      var p := new Poseidon1KoalaBear16(pre.value);
      p.Permute(state, rc);
    }
  }
}
