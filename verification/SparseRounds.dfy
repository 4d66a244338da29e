/**
 Partial rounds in sparse form: round constants are moved to the front and compressed to scalars,
 and the dense matrix is factored into sparse steps
 (equivalent_round_constants and compute_equivalent_matrices,
 crates/backend/koala-bear/src/poseidon1_koalabear_16.rs).
 */
module SparseRounds {
  import opened Field
  import opened Multilinear
  import opened Interpolation
  import opened LinearAlgebra

  /** injective_exp_n for the degree 3 monomial. */
  function Cube(x: Fe): Fe { Mul(Mul(x, x), x) }

  // ----- plain partial rounds

  /** Only the first entry goes through the S-box. */
  function CubeFirst(s: seq<Fe>): (r: seq<Fe>)
    requires s != []
    ensures |r| == |s|
  {
    s[0 := Cube(s[0])]
  }

  /** The definition: add the constants, cube the first entry, multiply by the dense matrix. */
  ghost function PartialRounds(mds: seq<seq<Fe>>, s: seq<Fe>, rcs: seq<seq<Fe>>): (r: seq<Fe>)
    requires s != [] && IsMatrix(mds, |s|, |s|) && forall i {:trigger rcs[i]} | 0 <= i < |rcs| :: |rcs[i]| == |s|
    ensures |r| == |s|
    decreases |rcs|
  {
    if rcs == [] then s else PartialRounds(mds, MatVec(mds, CubeFirst(Plus(s, rcs[0]))), rcs[1..])
  }

  /** The nonlinear part with a scalar constant added after the S-box. */
  function CubeAndAdd(c: Fe, s: seq<Fe>): (r: seq<Fe>)
    requires s != []
    ensures |r| == |s|
  {
    s[0 := Add(Cube(s[0]), c)]
  }

  /** Rounds that only carry a scalar constant. */
  ghost function DenseRun(mds: seq<seq<Fe>>, cs: seq<Fe>, s: seq<Fe>): (r: seq<Fe>)
    requires s != [] && IsMatrix(mds, |s|, |s|)
    ensures |r| == |s|
    decreases |cs|
  {
    if cs == [] then s else DenseRun(mds, cs[1..], MatVec(mds, CubeAndAdd(cs[0], s)))
  }

  // ----- compressing the constants

  /** The constants from round i on collapse into one vector and scalars. */
  ghost predicate Collapsed(mds: seq<seq<Fe>>, n: nat, rcs: seq<seq<Fe>>, first: seq<Fe>, cs: seq<Fe>) {
    && n > 0 && IsMatrix(mds, n, n) && |first| == n && (forall i {:trigger rcs[i]} | 0 <= i < |rcs| :: |rcs[i]| == n)
    && forall s: seq<Fe> {:trigger Plus(s, first)} | |s| == n :: PartialRounds(mds, s, rcs) == DenseRun(mds, cs, Plus(s, first))
  }

  lemma CollapsedStart(mds: seq<seq<Fe>>, n: nat, c: seq<Fe>)
    requires n > 0 && IsMatrix(mds, n, n) && |c| == n
    ensures Collapsed(mds, n, [c], c, [0])
  {
    forall s: seq<Fe> {:trigger Plus(s, c)} | |s| == n ensures PartialRounds(mds, s, [c]) == DenseRun(mds, [0], Plus(s, c)) {
      var t := Plus(s, c);
      AddZero(Cube(t[0]));
      assert [c][1..] == [] && [0 as Fe][1..] == [];
    }
  }

  /** tmp = c with the tail of inv added. */
  function AddTail(c: seq<Fe>, inv: seq<Fe>): (r: seq<Fe>)
    requires |c| == |inv| > 0
    ensures |r| == |c| && forall j {:trigger r[j]} | 0 <= j < |r| :: r[j] == if j == 0 then c[0] else Add(c[j], inv[j])
  {
    seq(|c|, j requires 0 <= j < |c| => if j == 0 then c[0] else Add(c[j], inv[j]))
  }

  /** A vector added after the S-box splits into a scalar there and a tail before it. */
  lemma ConstantsMove(s: seq<Fe>, c: seq<Fe>, inv: seq<Fe>)
    requires |s| == |c| == |inv| > 0
    ensures Plus(CubeFirst(Plus(s, c)), inv) == CubeAndAdd(inv[0], Plus(s, AddTail(c, inv)))
  {
    var l, r := Plus(CubeFirst(Plus(s, c)), inv), CubeAndAdd(inv[0], Plus(s, AddTail(c, inv)));
    forall j | 0 <= j < |s| ensures l[j] == r[j] {
      AddAssoc(s[j], c[j], inv[j]);
    }
  }

  lemma CollapsedStep(mds: seq<seq<Fe>>, n: nat, rcs: seq<seq<Fe>>, tmp: seq<Fe>, cs: seq<Fe>, c: seq<Fe>, inv: seq<Fe>)
    requires Collapsed(mds, n, rcs, tmp, cs) && |c| == |inv| == n && MatVec(mds, inv) == tmp
    ensures Collapsed(mds, n, [c] + rcs, AddTail(c, inv), [inv[0]] + cs)
  {
    var first := AddTail(c, inv);
    var all, scalars := [c] + rcs, [inv[0]] + cs;
    assert all[1..] == rcs && scalars[1..] == cs;
    forall s: seq<Fe> {:trigger Plus(s, first)} | |s| == n
      ensures PartialRounds(mds, s, all) == DenseRun(mds, scalars, Plus(s, first))
    {
      var u := CubeFirst(Plus(s, c));
      ConstantsMove(s, c, inv);
      MatVecPlus(mds, u, inv);
      var v := MatVec(mds, u);
      assert PartialRounds(mds, v, rcs) == DenseRun(mds, cs, Plus(v, tmp));
    }
  }

  /** equivalent_round_constants. */
  method EquivalentRoundConstants(partialRc: seq<seq<Fe>>, mdsInv: seq<seq<Fe>>, n: nat, ghost mds: seq<seq<Fe>>)
    returns (first: seq<Fe>, scalars: seq<Fe>)
    requires |partialRc| > 0 && n > 0 && forall i {:trigger partialRc[i]} | 0 <= i < |partialRc| :: |partialRc[i]| == n
    requires IsMatrix(mds, n, n) && IsMatrix(mdsInv, n, n) && IsInverse(mdsInv, mds, n)
    ensures |scalars| == |partialRc| - 1 && Collapsed(mds, n, partialRc, first, scalars + [0])
  {
    hide MatVec, Collapsed, AddTail;
    var roundsP := |partialRc|;
    var optPartialRc: seq<Fe> := seq(roundsP, _ => 0);
    var tmp := partialRc[roundsP - 1];
    CollapsedStart(mds, n, tmp);
    assert partialRc[roundsP - 1..] == [tmp];
    assert optPartialRc[roundsP..] + [0] == [0];
    var i := roundsP - 1;
    while i > 0
      invariant 0 <= i < roundsP && |optPartialRc| == roundsP && |tmp| == n
      invariant Collapsed(mds, n, partialRc[i..], tmp, optPartialRc[i + 1..] + [0])
    {
      i := i - 1;
      var invCip := MatVec(mdsInv, tmp);
      assert MatVec(mds, invCip) == tmp;
      CollapsedStep(mds, n, partialRc[i + 1..], tmp, optPartialRc[i + 2..] + [0], partialRc[i], invCip);
      assert [partialRc[i]] + partialRc[i + 1..] == partialRc[i..];
      optPartialRc := optPartialRc[i + 1 := invCip[0]];
      assert [invCip[0]] + (optPartialRc[i + 2..] + [0]) == optPartialRc[i + 1..] + [0];
      tmp := AddTail(partialRc[i], invCip);
    }
    assert partialRc[0..] == partialRc;
    first := tmp;
    scalars := optPartialRc[1..];
  }

  // ----- factoring the matrix

  /** The sparse step: first row dense, first column dense, identity elsewhere. */
  function SparseApply(row: seq<Fe>, v: seq<Fe>, y: seq<Fe>): (r: seq<Fe>)
    requires |row| == |v| == |y| > 0
    ensures |r| == |y|
    ensures forall i {:trigger r[i]} | 0 <= i < |r| :: r[i] == if i == 0 then Dot(y, row) else Add(y[i], Mul(y[0], v[i - 1]))
  {
    seq(|y|, i requires 0 <= i < |y| => if i == 0 then Dot(y, row) else Add(y[i], Mul(y[0], v[i - 1])))
  }

  ghost predicate AllLength(vs: seq<seq<Fe>>, n: nat) { forall i {:trigger vs[i]} | 0 <= i < |vs| :: |vs[i]| == n }

  /** Rounds with sparse steps, in application order. */
  ghost function SparseRun(rows: seq<seq<Fe>>, vs: seq<seq<Fe>>, cs: seq<Fe>, s: seq<Fe>): (r: seq<Fe>)
    requires s != [] && |rows| == |vs| == |cs| && AllLength(rows, |s|) && AllLength(vs, |s|)
    ensures |r| == |s|
    decreases |cs|
  {
    if cs == [] then s else SparseRun(rows[1..], vs[1..], cs[1..], SparseApply(rows[0], vs[0], CubeAndAdd(cs[0], s)))
  }

  /** The bottom-right submatrix. */
  function SubMatrix(m: seq<seq<Fe>>, n: nat): (r: seq<seq<Fe>>)
    requires n > 0 && IsMatrix(m, n, n)
    ensures IsMatrix(r, n - 1, n - 1)
    ensures forall i, j {:trigger r[i][j]} | 0 <= i < n - 1 && 0 <= j < n - 1 :: r[i][j] == m[i + 1][j + 1]
  {
    seq(n - 1, i requires 0 <= i < n - 1 => seq(n - 1, j requires 0 <= j < n - 1 => m[i + 1][j + 1]))
  }

  /** m with its first row and column replaced by those of the identity. */
  function Bordered(m: seq<seq<Fe>>, n: nat): (r: seq<seq<Fe>>)
    requires n > 0 && IsMatrix(m, n, n)
    ensures IsMatrix(r, n, n)
    ensures forall i, j {:trigger r[i][j]} | 0 <= i < n && 0 <= j < n ::
              r[i][j] == if i == 0 && j == 0 then 1 else if i == 0 || j == 0 then 0 else m[i][j]
  {
    seq(n, i requires 0 <= i < n =>
      seq<Fe>(n, j requires 0 <= j < n => if i == 0 && j == 0 then 1 else if i == 0 || j == 0 then 0 else m[i][j]))
  }

  /** v: the first row without its first entry, padded with 0. */
  function FirstRowTail(m: seq<seq<Fe>>, n: nat): (r: seq<Fe>)
    requires n > 0 && IsMatrix(m, n, n)
    ensures |r| == n && forall j {:trigger r[j]} | 0 <= j < n :: r[j] == if j < n - 1 then m[0][j + 1] else 0
  {
    seq(n, j requires 0 <= j < n => if j < n - 1 then m[0][j + 1] else 0)
  }

  /** w: the first column without its first entry. */
  function FirstColumnTail(m: seq<seq<Fe>>, n: nat): (r: seq<Fe>)
    requires n > 0 && IsMatrix(m, n, n)
    ensures |r| == n - 1 && forall i {:trigger r[i]} | 0 <= i < n - 1 :: r[i] == m[i + 1][0]
  {
    seq(n - 1, i requires 0 <= i < n - 1 => m[i + 1][0])
  }

  /** The transposed border acts as the identity on the first entry and ignores it elsewhere. */
  lemma BorderedRows(m: seq<seq<Fe>>, n: nat, x: seq<Fe>, i: nat)
    requires n > 0 && IsMatrix(m, n, n) && |x| == n && i < n
    ensures MatVec(Transpose(Bordered(m, n), n), x)[i]
         == if i == 0 then x[0] else Dot(Column(m, i)[1..], x[1..])
  {
    var b := Bordered(m, n);
    var t := Transpose(b, n);
    DotHeadTail(t[i], x);
    MulOne(x[0]);
    if i == 0 {
      forall j {:trigger t[0][1..][j]} | 0 <= j < n - 1 ensures t[0][1..][j] == 0 {
        assert t[0][j + 1] == b[j + 1][0];
      }
      DotZero(t[0][1..], x[1..]);
      assert t[0][0] == b[0][0];
      AddZero(x[0]);
    } else {
      assert t[i][0] == b[0][i] == 0;
      forall j | 0 <= j < n - 1 ensures t[i][1..][j] == Column(m, i)[1..][j] {
        assert t[i][j + 1] == b[j + 1][i] == m[j + 1][i];
      }
      assert t[i][1..] == Column(m, i)[1..];
      AddZero(Dot(t[i][1..], x[1..]));
    }
  }

  ghost function TailColumns(m: seq<seq<Fe>>, n: nat): (k: seq<seq<Fe>>)
    requires n > 0 && IsMatrix(m, n, n)
    ensures IsMatrix(k, n - 1, n - 1) && forall i {:trigger k[i]} | 0 <= i < n - 1 :: k[i] == Column(m, i + 1)[1..]
  {
    seq(n - 1, i requires 0 <= i < n - 1 => Column(m, i + 1)[1..])
  }

  lemma TailColumnsTransposed(m: seq<seq<Fe>>, n: nat, j: nat)
    requires n > 0 && IsMatrix(m, n, n) && j < n - 1
    ensures Column(TailColumns(m, n), j) == SubMatrix(m, n)[j]
  {
    var k, sub := TailColumns(m, n), SubMatrix(m, n);
    forall i | 0 <= i < n - 1 ensures Column(k, j)[i] == sub[j][i] {
      assert k[i][j] == Column(m, i + 1)[j + 1] == m[j + 1][i + 1];
    }
  }

  /** The column of w-hat entries reproduces the first row of the factored matrix. */
  lemma FirstEntry(m: seq<seq<Fe>>, n: nat, wHat: seq<Fe>, x: seq<Fe>, y: seq<Fe>)
    requires n > 0 && IsMatrix(m, n, n) && |x| == n && |wHat| == n - 1
    requires MatVec(SubMatrix(m, n), wHat) == FirstColumnTail(m, n)
    requires |y| == n - 1 && forall i {:trigger y[i]} | 0 <= i < n - 1 :: y[i] == Dot(Column(m, i + 1)[1..], x[1..])
    ensures Dot(wHat, y) == Dot(Column(m, 0)[1..], x[1..])
  {
    var k := TailColumns(m, n);
    hide Dot, TailColumns, SubMatrix, FirstColumnTail;
    assert y == MatVec(k, x[1..]) by {
      forall i | 0 <= i < n - 1 ensures y[i] == MatVec(k, x[1..])[i] {
        assert k[i] == Column(m, i + 1)[1..];
      }
    }
    RowCombinationDot(wHat, k, n - 1, x[1..]);
    var r, c := RowCombination(wHat, k, n - 1), Column(m, 0)[1..];
    var sub := SubMatrix(m, n);
    forall j | 0 <= j < n - 1 ensures r[j] == c[j] {
      RowCombinationAt(wHat, k, n - 1, j);
      TailColumnsTransposed(m, n, j);
      DotCommute(wHat, sub[j]);
      assert MatVec(sub, wHat)[j] == FirstColumnTail(m, n)[j] == m[j + 1][0];
    }
    assert r == c;
  }

  /** One factorisation step: the matrix is a sparse step after its bordered part. */
  lemma FactorStep(m: seq<seq<Fe>>, n: nat, wHat: seq<Fe>, x: seq<Fe>)
    requires n > 0 && IsMatrix(m, n, n) && |x| == n && |wHat| == n - 1
    requires MatVec(SubMatrix(m, n), wHat) == FirstColumnTail(m, n)
    ensures MatVec(Transpose(m, n), x)
         == SparseApply([m[0][0]] + wHat, FirstRowTail(m, n), MatVec(Transpose(Bordered(m, n), n), x))
  {
    var y := MatVec(Transpose(Bordered(m, n), n), x);
    forall i | 0 <= i < n ensures y[i] == if i == 0 then x[0] else Dot(Column(m, i)[1..], x[1..]) {
      BorderedRows(m, n, x, i);
    }
    hide Bordered;
    var l := MatVec(Transpose(m, n), x);
    var row := [m[0][0]] + wHat;
    var r := SparseApply(row, FirstRowTail(m, n), y);
    FirstEntry(m, n, wHat, x, y[1..]);
    DotHeadTail(y, row);
    assert row[1..] == wHat;
    DotCommute(y[1..], wHat);
    forall i | 0 <= i < n ensures l[i] == r[i] {
      DotHeadTail(Column(m, i), x);
      if i == 0 {
        MulComm(m[0][0], x[0]);
      } else {
        MulComm(m[0][i], x[0]);
        AddComm(Mul(x[0], m[0][i]), y[i]);
      }
    }
  }

  /** The bordered part commutes with the nonlinear part. */
  lemma BorderCommutes(m: seq<seq<Fe>>, n: nat, c: Fe, s: seq<Fe>)
    requires n > 0 && IsMatrix(m, n, n) && |s| == n
    ensures MatVec(Transpose(Bordered(m, n), n), CubeAndAdd(c, s)) == CubeAndAdd(c, MatVec(Transpose(Bordered(m, n), n), s))
  {
    var t := CubeAndAdd(c, s);
    var l, r := MatVec(Transpose(Bordered(m, n), n), t), CubeAndAdd(c, MatVec(Transpose(Bordered(m, n), n), s));
    BorderedRows(m, n, s, 0);
    forall i | 0 <= i < n ensures l[i] == r[i] {
      BorderedRows(m, n, s, i);
      BorderedRows(m, n, t, i);
      assert t[1..] == s[1..];
    }
  }

  /** The steps so far, applied after d, do what the dense rounds do. */
  ghost predicate Factors(mds: seq<seq<Fe>>, n: nat, rows: seq<seq<Fe>>, vs: seq<seq<Fe>>, d: seq<seq<Fe>>) {
    && n > 0 && IsMatrix(mds, n, n) && IsMatrix(d, n, n) && |rows| == |vs| && AllLength(rows, n) && AllLength(vs, n)
    && forall cs: seq<Fe>, s: seq<Fe> {:trigger DenseRun(mds, cs, s)} | |cs| == |rows| && |s| == n ::
         DenseRun(mds, cs, s) == SparseRun(rows, vs, cs, MatVec(d, s))
  }

  lemma FactorsStart(mds: seq<seq<Fe>>, n: nat)
    requires n > 0 && IsMatrix(mds, n, n)
    ensures Factors(mds, n, [], [], Identity(n))
  {
    forall cs: seq<Fe>, s: seq<Fe> {:trigger DenseRun(mds, cs, s)} | |cs| == 0 && |s| == n
      ensures DenseRun(mds, cs, s) == SparseRun([], [], cs, MatVec(Identity(n), s))
    {
      IdentityActs(s);
    }
  }

  /** `m` transposed acts as d after the dense matrix. */
  ghost predicate Composes(m: seq<seq<Fe>>, mds: seq<seq<Fe>>, d: seq<seq<Fe>>, n: nat)
    requires IsMatrix(m, n, n) && IsMatrix(mds, n, n) && IsMatrix(d, n, n)
  {
    forall x: seq<Fe> {:trigger MatVec(mds, x)} | |x| == n :: MatVec(Transpose(m, n), x) == MatVec(d, MatVec(mds, x))
  }

  lemma FactorsStep(mds: seq<seq<Fe>>, n: nat, rows: seq<seq<Fe>>, vs: seq<seq<Fe>>, d: seq<seq<Fe>>, m: seq<seq<Fe>>, wHat: seq<Fe>)
    requires Factors(mds, n, rows, vs, d) && IsMatrix(m, n, n) && |wHat| == n - 1
    requires Composes(m, mds, d, n) && MatVec(SubMatrix(m, n), wHat) == FirstColumnTail(m, n)
    ensures Factors(mds, n, [[m[0][0]] + wHat] + rows, [FirstRowTail(m, n)] + vs, Transpose(Bordered(m, n), n))
  {
    hide MatVec, SparseApply, Bordered, Transpose, FirstRowTail, SubMatrix, FirstColumnTail;
    var d1 := Transpose(Bordered(m, n), n);
    var row, v := [m[0][0]] + wHat, FirstRowTail(m, n);
    var rows1, vs1 := [row] + rows, [v] + vs;
    assert rows1[1..] == rows && vs1[1..] == vs;
    forall cs: seq<Fe>, s: seq<Fe> {:trigger DenseRun(mds, cs, s)} | |cs| == |rows1| && |s| == n
      ensures DenseRun(mds, cs, s) == SparseRun(rows1, vs1, cs, MatVec(d1, s))
    {
      var t := CubeAndAdd(cs[0], s);
      var u := MatVec(mds, t);
      assert DenseRun(mds, cs[1..], u) == SparseRun(rows, vs, cs[1..], MatVec(d, u));
      assert MatVec(Transpose(m, n), t) == MatVec(d, u);
      FactorStep(m, n, wHat, t);
      BorderCommutes(m, n, cs[0], s);
    }
  }

  lemma ComposesNext(m: seq<seq<Fe>>, mds: seq<seq<Fe>>, n: nat)
    requires n > 0 && IsMatrix(m, n, n) && IsMatrix(mds, n, n)
    ensures Composes(MatMul(Transpose(mds, n), Bordered(m, n), n), mds, Transpose(Bordered(m, n), n), n)
    ensures MatMul(Transpose(mds, n), Bordered(m, n), n)[0][0] == mds[0][0]
  {
    var b := Bordered(m, n);
    var t := Transpose(mds, n);
    TransposeOfProduct(t, b, n);
    assert Transpose(t, n) == mds by {
      forall i | 0 <= i < n ensures Transpose(t, n)[i] == mds[i] {
        forall j | 0 <= j < n ensures Transpose(t, n)[i][j] == mds[i][j] {
          assert t[j][i] == mds[i][j];
        }
      }
    }
    forall x: seq<Fe> {:trigger MatVec(mds, x)} | |x| == n
      ensures MatVec(Transpose(MatMul(t, b, n), n), x) == MatVec(Transpose(b, n), MatVec(mds, x))
    {
      MatMulActs(Transpose(b, n), mds, n, x);
    }
    forall k | 0 <= k < n ensures Column(b, 0)[k] == Unit(0, n)[k] {
      assert Column(b, 0)[k] == b[k][0];
    }
    assert Column(b, 0) == Unit(0, n);
    UnitPicks(t[0], 0);
    assert t[0][0] == mds[0][0];
  }

  lemma ComposesStart(mds: seq<seq<Fe>>, n: nat)
    requires n > 0 && IsMatrix(mds, n, n)
    ensures Composes(Transpose(mds, n), mds, Identity(n), n) && Transpose(mds, n)[0][0] == mds[0][0]
  {
    var t := Transpose(mds, n);
    forall i | 0 <= i < n ensures Transpose(t, n)[i] == mds[i] {
      forall j | 0 <= j < n ensures Transpose(t, n)[i][j] == mds[i][j] {
        assert t[j][i] == mds[i][j];
      }
    }
    assert Transpose(t, n) == mds;
    forall x: seq<Fe> {:trigger MatVec(mds, x)} | |x| == n
      ensures MatVec(Transpose(t, n), x) == MatVec(Identity(n), MatVec(mds, x))
    {
      IdentityActs(MatVec(mds, x));
    }
  }

  /** The matrix whose submatrix step k inverts. */
  ghost function StepMatrix(mds: seq<seq<Fe>>, n: nat, k: nat): (m: seq<seq<Fe>>)
    requires n > 0 && IsMatrix(mds, n, n)
    ensures IsMatrix(m, n, n)
  {
    if k == 0 then Transpose(mds, n) else MatMul(Transpose(mds, n), Bordered(StepMatrix(mds, n, k - 1), n), n)
  }

  ghost predicate StepFails(mds: seq<seq<Fe>>, n: nat, k: nat)
    requires n > 0 && IsMatrix(mds, n, n)
  {
    IsSingular(SubMatrix(StepMatrix(mds, n, k), n), n - 1)
  }

  function Reverse<T>(s: seq<T>): (r: seq<T>)
    ensures |r| == |s| && forall i {:trigger r[i]} | 0 <= i < |r| :: r[i] == s[|s| - 1 - i]
  {
    seq(|s|, i requires 0 <= i < |s| => s[|s| - 1 - i])
  }

  datatype SparseMatrices = SparseMatrices(mI: seq<seq<Fe>>, v: seq<seq<Fe>>, wHat: seq<seq<Fe>>)

  /** [mds_0_0, w-hat...] for every step. */
  function FirstRows(a: Fe, ws: seq<seq<Fe>>, n: nat): (rows: seq<seq<Fe>>)
    requires n > 0 && forall i {:trigger ws[i]} | 0 <= i < |ws| :: |ws[i]| == n
    ensures |rows| == |ws| && forall i {:trigger rows[i]} | 0 <= i < |rows| :: rows[i] == [a] + ws[i][..n - 1]
  {
    seq(|ws|, i requires 0 <= i < |ws| => [a] + ws[i][..n - 1])
  }

  /**
   compute_equivalent_matrices; None is the panic on a singular submatrix.  The sparse steps, in the
   returned (reversed) order, run after m_i exactly like the dense rounds.
   */
  method ComputeEquivalentMatrices(mds: seq<seq<Fe>>, n: nat, rounds: nat) returns (r: Option<SparseMatrices>)
    requires n > 0 && rounds > 0 && IsMatrix(mds, n, n)
    ensures r.None? <==> exists k {:trigger StepFails(mds, n, k)} :: 0 <= k < rounds && StepFails(mds, n, k)
    ensures r.Some? ==> |r.value.v| == |r.value.wHat| == rounds && AllLength(r.value.wHat, n)
                        && Factors(mds, n, FirstRows(mds[0][0], r.value.wHat, n), r.value.v, r.value.mI)
  {
    hide MatVec, Factors, Composes, Bordered, MatMul, Transpose, SubMatrix, FirstRowTail, FirstColumnTail, Identity;
    var wHatCollection: seq<seq<Fe>> := [];
    var vCollection: seq<seq<Fe>> := [];
    var mdsT := Transpose(mds, n);
    var mMul := mdsT;
    var mI: seq<seq<Fe>> := seq(n, _ => ZeroVec(n));
    ghost var rows: seq<seq<Fe>> := [];
    ghost var d := Identity(n);
    FactorsStart(mds, n);
    ComposesStart(mds, n);
    for k := 0 to rounds
      invariant |wHatCollection| == |vCollection| == |rows| == k && AllLength(wHatCollection, n) && AllLength(vCollection, n)
      invariant mMul == StepMatrix(mds, n, k) && mMul[0][0] == mds[0][0]
      invariant IsMatrix(d, n, n) && Factors(mds, n, rows, Reverse(vCollection), d) && Composes(mMul, mds, d, n)
      invariant IsMatrix(mI, n, n) && (k > 0 ==> d == Transpose(mI, n))
      invariant rows == FirstRows(mds[0][0], Reverse(wHatCollection), n)
      invariant forall j {:trigger StepFails(mds, n, j)} | 0 <= j < k :: !StepFails(mds, n, j)
    {
      var vArr := FirstRowTail(mMul, n);
      var w := FirstColumnTail(mMul, n);
      var mHatInv := MatrixInverse(SubMatrix(mMul, n), n - 1);
      if mHatInv.None? {
        assert StepFails(mds, n, k);
        return None;
      }
      assert !StepFails(mds, n, k);
      var wHat := MatVec(mHatInv.value, w);
      var wHatArr := wHat + [0];
      assert MatVec(SubMatrix(mMul, n), wHat) == w;
      FactorsStep(mds, n, rows, Reverse(vCollection), d, mMul, wHat);
      rows := [[mMul[0][0]] + wHat] + rows;
      assert Reverse(vCollection + [vArr]) == [vArr] + Reverse(vCollection);
      assert Reverse(wHatCollection + [wHatArr]) == [wHatArr] + Reverse(wHatCollection);
      assert wHatArr[..n - 1] == wHat;
      assert rows == FirstRows(mds[0][0], [wHatArr] + Reverse(wHatCollection), n);
      vCollection := vCollection + [vArr];
      wHatCollection := wHatCollection + [wHatArr];
      mI := Bordered(mMul, n);
      d := Transpose(mI, n);
      ComposesNext(mMul, mds, n);
      mMul := MatMul(mdsT, mI, n);
    }
    return Some(SparseMatrices(Transpose(mI, n), Reverse(vCollection), Reverse(wHatCollection)));
  }
}
