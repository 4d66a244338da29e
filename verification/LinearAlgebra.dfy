/**
 Matrices over the field by their action on vectors, and Gauss-Jordan inversion
 (matrix_inverse_16 and submatrix_inverse_15, crates/backend/koala-bear/src/poseidon1_koalabear_16.rs).
 */
module LinearAlgebra {
  import opened Field
  import opened Prime
  import opened Multilinear
  import opened Interpolation

  // ----- vectors

  function Plus(u: seq<Fe>, v: seq<Fe>): (r: seq<Fe>)
    requires |u| == |v|
    ensures |r| == |u| && forall i {:trigger r[i]} | 0 <= i < |r| :: r[i] == Add(u[i], v[i])
  {
    seq(|u|, i requires 0 <= i < |u| => Add(u[i], v[i]))
  }

  function Minus(u: seq<Fe>, v: seq<Fe>): (r: seq<Fe>)
    requires |u| == |v|
    ensures |r| == |u| && forall i {:trigger r[i]} | 0 <= i < |r| :: r[i] == Sub(u[i], v[i])
  {
    seq(|u|, i requires 0 <= i < |u| => Sub(u[i], v[i]))
  }

  function Times(c: Fe, v: seq<Fe>): (r: seq<Fe>)
    ensures |r| == |v| && forall i {:trigger r[i]} | 0 <= i < |r| :: r[i] == Mul(c, v[i])
  {
    seq(|v|, i requires 0 <= i < |v| => Mul(c, v[i]))
  }

  lemma DotPlus(u: seq<Fe>, v: seq<Fe>, x: seq<Fe>)
    requires |u| == |v| == |x|
    ensures Dot(Plus(u, v), x) == Add(Dot(u, x), Dot(v, x))
    ensures Dot(x, Plus(u, v)) == Add(Dot(x, u), Dot(x, v))
  {
    DotCommute(u, x);
    DotCommute(v, x);
    DotCommute(Plus(u, v), x);
    DotAdd(x, u, v, Plus(u, v));
  }

  lemma DotTimes(c: Fe, u: seq<Fe>, x: seq<Fe>)
    requires |u| == |x|
    ensures Dot(Times(c, u), x) == Mul(c, Dot(u, x))
    ensures Dot(x, Times(c, u)) == Mul(c, Dot(x, u))
  {
    DotCommute(u, x);
    DotCommute(Times(c, u), x);
    DotScaled(c, x, u, Times(c, u));
  }

  lemma DotMinus(u: seq<Fe>, v: seq<Fe>, x: seq<Fe>)
    requires |u| == |v| == |x|
    ensures Dot(Minus(u, v), x) == Sub(Dot(u, x), Dot(v, x))
    ensures Dot(x, Minus(u, v)) == Sub(Dot(x, u), Dot(x, v))
  {
    var d := Minus(u, v);
    forall i | 0 <= i < |u| ensures Plus(v, d)[i] == u[i] {
      AddOfSub(u[i], v[i]);
    }
    assert Plus(v, d) == u;
    DotPlus(v, d, x);
    SubOfSum(Dot(u, x), Dot(v, x), Dot(d, x));
    SubOfSum(Dot(x, u), Dot(x, v), Dot(x, d));
  }

  lemma SubOfSum(a: Fe, b: Fe, c: Fe)
    requires a == Add(b, c)
    ensures c == Sub(a, b)
  {
    LiftSelf(b);
    LiftSelf(c);
    LiftAdd(b, c);
    LiftSub(b + c, b);
  }

  function Unit(i: nat, n: nat): (e: seq<Fe>)
    ensures |e| == n && forall j {:trigger e[j]} | 0 <= j < n :: e[j] == if j == i then 1 else 0
  {
    seq(n, j => if j == i then 1 else 0)
  }

  lemma UnitPicks(v: seq<Fe>, i: nat)
    requires i < |v|
    ensures Dot(Unit(i, |v|), v) == v[i] && Dot(v, Unit(i, |v|)) == v[i]
  {
    DotCommute(Unit(i, |v|), v);
    DotUnit(v, i, Unit(i, |v|));
  }

  lemma DotHeadTail(u: seq<Fe>, v: seq<Fe>)
    requires |u| == |v| > 0
    ensures Dot(u, v) == Add(Mul(u[0], v[0]), Dot(u[1..], v[1..]))
  {
  }

  // ----- matrices

  ghost predicate IsMatrix(m: seq<seq<Fe>>, rows: nat, cols: nat) {
    |m| == rows && forall i {:trigger m[i]} | 0 <= i < rows :: |m[i]| == cols
  }

  function MatVec(m: seq<seq<Fe>>, v: seq<Fe>): (r: seq<Fe>)
    requires forall i {:trigger m[i]} | 0 <= i < |m| :: |m[i]| == |v|
    ensures |r| == |m| && forall i {:trigger r[i]} {:trigger m[i]} | 0 <= i < |r| :: r[i] == Dot(m[i], v)
  {
    seq(|m|, i requires 0 <= i < |m| => Dot(m[i], v))
  }

  lemma MatVecPlus(m: seq<seq<Fe>>, u: seq<Fe>, v: seq<Fe>)
    requires |u| == |v| && IsMatrix(m, |m|, |u|)
    ensures MatVec(m, Plus(u, v)) == Plus(MatVec(m, u), MatVec(m, v))
  {
    var l, r := MatVec(m, Plus(u, v)), Plus(MatVec(m, u), MatVec(m, v));
    forall i | 0 <= i < |m| ensures l[i] == r[i] {
      DotPlus(u, v, m[i]);
    }
  }

  function Identity(n: nat): (m: seq<seq<Fe>>)
    ensures |m| == n && forall i {:trigger m[i]} | 0 <= i < n :: m[i] == Unit(i, n)
  {
    seq(n, i requires 0 <= i < n => Unit(i, n))
  }

  lemma IdentityActs(v: seq<Fe>)
    ensures IsMatrix(Identity(|v|), |v|, |v|) && MatVec(Identity(|v|), v) == v
  {
    forall i | 0 <= i < |v| ensures MatVec(Identity(|v|), v)[i] == v[i] {
      UnitPicks(v, i);
    }
  }

  function Column(m: seq<seq<Fe>>, j: nat): (c: seq<Fe>)
    requires forall i {:trigger m[i]} | 0 <= i < |m| :: j < |m[i]|
    ensures |c| == |m| && forall i {:trigger c[i]} {:trigger m[i]} | 0 <= i < |c| :: c[i] == m[i][j]
  {
    seq(|m|, i requires 0 <= i < |m| => m[i][j])
  }

  /** The combination of rows with the given coefficients. */
  ghost function RowCombination(c: seq<Fe>, m: seq<seq<Fe>>, cols: nat): (r: seq<Fe>)
    requires IsMatrix(m, |c|, cols)
    ensures |r| == cols
  {
    if c == [] then seq(cols, _ => 0) else Plus(Times(c[0], m[0]), RowCombination(c[1..], m[1..], cols))
  }

  lemma {:induction false} RowCombinationAt(c: seq<Fe>, m: seq<seq<Fe>>, cols: nat, j: nat)
    requires IsMatrix(m, |c|, cols) && j < cols
    ensures RowCombination(c, m, cols)[j] == Dot(c, Column(m, j))
    decreases |c|
  {
    if c != [] {
      RowCombinationAt(c[1..], m[1..], cols, j);
      assert |m[0]| == cols;
      assert Column(m, j)[1..] == Column(m[1..], j);
    }
  }

  lemma {:induction false} RowCombinationDot(c: seq<Fe>, m: seq<seq<Fe>>, cols: nat, x: seq<Fe>)
    requires IsMatrix(m, |c|, cols) && |x| == cols
    ensures Dot(RowCombination(c, m, cols), x) == Dot(c, MatVec(m, x))
    decreases |c|
  {
    if c == [] {
      DotZero(RowCombination(c, m, cols), x);
    } else {
      RowCombinationDot(c[1..], m[1..], cols, x);
      assert MatVec(m, x)[1..] == MatVec(m[1..], x);
      DotPlus(Times(c[0], m[0]), RowCombination(c[1..], m[1..], cols), x);
      DotTimes(c[0], m[0], x);
    }
  }

  /** matrix_mul_16. */
  function MatMul(a: seq<seq<Fe>>, b: seq<seq<Fe>>, n: nat): (c: seq<seq<Fe>>)
    requires IsMatrix(a, n, n) && IsMatrix(b, n, n)
    ensures IsMatrix(c, n, n)
    ensures forall i, j {:trigger c[i][j]} | 0 <= i < n && 0 <= j < n :: c[i][j] == Dot(a[i], Column(b, j))
  {
    seq(n, i requires 0 <= i < n => seq(n, j requires 0 <= j < n => Dot(a[i], Column(b, j))))
  }

  lemma MatMulActs(a: seq<seq<Fe>>, b: seq<seq<Fe>>, n: nat, x: seq<Fe>)
    requires IsMatrix(a, n, n) && IsMatrix(b, n, n) && |x| == n
    ensures MatVec(MatMul(a, b, n), x) == MatVec(a, MatVec(b, x))
  {
    var c := MatMul(a, b, n);
    forall i | 0 <= i < n ensures MatVec(c, x)[i] == MatVec(a, MatVec(b, x))[i] {
      var r := RowCombination(a[i], b, n);
      forall j | 0 <= j < n ensures c[i][j] == r[j] {
        RowCombinationAt(a[i], b, n, j);
      }
      assert c[i] == r;
      RowCombinationDot(a[i], b, n, x);
    }
  }

  /** matrix_transpose_16. */
  function Transpose(m: seq<seq<Fe>>, n: nat): (t: seq<seq<Fe>>)
    requires IsMatrix(m, n, n)
    ensures IsMatrix(t, n, n) && forall i {:trigger t[i]} | 0 <= i < n :: t[i] == Column(m, i)
    ensures forall i, j {:trigger t[i][j]} | 0 <= i < n && 0 <= j < n :: t[i][j] == m[j][i]
  {
    seq(n, i requires 0 <= i < n => Column(m, i))
  }

  lemma TransposeOfProduct(a: seq<seq<Fe>>, b: seq<seq<Fe>>, n: nat)
    requires IsMatrix(a, n, n) && IsMatrix(b, n, n)
    ensures Transpose(MatMul(a, b, n), n) == MatMul(Transpose(b, n), Transpose(a, n), n)
  {
    var l, r := Transpose(MatMul(a, b, n), n), MatMul(Transpose(b, n), Transpose(a, n), n);
    var at, bt := Transpose(a, n), Transpose(b, n);
    forall i | 0 <= i < n ensures l[i] == r[i] {
      forall j | 0 <= j < n ensures l[i][j] == r[i][j] {
        assert Column(at, j) == a[j];
        DotCommute(a[j], Column(b, i));
        assert l[i][j] == MatMul(a, b, n)[j][i];
        assert r[i][j] == Dot(bt[i], Column(at, j));
      }
    }
  }

  // ----- Gauss-Jordan elimination

  /** `inv` undoes `m` on both sides. */
  ghost predicate IsInverse(inv: seq<seq<Fe>>, m: seq<seq<Fe>>, n: nat)
    requires IsMatrix(m, n, n) && IsMatrix(inv, n, n)
  {
    (forall x: seq<Fe> {:trigger MatVec(m, x)} | |x| == n :: MatVec(inv, MatVec(m, x)) == x)
    && (forall x: seq<Fe> {:trigger MatVec(inv, x)} | |x| == n :: MatVec(m, MatVec(inv, x)) == x)
  }

  function ZeroVec(n: nat): (z: seq<Fe>)
    ensures |z| == n && forall i {:trigger z[i]} | 0 <= i < n :: z[i] == 0
  {
    seq(n, _ => 0)
  }

  /** Some nonzero vector is sent to zero. */
  ghost predicate IsSingular(m: seq<seq<Fe>>, n: nat)
    requires IsMatrix(m, n, n)
  {
    exists x: seq<Fe> {:trigger MatVec(m, x)} :: |x| == n && x != ZeroVec(n) && MatVec(m, x) == ZeroVec(n)
  }

  lemma MatVecZero(m: seq<seq<Fe>>, n: nat)
    requires IsMatrix(m, n, n)
    ensures MatVec(m, ZeroVec(n)) == ZeroVec(n)
  {
    forall i | 0 <= i < n ensures MatVec(m, ZeroVec(n))[i] == 0 {
      DotZero(ZeroVec(n), m[i]);
      DotCommute(ZeroVec(n), m[i]);
    }
  }

  /** A singular matrix has no inverse. */
  lemma SingularHasNoInverse(m: seq<seq<Fe>>, inv: seq<seq<Fe>>, n: nat)
    requires IsMatrix(m, n, n) && IsMatrix(inv, n, n) && IsSingular(m, n)
    ensures !IsInverse(inv, m, n)
  {
    var x: seq<Fe> :| |x| == n && x != ZeroVec(n) && MatVec(m, x) == ZeroVec(n);
    MatVecZero(inv, n);
  }

  /** The elimination state: row operations applied to m and to the identity alike. */
  ghost predicate Eliminating(m: seq<seq<Fe>>, aug: seq<seq<Fe>>, inv: seq<seq<Fe>>, n: nat) {
    && IsMatrix(m, n, n) && IsMatrix(aug, n, n) && IsMatrix(inv, n, n)
    && (forall x: seq<Fe> {:trigger MatVec(m, x)} | |x| == n :: MatVec(inv, MatVec(m, x)) == MatVec(aug, x))
    && (forall y: seq<Fe> {:trigger MatVec(inv, y)} | |y| == n && MatVec(inv, y) == ZeroVec(n) :: y == ZeroVec(n))
  }

  /** The first `col` columns are unit columns. */
  ghost predicate UnitColumns(aug: seq<seq<Fe>>, n: nat, col: nat)
    requires IsMatrix(aug, n, n) && col <= n
  {
    forall i, j {:trigger aug[i][j]} | 0 <= i < n && 0 <= j < col :: aug[i][j] == if i == j then 1 else 0
  }

  lemma EliminationStart(m: seq<seq<Fe>>, n: nat)
    requires IsMatrix(m, n, n)
    ensures Eliminating(m, m, Identity(n), n)
  {
    forall x: seq<Fe> {:trigger MatVec(m, x)} | |x| == n ensures MatVec(Identity(n), MatVec(m, x)) == MatVec(m, x) {
      IdentityActs(MatVec(m, x));
    }
    forall y: seq<Fe> {:trigger MatVec(Identity(n), y)} | |y| == n && MatVec(Identity(n), y) == ZeroVec(n) ensures y == ZeroVec(n) {
      IdentityActs(y);
    }
  }

  /** Exchanging two rows. */
  function SwapRows(m: seq<seq<Fe>>, i: nat, j: nat): (r: seq<seq<Fe>>)
    requires i < |m| && j < |m|
    ensures |r| == |m|
  {
    m[i := m[j]][j := m[i]]
  }

  lemma SwapKeeps(m: seq<seq<Fe>>, aug: seq<seq<Fe>>, inv: seq<seq<Fe>>, n: nat, a: nat, b: nat)
    requires Eliminating(m, aug, inv, n) && a < n && b < n
    ensures Eliminating(m, SwapRows(aug, a, b), SwapRows(inv, a, b), n)
  {
    var aug1, inv1 := SwapRows(aug, a, b), SwapRows(inv, a, b);
    forall x: seq<Fe> {:trigger MatVec(m, x)} | |x| == n ensures MatVec(inv1, MatVec(m, x)) == MatVec(aug1, x) {
      SwapActs(inv, n, a, b, MatVec(m, x));
      SwapActs(aug, n, a, b, x);
    }
    forall y: seq<Fe> {:trigger MatVec(inv1, y)} | |y| == n && MatVec(inv1, y) == ZeroVec(n) ensures y == ZeroVec(n) {
      SwapActs(inv, n, a, b, y);
      var u, v := MatVec(inv, y), MatVec(inv1, y);
      forall i | 0 <= i < n ensures u[i] == 0 {
        assert u[i] == v[if i == a then b else if i == b then a else i];
      }
      assert u == ZeroVec(n);
    }
  }

  lemma SwapActs(m: seq<seq<Fe>>, n: nat, a: nat, b: nat, x: seq<Fe>)
    requires IsMatrix(m, n, n) && a < n && b < n && |x| == n
    ensures IsMatrix(SwapRows(m, a, b), n, n)
    ensures forall i {:trigger MatVec(m, x)[i]} | 0 <= i < n ::
              MatVec(m, x)[i] == MatVec(SwapRows(m, a, b), x)[if i == a then b else if i == b then a else i]
    ensures MatVec(SwapRows(m, a, b), x) == MatVec(m, x)[a := MatVec(m, x)[b]][b := MatVec(m, x)[a]]
  {
  }

  lemma ScaleKeeps(m: seq<seq<Fe>>, aug: seq<seq<Fe>>, inv: seq<seq<Fe>>, n: nat, r: nat, c: Fe)
    requires Eliminating(m, aug, inv, n) && r < n && c != 0
    ensures Eliminating(m, aug[r := Times(c, aug[r])], inv[r := Times(c, inv[r])], n)
  {
    var aug1, inv1 := aug[r := Times(c, aug[r])], inv[r := Times(c, inv[r])];
    forall x: seq<Fe> {:trigger MatVec(m, x)} | |x| == n ensures MatVec(inv1, MatVec(m, x)) == MatVec(aug1, x) {
      DotTimes(c, inv[r], MatVec(m, x));
      DotTimes(c, aug[r], x);
      assert MatVec(inv, MatVec(m, x))[r] == MatVec(aug, x)[r];
      assert MatVec(inv1, MatVec(m, x)) == MatVec(inv, MatVec(m, x))[r := Mul(c, MatVec(inv, MatVec(m, x))[r])];
      assert MatVec(aug1, x) == MatVec(aug, x)[r := Mul(c, MatVec(aug, x)[r])];
    }
    forall y: seq<Fe> {:trigger MatVec(inv1, y)} | |y| == n && MatVec(inv1, y) == ZeroVec(n) ensures y == ZeroVec(n) {
      DotTimes(c, inv[r], y);
      var u, v := MatVec(inv, y), MatVec(inv1, y);
      assert v[r] == Mul(c, u[r]);
      NoZeroDivisors(c, u[r]);
      forall i | 0 <= i < n ensures u[i] == 0 {
        assert i != r ==> u[i] == v[i];
      }
      assert u == ZeroVec(n);
    }
  }

  lemma SubtractKeeps(m: seq<seq<Fe>>, aug: seq<seq<Fe>>, inv: seq<seq<Fe>>, n: nat, i: nat, r: nat, f: Fe)
    requires Eliminating(m, aug, inv, n) && i < n && r < n && i != r
    ensures Eliminating(m, aug[i := Minus(aug[i], Times(f, aug[r]))], inv[i := Minus(inv[i], Times(f, inv[r]))], n)
  {
    var aug1, inv1 := aug[i := Minus(aug[i], Times(f, aug[r]))], inv[i := Minus(inv[i], Times(f, inv[r]))];
    forall x: seq<Fe> {:trigger MatVec(m, x)} | |x| == n ensures MatVec(inv1, MatVec(m, x)) == MatVec(aug1, x) {
      var y := MatVec(m, x);
      SubtractActs(inv, n, i, r, f, y);
      SubtractActs(aug, n, i, r, f, x);
    }
    forall y: seq<Fe> {:trigger MatVec(inv1, y)} | |y| == n && MatVec(inv1, y) == ZeroVec(n) ensures y == ZeroVec(n) {
      SubtractActs(inv, n, i, r, f, y);
      var u, v := MatVec(inv, y), MatVec(inv1, y);
      assert u[r] == v[r] == 0;
      MulOne(f);
      AddZero(u[i]);
      assert v[i] == Sub(u[i], Mul(f, u[r])) == u[i];
      forall k | 0 <= k < n ensures u[k] == 0 {
        assert k != i ==> u[k] == v[k];
      }
      assert u == ZeroVec(n);
    }
  }

  lemma SubtractActs(m: seq<seq<Fe>>, n: nat, i: nat, r: nat, f: Fe, x: seq<Fe>)
    requires IsMatrix(m, n, n) && i < n && r < n && i != r && |x| == n
    ensures IsMatrix(m[i := Minus(m[i], Times(f, m[r]))], n, n)
    ensures MatVec(m[i := Minus(m[i], Times(f, m[r]))], x)
         == MatVec(m, x)[i := Sub(MatVec(m, x)[i], Mul(f, MatVec(m, x)[r]))]
  {
    DotMinus(m[i], Times(f, m[r]), x);
    DotTimes(f, m[r], x);
  }

  /** find: the first row from `col` on with a nonzero entry. */
  method FindPivot(aug: seq<seq<Fe>>, col: nat, n: nat) returns (row: nat)
    requires IsMatrix(aug, n, n) && col < n
    ensures col <= row <= n
    ensures row < n ==> aug[row][col] != 0
    ensures row == n ==> forall r {:trigger aug[r]} | col <= r < n :: aug[r][col] == 0
  {
    row := col;
    while row < n
      invariant col <= row <= n
      invariant forall r {:trigger aug[r]} | col <= r < row :: aug[r][col] == 0
    {
      if aug[row][col] != 0 {
        return;
      }
      row := row + 1;
    }
  }

  /** A column with no pivot gives a vector that the matrix sends to zero. */
  lemma NoPivotIsSingular(m: seq<seq<Fe>>, aug: seq<seq<Fe>>, inv: seq<seq<Fe>>, n: nat, col: nat)
    requires Eliminating(m, aug, inv, n) && col < n && UnitColumns(aug, n, col)
    requires forall r {:trigger aug[r]} | col <= r < n :: aug[r][col] == 0
    ensures IsSingular(m, n)
  {
    var x: seq<Fe> := seq<Fe>(n, j requires 0 <= j < n => if j < col then Neg(aug[j][col]) else if j == col then 1 else 0);
    forall i | 0 <= i < n ensures Dot(aug[i], x) == 0 {
      KernelRow(aug[i], x, col, if i < col then i else n);
    }
    assert MatVec(aug, x) == ZeroVec(n);
    assert x[col] == 1;
    assert MatVec(inv, MatVec(m, x)) == ZeroVec(n);
    assert MatVec(m, x) == ZeroVec(n);
  }

  /** A row that is a unit row before `col` is annihilated. */
  lemma KernelRow(row: seq<Fe>, x: seq<Fe>, col: nat, i: nat)
    requires |row| == |x| && col < |row| && x[col] == 1
    requires forall j {:trigger x[j]} | col < j < |x| :: x[j] == 0
    requires forall j {:trigger row[j]} | 0 <= j < col :: row[j] == if j == i then 1 else 0
    requires if i < col then x[i] == Neg(row[col]) else row[col] == 0
    ensures Dot(row, x) == 0
  {
    DotSplit(row, x, col);
    var t, y := row[col..], x[col..];
    DotZero(y[1..], t[1..]);
    DotCommute(y[1..], t[1..]);
    MulOne(row[col]);
    AddZero(row[col]);
    assert Dot(t, y) == row[col];
    if i < col {
      assert row[..col] == Unit(i, col);
      UnitPicks(x[..col], i);
      NegCancels(row[col]);
    } else {
      DotZero(row[..col], x[..col]);
      AddZero(0);
    }
  }

  lemma NegCancels(a: Fe)
    ensures Add(Neg(a), a) == 0
  {
    LiftSelf(a);
    LiftNeg(a);
    var n: int := 0 - a;
    LiftAdd(n, a);
    LiftSelf(0);
    assert n + a == 0;
  }

  method ScaleRow(row: seq<Fe>, c: Fe) returns (r: seq<Fe>)
    ensures r == Times(c, row)
  {
    r := row;
    for j := 0 to |row|
      invariant |r| == |row|
      invariant forall k {:trigger r[k]} | 0 <= k < |row| :: r[k] == if k < j then Mul(c, row[k]) else row[k]
    {
      MulComm(r[j], c);
      r := r[j := Mul(r[j], c)];
    }
  }

  method SubtractRow(row: seq<Fe>, f: Fe, other: seq<Fe>) returns (r: seq<Fe>)
    requires |row| == |other|
    ensures r == Minus(row, Times(f, other))
  {
    r := row;
    for j := 0 to |row|
      invariant |r| == |row|
      invariant forall k {:trigger r[k]} | 0 <= k < |row| :: r[k] == if k < j then Sub(row[k], Mul(f, other[k])) else row[k]
    {
      r := r[j := Sub(r[j], Mul(f, other[j]))];
    }
  }

  /** One column: every other row loses its entry in it. */
  method EliminateColumn(m: seq<seq<Fe>>, aug0: seq<seq<Fe>>, inv0: seq<seq<Fe>>, n: nat, col: nat)
    returns (aug: seq<seq<Fe>>, inv: seq<seq<Fe>>)
    requires Eliminating(m, aug0, inv0, n) && col < n && UnitColumns(aug0, n, col) && aug0[col][col] == 1
    ensures Eliminating(m, aug, inv, n) && UnitColumns(aug, n, col + 1)
  {
    hide Dot, MatVec, Minus, Times;
    aug, inv := aug0, inv0;
    for i := 0 to n
      invariant Eliminating(m, aug, inv, n) && UnitColumns(aug, n, col)
      invariant aug[col] == aug0[col] && aug[col][col] == 1
      invariant forall r {:trigger aug[r]} | 0 <= r < i && r != col :: aug[r][col] == 0
    {
      if i != col {
        var factor := aug[i][col];
        if factor != 0 {
          var augColRow := aug[col];
          var invColRow := inv[col];
          var augRow := SubtractRow(aug[i], factor, augColRow);
          var invRow := SubtractRow(inv[i], factor, invColRow);
          SubtractKeeps(m, aug, inv, n, i, col, factor);
          ClearedRow(aug[i], augColRow, factor, col, i);
          aug := aug[i := augRow];
          inv := inv[i := invRow];
        }
      }
    }
  }

  lemma ClearedRow(row: seq<Fe>, pivot: seq<Fe>, f: Fe, col: nat, i: nat)
    requires |row| == |pivot| && col < |row| && pivot[col] == 1 && f == row[col] && i != col
    requires forall j {:trigger row[j]} | 0 <= j < col :: row[j] == if i == j then 1 else 0
    requires forall j {:trigger pivot[j]} | 0 <= j < col :: pivot[j] == 0
    ensures Minus(row, Times(f, pivot))[col] == 0
    ensures forall j {:trigger Minus(row, Times(f, pivot))[j]} | 0 <= j < col ::
              Minus(row, Times(f, pivot))[j] == if i == j then 1 else 0
  {
    MulOne(f);
    AddZero(f);
    forall j {:trigger Minus(row, Times(f, pivot))[j]} | 0 <= j < col
      ensures Minus(row, Times(f, pivot))[j] == if i == j then 1 else 0
    {
      AddZero(row[j]);
      var p := pivot[j];
    }
  }

  /**
   matrix_inverse_16 / submatrix_inverse_15: None is the panic on a missing pivot.  An inverse
   is returned exactly when one exists.
   */
  method MatrixInverse(m: seq<seq<Fe>>, n: nat) returns (r: Option<seq<seq<Fe>>>)
    requires IsMatrix(m, n, n)
    ensures r.Some? ==> IsMatrix(r.value, n, n) && IsInverse(r.value, m, n)
    ensures r.None? <==> IsSingular(m, n)
  {
    hide Dot, MatVec;
    var aug := m;
    var inv := Identity(n);
    EliminationStart(m, n);
    for col := 0 to n
      invariant Eliminating(m, aug, inv, n) && UnitColumns(aug, n, col)
    {
      var pivotRow := FindPivot(aug, col, n);
      if pivotRow == n {
        NoPivotIsSingular(m, aug, inv, n, col);
        return None;
      }
      if pivotRow != col {
        SwapKeeps(m, aug, inv, n, col, pivotRow);
        aug := SwapRows(aug, col, pivotRow);
        inv := SwapRows(inv, col, pivotRow);
      }
      assert UnitColumns(aug, n, col);
      var pivotInv := Inverse(aug[col][col]);
      InverseNonZero(aug[col][col]);
      var augRow := ScaleRow(aug[col], pivotInv);
      var invRow := ScaleRow(inv[col], pivotInv);
      ScaleKeeps(m, aug, inv, n, col, pivotInv);
      ScaledPivot(aug[col], pivotInv, col);
      aug := aug[col := augRow];
      inv := inv[col := invRow];
      assert UnitColumns(aug, n, col);
      aug, inv := EliminateColumn(m, aug, inv, n, col);
    }
    Eliminated(m, aug, inv, n);
    return Some(inv);
  }

  lemma InverseNonZero(a: Fe)
    requires a != 0
    ensures Inverse(a) != 0 && Mul(Inverse(a), a) == 1
  {
    MulComm(a, Inverse(a));
    MulOne(a);
  }

  lemma ScaledPivot(row: seq<Fe>, c: Fe, col: nat)
    requires col < |row| && Mul(c, row[col]) == 1
    requires forall j {:trigger row[j]} | 0 <= j < col :: row[j] == 0
    ensures Times(c, row)[col] == 1
    ensures forall j {:trigger Times(c, row)[j]} | 0 <= j < col :: Times(c, row)[j] == 0
  {
    MulOne(c);
    forall j {:trigger Times(c, row)[j]} | 0 <= j < col ensures Times(c, row)[j] == 0 {
      var x := row[j];
    }
  }

  lemma Eliminated(m: seq<seq<Fe>>, aug: seq<seq<Fe>>, inv: seq<seq<Fe>>, n: nat)
    requires Eliminating(m, aug, inv, n) && UnitColumns(aug, n, n)
    ensures IsInverse(inv, m, n) && !IsSingular(m, n)
  {
    hide Dot;
    forall i | 0 <= i < n ensures aug[i] == Unit(i, n) {
      forall j | 0 <= j < n ensures aug[i][j] == Unit(i, n)[j] {
      }
    }
    assert aug == Identity(n);
    forall x: seq<Fe> {:trigger MatVec(m, x)} | |x| == n ensures MatVec(inv, MatVec(m, x)) == x {
      IdentityActs(x);
    }
    forall y: seq<Fe> {:trigger MatVec(inv, y)} | |y| == n ensures MatVec(m, MatVec(inv, y)) == y {
      var z := MatVec(m, MatVec(inv, y));
      assert MatVec(inv, z) == MatVec(inv, y);
      var d := Minus(z, y);
      MatVecMinus(inv, z, y, n);
      forall i | 0 <= i < n ensures MatVec(inv, d)[i] == 0 {
        AddZero(MatVec(inv, y)[i]);
      }
      assert MatVec(inv, d) == ZeroVec(n);
      forall i | 0 <= i < n ensures z[i] == y[i] {
        assert d[i] == 0;
        DifferenceZero(z[i], y[i]);
      }
    }
    if IsSingular(m, n) {
      SingularHasNoInverse(m, inv, n);
    }
  }

  lemma MatVecMinus(m: seq<seq<Fe>>, u: seq<Fe>, v: seq<Fe>, n: nat)
    requires IsMatrix(m, n, n) && |u| == |v| == n
    ensures MatVec(m, Minus(u, v)) == Minus(MatVec(m, u), MatVec(m, v))
  {
    var l, r := MatVec(m, Minus(u, v)), Minus(MatVec(m, u), MatVec(m, v));
    forall i | 0 <= i < n ensures l[i] == r[i] {
      DotMinus(u, v, m[i]);
    }
  }
}
