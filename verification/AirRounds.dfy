/**
 The mathematics of one round of the AIR sumcheck: constraint values over a hypercube of rows,
 the stored (permuted, partially bound) columns they are computed from, and the accumulation
 loops over active pairs (crates/sub_protocols/src/air_sumcheck.rs).
 */
module AirRounds {
  import opened Arith
  import opened Field
  import opened Multilinear
  import opened Coefficients
  import opened Interpolation
  import opened StorageLayout

  // ----- constraints

  function Line(p: seq<Fe>, q: seq<Fe>, z: Fe): (r: seq<Fe>)
    requires |p| == |q|
    ensures |r| == |p| && forall k {:trigger r[k]} | 0 <= k < |r| :: r[k] == Lerp(z, p[k], q[k])
  {
    seq(|p|, k requires 0 <= k < |p| => Lerp(z, p[k], q[k]))
  }

  /** Along the line from p to q the values of `f` are those of the polynomial c. */
  ghost predicate IsLinePolynomial(f: seq<Fe> -> Fe, p: seq<Fe>, q: seq<Fe>, c: seq<Fe>)
    requires |p| == |q|
  {
    forall z: Fe :: Horner(c, z) == f(Line(p, q, z))
  }

  ghost predicate LineHasDegree(f: seq<Fe> -> Fe, p: seq<Fe>, q: seq<Fe>, d: nat)
    requires |p| == |q|
  {
    exists c: seq<Fe> :: |c| <= d + 1 && IsLinePolynomial(f, p, q, c)
  }

  /** `f` has degree at most d in the rows of the given width. */
  ghost predicate HasDegree(f: seq<Fe> -> Fe, width: nat, d: nat) {
    forall p: seq<Fe>, q: seq<Fe> {:trigger LineHasDegree(f, p, q, d)} | |p| == |q| == width :: LineHasDegree(f, p, q, d)
  }

  /** The batched constraint polynomial of a table and its degree. */
  datatype Air = Air(columns: nat, degree: nat, eval: seq<Fe> -> Fe)

  // ----- rows

  ghost predicate IsTable(table: seq<seq<Fe>>, n: nat) {
    forall k {:trigger table[k]} | 0 <= k < |table| :: |table[k]| == Pow2(n)
  }

  /** column_evals. */
  function RowOf(cols: seq<seq<Fe>>, j: nat): (r: seq<Fe>)
    requires forall k {:trigger cols[k]} | 0 <= k < |cols| :: j < |cols[k]|
    ensures |r| == |cols| && forall k {:trigger r[k]} {:trigger cols[k]} | 0 <= k < |r| :: r[k] == cols[k][j]
  {
    seq(|cols|, k requires 0 <= k < |cols| => cols[k][j])
  }

  /** Every column's multilinear value at a point. */
  ghost function RowAt(table: seq<seq<Fe>>, point: seq<Fe>): (r: seq<Fe>)
    requires IsTable(table, |point|)
    ensures |r| == |table| && forall k {:trigger r[k]} {:trigger table[k]} | 0 <= k < |r| :: r[k] == Mle(table[k], point)
  {
    seq(|table|, k requires 0 <= k < |table| => Mle(table[k], point))
  }

  /** The constraint at every hypercube point of the first m variables, the others bound to `tail`. */
  ghost function ConstraintValues(f: seq<Fe> -> Fe, table: seq<seq<Fe>>, m: nat, tail: seq<Fe>): (w: seq<Fe>)
    requires IsTable(table, m + |tail|)
    ensures |w| == Pow2(m)
    ensures forall i {:trigger w[i]} | 0 <= i < |w| :: w[i] == f(RowAt(table, Bits(i, m) + tail))
  {
    seq<Fe>(Pow2(m), i requires 0 <= i < Pow2(m) => f(RowAt(table, Bits(i, m) + tail)))
  }

  /** The same values in storage order. */
  ghost function RowValues(f: seq<Fe> -> Fe, cols: seq<seq<Fe>>, m: nat): (w: seq<Fe>)
    requires IsTable(cols, m)
    ensures |w| == Pow2(m)
    ensures forall j {:trigger w[j]} | 0 <= j < |w| :: w[j] == f(RowOf(cols, j))
  {
    seq<Fe>(Pow2(m), j requires 0 <= j < Pow2(m) => f(RowOf(cols, j)))
  }

  // ----- the storage invariant

  ghost predicate ColumnStored(col: seq<Fe>, original: seq<Fe>, h: nat, m: nat, tail: seq<Fe>)
    requires |col| == Pow2(m) && |original| == Pow2(m + |tail|)
  {
    forall y: seq<Fe> {:trigger Mle(col, y)} | |y| == m :: Mle(col, y) == Mle(original, Permuted(y, h) + tail)
  }

  /** The stored columns are the original ones with the last variables bound to `tail` and the rest permuted. */
  ghost predicate Stored(cols: seq<seq<Fe>>, table: seq<seq<Fe>>, h: nat, m: nat, tail: seq<Fe>) {
    && |cols| == |table| && IsTable(cols, m) && IsTable(table, m + |tail|)
    && forall k {:trigger cols[k]} {:trigger table[k]} | 0 <= k < |cols| :: ColumnStored(cols[k], table[k], h, m, tail)
  }

  /** The storage bit folded while m variables are left (folding_bit). */
  function FoldBit(h: nat, m: nat): (b: nat)
    requires m > 0
    ensures b < m
  {
    if m - 1 < h then 0 else m - 1 - h
  }

  ghost function FoldedColumns(cols: seq<seq<Fe>>, bit: nat, alpha: Fe, m: nat): (r: seq<seq<Fe>>)
    requires bit < m && IsTable(cols, m)
    ensures |r| == |cols| && IsTable(r, m - 1)
    ensures forall k {:trigger r[k]} {:trigger cols[k]} | 0 <= k < |r| :: r[k] == FoldedAt(cols[k], bit, alpha, m)
  {
    seq(|cols|, k requires 0 <= k < |cols| => FoldedAt(cols[k], bit, alpha, m))
  }

  lemma ColumnStep(col: seq<Fe>, original: seq<Fe>, h: nat, m: nat, tail: seq<Fe>, alpha: Fe)
    requires m > 0 && |col| == Pow2(m) && |original| == Pow2(m + |tail|)
    requires ColumnStored(col, original, h, m, tail)
    ensures |original| == Pow2(m - 1 + |[alpha] + tail|)
    ensures ColumnStored(FoldedAt(col, FoldBit(h, m), alpha, m), original, h, m - 1, [alpha] + tail)
  {
    hide FoldedAt, Permuted;
    var bit := FoldBit(h, m);
    var f := FoldedAt(col, bit, alpha, m);
    forall y: seq<Fe> {:trigger Mle(f, y)} | |y| == m - 1
      ensures Mle(f, y) == Mle(original, Permuted(y, h) + ([alpha] + tail))
    {
      MleFoldedAt(col, bit, alpha, y);
      var y0 := Permuted(y, h);
      PermutedTwice(y, h);
      PermutedInserted(y0, h, alpha);
      assert Permuted(y0 + [alpha], h) == Inserted(y, bit, alpha);
      PermutedTwice(y0 + [alpha], h);
      assert y0 + [alpha] + tail == y0 + ([alpha] + tail);
    }
  }

  /** Folding at the scheduled bit binds the last free variable. */
  lemma StoredStep(cols: seq<seq<Fe>>, table: seq<seq<Fe>>, h: nat, m: nat, tail: seq<Fe>, alpha: Fe)
    requires m > 0 && Stored(cols, table, h, m, tail)
    ensures Stored(FoldedColumns(cols, FoldBit(h, m), alpha, m), table, h, m - 1, [alpha] + tail)
  {
    hide ColumnStored, FoldedAt;
    var t := [alpha] + tail;
    assert m - 1 + |t| == m + |tail|;
    var f := FoldedColumns(cols, FoldBit(h, m), alpha, m);
    forall k {:trigger f[k]} | 0 <= k < |f|
      ensures ColumnStored(f[k], table[k], h, m - 1, t)
    {
      assert |cols[k]| == Pow2(m) && |table[k]| == Pow2(m + |tail|);
      ColumnStep(cols[k], table[k], h, m, tail, alpha);
    }
  }

  /** The chunk-bit-reversed columns satisfy the invariant before the first round. */
  lemma StoredInitially(cols: seq<seq<Fe>>, table: seq<seq<Fe>>, h: nat, n: nat)
    requires h <= n && IsTable(table, n) && |cols| == |table|
    requires forall k {:trigger cols[k]} | 0 <= k < |cols| :: |table[k]| == Pow2(n) && cols[k] == ChunkReversed(table[k], h, n - h)
    ensures Stored(cols, table, h, n, [])
  {
    hide ChunkReversed, ColumnStored, Pow2;
    forall k {:trigger cols[k]} | 0 <= k < |cols|
      ensures |cols[k]| == Pow2(n) && ColumnStored(cols[k], table[k], h, n, [])
    {
      ColumnInitially(table[k], h, n);
    }
  }

  lemma ColumnInitially(original: seq<Fe>, h: nat, n: nat)
    requires h <= n && |original| == Pow2(n)
    ensures ColumnStored(ChunkReversed(original, h, n - h), original, h, n, [])
  {
    hide ChunkReversed, Permuted;
    var col := ChunkReversed(original, h, n - h);
    forall y: seq<Fe> {:trigger Mle(col, y)} | |y| == n ensures Mle(col, y) == Mle(original, Permuted(y, h) + []) {
      PermutedTwice(y, h);
      MleChunkReversed(original, h, Permuted(y, h));
      assert Permuted(y, h) + [] == Permuted(y, h);
    }
  }

  // ----- permuting a hypercube sum

  lemma {:induction false} BitsLast(i: nat, n: nat)
    requires n > 0 && i < Pow2(n)
    ensures i / 2 < Pow2(n - 1)
    ensures Bits(i, n) == Bits(i / 2, n - 1) + [if i % 2 == 1 then 1 else 0]
  {
    if n > 1 {
      var h := Pow2(n - 1);
      HalfOfHigh(i, Pow2(n - 2));
      if i < h {
        BitsLast(i, n - 1);
      } else {
        BitsLast(i - h, n - 1);
      }
    }
  }

  lemma {:induction false} BitsOfRev(j: nat, n: nat)
    requires j < Pow2(n)
    ensures Bits(Rev(j, n), n) == Reversed(Bits(j, n))
  {
    if n > 0 {
      BitsLast(j, n);
      BitsOfRev(j / 2, n - 1);
      ReversedSnoc(Bits(j / 2, n - 1), if j % 2 == 1 then 1 else 0);
    }
  }

  lemma BitsOfOneChunk(j: nat, p: nat)
    requires j < Pow2(p)
    ensures ChunkIndex(j, p) == Rev(j, p)
    ensures Bits(ChunkIndex(j, p), p) == Permuted(Bits(j, p), 0)
  {
    hide Rev;
    RowPosition(0, j, Pow2(p), Rev(j, p));
    BitsOfRev(j, p);
    var b := Bits(j, p);
    assert b[0..] == b && Permuted(b, 0) == Reversed(b);
  }

  lemma ChunkIndexHalf(j: nat, h: nat, p: nat, g: nat)
    requires h > 0 && j < Pow2(h + p) && g == Pow2(h - 1 + p)
    ensures ChunkIndex(j, p) < Pow2(h + p)
    ensures j < g ==> ChunkIndex(j, p) < g
    ensures j >= g ==> ChunkIndex(j - g, p) < g && ChunkIndex(j, p) == ChunkIndex(j - g, p) + g
  {
    hide ChunkIndex;
    Pow2Add(h - 1, p);
    Pow2Add(h, p);
    ChunkIndexBounds(j, p, Pow2(h));
    ChunkIndexBounds(j, p, Pow2(h - 1));
    if j >= g {
      ChunkIndexBounds(j - g, p, Pow2(h - 1));
    }
  }

  /** Reading from the chunk-reversed position permutes the bits of the index. */
  lemma {:induction false} BitsOfChunkIndex(j: nat, h: nat, p: nat)
    requires j < Pow2(h + p)
    ensures ChunkIndex(j, p) < Pow2(h + p)
    ensures Bits(ChunkIndex(j, p), h + p) == Permuted(Bits(j, h + p), h)
    decreases h
  {
    hide Rev, Permuted, ChunkIndex;
    if h == 0 {
      BitsOfOneChunk(j, p);
    } else {
      var g := Pow2(h - 1 + p);
      ChunkIndexHalf(j, h, p, g);
      if j < g {
        BitsOfChunkIndex(j, h - 1, p);
        PermutedCons(0, Bits(j, h - 1 + p), h);
      } else {
        BitsOfChunkIndex(j - g, h - 1, p);
        PermutedCons(1, Bits(j - g, h - 1 + p), h);
      }
    }
  }

  lemma PermutedCons(x: Fe, y: seq<Fe>, h: nat)
    requires h > 0
    ensures Permuted([x] + y, h) == [x] + Permuted(y, h - 1)
  {
    var k := if h - 1 < |y| then h - 1 else |y|;
    assert ([x] + y)[k + 1..] == y[k..];
    assert ([x] + y)[..k + 1] == [x] + y[..k];
  }

  lemma PermutedCap(y: seq<Fe>, h: nat)
    ensures Permuted(y, h) == Permuted(y, if h < |y| then h else |y|)
  {
  }

  /** Row values in storage order are the chunk-reversed constraint values. */
  lemma StorageOrder(f: seq<Fe> -> Fe, cols: seq<seq<Fe>>, table: seq<seq<Fe>>, h: nat, m: nat, tail: seq<Fe>, k: nat)
    requires Stored(cols, table, h, m, tail) && k == if h < m then h else m
    ensures RowValues(f, cols, m) == ChunkReversed(ConstraintValues(f, table, m, tail), k, m - k)
  {
    hide ChunkIndex, Permuted, ColumnStored, Bits;
    var w := RowValues(f, cols, m);
    var v := ConstraintValues(f, table, m, tail);
    var c := ChunkReversed(v, k, m - k);
    forall j {:trigger w[j]} | 0 <= j < |w|
      ensures w[j] == c[j]
    {
      StoredRow(cols, table, h, m, tail, j);
      BitsOfChunkIndex(j, k, m - k);
      PermutedCap(Bits(j, m), h);
      assert c[j] == v[ChunkIndex(j, m - k)];
    }
  }

  /** The weighted sum over storage positions is the weighted sum over rows in natural order. */
  lemma StorageSum(f: seq<Fe> -> Fe, cols: seq<seq<Fe>>, table: seq<seq<Fe>>, h: nat, alphas: seq<Fe>, tail: seq<Fe>)
    requires Stored(cols, table, h, |alphas|, tail)
    ensures Mle(RowValues(f, cols, |alphas|), Permuted(alphas, h)) == Mle(ConstraintValues(f, table, |alphas|, tail), alphas)
  {
    hide ChunkReversed, Permuted, ColumnStored, Mle, RowValues, ConstraintValues;
    var m := |alphas|;
    var k := if h < m then h else m;
    StorageOrder(f, cols, table, h, m, tail, k);
    PermutedCap(alphas, h);
    MleChunkReversed(ConstraintValues(f, table, m, tail), k, alphas);
  }

  lemma StoredRow(cols: seq<seq<Fe>>, table: seq<seq<Fe>>, h: nat, m: nat, tail: seq<Fe>, j: nat)
    requires Stored(cols, table, h, m, tail) && j < Pow2(m)
    ensures RowOf(cols, j) == RowAt(table, Permuted(Bits(j, m), h) + tail)
  {
    hide Permuted;
    var r, s := RowOf(cols, j), RowAt(table, Permuted(Bits(j, m), h) + tail);
    forall k | 0 <= k < |r| ensures r[k] == s[k] {
      assert |cols[k]| == Pow2(m);
      MleAtBits(cols[k], j, m);
    }
  }

  // ----- the values of a round as a polynomial

  /** Coefficients of a weighted sum of polynomials. */
  ghost function MleCoeffs(cs: seq<seq<Fe>>, point: seq<Fe>, bound: nat): (c: seq<Fe>)
    requires |cs| == Pow2(|point|) && forall i {:trigger cs[i]} | 0 <= i < |cs| :: |cs[i]| <= bound
    ensures |c| <= bound
    decreases |point|
  {
    if point == [] then cs[0]
    else
      var h := Pow2(|point| - 1);
      PolyAdd(PolyScale(Sub(1, point[0]), MleCoeffs(cs[..h], point[1..], bound)),
              PolyScale(point[0], MleCoeffs(cs[h..], point[1..], bound)))
  }

  lemma {:induction false} MleCoeffsValue(cs: seq<seq<Fe>>, point: seq<Fe>, bound: nat, z: Fe, w: seq<Fe>)
    requires |w| == |cs| == Pow2(|point|) && forall i {:trigger cs[i]} | 0 <= i < |cs| :: |cs[i]| <= bound
    requires forall i {:trigger w[i]} | 0 <= i < |w| :: w[i] == Horner(cs[i], z)
    ensures Horner(MleCoeffs(cs, point, bound), z) == Mle(w, point)
    decreases |point|
  {
    hide Horner;
    if point == [] {
    } else {
      var h := Pow2(|point| - 1);
      var l, r := MleCoeffs(cs[..h], point[1..], bound), MleCoeffs(cs[h..], point[1..], bound);
      MleCoeffsValue(cs[..h], point[1..], bound, z, w[..h]);
      MleCoeffsValue(cs[h..], point[1..], bound, z, w[h..]);
      HornerAdd(PolyScale(Sub(1, point[0]), l), PolyScale(point[0], r), z);
      HornerScale(Sub(1, point[0]), l, z);
      HornerScale(point[0], r, z);
      LerpWeights(point[0], Horner(l, z), Horner(r, z));
      MulComm(Horner(l, z), Sub(1, point[0]));
      MulComm(Horner(r, z), point[0]);
    }
  }

  ghost function LineCoeffs(f: seq<Fe> -> Fe, p: seq<Fe>, q: seq<Fe>, d: nat): (c: seq<Fe>)
    requires |p| == |q| && LineHasDegree(f, p, q, d)
    ensures |c| <= d + 1 && IsLinePolynomial(f, p, q, c)
  {
    var c: seq<Fe> :| |c| <= d + 1 && IsLinePolynomial(f, p, q, c);
    c
  }

  /** The rows of pair j of the folded storage. */
  lemma FoldedRow(cols: seq<seq<Fe>>, bit: nat, m: nat, j: nat, z: Fe)
    requires bit < m && IsTable(cols, m) && j < Pow2(m - 1)
    ensures LowPartner(j, Pow2(bit)) + Pow2(bit) < Pow2(m)
    ensures RowOf(FoldedColumns(cols, bit, z, m), j)
         == Line(RowOf(cols, LowPartner(j, Pow2(bit))), RowOf(cols, LowPartner(j, Pow2(bit)) + Pow2(bit)), z)
  {
    hide LowPartner;
    PartnersFit(bit, m);
    var lo := LowPartner(j, Pow2(bit));
    var f := FoldedColumns(cols, bit, z, m);
    var r, s := RowOf(f, j), Line(RowOf(cols, lo), RowOf(cols, lo + Pow2(bit)), z);
    forall k | 0 <= k < |r| ensures r[k] == s[k] {
      assert r[k] == f[k][j] && |cols[k]| == Pow2(m);
    }
  }

  /** The round's values as a function of z: a polynomial with at most degree + 1 coefficients. */
  lemma RoundPolynomial(air: Air, cols: seq<seq<Fe>>, bit: nat, m: nat, point: seq<Fe>) returns (c: seq<Fe>)
    requires bit < m && IsTable(cols, m) && |cols| == air.columns && |point| == m - 1
    requires HasDegree(air.eval, air.columns, air.degree)
    ensures |c| <= air.degree + 1
    ensures forall z: Fe :: Horner(c, z) == Mle(RowValues(air.eval, FoldedColumns(cols, bit, z, m), m - 1), point)
  {
    hide LowPartner, Horner;
    PartnersFit(bit, m);
    var s := Pow2(bit);
    var lines: seq<seq<Fe>> := seq(Pow2(m - 1), (j: nat) requires 0 <= j < Pow2(m - 1) =>
      assert LowPartner(j, s) + s < Pow2(m);
      assert LineHasDegree(air.eval, RowOf(cols, LowPartner(j, s)), RowOf(cols, LowPartner(j, s) + s), air.degree);
      LineCoeffs(air.eval, RowOf(cols, LowPartner(j, s)), RowOf(cols, LowPartner(j, s) + s), air.degree));
    c := MleCoeffs(lines, point, air.degree + 1);
    forall z: Fe
      ensures Horner(c, z) == Mle(RowValues(air.eval, FoldedColumns(cols, bit, z, m), m - 1), point)
    {
      var w := RowValues(air.eval, FoldedColumns(cols, bit, z, m), m - 1);
      forall j {:trigger w[j]} | 0 <= j < |w| ensures w[j] == Horner(lines[j], z) {
        FoldedRow(cols, bit, m, j, z);
      }
      MleCoeffsValue(lines, point, air.degree + 1, z, w);
    }
  }
}
