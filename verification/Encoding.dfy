/**
 Reed-Solomon encoding of a stacked polynomial (crates/whir/src/utils.rs) and its link to
 the STIR constraints the verifier builds (crates/whir/src/verify.rs): evaluating one row
 of the codeword matrix at the folding randomness gives the folded polynomial at
 (a, a^2, a^4, ...) for the row's domain point a.
 */
module Encoding {
  import opened Arith
  import opened Field
  import opened Prime
  import opened Multilinear
  import opened DftSpec
  import DftNetwork

  /** prepare_evals_for_fft_unpacked: the flat matrix, `cols` columns wide, before the transform. */
  function PrepareEvals(evals: seq<Fe>, logBlock: nat, logInvRate: nat, cols: nat): (flat: seq<Fe>)
    requires cols > 0
    requires cols * Pow2(logBlock) <= |evals| * Pow2(logInvRate)
    ensures |flat| == Pow2(logBlock) * cols
  {
    seq(Pow2(logBlock) * cols, i requires 0 <= i < Pow2(logBlock) * cols =>
      var blockIndex := i % cols;
      var offsetInBlock := i / cols;
      FlatIndex(i, cols, Pow2(logBlock));
      SourceIndex(blockIndex, offsetInBlock, cols, Pow2(logBlock), |evals|, Pow2(logInvRate));
      evals[(blockIndex * Pow2(logBlock) + offsetInBlock) / Pow2(logInvRate)])
  }

  lemma FlatIndex(i: nat, cols: nat, height: nat)
    requires cols > 0 && i < height * cols
    ensures i % cols < cols && i / cols < height
  {
    if i / cols >= height {
      MulMonotone(height, i / cols, cols);
    }
  }

  lemma SourceIndex(c: nat, r: nat, cols: nat, block: nat, len: nat, rate: nat)
    requires c < cols && r < block && cols * block <= len * rate && rate > 0
    ensures 0 <= (c * block + r) / rate < len
  {
    MulMonotone(c + 1, cols, block);
    ShiftProduct(c + 1, c, block);
    NonNegativeProduct(c, block);
    DivBound(c * block + r, rate, len);
  }

  function RowOf(flat: seq<Fe>, height: nat, w: nat, r: nat): (row: Row)
    requires |flat| == height * w && r < height
    ensures |row| == w
  {
    BlockBounds(r, height, w);
    flat[r * w..(r + 1) * w]
  }

  /** RowMajorMatrix::new. */
  function RowsOf(flat: seq<Fe>, height: nat, w: nat): (rows: seq<Row>)
    requires |flat| == height * w
    ensures |rows| == height
    ensures forall r {:trigger rows[r]} | 0 <= r < height :: |rows[r]| == w
  {
    seq(height, r requires 0 <= r < height => RowOf(flat, height, w, r))
  }

  lemma RowEntry(flat: seq<Fe>, height: nat, w: nat, r: nat, c: nat)
    requires |flat| == height * w && r < height && c < w
    ensures 0 <= r * w + c < |flat|
    ensures RowsOf(flat, height, w)[r][c] == flat[r * w + c]
  {
    BlockBounds(r, height, w);
  }

  /** `r >> bits`. */
  lemma SourceBound(r: nat, n: nat, bits: nat)
    requires r < Pow2(n + bits)
    ensures Quotient(r, Pow2(bits)) < Pow2(n)
  {
    Pow2Add(n, bits);
    DivBound(r, Pow2(bits), Pow2(n));
  }

  /** Column c of the prepared matrix: block c of the evaluations, each repeated 2^rate times. */
  function Stretch(u: seq<Fe>, n: nat, rate: nat): (v: seq<Fe>)
    requires |u| == Pow2(n)
    ensures |v| == Pow2(n + rate)
  {
    seq(Pow2(n + rate), r requires 0 <= r < Pow2(n + rate) => SourceBound(r, n, rate); u[Quotient(r, Pow2(rate))])
  }

  lemma StretchAt(u: seq<Fe>, n: nat, rate: nat, r: nat)
    requires |u| == Pow2(n) && r < Pow2(n + rate)
    ensures Quotient(r, Pow2(rate)) < |u| && Stretch(u, n, rate)[r] == u[Quotient(r, Pow2(rate))]
  {
    hide Quotient;
    SourceBound(r, n, rate);
  }

  lemma PreparedColumn(evals: seq<Fe>, n: nat, f: nat, rate: nat, cols: nat, c: nat)
    requires f <= n && |evals| == Pow2(n) && 0 < cols <= Pow2(f) && c < cols
    ensures cols * Pow2(n - f + rate) <= |evals| * Pow2(rate)
    ensures 0 <= c * Pow2(n - f) <= (c + 1) * Pow2(n - f) <= |evals|
    ensures (c + 1) * Pow2(n - f) - c * Pow2(n - f) == Pow2(n - f)
    ensures Column(RowsOf(PrepareEvals(evals, n - f + rate, rate, cols), Pow2(n - f + rate), cols), c)
         == Stretch(evals[c * Pow2(n - f)..(c + 1) * Pow2(n - f)], n - f, rate)
  {
    var size, e := Pow2(n - f), Pow2(rate);
    var block := Pow2(n - f + rate);
    PreparedFits(n, f, rate, cols);
    Pow2Add(n - f, rate);
    Pow2Add(f, n - f);
    BlockBounds(c, Pow2(f), size);
    var flat := PrepareEvals(evals, n - f + rate, rate, cols);
    var rows := RowsOf(flat, block, cols);
    var u := evals[c * size..(c + 1) * size];
    forall r | 0 <= r < block
      ensures Column(rows, c)[r] == Stretch(u, n - f, rate)[r]
    {
      RowEntry(flat, block, cols, r, c);
      DivModOfRow(r, c, cols);
      SourceSplit(c, r, size, e);
      StretchAt(u, n - f, rate, r);
    }
  }

  lemma PreparedFits(n: nat, f: nat, rate: nat, cols: nat)
    requires f <= n && cols <= Pow2(f)
    ensures cols * Pow2(n - f + rate) <= Pow2(n) * Pow2(rate)
  {
    MulMonotone(cols, Pow2(f), Pow2(n - f + rate));
    Pow2Add(f, n - f + rate);
    Pow2Add(n, rate);
  }

  lemma SourceSplit(c: nat, r: nat, size: nat, e: nat)
    requires e > 0
    ensures (c * (size * e) + r) / e == c * size + r / e
  {
    var x := r / e;
    assert r == e * x + r % e;
    assert c * (size * e) == (c * size) * e;
    var y := c * size + x;
    assert y * e == (c * size) * e + x * e;
    assert c * (size * e) + r == y * e + r % e;
    DivModOfRow(y, r % e, e);
  }

  /** Repeating every value adds variables that do not matter. */
  lemma {:induction false} MleStretch(u: seq<Fe>, rate: nat, point: seq<Fe>, extra: seq<Fe>)
    requires |u| == Pow2(|point|) && |extra| == rate
    ensures |point + extra| == |point| + rate
    ensures Mle(Stretch(u, |point|, rate), point + extra) == Mle(u, point)
    decreases |point|
  {
    hide Quotient, Stretch;
    if point == [] {
      assert point + extra == extra;
      StretchOfOne(u, rate, extra);
    } else {
      StretchHalves(u, |point|, rate, Pow2(|point| - 1), Pow2(|point| - 1 + rate));
      assert (point + extra)[1..] == point[1..] + extra;
      MleStretch(u[..Pow2(|point| - 1)], rate, point[1..], extra);
      MleStretch(u[Pow2(|point| - 1)..], rate, point[1..], extra);
    }
  }

  lemma StretchOfOne(u: seq<Fe>, rate: nat, extra: seq<Fe>)
    requires |u| == 1 && |extra| == rate
    ensures Mle(Stretch(u, 0, rate), extra) == u[0]
  {
    var v := Stretch(u, 0, rate);
    forall r {:trigger v[r]} | 0 <= r < |v|
      ensures v[r] == u[0]
    {
      StretchAt(u, 0, rate, r);
    }
    MleConstant(v, extra, u[0]);
  }

  lemma StretchHalves(u: seq<Fe>, n: nat, rate: nat, h: nat, g: nat)
    requires n > 0 && |u| == Pow2(n) && h == Pow2(n - 1) && g == Pow2(n - 1 + rate)
    ensures Stretch(u, n, rate)[..g] == Stretch(u[..h], n - 1, rate)
    ensures Stretch(u, n, rate)[g..] == Stretch(u[h..], n - 1, rate)
  {
    var v := Stretch(u, n, rate);
    Pow2Add(n - 1, rate);
    var l, r := Stretch(u[..h], n - 1, rate), Stretch(u[h..], n - 1, rate);
    forall i | 0 <= i < g
      ensures v[..g][i] == l[i] && v[g..][i] == r[i]
    {
      StretchAt(u, n, rate, i);
      StretchAt(u, n, rate, i + g);
      StretchAt(u[..h], n - 1, rate, i);
      StretchAt(u[h..], n - 1, rate, i);
      DivShift(i, h, Pow2(rate));
      assert v[g..][i] == v[i + g];
    }
  }

  /** The squares of a shorter expansion are the first coordinates of a longer one. */
  lemma {:induction false} ExpandPrefix(a: Fe, n: nat, m: nat)
    ensures exists extra: seq<Fe> :: |extra| == m && Expand(a, n + m) == Expand(a, n) + extra
    decreases n
  {
    if n == 0 {
      assert Expand(a, m) == Expand(a, 0) + Expand(a, m);
    } else {
      ExpandPrefix(Mul(a, a), n - 1, m);
      var extra :| |extra| == m && Expand(Mul(a, a), n - 1 + m) == Expand(Mul(a, a), n - 1) + extra;
      assert Expand(a, n + m) == Expand(a, n) + extra;
    }
  }

  /** One row of the codeword, padded with zeros to the full width 2^f as `WhirMerkleTree::open` does. */
  function Opening(row: Row, f: nat): (leaf: seq<Fe>)
    requires |row| <= Pow2(f)
    ensures |leaf| == Pow2(f)
  {
    row + seq(Pow2(f) - |row|, _ => 0)
  }

  /** The columns that the transform skips hold only zeros. */
  ghost predicate ZeroBeyond(evals: seq<Fe>, cols: nat, size: nat) {
    forall i {:trigger evals[i]} | cols * size <= i < |evals| :: evals[i] == 0
  }

  /** The transformed matrix before padding. */
  ghost function Codeword(evals: seq<Fe>, n: nat, f: nat, rate: nat, cols: nat): (rows: seq<Row>)
    requires f <= n && |evals| == Pow2(n) && 0 < cols <= Pow2(f) && n - f + rate <= TWO_ADICITY
    ensures |rows| == Pow2(n - f + rate) && IsMatrix(rows, cols)
  {
    hide Dft, PrepareEvals, RowsOf, Pow2;
    PreparedFits(n, f, rate, cols);
    var k := n - f + rate;
    var rows := RowsOf(PrepareEvals(evals, k, rate, cols), Pow2(k), cols);
    DftWidth(rows, k, cols);
    Dft(rows, k)
  }

  lemma CodewordEntry(evals: seq<Fe>, n: nat, f: nat, rate: nat, cols: nat, k: nat, word: seq<Row>, i: nat, c: nat)
    requires f <= n && |evals| == Pow2(n) && 0 < cols <= Pow2(f) && k == n - f + rate <= TWO_ADICITY
    requires word == Codeword(evals, n, f, rate, cols)
    requires i < |word| && c < cols
    ensures Entry(word[i], c) == EvalBlocks(evals, f, Expand(Pow(TwoAdicGenerator(k), i), n - f))[c]
  {
    hide Dft, PrepareEvals, RowsOf, TwoAdicGenerator, EvalBlocks, Expand, Mle;
    PreparedFits(n, f, rate, cols);
    var rows := RowsOf(PrepareEvals(evals, k, rate, cols), Pow2(k), cols);
    DftWidth(rows, k, cols);
    DftEvaluates(rows, k, cols, i, c);
    ColumnValue(evals, n, f, rate, cols, c, Pow(TwoAdicGenerator(k), i));
  }

  lemma ColumnValue(evals: seq<Fe>, n: nat, f: nat, rate: nat, cols: nat, c: nat, a: Fe)
    requires f <= n && |evals| == Pow2(n) && 0 < cols <= Pow2(f) && c < cols
    ensures cols * Pow2(n - f + rate) <= |evals| * Pow2(rate)
    ensures Mle(Column(RowsOf(PrepareEvals(evals, n - f + rate, rate, cols), Pow2(n - f + rate), cols), c),
                Expand(a, n - f + rate))
         == EvalBlocks(evals, f, Expand(a, n - f))[c]
  {
    hide PrepareEvals, RowsOf, Stretch;
    PreparedColumn(evals, n, f, rate, cols, c);
    var u := evals[c * Pow2(n - f)..(c + 1) * Pow2(n - f)];
    ExpandPrefix(a, n - f, rate);
    var extra :| |extra| == rate && Expand(a, n - f + rate) == Expand(a, n - f) + extra;
    MleStretch(u, rate, Expand(a, n - f), extra);
    EvalBlocksAt(evals, f, Expand(a, n - f), c, Pow2(n - f));
  }

  lemma SkippedColumn(evals: seq<Fe>, n: nat, f: nat, cols: nat, c: nat, tail: seq<Fe>)
    requires f <= n && |evals| == Pow2(n) && |tail| == n - f && cols <= c < Pow2(f)
    requires ZeroBeyond(evals, cols, Pow2(n - f))
    ensures EvalBlocks(evals, f, tail)[c] == 0
  {
    var size := Pow2(n - f);
    EvalBlocksAt(evals, f, tail, c, size);
    MulMonotone(cols, c, size);
    MleConstant(evals[c * size..(c + 1) * size], tail, 0);
  }

  /**
   Encoding commutes with folding.  The opened leaf at row i, evaluated at the folding
   randomness, is the folded polynomial at the expansion of the i-th domain point.
   */
  lemma EncodingCommutesWithFolding(evals: seq<Fe>, n: nat, f: nat, rate: nat, cols: nat, k: nat, word: seq<Row>,
                                    rand: seq<Fe>, i: nat)
    requires f <= n && |evals| == Pow2(n) && 0 < cols <= Pow2(f) && k == n - f + rate <= TWO_ADICITY
    requires word == Codeword(evals, n, f, rate, cols)
    requires |rand| == f && i < Pow2(k)
    requires ZeroBeyond(evals, cols, Pow2(n - f))
    ensures Mle(Opening(word[i], f), rand) == Mle(FoldMany(evals, rand, n - f), Expand(Pow(TwoAdicGenerator(k), i), n - f))
  {
    hide Codeword, Mle, FoldMany, EvalBlocks, Expand, TwoAdicGenerator;
    var tail := Expand(Pow(TwoAdicGenerator(k), i), n - f);
    var leaf := Opening(word[i], f);
    forall c | 0 <= c < Pow2(f)
      ensures leaf[c] == EvalBlocks(evals, f, tail)[c]
    {
      if c < cols {
        CodewordEntry(evals, n, f, rate, cols, k, word, i, c);
      } else {
        SkippedColumn(evals, n, f, cols, c, tail);
      }
    }
    assert leaf == EvalBlocks(evals, f, tail);
    MleSplit(evals, rand, tail);
    MleFoldMany(evals, rand, tail);
  }

  /** reorder_and_dft: the prepared matrix is transformed in place by a cached network. */
  method ReorderAndDft(dft: DftNetwork.EvalsDft, evals: seq<Fe>, ghost n: nat, f: nat, rate: nat, cols: nat,
                       logBlock: nat, workload: nat) returns (mat: array<Row>)
    requires dft.Valid()
    requires f <= n && |evals| == Pow2(n) && 0 < cols <= Pow2(f) && n - f + rate <= TWO_ADICITY
    requires logBlock == n - f + rate
    modifies dft
    ensures dft.Valid() && fresh(mat)
    ensures mat[..] == Codeword(evals, n, f, rate, cols)
  {
    PreparedFits(n, f, rate, cols);
    var rows := RowsOf(PrepareEvals(evals, logBlock, rate, cols), Pow2(logBlock), cols);
    mat := new Row[|rows|](i requires 0 <= i < |rows| => rows[i]);
    assert mat[..] == rows;
    dft.DftBatchByEvals(mat, cols, workload, logBlock);
  }
}
