/**
 The in-place butterfly network that turns hypercube evaluations into a Reed-Solomon
 codeword (crates/whir/src/dft.rs).  A matrix is an array of rows of equal width; every
 column is transformed on its own.
 */
module DftSpec {
  import opened Arith
  import opened Field
  import opened Prime
  import opened Multilinear

  type Row = seq<Fe>

  const LAYERS_PER_GROUP := 3

  ghost predicate IsMatrix(rows: seq<Row>, w: nat) { forall r | 0 <= r < |rows| :: |rows[r]| == w }

  // ----- butterflies

  function Hi(x: Fe, y: Fe, t: Fe): Fe { Add(x, Mul(Sub(y, x), t)) }

  function Lo(x: Fe, y: Fe, t: Fe): Fe { Sub(x, Mul(Sub(y, x), t)) }

  function Entry(x: Row, c: int): Fe { if 0 <= c < |x| then x[c] else 0 }

  function HiRow(x: Row, y: Row, t: Fe): (r: Row)
    ensures |r| == |x|
  {
    seq(|x|, c requires 0 <= c < |x| => Hi(x[c], Entry(y, c), t))
  }

  function LoRow(x: Row, y: Row, t: Fe): (r: Row)
    ensures |r| == |x|
  {
    seq(|x|, c requires 0 <= c < |x| => Lo(x[c], Entry(y, c), t))
  }

  function HiRows(l: seq<Row>, r: seq<Row>, tw: seq<Fe>): (b: seq<Row>)
    requires |l| == |r| == |tw|
    ensures |b| == |l|
    ensures forall j {:trigger b[j]} | 0 <= j < |b| :: b[j] == HiRow(l[j], r[j], tw[j])
  {
    seq(|l|, j requires 0 <= j < |l| => HiRow(l[j], r[j], tw[j]))
  }

  function LoRows(l: seq<Row>, r: seq<Row>, tw: seq<Fe>): (b: seq<Row>)
    requires |l| == |r| == |tw|
    ensures |b| == |l|
    ensures forall j {:trigger b[j]} | 0 <= j < |b| :: b[j] == LoRow(l[j], r[j], tw[j])
  {
    seq(|l|, j requires 0 <= j < |l| => LoRow(l[j], r[j], tw[j]))
  }

  /** One layer on one block: row j of each half meets twiddle j. */
  function Fly(l: seq<Row>, r: seq<Row>, tw: seq<Fe>): (b: seq<Row>)
    requires |l| == |r| == |tw|
    ensures |b| == 2 * |l|
  {
    HiRows(l, r, tw) + LoRows(l, r, tw)
  }

  /** One layer on every whole block; a shorter remainder is left alone. */
  ghost function Layer(rows: seq<Row>, tw: seq<Fe>): (b: seq<Row>)
    requires |tw| > 0
    ensures |b| == |rows|
    decreases |rows|
  {
    var m := |tw|;
    if |rows| < 2 * m then rows
    else Fly(rows[..m], rows[m..2 * m], tw) + Layer(rows[2 * m..], tw)
  }

  // ----- the twiddle table

  /** `[1, g, g^2, ...]` for the generator g of order 2^k: the twiddles of the layer with blocks of 2^k rows. */
  ghost function Twiddles(k: nat): (tw: seq<Fe>)
    requires 0 < k <= TWO_ADICITY
    ensures |tw| == Pow2(k - 1)
    ensures forall j {:trigger tw[j]} | 0 <= j < |tw| :: tw[j] == Pow(TwoAdicGenerator(k), j)
  {
    seq(Pow2(k - 1), j requires 0 <= j => Pow(TwoAdicGenerator(k), j))
  }

  // ----- the recursive specification

  /** The transform of one block of 2^k rows. */
  ghost function Dft(rows: seq<Row>, k: nat): (b: seq<Row>)
    requires k <= TWO_ADICITY && |rows| == Pow2(k)
    ensures |b| == Pow2(k)
    decreases k
  {
    hide Fly, Twiddles;
    if k == 0 then rows
    else
      var h := Pow2(k - 1);
      Fly(Dft(rows[..h], k - 1), Dft(rows[h..], k - 1), Twiddles(k))
  }

  lemma DftStep(rows: seq<Row>, k: nat, h: nat)
    requires 0 < k <= TWO_ADICITY && |rows| == Pow2(k) && h == Pow2(k - 1)
    ensures Dft(rows, k) == Fly(Dft(rows[..h], k - 1), Dft(rows[h..], k - 1), Twiddles(k))
  {
    hide Fly, Twiddles;
  }

  lemma FlyWidth(l: seq<Row>, r: seq<Row>, tw: seq<Fe>, w: nat)
    requires |l| == |r| == |tw| && IsMatrix(l, w) && IsMatrix(r, w)
    ensures IsMatrix(Fly(l, r, tw), w)
  {
    hide HiRow, LoRow;
  }

  lemma {:induction false} DftWidth(rows: seq<Row>, k: nat, w: nat)
    requires k <= TWO_ADICITY && |rows| == Pow2(k) && IsMatrix(rows, w)
    ensures IsMatrix(Dft(rows, k), w)
    decreases k
  {
    if k == 0 {
      assert Dft(rows, 0) == rows;
    } else {
      hide Dft, Fly, Twiddles;
      var h := Pow2(k - 1);
      DftWidth(rows[..h], k - 1, w);
      DftWidth(rows[h..], k - 1, w);
      DftStep(rows, k, h);
      FlyWidth(Dft(rows[..h], k - 1), Dft(rows[h..], k - 1), Twiddles(k), w);
    }
  }

  ghost function Column(rows: seq<Row>, c: nat): (v: seq<Fe>)
    ensures |v| == |rows|
    ensures forall r {:trigger v[r]} | 0 <= r < |v| :: v[r] == Entry(rows[r], c)
  {
    seq(|rows|, r requires 0 <= r < |rows| => Entry(rows[r], c))
  }

  lemma {:induction false} GeneratorHalfOrder(k: nat)
    requires 0 < k <= TWO_ADICITY
    ensures Pow(TwoAdicGenerator(k), Pow2(k - 1)) == P - 1
    decreases k
  {
    var g := TwoAdicGenerator(k);
    if k == 1 {
      FirstGenerators();
      assert Pow(g, 1) == Mul(g, Pow(g, 0));
      MulOne(g);
    } else {
      GeneratorHalfOrder(k - 1);
      GeneratorSquare(k - 1);
      PowTwo(g);
      PowMul(g, 2, Pow2(k - 2));
    }
  }

  lemma PowTwo(a: Fe)
    ensures Pow(a, 2) == Mul(a, a)
  {
    assert Pow(a, 2) == Mul(a, Pow(a, 1));
    assert Pow(a, 1) == Mul(a, Pow(a, 0));
    MulOne(a);
  }

  /** Squaring a power of one generator gives the same power of the previous one. */
  lemma SquaredTwiddle(k: nat, j: nat)
    requires 0 < k <= TWO_ADICITY
    ensures Mul(Pow(TwoAdicGenerator(k), j), Pow(TwoAdicGenerator(k), j)) == Pow(TwoAdicGenerator(k - 1), j)
  {
    var g := TwoAdicGenerator(k);
    GeneratorSquare(k - 1);
    PowAdd(g, j, j);
    PowTwo(g);
    PowMul(g, 2, j);
  }

  /** In the second half of a block the evaluation point is the negated twiddle. */
  lemma UpperTwiddle(k: nat, j: nat)
    requires 0 < k <= TWO_ADICITY
    ensures Pow(TwoAdicGenerator(k), j + Pow2(k - 1)) == Neg(Pow(TwoAdicGenerator(k), j))
  {
    var g := TwoAdicGenerator(k);
    var t := Pow(g, j);
    GeneratorHalfOrder(k);
    PowAdd(g, j, Pow2(k - 1));
    LiftSelf(t);
    LiftSelf(P - 1);
    LiftMul(t, P - 1);
    LiftNeg(t);
    assert t * (P - 1) == -t + P * t;
    ResCong(-t, t);
  }

  lemma HiIsLerp(x: Fe, y: Fe, t: Fe)
    ensures Hi(x, y, t) == Lerp(t, x, y)
  {
    MulComm(Sub(y, x), t);
  }

  lemma LoIsLerp(x: Fe, y: Fe, t: Fe)
    ensures Lo(x, y, t) == Lerp(Neg(t), x, y)
  {
    LiftSelf(x);
    LiftSelf(y);
    LiftSelf(t);
    LiftNeg(t);
    LiftSub(y, x);
    LiftMul(y - x, t);
    LiftSub(x, (y - x) * t);
    var n: int := 0 - t;
    LiftLerp(n, x, y);
    assert x - (y - x) * t == x + n * (y - x);
  }

  lemma NegSquare(t: Fe)
    ensures Mul(Neg(t), Neg(t)) == Mul(t, t)
  {
    LiftSelf(t);
    LiftNeg(t);
    var n: int := 0 - t;
    LiftMul(n, n);
    LiftMul(t, t);
    assert n * n == t * t;
  }

  /** The square of the point of row i is the point of row i modulo 2^(k-1) one level down. */
  lemma PointSquared(k: nat, i: nat)
    requires 0 < k <= TWO_ADICITY && i < Pow2(k)
    ensures var a := Pow(TwoAdicGenerator(k), i);
            var j := if i < Pow2(k - 1) then i else i - Pow2(k - 1);
            Mul(a, a) == Pow(TwoAdicGenerator(k - 1), j)
  {
    var j := if i < Pow2(k - 1) then i else i - Pow2(k - 1);
    SquaredTwiddle(k, j);
    if j != i {
      UpperTwiddle(k, j);
      NegSquare(Pow(TwoAdicGenerator(k), j));
    }
  }

  /** An entry of a transformed block is a line through the entries of the transformed halves. */
  lemma DftEntry(rows: seq<Row>, k: nat, w: nat, i: nat, c: nat, h: nat, l: seq<Row>, r: seq<Row>)
    requires 0 < k <= TWO_ADICITY && |rows| == Pow2(k) && h == Pow2(k - 1) && IsMatrix(rows, w)
    requires i < Pow2(k) && c < w
    requires l == Dft(rows[..h], k - 1) && r == Dft(rows[h..], k - 1)
    ensures Entry(Dft(rows, k)[i], c)
         == Lerp(Pow(TwoAdicGenerator(k), i), Entry(l[if i < h then i else i - h], c), Entry(r[if i < h then i else i - h], c))
  {
    hide Dft, Fly, TwoAdicGenerator;
    var j := if i < h then i else i - h;
    DftWidth(rows[..h], k - 1, w);
    DftWidth(rows[h..], k - 1, w);
    DftStep(rows, k, h);
    FlyEntry(l, r, Twiddles(k), w, j, c);
    if i >= h {
      UpperTwiddle(k, j);
    }
  }

  lemma FlyEntry(l: seq<Row>, r: seq<Row>, tw: seq<Fe>, w: nat, j: nat, c: nat)
    requires |l| == |r| == |tw| && IsMatrix(l, w) && IsMatrix(r, w) && j < |tw| && c < w
    ensures Entry(Fly(l, r, tw)[j], c) == Lerp(tw[j], Entry(l[j], c), Entry(r[j], c))
    ensures Entry(Fly(l, r, tw)[j + |tw|], c) == Lerp(Neg(tw[j]), Entry(l[j], c), Entry(r[j], c))
  {
    HiIsLerp(l[j][c], r[j][c], tw[j]);
    LoIsLerp(l[j][c], r[j][c], tw[j]);
  }

  lemma OneRow(rows: seq<Row>, w: nat, c: nat)
    requires |rows| == 1 && IsMatrix(rows, w) && c < w
    ensures Dft(rows, 0) == rows && forall a: Fe {:trigger Expand(a, 0)} :: Entry(rows[0], c) == Mle(Column(rows, c), Expand(a, 0))
  {
  }

  /**
   Row i of the transform holds, in every column c, the column's multilinear polynomial
   at (a, a^2, a^4, ...) for a = g^i.
   */
  lemma {:induction false} DftEvaluates(rows: seq<Row>, k: nat, w: nat, i: nat, c: nat)
    requires k <= TWO_ADICITY && |rows| == Pow2(k) && IsMatrix(rows, w)
    requires i < Pow2(k) && c < w
    ensures Entry(Dft(rows, k)[i], c) == Mle(Column(rows, c), Expand(Pow(TwoAdicGenerator(k), i), k))
    decreases k
  {
    hide TwoAdicGenerator, Twiddles, Fly, Dft, Expand, Mle;
    if k == 0 {
      OneRow(rows, w, c);
    } else {
      var h := Pow2(k - 1);
      var j := if i < h then i else i - h;
      var a := Pow(TwoAdicGenerator(k), i);
      DftEntry(rows, k, w, i, c, h, Dft(rows[..h], k - 1), Dft(rows[h..], k - 1));
      DftEvaluates(rows[..h], k - 1, w, j, c);
      DftEvaluates(rows[h..], k - 1, w, j, c);
      ColumnHalves(rows, h, c);
      MleExpandStep(Column(rows, c), a, k);
      PointSquared(k, i);
    }
  }

  lemma ColumnHalves(rows: seq<Row>, h: nat, c: nat)
    requires h <= |rows|
    ensures Column(rows, c)[..h] == Column(rows[..h], c)
    ensures Column(rows, c)[h..] == Column(rows[h..], c)
  {
  }

  // ----- layers over the whole matrix

  /** Every aligned block of 2^k rows transformed on its own. */
  ghost function Blocks(rows: seq<Row>, k: nat): (b: seq<Row>)
    requires k <= TWO_ADICITY
    ensures |b| == |rows|
    decreases |rows|
  {
    var s := Pow2(k);
    if |rows| < s then rows
    else Dft(rows[..s], k) + Blocks(rows[s..], k)
  }

  lemma {:induction false} BlocksOfOne(rows: seq<Row>)
    ensures Blocks(rows, 0) == rows
    decreases |rows|
  {
    if |rows| > 0 {
      BlocksOfOne(rows[1..]);
    }
  }

  lemma BlocksOfAll(rows: seq<Row>, k: nat)
    requires k <= TWO_ADICITY && |rows| == Pow2(k)
    ensures Blocks(rows, k) == Dft(rows, k)
  {
    hide Dft;
    assert rows[..Pow2(k)] == rows;
    assert rows[Pow2(k)..] == [];
  }

  /** The next layer joins the transformed blocks in pairs. */
  lemma {:induction false} LayerJoinsBlocks(rows: seq<Row>, k: nat, s: nat, q: nat)
    requires k < TWO_ADICITY && s == Pow2(k)
    requires |rows| == q * (2 * s)
    ensures Layer(Blocks(rows, k), Twiddles(k + 1)) == Blocks(rows, k + 1)
    decreases q
  {
    hide Dft, Blocks, Layer, Fly;
    if q == 0 {
      NoBlocks(k);
    } else {
      ShiftProduct(q, 1, 2 * s);
      NonNegativeProduct(q - 1, 2 * s);
      TwoBlocks(rows, k, s);
      LayerJoinsBlocks(rows[2 * s..], k, s, q - 1);
      LayerHead(Dft(rows[..s], k), Dft(rows[s..2 * s], k), Blocks(rows[2 * s..], k), Twiddles(k + 1));
      JoinedBlock(rows, k, s);
    }
  }

  lemma NoBlocks(k: nat)
    requires k < TWO_ADICITY
    ensures Blocks([], k) == Blocks([], k + 1) == Layer([], Twiddles(k + 1)) == []
  {
  }

  lemma TwoBlocks(rows: seq<Row>, k: nat, s: nat)
    requires k < TWO_ADICITY && s == Pow2(k) && |rows| >= 2 * s
    ensures Blocks(rows, k) == Dft(rows[..s], k) + Dft(rows[s..2 * s], k) + Blocks(rows[2 * s..], k)
  {
    hide Dft;
    var rest := rows[s..];
    assert rest[..s] == rows[s..2 * s];
    assert rest[s..] == rows[2 * s..];
    assert Blocks(rest, k) == Dft(rest[..s], k) + Blocks(rest[s..], k);
    assert Blocks(rows, k) == Dft(rows[..s], k) + Blocks(rest, k);
  }

  lemma JoinedBlock(rows: seq<Row>, k: nat, s: nat)
    requires k < TWO_ADICITY && s == Pow2(k) && |rows| >= 2 * s
    ensures Blocks(rows, k + 1)
         == Fly(Dft(rows[..s], k), Dft(rows[s..2 * s], k), Twiddles(k + 1)) + Blocks(rows[2 * s..], k + 1)
  {
    hide Dft, Fly;
    var b := rows[..2 * s];
    assert b[..s] == rows[..s];
    assert b[s..] == rows[s..2 * s];
    DftStep(b, k + 1, s);
    assert Blocks(rows, k + 1) == Dft(b, k + 1) + Blocks(rows[2 * s..], k + 1);
  }

  lemma LayerHead(l: seq<Row>, r: seq<Row>, rest: seq<Row>, tw: seq<Fe>)
    requires |tw| > 0 && |l| == |r| == |tw|
    ensures Layer(l + r + rest, tw) == Fly(l, r, tw) + Layer(rest, tw)
  {
    hide Fly;
    var all := l + r + rest;
    assert all[..|tw|] == l;
    assert all[|tw|..2 * |tw|] == r;
    assert all[2 * |tw|..] == rest;
  }
}
