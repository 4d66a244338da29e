/**
 Sums of numerator over denominator, which the quotient argument is about, and sums over the cells
 that a list of accesses looks up (crates/sub_protocols/src/quotient_gkr/mod.rs,
 crates/lean_prover/src/prove_execution.rs).
 */
module LogupSums {
  import opened Arith
  import opened Field
  import opened Prime
  import opened Multilinear
  import opened Coefficients
  import opened StorageLayout
  import opened Sections

  // ----- quotients

  function Inverses(den: seq<Fe>): (r: seq<Fe>)
    ensures |r| == |den|
  {
    seq(|den|, i requires 0 <= i < |den| => InverseOrZero(den[i]))
  }

  /** compute_quotient, for any number of entries; a denominator 0, which stops the source, adds nothing. */
  function QuotientSum(num: seq<Fe>, den: seq<Fe>): Fe
    requires |num| == |den|
  {
    Dot(num, Inverses(den))
  }

  lemma QuotientAppend(num: seq<Fe>, den: seq<Fe>, num2: seq<Fe>, den2: seq<Fe>)
    requires |num| == |den| && |num2| == |den2|
    ensures QuotientSum(num + num2, den + den2) == Add(QuotientSum(num, den), QuotientSum(num2, den2))
  {
    hide Dot;
    DotConcat(num, num2, Inverses(den), Inverses(den2));
    assert Inverses(den + den2) == Inverses(den) + Inverses(den2);
  }

  /** Numerators 0 add nothing, whatever stands below them. */
  lemma PaddingAddsNothing(num: seq<Fe>, den: seq<Fe>, size: nat)
    requires |num| == |den| <= size
    ensures QuotientSum(PadZeros(num, size), PadOnes(den, size)) == QuotientSum(num, den)
    ensures QuotientSum(PadZeros(num, size), PadZeros(den, size)) == QuotientSum(num, den)
  {
    var k := size - |num|;
    var zeros, ones := seq<Fe>(k, _ => 0), seq<Fe>(k, _ => 1);
    QuotientAppend(num, den, zeros, ones);
    QuotientAppend(num, den, zeros, zeros);
    DotZero(zeros, Inverses(ones));
    DotZero(zeros, Inverses(zeros));
    AddZero(QuotientSum(num, den));
  }

  // ----- storage order

  lemma HalfTwice(a: Fe, b: Fe)
    ensures Mul(2, Lerp(HALF, a, b)) == Add(a, b)
  {
    LiftSelf(a);
    LiftSelf(b);
    LiftSelf(2);
    LiftSelf(HALF);
    LiftLerp(HALF, a, b);
    var x: int := a + HALF * (b - a);
    LiftMul(2, x);
    LiftAdd(a, b);
    assert 2 * x == a + b + P * (b - a);
    ResCong(a + b, b - a);
  }

  function Products(u: seq<Fe>, v: seq<Fe>): (r: seq<Fe>)
    requires |u| == |v|
    ensures |r| == |u|
  {
    seq(|u|, i requires 0 <= i < |u| => Mul(u[i], v[i]))
  }

  function Halves(n: nat): (x: seq<Fe>)
    ensures |x| == n
  {
    seq(n, _ => HALF)
  }

  /** A sum of products is 2^n times their extension at the middle of the cube. */
  lemma {:induction false} DotIsMiddle(u: seq<Fe>, v: seq<Fe>, n: nat)
    requires |u| == |v| == Pow2(n)
    ensures Dot(u, v) == Mul(Pow(2, n), Mle(Products(u, v), Halves(n)))
    decreases n
  {
    var z, x := Products(u, v), Halves(n);
    if n == 0 {
      assert u[1..] == [] && v[1..] == [];
      AddZero(z[0]);
      MulOne(z[0]);
    } else {
      var h := Pow2(n - 1);
      DotSplit(u, v, h);
      DotIsMiddle(u[..h], v[..h], n - 1);
      DotIsMiddle(u[h..], v[h..], n - 1);
      assert z[..h] == Products(u[..h], v[..h]) && z[h..] == Products(u[h..], v[h..]) && x[1..] == Halves(n - 1);
      MiddleStep(Pow(2, n - 1), Mle(z[..h], x[1..]), Mle(z[h..], x[1..]));
    }
  }

  lemma MiddleStep(p: Fe, a: Fe, b: Fe)
    ensures Mul(Mul(2, p), Lerp(HALF, a, b)) == Add(Mul(p, a), Mul(p, b))
  {
    HalfTwice(a, b);
    MulComm(2, p);
    MulAssoc(p, 2, Lerp(HALF, a, b));
    Distributes(p, a, b);
  }

  lemma MiddlePermuted(n: nat, h: nat)
    requires h <= n
    ensures Permuted(Halves(n), h) == Halves(n)
  {
    ReversedConstant(Halves(n)[h..], HALF);
  }

  lemma {:induction false} ReversedConstant(x: seq<Fe>, a: Fe)
    requires forall i {:trigger x[i]} | 0 <= i < |x| :: x[i] == a
    ensures Reversed(x) == x
    decreases |x|
  {
    if x != [] {
      ReversedConstant(x[1..], a);
      forall i | 0 <= i < |x| ensures Reversed(x)[i] == x[i] {
      }
    }
  }

  /** The order in which values are stored does not matter to the sum. */
  lemma QuotientReversed(num: seq<Fe>, den: seq<Fe>, h: nat, p: nat)
    requires |num| == |den| == Pow2(h + p)
    ensures QuotientSum(ChunkReversed(num, h, p), ChunkReversed(den, h, p)) == QuotientSum(num, den)
  {
    hide Dot, Mle, ChunkIndex, Pow, Pow2, Halves, Permuted;
    var n := h + p;
    var inv := Inverses(den);
    var z := Products(num, inv);
    DotIsMiddle(num, inv, n);
    DotIsMiddle(ChunkReversed(num, h, p), Inverses(ChunkReversed(den, h, p)), n);
    assert Products(ChunkReversed(num, h, p), Inverses(ChunkReversed(den, h, p))) == ChunkReversed(z, h, p);
    MiddlePermuted(n, h);
    MleChunkReversed(z, h, Halves(n));
  }

  // ----- counting

  /** How often every cell below `size` is looked up. */
  function Counts(cells: multiset<nat>, size: nat): (r: seq<Fe>)
    ensures |r| == size
  {
    seq(size, i requires 0 <= i < size => Res(cells[i]))
  }

  /** Every cell's weight as often as the cell is looked up. */
  function Weighted(cells: multiset<nat>, w: seq<Fe>): Fe { Dot(Counts(cells, |w|), w) }

  lemma WeightedSum(a: multiset<nat>, b: multiset<nat>, w: seq<Fe>)
    ensures Weighted(a + b, w) == Add(Weighted(a, w), Weighted(b, w))
  {
    hide Dot;
    var u, v, s := Counts(a, |w|), Counts(b, |w|), Counts(a + b, |w|);
    forall i {:trigger s[i]} | 0 <= i < |s| ensures Add(u[i], v[i]) == s[i] {
      LiftAdd(a[i], b[i]);
    }
    DotAdd(w, u, v, s);
    DotCommute(w, u);
    DotCommute(w, v);
    DotCommute(w, s);
  }

  lemma WeightedOne(cell: nat, w: seq<Fe>)
    requires cell < |w|
    ensures Weighted(multiset{cell}, w) == w[cell]
  {
    hide Dot;
    LiftSelf(0);
    LiftSelf(1);
    DotUnit(w, cell, Counts(multiset{cell}, |w|));
    DotCommute(w, Counts(multiset{cell}, |w|));
  }

  lemma WeightedNothing(w: seq<Fe>)
    ensures Weighted(multiset{}, w) == 0
  {
    LiftSelf(0);
    DotZero(Counts(multiset{}, |w|), w);
  }

  /** Row r looks up cell `column[r] + distance`. */
  function Shifted(column: seq<Fe>, distance: nat): multiset<nat> {
    if column == [] then multiset{}
    else
      var r := |column| - 1;
      Shifted(column[..r], distance) + multiset{column[r] + distance}
  }

  /** A column whose row r holds the weight of cell `column[r] + distance` adds up to the weights of all looked-up cells. */
  lemma {:induction false} ColumnLooksUp(column: seq<Fe>, distance: nat, v: seq<Fe>, w: seq<Fe>)
    requires |v| == |column|
    requires forall r {:trigger v[r]} | 0 <= r < |v| :: column[r] + distance < |w| && v[r] == w[column[r] + distance]
    ensures Dot(seq(|v|, _ => 1), v) == Weighted(Shifted(column, distance), w)
    decreases |v|
  {
    hide Weighted;
    if v == [] {
      WeightedNothing(w);
    } else {
      var r := |v| - 1;
      var ones, fewer := seq<Fe>(|v|, _ => 1), seq<Fe>(r, _ => 1);
      var u := v[..r];
      forall i {:trigger u[i]} | 0 <= i < r ensures column[..r][i] + distance < |w| && u[i] == w[column[..r][i] + distance] {
        assert u[i] == v[i];
      }
      ColumnLooksUp(column[..r], distance, u, w);
      DotSplit(ones, v, r);
      assert ones[..r] == fewer && ones[r..] == [1] && v[r..] == [v[r]];
      OneProduct(v[r]);
      WeightedSum(Shifted(column[..r], distance), multiset{column[r] + distance}, w);
      WeightedOne(column[r] + distance, w);
    }
  }

  lemma OneProduct(x: Fe)
    ensures Dot([1], [x]) == x
  {
    assert [1][1..] == [] && [x][1..] == [];
    MulOne(x);
    AddZero(x);
  }

  /** Cells base, base + 1, ..., base + count - 1. */
  function Run(base: nat, count: nat): multiset<nat> {
    if count == 0 then multiset{} else Run(base, count - 1) + multiset{base + count - 1}
  }

  /** Every row of the index column looks up `count` consecutive cells. */
  function LookupCells(column: seq<Fe>, count: nat): multiset<nat> {
    if column == [] then multiset{}
    else
      var r := |column| - 1;
      LookupCells(column[..r], count) + Run(column[r], count)
  }

  /** Looking up one cell more on every row. */
  lemma {:induction false} OneCellMore(column: seq<Fe>, count: nat)
    ensures LookupCells(column, count + 1) == LookupCells(column, count) + Shifted(column, count)
    decreases |column|
  {
    if column != [] {
      var r := |column| - 1;
      OneCellMore(column[..r], count);
      MixCells(LookupCells(column[..r], count), Shifted(column[..r], count), Run(column[r], count), multiset{column[r] + count});
    }
  }

  lemma MixCells(a: multiset<nat>, b: multiset<nat>, c: multiset<nat>, d: multiset<nat>)
    ensures (a + b) + (c + d) == (a + c) + (b + d)
  {
  }

  lemma {:induction false} NoCells(column: seq<Fe>)
    ensures LookupCells(column, 0) == multiset{}
    decreases |column|
  {
    if column != [] {
      NoCells(column[..|column| - 1]);
    }
  }
}
