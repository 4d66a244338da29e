/**
 The imperative half of crates/whir/src/dft.rs: rows are updated in place, layers are
 taken singly, in pairs or in triples, and the twiddle table is cached in a field and
 replaced when it is too small.
 */
module DftNetwork {
  import opened Arith
  import opened Field
  import opened Prime
  import opened Multilinear
  import opened DftSpec

  // ----- fused layers on four and on eight rows

  datatype Quad = Quad(r0: Row, r1: Row, r2: Row, r3: Row)

  datatype Oct = Oct(hi: Quad, lo: Quad)

  /** Two layers on the rows ind, ind + m, ind + 2m, ind + 3m of a block. */
  function Two(q: Quad, small: Fe, large0: Fe, large1: Fe): Quad {
    var a, b := HiRow(q.r0, q.r1, small), LoRow(q.r0, q.r1, small);
    var c, d := HiRow(q.r2, q.r3, small), LoRow(q.r2, q.r3, small);
    Quad(HiRow(a, c, large0), HiRow(b, d, large1), LoRow(a, c, large0), LoRow(b, d, large1))
  }

  /** Three layers on the rows ind, ind + m, ..., ind + 7m of a block. */
  function Three(o: Oct, small: Fe, med0: Fe, med1: Fe, l0: Fe, l1: Fe, l2: Fe, l3: Fe): Oct {
    var h, l := Two(o.hi, small, med0, med1), Two(o.lo, small, med0, med1);
    Oct(Quad(HiRow(h.r0, l.r0, l0), HiRow(h.r1, l.r1, l1), HiRow(h.r2, l.r2, l2), HiRow(h.r3, l.r3, l3)),
        Quad(LoRow(h.r0, l.r0, l0), LoRow(h.r1, l.r1, l1), LoRow(h.r2, l.r2, l2), LoRow(h.r3, l.r3, l3)))
  }

  /** Two successive layers on one block of four parts. */
  ghost function Fly2(b: seq<Row>, small: seq<Fe>, large: seq<Fe>): (r: seq<Row>)
    requires |b| == 4 * |small| && |large| == 2 * |small|
    ensures |r| == |b|
  {
    var m := |small|;
    Fly(Fly(b[..m], b[m..2 * m], small), Fly(b[2 * m..3 * m], b[3 * m..], small), large)
  }

  /** Three successive layers on one block of eight parts. */
  ghost function Fly3(b: seq<Row>, small: seq<Fe>, med: seq<Fe>, large: seq<Fe>): (r: seq<Row>)
    requires |b| == 8 * |small| && |med| == 2 * |small| && |large| == 4 * |small|
    ensures |r| == |b|
  {
    var m := |small|;
    Fly(Fly2(b[..4 * m], small, med), Fly2(b[4 * m..], small, med), large)
  }

  ghost function QuadAt(b: seq<Row>, ind: nat, m: nat): Quad
    requires ind + 3 * m < |b|
  {
    Quad(b[ind], b[ind + m], b[ind + 2 * m], b[ind + 3 * m])
  }

  ghost function OctAt(b: seq<Row>, ind: nat, m: nat): Oct
    requires ind + 7 * m < |b|
  {
    Oct(QuadAt(b, ind, m), QuadAt(b[4 * m..], ind, m))
  }

  lemma FlyRows(l: seq<Row>, r: seq<Row>, tw: seq<Fe>, i: nat)
    requires |l| == |r| == |tw| && i < |tw|
    ensures Fly(l, r, tw)[i] == HiRow(l[i], r[i], tw[i]) && Fly(l, r, tw)[i + |tw|] == LoRow(l[i], r[i], tw[i])
  {
    hide HiRow, LoRow;
  }

  lemma Fly2At(b: seq<Row>, small: seq<Fe>, large: seq<Fe>, ind: nat)
    requires |b| == 4 * |small| && |large| == 2 * |small| && ind < |small|
    ensures QuadAt(Fly2(b, small, large), ind, |small|)
         == Two(QuadAt(b, ind, |small|), small[ind], large[ind], large[ind + |small|])
  {
    hide HiRow, LoRow, Fly;
    var m := |small|;
    var l, r := Fly(b[..m], b[m..2 * m], small), Fly(b[2 * m..3 * m], b[3 * m..], small);
    FlyRows(b[..m], b[m..2 * m], small, ind);
    FlyRows(b[2 * m..3 * m], b[3 * m..], small, ind);
    FlyRows(l, r, large, ind);
    FlyRows(l, r, large, ind + m);
  }

  lemma Fly3At(b: seq<Row>, small: seq<Fe>, med: seq<Fe>, large: seq<Fe>, ind: nat)
    requires |b| == 8 * |small| && |med| == 2 * |small| && |large| == 4 * |small| && ind < |small|
    ensures OctAt(Fly3(b, small, med, large), ind, |small|)
         == Three(OctAt(b, ind, |small|), small[ind], med[ind], med[ind + |small|], large[ind],
                  large[ind + |small|], large[ind + 2 * |small|], large[ind + 3 * |small|])
  {
    hide HiRow, LoRow, Fly2;
    var m := |small|;
    Fly2At(b[..4 * m], small, med, ind);
    Fly2At(b[4 * m..], small, med, ind);
    assert QuadAt(b[..4 * m], ind, m) == QuadAt(b, ind, m);
  }

  /** A fused pass over whole blocks is two single passes. */
  lemma {:induction false} Layer2Head(b: seq<Row>, rest: seq<Row>, small: seq<Fe>, large: seq<Fe>)
    requires |small| > 0 && |b| == 4 * |small| && |large| == 2 * |small|
    ensures Layer(Layer(b + rest, small), large) == Fly2(b, small, large) + Layer(Layer(rest, small), large)
  {
    hide Fly, Layer;
    var m := |small|;
    var q0, q1, q2, q3 := b[..m], b[m..2 * m], b[2 * m..3 * m], b[3 * m..];
    assert b + rest == q0 + q1 + (q2 + q3 + rest);
    LayerHead(q0, q1, q2 + q3 + rest, small);
    LayerHead(q2, q3, rest, small);
    var x, y := Fly(q0, q1, small), Fly(q2, q3, small);
    assert x + (y + Layer(rest, small)) == x + y + Layer(rest, small);
    LayerHead(x, y, Layer(rest, small), large);
  }

  lemma {:induction false} Layer3Head(b: seq<Row>, rest: seq<Row>, small: seq<Fe>, med: seq<Fe>, large: seq<Fe>)
    requires |small| > 0 && |b| == 8 * |small| && |med| == 2 * |small| && |large| == 4 * |small|
    ensures Layer(Layer(Layer(b + rest, small), med), large)
         == Fly3(b, small, med, large) + Layer(Layer(Layer(rest, small), med), large)
  {
    hide Fly, Layer, Fly2;
    var m := |small|;
    var h, l := b[..4 * m], b[4 * m..];
    assert b + rest == h + (l + rest);
    Layer2Head(h, l + rest, small, med);
    Layer2Head(l, rest, small, med);
    var x, y, z := Fly2(h, small, med), Fly2(l, small, med), Layer(Layer(rest, small), med);
    assert x + (y + z) == x + y + z;
    LayerHead(x, y, z, large);
  }

  // ----- in-place passes

  /** EvalsButterfly::apply_to_rows. */
  method ApplyToRows(x: Row, y: Row, t: Fe) returns (hi: Row, lo: Row)
    requires |x| == |y|
    ensures hi == HiRow(x, y, t) && lo == LoRow(x, y, t)
  {
    hi, lo := [], [];
    for c := 0 to |x|
      invariant |hi| == c && |lo| == c
      invariant forall i | 0 <= i < c :: hi[i] == Hi(x[i], y[i], t) && lo[i] == Lo(x[i], y[i], t)
    {
      var d := Mul(Sub(y[c], x[c]), t);
      hi := hi + [Add(x[c], d)];
      lo := lo + [Sub(x[c], d)];
    }
  }

  /** TwiddleFreeEvalsButterfly::apply_to_rows: the butterfly with twiddle 1. */
  method ApplyToRowsTwiddleFree(x: Row, y: Row) returns (hi: Row, lo: Row)
    requires |x| == |y|
    ensures hi == HiRow(x, y, 1) && lo == LoRow(x, y, 1)
  {
    hi, lo := [], [];
    for c := 0 to |x|
      invariant |hi| == c && |lo| == c
      invariant forall i | 0 <= i < c :: hi[i] == Hi(x[i], y[i], 1) && lo[i] == Lo(x[i], y[i], 1)
    {
      TwiddleFree(x[c], y[c]);
      hi := hi + [y[c]];
      lo := lo + [Sub(Double(x[c]), y[c])];
    }
  }

  lemma TwiddleFree(x: Fe, y: Fe)
    ensures Hi(x, y, 1) == y && Lo(x, y, 1) == Sub(Double(x), y)
  {
    MulOne(Sub(y, x));
    LiftSelf(x);
    LiftSelf(y);
    LiftSub(y, x);
    LiftAdd(x, y - x);
    LiftSub(x, y - x);
    LiftAdd(x, x);
    LiftSub(x + x, y);
  }

  method Butterfly(mat: array<Row>, i: nat, j: nat, t: Fe)
    requires i < mat.Length && j < mat.Length && i != j
    requires |mat[i]| == |mat[j]|
    modifies mat
    ensures mat[i] == HiRow(old(mat[i]), old(mat[j]), t)
    ensures mat[j] == LoRow(old(mat[i]), old(mat[j]), t)
    ensures forall r | 0 <= r < mat.Length && r != i && r != j :: mat[r] == old(mat[r])
  {
    var hi, lo := ApplyToRows(mat[i], mat[j], t);
    mat[i], mat[j] := hi, lo;
  }

  /** The rows with the block from s on sent through one layer. */
  ghost function FlyAt(rows: seq<Row>, s: nat, tw: seq<Fe>): (r: seq<Row>)
    requires s + 2 * |tw| <= |rows|
    ensures |r| == |rows|
  {
    var a, b := s + |tw|, s + 2 * |tw|;
    rows[..s] + Fly(rows[s..a], rows[a..b], tw) + rows[b..]
  }

  lemma FlyOfRows(was: seq<Row>, now: seq<Row>, s: nat, tw: seq<Fe>)
    requires FlyDone(now, was, s, tw, |tw|)
    ensures now == FlyAt(was, s, tw)
  {
    hide HiRow, LoRow;
    var target := FlyAt(was, s, tw);
    forall r | 0 <= r < |now| ensures now[r] == target[r] {
    }
  }

  /** One block of a single layer; `free` selects the twiddle-free butterfly for row 0 (dft_layer). */
  method FlyBlock(mat: array<Row>, s: nat, tw: seq<Fe>, free: bool, ghost w: nat)
    requires |tw| > 0 && s + 2 * |tw| <= mat.Length && IsMatrix(mat[..], w)
    requires free ==> tw[0] == 1
    modifies mat
    ensures IsMatrix(mat[..], w)
    ensures mat[..] == FlyAt(old(mat[..]), s, tw)
  {
    hide HiRow, LoRow, HiRows, LoRows, Fly, FlyAt, FlyDone;
    var m := |tw|;
    ghost var was := mat[..];
    FlyDoneStart(was, s, tw);
    for j := 0 to m
      invariant IsMatrix(mat[..], w)
      invariant FlyDone(mat[..], was, s, tw, j)
    {
      ghost var before := mat[..];
      if free && j == 0 {
        var hi, lo := ApplyToRowsTwiddleFree(mat[s], mat[s + m]);
        mat[s], mat[s + m] := hi, lo;
      } else {
        Butterfly(mat, s + j, s + m + j, tw[j]);
      }
      FlyDoneStep(before, mat[..], was, s, tw, j);
    }
    FlyOfRows(was, mat[..], s, tw);
  }

  /** The first j butterflies of the block from s on are done. */
  ghost predicate FlyDone(now: seq<Row>, was: seq<Row>, s: nat, tw: seq<Fe>, j: nat) {
    && |was| == |now| && s + 2 * |tw| <= |was| && j <= |tw|
    && (forall r {:trigger now[r]} | s <= r < s + j :: now[r] == HiRow(was[r], was[r + |tw|], tw[r - s]))
    && (forall r {:trigger now[r]} | s + |tw| <= r < s + |tw| + j :: now[r] == LoRow(was[r - |tw|], was[r], tw[r - |tw| - s]))
    && (forall r {:trigger now[r]} | 0 <= r < |was| :: (r < s || s + j <= r < s + |tw| || s + |tw| + j <= r) ==> now[r] == was[r])
  }

  lemma FlyDoneStart(was: seq<Row>, s: nat, tw: seq<Fe>)
    requires s + 2 * |tw| <= |was|
    ensures FlyDone(was, was, s, tw, 0)
  {
  }

  lemma FlyDoneStep(before: seq<Row>, now: seq<Row>, was: seq<Row>, s: nat, tw: seq<Fe>, j: nat)
    requires FlyDone(before, was, s, tw, j) && j < |tw| && |now| == |before|
    requires now[s + j] == HiRow(before[s + j], before[s + |tw| + j], tw[j])
    requires now[s + |tw| + j] == LoRow(before[s + j], before[s + |tw| + j], tw[j])
    requires forall r {:trigger now[r]} | 0 <= r < |now| && r != s + j && r != s + |tw| + j :: now[r] == before[r]
    ensures FlyDone(now, was, s, tw, j + 1)
  {
    hide HiRow, LoRow;
  }

  lemma SplitSlice(v: seq<Row>, i: nat, j: nat, k: nat, l: nat)
    requires i <= j <= k <= l <= |v|
    ensures v[i..l] == v[i..j] + v[j..k] + v[k..l]
  {
  }

  lemma LayerStep(was: seq<Row>, s: nat, a: nat, b: nat, hi: nat, tw: seq<Fe>)
    requires s <= a <= b <= hi <= |was| && a - s == b - a == |tw| > 0
    ensures Layer(was[s..hi], tw) == Fly(was[s..a], was[a..b], tw) + Layer(was[b..hi], tw)
  {
    hide *;
    SplitSlice(was, s, a, b, hi);
    LayerOf(was[s..hi], was[s..a], was[a..b], was[b..hi], tw);
  }

  lemma LayerOf(rows: seq<Row>, l: seq<Row>, r: seq<Row>, rest: seq<Row>, tw: seq<Fe>)
    requires |tw| > 0 && |l| == |r| == |tw| && rows == l + r + rest
    ensures Layer(rows, tw) == Fly(l, r, tw) + Layer(rest, tw)
  {
    hide *;
    LayerHead(l, r, rest, tw);
  }

  /** The blocks of lo..s went through the layer, those of s..hi have not. */
  ghost predicate Passed(now: seq<Row>, was: seq<Row>, lo: nat, s: nat, hi: nat, tw: seq<Fe>)
    requires |tw| > 0
  {
    && lo <= s <= hi <= |was| == |now|
    && now[s..] == was[s..] && now[..s] + Layer(was[s..hi], tw) == was[..lo] + Layer(was[lo..hi], tw)
  }

  lemma PassedStep(before: seq<Row>, now: seq<Row>, was: seq<Row>, lo: nat, s: nat, e: nat, hi: nat, tw: seq<Fe>)
    requires |tw| > 0 && e == s + 2 * |tw| <= hi && Passed(before, was, lo, s, hi, tw) && now == FlyAt(before, s, tw)
    ensures Passed(now, was, lo, e, hi, tw)
  {
    hide Fly, Layer;
    var a := s + |tw|;
    LayerStep(was, s, a, e, hi, tw);
    ShiftTo(was, before, s, a, e);
    Append3(before, now, s, e, Fly(was[s..a], was[a..e], tw), Layer(was[e..hi], tw));
  }

  lemma Rejoin(now: seq<Row>, was: seq<Row>, s: nat, hi: nat)
    requires s <= hi <= |was| == |now| && now[s..] == was[s..]
    ensures now == now[..s] + was[s..hi] + was[hi..]
  {
    TailSlices(was, s, s, hi);
  }

  lemma PassedAll(now: seq<Row>, was: seq<Row>, lo: nat, s: nat, hi: nat, tw: seq<Fe>)
    requires |tw| > 0 && Passed(now, was, lo, s, hi, tw) && s + 2 * |tw| > hi
    ensures now == was[..lo] + Layer(was[lo..hi], tw) + was[hi..]
  {
    hide Fly, Layer;
    LayerRemainder(was[s..hi], tw);
    Rejoin(now, was, s, hi);
  }

  /** dft_layer and dft_layer_par on the rows lo..hi. */
  method DftLayer(mat: array<Row>, lo: nat, hi: nat, tw: seq<Fe>, free: bool, ghost w: nat)
    requires |tw| > 0 && lo <= hi <= mat.Length && IsMatrix(mat[..], w)
    requires free ==> tw[0] == 1
    modifies mat
    ensures IsMatrix(mat[..], w)
    ensures mat[..] == old(mat[..lo]) + Layer(old(mat[lo..hi]), tw) + old(mat[hi..])
  {
    hide Fly, FlyAt, Layer;
    ghost var was := mat[..];
    var s := lo;
    while s + 2 * |tw| <= hi
      invariant lo <= s <= hi
      invariant IsMatrix(mat[..], w)
      invariant Passed(mat[..], was, lo, s, hi, tw)
    {
      ghost var before := mat[..];
      FlyBlock(mat, s, tw, free, w);
      PassedStep(before, mat[..], was, lo, s, s + 2 * |tw|, hi, tw);
      s := s + 2 * |tw|;
    }
    PassedAll(mat[..], was, lo, s, hi, tw);
  }

  lemma LayerRemainder(rows: seq<Row>, tw: seq<Fe>)
    requires 0 < |tw| && |rows| < 2 * |tw|
    ensures Layer(rows, tw) == rows
  {
  }

  /** Replacing the rows s..e by f extends the finished prefix by f. */
  lemma Append3(before: seq<Row>, now: seq<Row>, s: nat, e: nat, f: seq<Row>, rest: seq<Row>)
    requires s <= e <= |before| && |f| == e - s
    requires now == before[..s] + f + before[e..]
    ensures now[..e] + rest == before[..s] + (f + rest)
    ensures now[e..] == before[e..]
  {
    assert now[..e] == before[..s] + f;
  }

  /** MyMultiLayerButterfly::apply_2_layers on the rows a, a + m, a + 2m, a + 3m. */
  method Apply2Layers(mat: array<Row>, a: nat, m: nat, small: Fe, large0: Fe, large1: Fe, ghost w: nat)
    requires m > 0 && a + 3 * m < mat.Length && IsMatrix(mat[..], w)
    modifies mat
    ensures IsMatrix(mat[..], w)
    ensures QuadAt(mat[..], a, m) == Two(QuadAt(old(mat[..]), a, m), small, large0, large1)
    ensures forall r {:trigger mat[r]} | 0 <= r < mat.Length && r != a && r != a + m && r != a + 2 * m && r != a + 3 * m :: mat[r] == old(mat[r])
  {
    hide HiRow, LoRow;
    Butterfly(mat, a, a + m, small);
    Butterfly(mat, a + 2 * m, a + 3 * m, small);
    Butterfly(mat, a, a + 2 * m, large0);
    Butterfly(mat, a + m, a + 3 * m, large1);
  }

  /** MyMultiLayerButterfly::apply_3_layers on the rows a, a + m, ..., a + 7m. */
  method Apply3Layers(mat: array<Row>, a: nat, m: nat, small: Fe, med0: Fe, med1: Fe,
                      l0: Fe, l1: Fe, l2: Fe, l3: Fe, ghost w: nat)
    requires m > 0 && a + 7 * m < mat.Length && IsMatrix(mat[..], w)
    modifies mat
    ensures IsMatrix(mat[..], w)
    ensures Oct(QuadAt(mat[..], a, m), QuadAt(mat[..], a + 4 * m, m))
         == Three(Oct(QuadAt(old(mat[..]), a, m), QuadAt(old(mat[..]), a + 4 * m, m)), small, med0, med1, l0, l1, l2, l3)
    ensures forall r {:trigger mat[r]} | 0 <= r < mat.Length && r != a && r != a + m && r != a + 2 * m && r != a + 3 * m
                 && r != a + 4 * m && r != a + 5 * m && r != a + 6 * m && r != a + 7 * m :: mat[r] == old(mat[r])
  {
    hide HiRow, LoRow, Two;
    Apply2Layers(mat, a, m, small, med0, med1, w);
    Apply2Layers(mat, a + 4 * m, m, small, med0, med1, w);
    Butterfly(mat, a, a + 4 * m, l0);
    Butterfly(mat, a + m, a + 5 * m, l1);
    Butterfly(mat, a + 2 * m, a + 6 * m, l2);
    Butterfly(mat, a + 3 * m, a + 7 * m, l3);
  }

  /** The first `ind` rows of the part lo..lo + m hold their final value, the others their old one. */
  ghost predicate PartDone(now: seq<Row>, was: seq<Row>, target: seq<Row>, lo: nat, m: nat, ind: nat)
    requires |now| == |was| == |target| && lo + m <= |was| && ind <= m
  {
    && (forall r {:trigger now[r]} | lo <= r < lo + ind :: now[r] == target[r])
    && (forall r {:trigger now[r]} | lo + ind <= r < lo + m :: now[r] == was[r])
  }

  lemma PartStep(before: seq<Row>, now: seq<Row>, was: seq<Row>, target: seq<Row>, lo: nat, m: nat, ind: nat)
    requires |now| == |before| == |was| == |target| && lo + m <= |was| && ind < m
    requires PartDone(before, was, target, lo, m, ind)
    requires now[lo + ind] == target[lo + ind]
    requires forall r {:trigger now[r]} | lo <= r < lo + m && r != lo + ind :: now[r] == before[r]
    ensures PartDone(now, was, target, lo, m, ind + 1)
  {
  }

  ghost predicate Parts4(now: seq<Row>, was: seq<Row>, target: seq<Row>, s: nat, m: nat, ind: nat) {
    && |now| == |was| == |target| && s + 4 * m <= |was| && ind <= m
    && PartDone(now, was, target, s, m, ind) && PartDone(now, was, target, s + m, m, ind)
    && PartDone(now, was, target, s + 2 * m, m, ind) && PartDone(now, was, target, s + 3 * m, m, ind)
  }

  lemma Parts4Start(was: seq<Row>, target: seq<Row>, s: nat, m: nat)
    requires |was| == |target| && s + 4 * m <= |was|
    ensures Parts4(was, was, target, s, m, 0)
  {
  }

  lemma Parts4Untouched(now: seq<Row>, was: seq<Row>, target: seq<Row>, s: nat, m: nat, ind: nat)
    requires Parts4(now, was, target, s, m, ind) && ind < m
    ensures QuadAt(now, s + ind, m) == QuadAt(was, s + ind, m)
  {
    assert now[s + ind] == was[s + ind];
    assert now[s + m + ind] == was[s + m + ind];
    assert now[s + 2 * m + ind] == was[s + 2 * m + ind];
    assert now[s + 3 * m + ind] == was[s + 3 * m + ind];
  }

  lemma Parts4Step(before: seq<Row>, now: seq<Row>, was: seq<Row>, target: seq<Row>, s: nat, m: nat, ind: nat)
    requires Parts4(before, was, target, s, m, ind) && ind < m && |now| == |before|
    requires QuadAt(now, s + ind, m) == QuadAt(target, s + ind, m)
    requires forall r {:trigger now[r]} | s <= r < s + 4 * m && r != s + ind && r != s + ind + m && r != s + ind + 2 * m && r != s + ind + 3 * m ::
               now[r] == before[r]
    ensures Parts4(now, was, target, s, m, ind + 1)
  {
    hide PartDone;
    PartStep(before, now, was, target, s, m, ind);
    PartStep(before, now, was, target, s + m, m, ind);
    PartStep(before, now, was, target, s + 2 * m, m, ind);
    PartStep(before, now, was, target, s + 3 * m, m, ind);
  }

  lemma Parts4Done(now: seq<Row>, was: seq<Row>, target: seq<Row>, s: nat, m: nat)
    requires Parts4(now, was, target, s, m, m)
    ensures now[s..s + 4 * m] == target[s..s + 4 * m]
  {
    forall r | s <= r < s + 4 * m
      ensures now[r] == target[r]
    {
    }
  }

  /** The rows of a block placed after `pre`. */
  lemma QuadInBlock(pre: seq<Row>, block: seq<Row>, post: seq<Row>, ind: nat, m: nat)
    requires ind + 3 * m < |block|
    ensures QuadAt(pre + block + post, |pre| + ind, m) == QuadAt(block, ind, m)
  {
  }

  lemma OctInBlock(pre: seq<Row>, block: seq<Row>, post: seq<Row>, ind: nat, m: nat)
    requires ind + 7 * m < |block|
    ensures QuadAt(pre + block + post, |pre| + ind, m) == OctAt(block, ind, m).hi
    ensures QuadAt(pre + block + post, |pre| + ind + 4 * m, m) == OctAt(block, ind, m).lo
  {
  }

  /** dft_layer_par_double on one block. */
  method DoubleBlock(mat: array<Row>, s: nat, small: seq<Fe>, large: seq<Fe>, ghost w: nat)
    requires |small| > 0 && |large| == 2 * |small| && s + 4 * |small| <= mat.Length && IsMatrix(mat[..], w)
    modifies mat
    ensures IsMatrix(mat[..], w)
    ensures mat[..] == old(mat[..s]) + Fly2(old(mat[s..s + 4 * |small|]), small, large) + old(mat[s + 4 * |small|..])
  {
    hide Two, Fly2, QuadAt, Parts4, HiRow, LoRow;
    var m := |small|;
    ghost var was := mat[..];
    ghost var pre, block, post := was[..s], was[s..s + 4 * m], was[s + 4 * m..];
    ghost var done := Fly2(block, small, large);
    ghost var target := pre + done + post;
    assert was == pre + block + post;
    Parts4Start(was, target, s, m);
    for ind := 0 to m
      invariant IsMatrix(mat[..], w)
      invariant Parts4(mat[..], was, target, s, m, ind)
      invariant mat[..s] == pre && mat[s + 4 * m..] == post
    {
      ghost var before := mat[..];
      Parts4Untouched(before, was, target, s, m, ind);
      QuadInBlock(pre, block, post, ind, m);
      Fly2At(block, small, large, ind);
      QuadInBlock(pre, done, post, ind, m);
      Apply2Layers(mat, s + ind, m, small[ind], large[ind], large[ind + m], w);
      Parts4Step(before, mat[..], was, target, s, m, ind);
    }
    Parts4Done(mat[..], was, target, s, m);
    assert mat[..] == mat[..s] + mat[s..s + 4 * m] + mat[s + 4 * m..];
    assert target[s..s + 4 * m] == done;
  }

  /** Step `ind` of dft_layer_par_triple: eight rows of the block placed after `pre`. */
  method TripleRows(mat: array<Row>, s: nat, ind: nat, small: seq<Fe>, med: seq<Fe>, large: seq<Fe>,
                    ghost pre: seq<Row>, ghost block: seq<Row>, ghost post: seq<Row>, ghost w: nat)
    requires ind < |small| && |med| == 2 * |small| && |large| == 4 * |small| && |block| == 8 * |small|
    requires |pre| == s && |pre| + |block| + |post| == mat.Length && IsMatrix(mat[..], w)
    requires Parts4(mat[..], pre + block + post, pre + Fly3(block, small, med, large) + post, s, |small|, ind)
    requires Parts4(mat[..], pre + block + post, pre + Fly3(block, small, med, large) + post, s + 4 * |small|, |small|, ind)
    modifies mat
    ensures IsMatrix(mat[..], w)
    ensures Parts4(mat[..], pre + block + post, pre + Fly3(block, small, med, large) + post, s, |small|, ind + 1)
    ensures Parts4(mat[..], pre + block + post, pre + Fly3(block, small, med, large) + post, s + 4 * |small|, |small|, ind + 1)
    ensures mat[..s] == old(mat[..s]) && mat[s + 8 * |small|..] == old(mat[s + 8 * |small|..])
  {
    hide Two, Three, Fly3, QuadAt, Parts4, HiRow, LoRow;
    var m := |small|;
    ghost var before := mat[..];
    ghost var was, target := pre + block + post, pre + Fly3(block, small, med, large) + post;
    Parts4Untouched(before, was, target, s, m, ind);
    Parts4Untouched(before, was, target, s + 4 * m, m, ind);
    OctInBlock(pre, block, post, ind, m);
    Fly3At(block, small, med, large, ind);
    OctInBlock(pre, Fly3(block, small, med, large), post, ind, m);
    Apply3Layers(mat, s + ind, m, small[ind], med[ind], med[ind + m],
                 large[ind], large[ind + m], large[ind + 2 * m], large[ind + 3 * m], w);
    Parts4Step(before, mat[..], was, target, s, m, ind);
    Parts4Step(before, mat[..], was, target, s + 4 * m, m, ind);
  }

  /** dft_layer_par_triple on one block. */
  method TripleBlock(mat: array<Row>, s: nat, small: seq<Fe>, med: seq<Fe>, large: seq<Fe>, ghost w: nat)
    requires |small| > 0 && |med| == 2 * |small| && |large| == 4 * |small|
    requires s + 8 * |small| <= mat.Length && IsMatrix(mat[..], w)
    modifies mat
    ensures IsMatrix(mat[..], w)
    ensures mat[..] == old(mat[..s]) + Fly3(old(mat[s..s + 8 * |small|]), small, med, large) + old(mat[s + 8 * |small|..])
  {
    hide Fly3, Parts4;
    var m := |small|;
    ghost var was := mat[..];
    ghost var pre, block, post := was[..s], was[s..s + 8 * m], was[s + 8 * m..];
    ghost var done := Fly3(block, small, med, large);
    ghost var target := pre + done + post;
    assert was == pre + block + post;
    Parts4Start(was, target, s, m);
    Parts4Start(was, target, s + 4 * m, m);
    for ind := 0 to m
      invariant IsMatrix(mat[..], w)
      invariant Parts4(mat[..], was, target, s, m, ind) && Parts4(mat[..], was, target, s + 4 * m, m, ind)
      invariant mat[..s] == pre && mat[s + 8 * m..] == post
    {
      TripleRows(mat, s, ind, small, med, large, pre, block, post, w);
    }
    TripleDone(mat[..], was, pre, done, post, s, m);
  }

  lemma TripleDone(now: seq<Row>, was: seq<Row>, pre: seq<Row>, done: seq<Row>, post: seq<Row>, s: nat, m: nat)
    requires |pre| == s && |done| == 8 * m && |now| == |pre| + |done| + |post|
    requires Parts4(now, was, pre + done + post, s, m, m) && Parts4(now, was, pre + done + post, s + 4 * m, m, m)
    requires now[..s] == pre && now[s + 8 * m..] == post
    ensures now == pre + done + post
  {
    hide Parts4;
    var target := pre + done + post;
    Parts4Done(now, was, target, s, m);
    Parts4Done(now, was, target, s + 4 * m, m);
    InnerSlice(pre, done, post, target);
    Reassemble(now, target, s, s + 4 * m, s + 8 * m);
  }

  lemma Reassemble(now: seq<Row>, target: seq<Row>, s: nat, a: nat, b: nat)
    requires |now| == |target| && s <= a <= b <= |now|
    requires now[..s] == target[..s] && now[b..] == target[b..] && now[s..a] == target[s..a] && now[a..b] == target[a..b]
    ensures now == target
  {
    FourSlices(now, s, a, b);
    FourSlices(target, s, a, b);
  }

  lemma FourSlices(v: seq<Row>, s: nat, a: nat, b: nat)
    requires s <= a <= b <= |v|
    ensures v == v[..s] + v[s..a] + v[a..b] + v[b..]
  {
  }

  // ----- passes over the whole matrix

  lemma Layer2Rest(was: seq<Row>, s: nat, small: seq<Fe>, large: seq<Fe>)
    requires |small| > 0 && |large| == 2 * |small| && s + 4 * |small| <= |was|
    ensures Layer(Layer(was[s..], small), large)
         == Fly2(was[s..s + 4 * |small|], small, large) + Layer(Layer(was[s + 4 * |small|..], small), large)
  {
    hide Layer, Fly2;
    var e := s + 4 * |small|;
    assert was[s..] == was[s..e] + was[e..];
    Layer2Head(was[s..e], was[e..], small, large);
  }

  lemma Layer3Rest(was: seq<Row>, s: nat, small: seq<Fe>, med: seq<Fe>, large: seq<Fe>)
    requires |small| > 0 && |med| == 2 * |small| && |large| == 4 * |small| && s + 8 * |small| <= |was|
    ensures Layer(Layer(Layer(was[s..], small), med), large)
         == Fly3(was[s..s + 8 * |small|], small, med, large) + Layer(Layer(Layer(was[s + 8 * |small|..], small), med), large)
  {
    hide Layer, Fly3;
    var e := s + 8 * |small|;
    assert was[s..] == was[s..e] + was[e..];
    Layer3Head(was[s..e], was[e..], small, med, large);
  }

  lemma ShiftTo(was: seq<Row>, before: seq<Row>, s: nat, a: nat, e: nat)
    requires s <= a <= e <= |was| == |before| && before[s..] == was[s..]
    ensures before[s..a] == was[s..a] && before[a..e] == was[a..e] && before[e..] == was[e..]
  {
    TailSlices(before, s, a, e);
    TailSlices(was, s, a, e);
  }

  lemma TailSlices(v: seq<Row>, s: nat, a: nat, e: nat)
    requires s <= a <= e <= |v|
    ensures v[s..a] == v[s..][..a - s] && v[a..e] == v[s..][a - s..e - s] && v[e..] == v[s..][e - s..]
    ensures v[s..] == v[s..e] + v[e..]
  {
  }

  /** dft_layer_par_double: two layers in one pass over the matrix. */
  method DftLayerParDouble(mat: array<Row>, small: seq<Fe>, large: seq<Fe>, ghost w: nat, ghost q: nat)
    requires |small| > 0 && |large| == 2 * |small|
    requires IsMultiple(mat.Length, 4 * |small|, q) && IsMatrix(mat[..], w)
    modifies mat
    ensures IsMatrix(mat[..], w)
    ensures mat[..] == Layer(Layer(old(mat[..]), small), large)
  {
    hide Layer, Fly2, IsMultiple;
    var m := |small|;
    ghost var was := mat[..];
    var s := 0;
    ghost var left := q;
    while s < mat.Length
      invariant s <= mat.Length && IsMultiple(mat.Length - s, 4 * m, left)
      invariant IsMatrix(mat[..], w)
      invariant mat[s..] == was[s..]
      invariant mat[..s] + Layer(Layer(was[s..], small), large) == Layer(Layer(was, small), large)
      decreases mat.Length - s
    {
      ghost var before := mat[..];
      OneFewer(mat.Length - s, 4 * m, left);
      DoubleBlock(mat, s, small, large, w);
      ShiftTo(was, before, s, s, s + 4 * m);
      Layer2Rest(was, s, small, large);
      Append3(before, mat[..], s, s + 4 * m, Fly2(was[s..s + 4 * m], small, large), Layer(Layer(was[s + 4 * m..], small), large));
      s := s + 4 * m;
      left := left - 1;
    }
    LayerRemainder([], small);
    LayerRemainder([], large);
  }

  /** dft_layer_par_triple: three layers in one pass over the matrix. */
  method DftLayerParTriple(mat: array<Row>, small: seq<Fe>, med: seq<Fe>, large: seq<Fe>, ghost w: nat, ghost q: nat)
    requires |small| > 0 && |med| == 2 * |small| && |large| == 4 * |small|
    requires IsMultiple(mat.Length, 8 * |small|, q) && IsMatrix(mat[..], w)
    modifies mat
    ensures IsMatrix(mat[..], w)
    ensures mat[..] == Layer(Layer(Layer(old(mat[..]), small), med), large)
  {
    hide Layer, Fly3, IsMultiple;
    var m := |small|;
    ghost var was := mat[..];
    var s := 0;
    ghost var left := q;
    while s < mat.Length
      invariant s <= mat.Length && IsMultiple(mat.Length - s, 8 * m, left)
      invariant IsMatrix(mat[..], w)
      invariant mat[s..] == was[s..]
      invariant mat[..s] + Layer(Layer(Layer(was[s..], small), med), large) == Layer(Layer(Layer(was, small), med), large)
      decreases mat.Length - s
    {
      ghost var before := mat[..];
      OneFewer(mat.Length - s, 8 * m, left);
      TripleBlock(mat, s, small, med, large, w);
      ShiftTo(was, before, s, s, s + 8 * m);
      Layer3Rest(was, s, small, med, large);
      Append3(before, mat[..], s, s + 8 * m, Fly3(was[s..s + 8 * m], small, med, large),
              Layer(Layer(Layer(was[s + 8 * m..], small), med), large));
      s := s + 8 * m;
      left := left - 1;
    }
    LayerRemainder([], small);
    LayerRemainder([], med);
    LayerRemainder([], large);
  }

  /** initial_layers: all layers of one chunk of 2^k rows; `table` lists the largest layer first. */
  method InitialLayers(mat: array<Row>, lo: nat, table: seq<seq<Fe>>, k: nat, ghost w: nat)
    requires k <= TWO_ADICITY && lo + Pow2(k) <= mat.Length && IsMatrix(mat[..], w)
    requires |table| == k && forall i {:trigger table[i]} | 0 <= i < k :: table[i] == Twiddles(k - i)
    modifies mat
    ensures IsMatrix(mat[..], w)
    ensures mat[..] == old(mat[..lo]) + Dft(old(mat[lo..lo + Pow2(k)]), k) + old(mat[lo + Pow2(k)..])
  {
    hide Dft, Layer, Blocks;
    var hi := lo + Pow2(k);
    ghost var pre, chunk, post := mat[..lo], mat[lo..hi], mat[hi..];
    assert mat[..] == pre + chunk + post;
    BlocksOfOne(chunk);
    for l := 0 to k
      invariant IsMatrix(mat[..], w)
      invariant mat[..] == pre + Blocks(chunk, l) + post
    {
      ghost var q := Pow2(k - l - 1);
      NextLayer(chunk, k, l, q);
      InnerSlice(pre, Blocks(chunk, l), post, mat[..]);
      assert table[k - 1 - l] == Twiddles(l + 1);
      DftLayer(mat, lo, hi, table[k - 1 - l], true, w);
    }
    BlocksOfAll(chunk, k);
  }

  lemma InnerSlice(pre: seq<Row>, mid: seq<Row>, post: seq<Row>, all: seq<Row>)
    requires all == pre + mid + post
    ensures all[..|pre|] == pre && all[|pre|..|pre| + |mid|] == mid && all[|pre| + |mid|..] == post
  {
  }

  /** On a matrix of 2^k rows every layer below the k-th joins whole blocks. */
  lemma NextLayer(rows: seq<Row>, k: nat, l: nat, q: nat)
    requires l < k <= TWO_ADICITY && q == Pow2(k - l - 1) && |rows| == Pow2(k)
    ensures Layer(Blocks(rows, l), Twiddles(l + 1)) == Blocks(rows, l + 1)
    ensures |rows| == q * (2 * Pow2(l))
  {
    hide Layer, Blocks, Twiddles;
    Pow2Add(k - l - 1, l + 1);
    LayerJoinsBlocks(rows, l, Pow2(l), q);
  }

  /** par_initial_layers: every chunk of 2^k rows goes through its k smallest layers. */
  method ParInitialLayers(mat: array<Row>, table: seq<seq<Fe>>, k: nat, ghost w: nat, ghost q: nat)
    requires k <= TWO_ADICITY && IsMultiple(mat.Length, Pow2(k), q) && IsMatrix(mat[..], w)
    requires |table| == k && forall i {:trigger table[i]} | 0 <= i < k :: table[i] == Twiddles(k - i)
    modifies mat
    ensures IsMatrix(mat[..], w)
    ensures mat[..] == Blocks(old(mat[..]), k)
  {
    hide Dft, Blocks, IsMultiple;
    ghost var was := mat[..];
    var s := 0;
    var size := Pow2(k);
    ghost var left := q;
    while s < mat.Length
      invariant s <= mat.Length && IsMultiple(mat.Length - s, size, left)
      invariant IsMatrix(mat[..], w)
      invariant mat[s..] == was[s..]
      invariant mat[..s] + Blocks(was[s..], k) == Blocks(was, k)
      decreases mat.Length - s
    {
      ghost var before := mat[..];
      OneFewer(mat.Length - s, size, left);
      InitialLayers(mat, s, table, k, w);
      ShiftTo(was, before, s, s, s + size);
      BlocksRest(was, s, k, size);
      Append3(before, mat[..], s, s + size, Dft(was[s..s + size], k), Blocks(was[s + size..], k));
      s := s + size;
      left := left - 1;
    }
    NoBlocksLeft(k);
  }

  lemma NoBlocksLeft(k: nat)
    requires k <= TWO_ADICITY
    ensures Blocks([], k) == []
  {
  }

  lemma BlocksRest(was: seq<Row>, s: nat, k: nat, size: nat)
    requires k <= TWO_ADICITY && size == Pow2(k) && s + size <= |was|
    ensures Blocks(was[s..], k) == Dft(was[s..s + size], k) + Blocks(was[s + size..], k)
  {
    hide Dft;
    var rows := was[s..];
    assert rows[..size] == was[s..s + size];
    assert rows[size..] == was[s + size..];
  }

  /** dft_layer_par_extra_layers: zero, one or two layers; `table` lists the larger layer first. */
  method ExtraLayers(mat: array<Row>, table: seq<seq<Fe>>, ghost n: nat, ghost l: nat, ghost w: nat, ghost was: seq<Row>)
    requires n <= TWO_ADICITY && mat.Length == Pow2(n) == |was| && IsMatrix(mat[..], w)
    requires |table| <= 2 && l + |table| <= n
    requires forall i {:trigger table[i]} | 0 <= i < |table| :: table[i] == Twiddles(l + |table| - i)
    requires mat[..] == Blocks(was, l)
    modifies mat
    ensures IsMatrix(mat[..], w)
    ensures mat[..] == Blocks(was, l + |table|)
  {
    hide Layer, Blocks, IsMultiple;
    match |table| {
      case 0 =>
      case 1 =>
        NextLayer(was, n, l, Pow2(n - l - 1));
        DftLayer(mat, 0, mat.Length, table[0], false, w);
        assert Blocks(was, l)[0..mat.Length] == Blocks(was, l);
        assert mat[..] == [] + Layer(Blocks(was, l), Twiddles(l + 1)) + [];
      case _ =>
        NextLayer(was, n, l, Pow2(n - l - 1));
        NextLayer(was, n, l + 1, Pow2(n - l - 2));
        WholeBlocks(n, l + 2, 4, Pow2(l));
        DftLayerParDouble(mat, table[1], table[0], w, Pow2(n - l - 2));
    }
  }

  /** 2^n rows are 2^(n-e) blocks of 2^e rows, written as c * m. */
  lemma WholeBlocks(n: nat, e: nat, c: nat, m: nat)
    requires e <= n && c * m == Pow2(e)
    ensures IsMultiple(Pow2(n), c * m, Pow2(n - e))
  {
    Pow2Add(n - e, e);
  }

  /** estimate_num_rows_in_l1: the least power of two that reaches workload / width, at most the height. */
  method EstimateNumRowsInL1(workload: nat, height: nat, width: nat, ghost n: nat) returns (r: nat, ghost k: nat)
    requires width > 0 && height == Pow2(n)
    ensures k <= n && r == Pow2(k)
    ensures r <= height && (r == height || workload / width <= r) && (r == 1 || r < 2 * (workload / width))
  {
    var target := workload / width;
    r, k := 1, 0;
    while r < target && r < height
      invariant k <= n && r == Pow2(k) && r <= height && (r == 1 || r < 2 * target)
      decreases height - r
    {
      assert k < n by { Pow2Monotone(n, k); }
      Pow2Monotone(k + 1, n);
      r := 2 * r;
      k := k + 1;
    }
  }

  // ----- the cached transform

  class EvalsDft {
    /** Entry i holds the twiddles of the i-th largest layer. */
    var twiddles: seq<seq<Fe>>

    ghost predicate Valid()
      reads this
    {
      && |twiddles| <= TWO_ADICITY
      && forall i {:trigger twiddles[i]} | 0 <= i < |twiddles| :: twiddles[i] == Twiddles(|twiddles| - i)
    }

    constructor ()
      ensures Valid() && twiddles == []
    {
      twiddles := [];
    }

    /** roots_of_unity_table for n = 2^lg: strided copies of one list of powers. */
    static method RootsOfUnityTable(lg: nat) returns (table: seq<seq<Fe>>)
      requires 0 < lg <= TWO_ADICITY
      ensures |table| == lg
      ensures forall i {:trigger table[i]} | 0 <= i < lg :: table[i] == Twiddles(lg - i)
    {
      var g := TwoAdicGenerator(lg);
      var half := Pow2(lg - 1);
      var roots: seq<Fe> := [];
      var cur: Fe := 1;
      for j := 0 to half
        invariant |roots| == j && cur == Pow(g, j)
        invariant forall i | 0 <= i < j :: roots[i] == Pow(g, i)
      {
        roots := roots + [cur];
        cur := Mul(g, cur);
      }
      table := [];
      for i := 0 to lg
        invariant |table| == i
        invariant forall l {:trigger table[l]} | 0 <= l < i :: table[l] == Twiddles(lg - l)
      {
        Pow2Add(i, lg - 1 - i);
        var row := StepBy(roots, Pow2(i), Pow2(lg - 1 - i));
        forall j | 0 <= j < |row|
          ensures row[j] == Twiddles(lg - i)[j]
        {
          GeneratorPower(lg, i);
          PowMul(g, Pow2(i), j);
        }
        assert row == Twiddles(lg - i);
        table := table + [row];
      }
    }

    /** Every step-th element, `count` of them. */
    static method StepBy(v: seq<Fe>, step: nat, ghost count: nat) returns (r: seq<Fe>)
      requires step > 0 && |v| == step * count
      ensures |r| == count
      ensures forall j {:trigger r[j]} | 0 <= j < count :: 0 <= step * j < |v| && r[j] == v[step * j]
    {
      r := [];
      var at := 0;
      while at < |v|
        invariant |r| <= count && at == step * |r|
        invariant forall j {:trigger r[j]} | 0 <= j < |r| :: 0 <= step * j < |v| && r[j] == v[step * j]
        decreases |v| - at
      {
        MulOrder(step, |r|, count);
        r := r + [v[at]];
        at := at + step;
      }
      MulOrder(step, |r|, count);
    }

    /** update_twiddles: the table only ever grows. */
    method UpdateTwiddles(fftLen: nat, ghost n: nat)
      requires Valid() && fftLen == Pow2(n) && n <= TWO_ADICITY
      modifies this
      ensures Valid()
      ensures |twiddles| == if n > |old(twiddles)| then n else |old(twiddles)|
      ensures n <= |old(twiddles)| ==> twiddles == old(twiddles)
    {
      Pow2Monotone(|twiddles|, n);
      Pow2Monotone(n, |twiddles|);
      if fftLen > Pow2(|twiddles|) {
        var lg := Log2Strict(fftLen);
        Pow2Monotone(lg, n);
        Pow2Monotone(n, lg);
        twiddles := RootsOfUnityTable(lg);
      }
    }

    /**
     dft_batch_by_evals.  `workload` stands for the L1 cache size in field elements; it only
     moves the boundary between chunked and fused layers.
     */
    method DftBatchByEvals(mat: array<Row>, w: nat, workload: nat, ghost n: nat)
      requires Valid() && n <= TWO_ADICITY && mat.Length == Pow2(n)
      requires w > 0 && IsMatrix(mat[..], w)
      modifies this, mat
      ensures Valid() && IsMatrix(mat[..], w)
      ensures mat[..] == Dft(old(mat[..]), n)
      ensures forall i, c | 0 <= i < mat.Length && 0 <= c < w ::
                mat[i][c] == Mle(Column(old(mat[..]), c), Expand(Pow(TwoAdicGenerator(n), i), n))
    {
      hide Dft, Layer, Blocks, IsMultiple, Twiddles;
      ghost var was := mat[..];
      var logH := Log2Strict(mat.Length);
      Pow2Monotone(logH, n);
      Pow2Monotone(n, logH);
      UpdateTwiddles(mat.Length, n);
      var rootTable := twiddles[|twiddles| - logH..];
      TableSlice(twiddles, rootTable, logH, 0);
      var numParRows, parLayers := EstimateNumRowsInL1(workload, mat.Length, w, n);
      var k := Log2Strict(numParRows);
      Pow2Monotone(k, parLayers);
      Pow2Monotone(parLayers, k);
      AllLayers(mat, rootTable, logH, k, w);
      forall i, c | 0 <= i < mat.Length && 0 <= c < w
        ensures mat[i][c] == Mle(Column(was, c), Expand(Pow(TwoAdicGenerator(n), i), n))
      {
        DftEvaluates(was, n, w, i, c);
      }
    }
  }

  /** The tables of the layers lo + 1 to hi are a slice of any larger table. */
  lemma TableSlice(table: seq<seq<Fe>>, slice: seq<seq<Fe>>, hi: nat, lo: nat)
    requires lo <= hi <= |table| <= TWO_ADICITY && slice == table[|table| - hi..|table| - lo]
    requires forall i {:trigger table[i]} | 0 <= i < |table| :: table[i] == Twiddles(|table| - i)
    ensures forall i {:trigger slice[i]} | 0 <= i < |slice| :: slice[i] == Twiddles(hi - i)
  {
    hide Twiddles;
    forall i {:trigger slice[i]} | 0 <= i < |slice|
      ensures slice[i] == Twiddles(hi - i)
    {
      assert slice[i] == table[|table| - hi + i];
    }
  }

  /** The body of dft_batch_by_evals: k chunked layers, 0 to 2 extra ones, then triples. */
  method AllLayers(mat: array<Row>, rootTable: seq<seq<Fe>>, n: nat, k: nat, ghost w: nat)
    requires k <= n <= TWO_ADICITY && mat.Length == Pow2(n) && IsMatrix(mat[..], w)
    requires |rootTable| == n && forall i {:trigger rootTable[i]} | 0 <= i < n :: rootTable[i] == Twiddles(n - i)
    modifies mat
    ensures IsMatrix(mat[..], w)
    ensures mat[..] == Dft(old(mat[..]), n)
  {
    hide Dft, Layer, Blocks, IsMultiple, Twiddles;
    ghost var was := mat[..];
    WholeBlocks(n, k, 1, Pow2(k));
    var initial := rootTable[n - k..];
    TableSlice(rootTable, initial, k, 0);
    ParInitialLayers(mat, initial, k, w, Pow2(n - k));
    var corr, groups := ExtraLayerCount(n - k);
    var extra := rootTable[n - k - corr..n - k];
    TableSlice(rootTable, extra, k + corr, k);
    ExtraLayers(mat, extra, n, k, w, was);
    GroupedLayers(mat, rootTable, n, k + corr, w, was, groups);
    BlocksOfAll(was, n);
  }

  /** The remaining layers, three at a time. */
  method GroupedLayers(mat: array<Row>, rootTable: seq<seq<Fe>>, n: nat, start: nat, ghost w: nat, ghost was: seq<Row>, ghost groups: nat)
    requires start + LAYERS_PER_GROUP * groups == n <= TWO_ADICITY && mat.Length == Pow2(n) == |was| && IsMatrix(mat[..], w)
    requires |rootTable| == n && forall i {:trigger rootTable[i]} | 0 <= i < n :: rootTable[i] == Twiddles(n - i)
    requires mat[..] == Blocks(was, start)
    modifies mat
    ensures IsMatrix(mat[..], w)
    ensures mat[..] == Blocks(was, n)
  {
    hide Blocks, Twiddles;
    var l := start;
    ghost var left := groups;
    while l < n
      invariant l <= n && n - l == LAYERS_PER_GROUP * left
      invariant IsMatrix(mat[..], w)
      invariant mat[..] == Blocks(was, l)
    {
      TripleLayers(mat, rootTable, n, l, w, was);
      l := l + LAYERS_PER_GROUP;
      left := left - 1;
    }
  }

  /** num_layers % LAYERS_PER_GROUP. */
  method ExtraLayerCount(d: nat) returns (corr: nat, ghost groups: nat)
    ensures d == LAYERS_PER_GROUP * groups + corr && corr <= 2
  {
    corr, groups := d % LAYERS_PER_GROUP, d / LAYERS_PER_GROUP;
  }

  method TripleLayers(mat: array<Row>, rootTable: seq<seq<Fe>>, n: nat, l: nat, ghost w: nat, ghost was: seq<Row>)
    requires l + 3 <= n <= TWO_ADICITY && mat.Length == Pow2(n) == |was| && IsMatrix(mat[..], w)
    requires |rootTable| == n && forall i {:trigger rootTable[i]} | 0 <= i < n :: rootTable[i] == Twiddles(n - i)
    requires mat[..] == Blocks(was, l)
    modifies mat
    ensures IsMatrix(mat[..], w)
    ensures mat[..] == Blocks(was, l + 3)
  {
    hide Layer, Blocks, IsMultiple;
    NextLayer(was, n, l, Pow2(n - l - 1));
    NextLayer(was, n, l + 1, Pow2(n - l - 2));
    NextLayer(was, n, l + 2, Pow2(n - l - 3));
    WholeBlocks(n, l + 3, 8, Pow2(l));
    DftLayerParTriple(mat, rootTable[n - 1 - l], rootTable[n - 2 - l], rootTable[n - 3 - l], w, Pow2(n - l - 3));
  }

  lemma MulOrder(step: nat, a: nat, b: nat)
    requires step > 0
    ensures step * a < step * b <==> a < b
    ensures step * (a + 1) == step * a + step
  {
    if a < b {
      assert step * b == step * a + step * (b - a);
    } else {
      assert step * a == step * b + step * (a - b);
    }
  }

  lemma {:induction false} GeneratorPower(lg: nat, i: nat)
    requires i <= lg <= TWO_ADICITY
    ensures Pow(TwoAdicGenerator(lg), Pow2(i)) == TwoAdicGenerator(lg - i)
  {
    var g := TwoAdicGenerator(lg);
    if i == 0 {
      assert Pow(g, 1) == Mul(g, Pow(g, 0));
      MulOne(g);
    } else {
      GeneratorPower(lg, i - 1);
      var h := TwoAdicGenerator(lg - i + 1);
      PowAdd(g, Pow2(i - 1), Pow2(i - 1));
      GeneratorSquare(lg - i);
    }
  }
}
