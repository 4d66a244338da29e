/**
 The storage layout of the AIR sumcheck: columns are bit-reversed within chunks, folded at a
 moving bit of the storage index, and padded with a constant row
 (crates/sub_protocols/src/air_sumcheck.rs, crates/backend/poly/src/utils.rs).
 Every operation is tied to the multilinear polynomial of the stored values.
 */
module StorageLayout {
  import opened Arith
  import opened Field
  import opened Multilinear
  import opened Coefficients

  // ----- folding at one bit of the index

  /** `(j >> bit) << (bit + 1) | (j & (stride - 1))` for stride = 2^bit. */
  function LowPartner(j: nat, stride: nat): nat
    requires stride > 0
  {
    j / stride * (2 * stride) + j % stride
  }

  lemma LowPartnerBounds(j: nat, stride: nat, q: nat)
    requires stride > 0
    ensures j < q * stride <==> LowPartner(j, stride) + stride < 2 * (q * stride)
    ensures j < q * stride <==> LowPartner(j, stride) < 2 * (q * stride)
    ensures LowPartner(j + q * stride, stride) == LowPartner(j, stride) + 2 * (q * stride)
  {
    var a, b := j / stride, j % stride;
    assert j == a * stride + b;
    PartnerSplit(a, stride, b);
    PartnerSplit(a + q, stride, b);
    assert (a + q) * stride == a * stride + q * stride;
    ScaledOrder(a, q, stride, b);
    assert (a + q) * (2 * stride) == a * (2 * stride) + 2 * (q * stride);
  }

  lemma PartnerSplit(a: nat, stride: nat, b: nat)
    requires b < stride
    ensures a * stride + b >= 0 && LowPartner(a * stride + b, stride) == a * (2 * stride) + b
  {
    DivModOfRow(a, b, stride);
  }

  lemma ScaledOrder(a: nat, q: nat, s: nat, b: nat)
    requires b < s
    ensures a * s + b < q * s <==> a < q
    ensures a * (2 * s) + b + s < 2 * (q * s) <==> a < q
    ensures a * (2 * s) + b < 2 * (q * s) <==> a < q
  {
    if a < q {
      MulMonotone(a + 1, q, s);
      assert (a + 1) * s == a * s + s;
    } else {
      MulMonotone(q, a, s);
    }
    assert a * (2 * s) == 2 * (a * s);
  }

  /** Binding one storage bit: fold_multilinear_at_bit. */
  ghost function FoldedAt(v: seq<Fe>, bit: nat, alpha: Fe, m: nat): (r: seq<Fe>)
    requires bit < m && |v| == Pow2(m)
    ensures |r| == Pow2(m - 1)
    ensures forall j {:trigger r[j]} | 0 <= j < |r| ::
              LowPartner(j, Pow2(bit)) + Pow2(bit) < |v|
              && r[j] == Lerp(alpha, v[LowPartner(j, Pow2(bit))], v[LowPartner(j, Pow2(bit)) + Pow2(bit)])
  {
    PartnersFit(bit, m);
    seq(Pow2(m - 1), j requires 0 <= j < Pow2(m - 1) =>
      Lerp(alpha, v[LowPartner(j, Pow2(bit))], v[LowPartner(j, Pow2(bit)) + Pow2(bit)]))
  }

  lemma PartnersFit(bit: nat, m: nat)
    requires bit < m
    ensures forall j: nat {:trigger LowPartner(j, Pow2(bit))} | j < Pow2(m - 1) :: LowPartner(j, Pow2(bit)) + Pow2(bit) < Pow2(m)
  {
    Pow2Add(m - 1 - bit, bit);
    forall j: nat | j < Pow2(m - 1) ensures LowPartner(j, Pow2(bit)) + Pow2(bit) < Pow2(m) {
      LowPartnerBounds(j, Pow2(bit), Pow2(m - 1 - bit));
    }
  }

  lemma LowPartnerOfHalf(bit: nat, m: nat)
    requires bit < m - 1
    ensures forall j: nat {:trigger LowPartner(j, Pow2(bit))} | j < Pow2(m - 2) ::
              LowPartner(j, Pow2(bit)) + Pow2(bit) < Pow2(m - 1)
              && LowPartner(j + Pow2(m - 2), Pow2(bit)) == LowPartner(j, Pow2(bit)) + Pow2(m - 1)
  {
    Pow2Add(m - 2 - bit, bit);
    forall j: nat | j < Pow2(m - 2)
      ensures LowPartner(j, Pow2(bit)) + Pow2(bit) < Pow2(m - 1)
      ensures LowPartner(j + Pow2(m - 2), Pow2(bit)) == LowPartner(j, Pow2(bit)) + Pow2(m - 1)
    {
      LowPartnerBounds(j, Pow2(bit), Pow2(m - 2 - bit));
    }
  }

  lemma FoldedHalves(v: seq<Fe>, bit: nat, alpha: Fe, m: nat)
    requires bit < m - 1 && |v| == Pow2(m)
    ensures FoldedAt(v, bit, alpha, m)[..Pow2(m - 2)] == FoldedAt(v[..Pow2(m - 1)], bit, alpha, m - 1)
    ensures FoldedAt(v, bit, alpha, m)[Pow2(m - 2)..] == FoldedAt(v[Pow2(m - 1)..], bit, alpha, m - 1)
  {
    hide LowPartner;
    LowPartnerOfHalf(bit, m);
    var f, g := FoldedAt(v, bit, alpha, m), Pow2(m - 2);
    assert |f| == 2 * g;
    forall j {:trigger f[j]} | 0 <= j < g
      ensures f[j + g] == FoldedAt(v[Pow2(m - 1)..], bit, alpha, m - 1)[j]
      ensures f[j] == FoldedAt(v[..Pow2(m - 1)], bit, alpha, m - 1)[j]
    {
      assert LowPartner(j, Pow2(bit)) + Pow2(bit) < Pow2(m - 1);
    }
  }

  /** `point` with `a` put where storage bit `bit` is evaluated. */
  function Inserted(point: seq<Fe>, bit: nat, a: Fe): (r: seq<Fe>)
    requires bit <= |point|
    ensures |r| == |point| + 1
  {
    point[..|point| - bit] + [a] + point[|point| - bit..]
  }

  /** Folding storage bit b fixes the coordinate of that bit. */
  lemma {:induction false} MleFoldedAt(v: seq<Fe>, bit: nat, alpha: Fe, point: seq<Fe>)
    requires bit <= |point| && |v| == Pow2(|point| + 1)
    ensures Mle(FoldedAt(v, bit, alpha, |point| + 1), point) == Mle(v, Inserted(point, bit, alpha))
    decreases |point|
  {
    hide FoldedAt, LowPartner, Lerp;
    var m := |point| + 1;
    if bit == |point| {
      TopBitFold(v, alpha, m);
      MleFold(v, alpha, point);
      assert Inserted(point, bit, alpha) == [alpha] + point;
    } else {
      var h := Pow2(m - 1);
      FoldedHalves(v, bit, alpha, m);
      MleFoldedAt(v[..h], bit, alpha, point[1..]);
      MleFoldedAt(v[h..], bit, alpha, point[1..]);
      assert Inserted(point, bit, alpha)[1..] == Inserted(point[1..], bit, alpha);
    }
  }

  lemma TopBitFold(v: seq<Fe>, alpha: Fe, m: nat)
    requires m > 0 && |v| == Pow2(m)
    ensures FoldedAt(v, m - 1, alpha, m) == Fold(v, alpha)
  {
    var s := Pow2(m - 1);
    forall j | 0 <= j < s ensures LowPartner(j, s) == j {
      DivModOfRow(0, j, s);
    }
  }

  /** fold_multilinear_at_bit, with its special case for bit 0. */
  method FoldMultilinearAtBit(m: seq<Fe>, alpha: Fe, bit: nat, ghost n: nat) returns (res: seq<Fe>)
    requires |m| == Pow2(n) && |m| >= 2 * Pow2(bit)
    ensures bit < n && res == FoldedAt(m, bit, alpha, n)
  {
    Pow2Monotone(n, bit);
    assert bit < n;
    PartnersFit(bit, n);
    var newSize := |m| / 2;
    res := [];
    if bit == 0 {
      for j := 0 to newSize
        invariant |res| == j
        invariant forall k {:trigger res[k]} | 0 <= k < j :: res[k] == Lerp(alpha, m[2 * k], m[2 * k + 1])
      {
        res := res + [Lerp(alpha, m[2 * j], m[2 * j + 1])];
      }
      forall k | 0 <= k < newSize ensures LowPartner(k, 1) == 2 * k {
      }
      assert res == FoldedAt(m, bit, alpha, n);
      return;
    }
    var stride := Pow2(bit);
    for newJ := 0 to newSize
      invariant |res| == newJ
      invariant forall k {:trigger res[k]} | 0 <= k < newJ :: res[k] == FoldedAt(m, bit, alpha, n)[k]
    {
      var i0 := LowPartner(newJ, stride);
      var i1 := i0 + stride;
      res := res + [Lerp(alpha, m[i0], m[i1])];
    }
    assert res == FoldedAt(m, bit, alpha, n);
  }

  lemma LowPartnerOne(j: nat)
    ensures LowPartner(j, 1) == 2 * j
  {
  }

  /** The last coordinate splits the vector into even and odd entries. */
  lemma MleLast(v: seq<Fe>, point: seq<Fe>, x: Fe)
    requires |v| == Pow2(|point| + 1)
    ensures Mle(v, point + [x]) == Lerp(x, Mle(Evens(v), point), Mle(Odds(v), point))
  {
    hide Mle, LowPartner;
    MleFoldedAt(v, 0, x, point);
    assert Inserted(point, 0, x) == point + [x];
    var f, half := FoldedAt(v, 0, x, |point| + 1), Pow2(|point|);
    assert Pow2(0) == 1 && |v| == 2 * half;
    forall i {:trigger f[i]} | 0 <= i < half ensures f[i] == Lerp(x, v[2 * i], v[2 * i + 1]) {
      LowPartnerOne(i);
    }
    MleOfHalves(v, f, half, x, point);
  }

  lemma MleOfHalves(v: seq<Fe>, f: seq<Fe>, half: nat, x: Fe, point: seq<Fe>)
    requires |v| == 2 * half && half == |f| == Pow2(|point|)
    requires forall i {:trigger f[i]} | 0 <= i < half :: f[i] == Lerp(x, v[2 * i], v[2 * i + 1])
    ensures Mle(f, point) == Lerp(x, Mle(Evens(v), point), Mle(Odds(v), point))
  {
    hide Mle, Lerp, Pow2;
    MleLerp(x, Evens(v), Odds(v), f, point);
  }

  // ----- bit reversal within chunks

  lemma {:induction false} MleBitReversed(v: seq<Fe>, point: seq<Fe>)
    requires |v| == Pow2(|point|)
    ensures Mle(BitReversed(v, |point|), Reversed(point)) == Mle(v, point)
    decreases |point|
  {
    if point == [] {
    } else {
      var n := |point|;
      var h := Pow2(n - 1);
      MleLast(BitReversed(v, n), Reversed(point[1..]), point[0]);
      ReversedHalves(v, n);
      MleBitReversed(v[..h], point[1..]);
      MleBitReversed(v[h..], point[1..]);
    }
  }

  lemma {:induction false} ReversedSnoc(p: seq<Fe>, x: Fe)
    ensures Reversed(p + [x]) == [x] + Reversed(p)
  {
    if p != [] {
      assert (p + [x])[1..] == p[1..] + [x];
      ReversedSnoc(p[1..], x);
    } else {
      assert ([x])[1..] == [];
      assert p + [x] == [x];
    }
  }

  lemma {:induction false} ReversedTwice(p: seq<Fe>)
    ensures Reversed(Reversed(p)) == p
  {
    if p != [] {
      ReversedSnoc(Reversed(p[1..]), p[0]);
      ReversedTwice(p[1..]);
    }
  }

  function LowPart(j: nat, s: nat): (r: nat)
    requires s > 0
    ensures r < s
  {
    j % s
  }

  function WithLowPart(j: nat, s: nat, low: nat): (r: nat)
    requires s > 0
  {
    NonNegativeProduct(j / s, s);
    j / s * s + low
  }

  lemma WithLowPartBounds(j: nat, s: nat, low: nat, q: nat)
    requires low < s
    ensures j < q * s <==> WithLowPart(j, s, low) < q * s
    ensures j + q * s >= 0 && LowPart(j + q * s, s) == LowPart(j, s)
    ensures WithLowPart(j + q * s, s, low) == WithLowPart(j, s, low) + q * s
  {
    DivShift(j, q, s);
    ScaledOrder(j / s, q, s, j % s);
    ScaledOrder(j / s, q, s, low);
    assert j == j / s * s + j % s;
    NonNegativeProduct(q, s);
    SplitShift(j / s, q, s, j % s);
  }

  lemma SplitShift(a: nat, q: nat, s: nat, b: nat)
    requires b < s
    ensures (a + q) * s == a * s + q * s
    ensures a * s + b + q * s >= 0 && (a * s + b + q * s) % s == b
  {
    DivModOfRow(a + q, b, s);
  }

  /** The position an element is read from: bit reversal of the low p bits of the index. */
  function ChunkIndex(j: nat, p: nat): nat { WithLowPart(j, Pow2(p), Rev(LowPart(j, Pow2(p)), p)) }

  lemma ChunkIndexBounds(j: nat, p: nat, q: nat)
    ensures j < q * Pow2(p) <==> ChunkIndex(j, p) < q * Pow2(p)
    ensures j + q * Pow2(p) >= 0 && ChunkIndex(j + q * Pow2(p), p) == ChunkIndex(j, p) + q * Pow2(p)
  {
    hide LowPart, WithLowPart, Rev;
    WithLowPartBounds(j, Pow2(p), Rev(LowPart(j, Pow2(p)), p), q);
  }

  /** The column after chunk-bit-reversal with chunks of 2^p. */
  ghost function ChunkReversed(v: seq<Fe>, h: nat, p: nat): (r: seq<Fe>)
    requires |v| == Pow2(h + p)
    ensures |r| == |v|
    ensures forall j {:trigger r[j]} | 0 <= j < |r| :: ChunkIndex(j, p) < |v| && r[j] == v[ChunkIndex(j, p)]
  {
    ChunkIndicesFit(h, p);
    seq(|v|, j requires 0 <= j < |v| => v[ChunkIndex(j, p)])
  }

  lemma ChunkIndicesFit(h: nat, p: nat)
    ensures forall j: nat {:trigger ChunkIndex(j, p)} | j < Pow2(h + p) :: ChunkIndex(j, p) < Pow2(h + p)
  {
    Pow2Add(h, p);
    forall j: nat | j < Pow2(h + p) ensures ChunkIndex(j, p) < Pow2(h + p) {
      ChunkIndexBounds(j, p, Pow2(h));
    }
  }

  /** The first h coordinates stay, the others are reversed (permuted_alphas). */
  function Permuted(point: seq<Fe>, h: nat): (r: seq<Fe>)
    ensures |r| == |point|
  {
    var k := if h < |point| then h else |point|;
    point[..k] + Reversed(point[k..])
  }

  lemma {:induction false} MleChunkReversed(v: seq<Fe>, h: nat, point: seq<Fe>)
    requires h <= |point| && |v| == Pow2(|point|)
    ensures Mle(ChunkReversed(v, h, |point| - h), Permuted(point, h)) == Mle(v, point)
    decreases h
  {
    hide ChunkIndex, Rev;
    var p := |point| - h;
    if h == 0 {
      assert point[0..] == point && Permuted(point, 0) == Reversed(point);
      OneChunk(v, p);
      MleBitReversed(v, point);
    } else {
      var half := Pow2(|point| - 1);
      ChunkHalves(v, h, p);
      MleChunkReversed(v[..half], h - 1, point[1..]);
      MleChunkReversed(v[half..], h - 1, point[1..]);
      assert Permuted(point, h)[1..] == Permuted(point[1..], h - 1) by {
        assert point[1..][h - 1..] == point[h..];
      }
    }
  }

  lemma OneChunk(v: seq<Fe>, p: nat)
    requires |v| == Pow2(p)
    ensures ChunkReversed(v, 0, p) == BitReversed(v, p)
  {
    forall j | 0 <= j < |v| ensures ChunkIndex(j, p) == Rev(j, p) {
      DivModOfRow(0, j, Pow2(p));
    }
  }

  lemma ChunkHalves(v: seq<Fe>, h: nat, p: nat)
    requires h > 0 && |v| == Pow2(h + p)
    ensures ChunkReversed(v, h, p)[..Pow2(h - 1 + p)] == ChunkReversed(v[..Pow2(h - 1 + p)], h - 1, p)
    ensures ChunkReversed(v, h, p)[Pow2(h - 1 + p)..] == ChunkReversed(v[Pow2(h - 1 + p)..], h - 1, p)
  {
    hide ChunkIndex;
    var g := Pow2(h - 1 + p);
    Pow2Add(h - 1, p);
    ChunkIndicesFit(h - 1, p);
    forall j: nat | j < g ensures ChunkIndex(j + g, p) == ChunkIndex(j, p) + g {
      ChunkIndexBounds(j, p, Pow2(h - 1));
    }
    var c := ChunkReversed(v, h, p);
    forall j {:trigger c[j]} | 0 <= j < g
      ensures c[j + g] == ChunkReversed(v[g..], h - 1, p)[j]
      ensures c[j] == ChunkReversed(v[..g], h - 1, p)[j]
    {
      assert ChunkIndex(j, p) < g;
    }
  }

  /** The copy loop of the constructor; `wordBits` is the machine word used for reverse_bits. */
  method ChunkBitReverse(src: seq<Fe>, h: nat, pivot: nat, wordBits: nat) returns (dst: seq<Fe>)
    requires |src| == Pow2(h + pivot) && pivot <= wordBits
    ensures dst == ChunkReversed(src, h, pivot)
  {
    hide ChunkIndex, Rev;
    var chunkSize := Pow2(pivot);
    dst := [];
    Pow2Add(h, pivot);
    var chunks := |src| / chunkSize;
    DivExact(Pow2(h), chunkSize);
    ghost var all := ChunkReversed(src, h, pivot);
    for c := 0 to chunks
      invariant |dst| == c * chunkSize <= |src|
      invariant forall k {:trigger dst[k]} | 0 <= k < |dst| :: dst[k] == all[k]
    {
      BlockBounds(c, chunks, chunkSize);
      for p := 0 to chunkSize
        invariant |dst| == c * chunkSize + p
        invariant forall k {:trigger dst[k]} | 0 <= k < |dst| :: dst[k] == all[k]
      {
        RevOfWord(p, pivot, wordBits - pivot);
        ChunkPosition(c, p, pivot);
        dst := dst + [src[c * chunkSize + Rev(p, wordBits) / Pow2(wordBits - pivot)]];
      }
    }
    assert dst == all;
  }

  lemma ChunkPosition(c: nat, i: nat, p: nat)
    requires i < Pow2(p)
    ensures c * Pow2(p) + i >= 0 && ChunkIndex(c * Pow2(p) + i, p) == c * Pow2(p) + Rev(i, p)
  {
    hide Rev;
    RowPosition(c, i, Pow2(p), Rev(i, p));
  }

  lemma RowPosition(c: nat, i: nat, s: nat, low: nat)
    requires i < s
    ensures c * s + i >= 0 && LowPart(c * s + i, s) == i && WithLowPart(c * s + i, s, low) == c * s + low
  {
    NonNegativeProduct(c, s);
    DivModOfRow(c, i, s);
  }

  lemma PermutedTwice(point: seq<Fe>, h: nat)
    ensures Permuted(Permuted(point, h), h) == point
  {
    var k := if h < |point| then h else |point|;
    assert Permuted(point, h)[k..] == Reversed(point[k..]);
    ReversedTwice(point[k..]);
    assert point == point[..k] + point[k..];
  }

  /** The coordinate bound in round r sits where the schedule says. */
  lemma PermutedInserted(point: seq<Fe>, h: nat, a: Fe)
    ensures Permuted(point + [a], h) == Inserted(Permuted(point, h), if |point| < h then 0 else |point| - h, a)
  {
    var all := point + [a];
    if |point| < h {
      assert all[|all|..] == [] && point[|point|..] == [];
      assert Permuted(all, h) == all && Permuted(point, h) == point;
    } else {
      assert all[h..] == point[h..] + [a];
      ReversedSnoc(point[h..], a);
      if |point| == h {
        assert all[h..] == [a];
        assert Permuted(all, h) == point + [a];
      }
    }
  }

  // ----- the polynomial of a run of zeros followed by ones

  /** mle_of_zeros_then_ones. */
  function MleOfZerosThenOnes(zeros: nat, point: seq<Fe>): Fe
    requires zeros <= Pow2(|point|)
    decreases |point|
  {
    var values := Pow2(|point|);
    if zeros == 0 then 1
    else if zeros == values then 0
    else
      var half := values / 2;
      if zeros < half then
        Add(Mul(Sub(1, point[0]), MleOfZerosThenOnes(zeros, point[1..])), point[0])
      else
        Mul(point[0], MleOfZerosThenOnes(zeros - half, point[1..]))
  }

  ghost function ZerosThenOnes(zeros: nat, size: nat): (v: seq<Fe>)
    ensures |v| == size && forall i {:trigger v[i]} | 0 <= i < size :: v[i] == if i < zeros then 0 else 1
  {
    seq(size, i => if i < zeros then 0 else 1)
  }

  lemma {:induction false} ZerosThenOnesEvaluates(zeros: nat, point: seq<Fe>)
    requires zeros <= Pow2(|point|)
    ensures MleOfZerosThenOnes(zeros, point) == Mle(ZerosThenOnes(zeros, Pow2(|point|)), point)
    decreases |point|
  {
    var n := Pow2(|point|);
    var v := ZerosThenOnes(zeros, n);
    if zeros == 0 {
      MleConstant(v, point, 1);
    } else if zeros == n {
      MleConstant(v, point, 0);
    } else {
      var half := Pow2(|point| - 1);
      var rest := point[1..];
      if zeros < half {
        assert v[..half] == ZerosThenOnes(zeros, half);
        ZerosThenOnesEvaluates(zeros, rest);
        MleConstant(v[half..], rest, 1);
        LerpWeights(point[0], Mle(v[..half], rest), 1);
        MulOne(point[0]);
      } else {
        assert v[half..] == ZerosThenOnes(zeros - half, half);
        ZerosThenOnesEvaluates(zeros - half, rest);
        MleConstant(v[..half], rest, 0);
        LerpWeights(point[0], 0, Mle(v[half..], rest));
        MulOne(Sub(1, point[0]));
        AddZero(Mul(point[0], Mle(v[half..], rest)));
      }
    }
  }

  function CeilHalf(n: nat): nat { (n + 1) / 2 }

  /** Whole pairs on both sides of the boundary: `len` is a multiple of 2^(bit + 1), or bit is 0. */
  ghost predicate PairAligned(len: nat, bit: nat) {
    bit == 0 || exists q: nat :: len == 2 * (q * Pow2(bit))
  }

  /** Pair j lies in the padding exactly when j is past half the active length. */
  lemma PaddedPairs(len: nat, bit: nat, j: nat)
    requires PairAligned(len, bit)
    ensures j < CeilHalf(len) <==> LowPartner(j, Pow2(bit)) < len
    ensures bit > 0 ==> (j < CeilHalf(len) <==> LowPartner(j, Pow2(bit)) + Pow2(bit) < len)
  {
    if bit == 0 {
      assert LowPartner(j, 1) == 2 * j;
    } else {
      var q: nat :| len == 2 * (q * Pow2(bit));
      LowPartnerBounds(j, Pow2(bit), q);
      assert CeilHalf(len) == q * Pow2(bit);
    }
  }

  /** Zeroing the folded coordinate keeps only the pairs that lie in the padding. */
  lemma PaddingWeights(len: nat, bit: nat, point: seq<Fe>)
    requires bit <= |point| && len <= Pow2(|point| + 1) && PairAligned(len, bit)
    ensures CeilHalf(len) <= Pow2(|point|)
    ensures MleOfZerosThenOnes(len, Inserted(point, bit, 0)) == Mle(ZerosThenOnes(CeilHalf(len), Pow2(|point|)), point)
  {
    hide LowPartner, Mle, MleOfZerosThenOnes, PairAligned;
    var m := |point| + 1;
    var z := ZerosThenOnes(len, Pow2(m));
    ZerosThenOnesEvaluates(len, Inserted(point, bit, 0));
    MleFoldedAt(z, bit, 0, point);
    FoldedZeros(len, bit, m);
  }

  lemma FoldedZeros(len: nat, bit: nat, m: nat)
    requires bit < m && len <= Pow2(m) && PairAligned(len, bit)
    ensures FoldedAt(ZerosThenOnes(len, Pow2(m)), bit, 0, m) == ZerosThenOnes(CeilHalf(len), Pow2(m - 1))
  {
    hide LowPartner, PairAligned;
    var z := ZerosThenOnes(len, Pow2(m));
    var f := FoldedAt(z, bit, 0, m);
    forall j | 0 <= j < |f|
      ensures f[j] == ZerosThenOnes(CeilHalf(len), Pow2(m - 1))[j]
    {
      PaddedPairs(len, bit, j);
      var fj := f[j];
      LerpEnds(z[LowPartner(j, Pow2(bit))], z[LowPartner(j, Pow2(bit)) + Pow2(bit)]);
    }
  }

  /** Padding rows stay padding rows. */
  lemma FoldedPadding(v: seq<Fe>, bit: nat, alpha: Fe, m: nat, len: nat, pad: Fe)
    requires bit < m && |v| == Pow2(m) && len <= |v| && PairAligned(len, bit)
    requires forall j {:trigger v[j]} | len <= j < |v| :: v[j] == pad
    ensures forall j {:trigger FoldedAt(v, bit, alpha, m)[j]} | CeilHalf(len) <= j < Pow2(m - 1) ::
              FoldedAt(v, bit, alpha, m)[j] == pad
  {
    hide LowPartner;
    var f := FoldedAt(v, bit, alpha, m);
    forall j | CeilHalf(len) <= j < Pow2(m - 1)
      ensures f[j] == pad
    {
      PaddedPairs(len, bit, j);
      LerpSame(alpha, pad);
    }
  }

  /** A sum over the active entries plus the weighted padding is the sum over all entries. */
  lemma ActivePlusPadding(w: seq<Fe>, point: seq<Fe>, active: nat, pad: Fe)
    requires |w| == Pow2(|point|) && active <= |w|
    requires forall j {:trigger w[j]} | active <= j < |w| :: w[j] == pad
    ensures Add(Dot(w[..active], EqVec(point, 1)[..active]), Mul(pad, Mle(ZerosThenOnes(active, |w|), point))) == Mle(w, point)
  {
    var e := EqVec(point, 1);
    var z := ZerosThenOnes(active, |w|);
    MleIsDot(w, point);
    MleIsDot(z, point);
    DotSplit(w, e, active);
    DotSplit(z, e, active);
    DotZero(z[..active], e[..active]);
    AddZero(Dot(z[active..], e[active..]));
    assert IsScaled(pad, z[active..], w[active..]) by {
      MulOne(pad);
    }
    DotCommute(w[active..], e[active..]);
    DotCommute(z[active..], e[active..]);
    DotScaled(pad, e[active..], z[active..], w[active..]);
  }
}
