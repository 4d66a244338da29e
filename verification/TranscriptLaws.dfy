/**
 What the sponge gives out and what it fixes: which cells a sample consists of, and why two runs that
 end in the same capacity absorbed the same scalars (crates/backend/fiat-shamir/src/challenger.rs).
 */
module TranscriptLaws {
  import opened Arith
  import opened Field
  import opened Interpolation
  import opened LinearAlgebra
  import opened Transcript

  // ----- the cells of a sample

  /** The state after j permutations, each with the rate cells cleared before it. */
  ghost function Cleared(p: seq<Fe> -> seq<Fe>, state: seq<Fe>, j: nat): (r: seq<Fe>)
    requires |state| == WIDTH && KeepsWidth(p)
    ensures |r| == WIDTH
    decreases j
  {
    if j == 0 then state else p(Cleared(p, state, j - 1)[..CAPACITY] + ZeroVec(RATE))
  }

  lemma {:induction false} AfterSamplesIs(p: seq<Fe> -> seq<Fe>, s: Sponge, n: nat)
    requires IsSponge(s) && KeepsWidth(p) && n > 0
    ensures AfterSamples(p, s, n).state == Cleared(p, s.state, n - 1)
    decreases n
  {
    if n > 1 {
      AfterSamplesIs(p, s, n - 1);
    }
  }

  lemma CellOfBlock(k: nat, n: nat)
    requires k < n * RATE
    ensures n > 0 && k / RATE < n && (k >= (n - 1) * RATE ==> k / RATE == n - 1 && k % RATE == k - (n - 1) * RATE)
  {
  }

  /** Scalar k is cell k % RATE of the rate after k / RATE further permutations. */
  lemma {:induction false} SampledCell(p: seq<Fe> -> seq<Fe>, s: Sponge, n: nat, k: nat)
    requires IsSponge(s) && KeepsWidth(p) && k < n * RATE
    ensures SampledMany(p, s, n)[k] == Cleared(p, s.state, k / RATE)[CAPACITY + k % RATE]
    decreases n
  {
    CellOfBlock(k, n);
    hide Cleared;
    if n == 1 {
      assert Cleared(p, s.state, 0) == s.state by {
        AfterSamplesIs(p, s, 1);
      }
    } else if k < (n - 1) * RATE {
      SampledCell(p, s, n - 1, k);
    } else {
      AfterSamplesIs(p, s, n);
      assert AfterSamples(p, s, n).state == Duplexed(p, AfterSamples(p, s, n - 1)).state;
    }
  }

  lemma EnoughBlocks(n: nat)
    ensures CeilDiv(n) * RATE >= n
  {
  }

  /** The first n sampled scalars. */
  lemma SampledCells(p: seq<Fe> -> seq<Fe>, s: Sponge, n: nat)
    requires IsSponge(s) && KeepsWidth(p)
    ensures var r := FirstOf(SampledMany(p, s, CeilDiv(n)), n);
            |r| == n && forall k: nat {:trigger r[k]} | k < n :: r[k] == Cleared(p, s.state, k / RATE)[CAPACITY + k % RATE]
  {
    EnoughBlocks(n);
    var r := FirstOf(SampledMany(p, s, CeilDiv(n)), n);
    hide Cleared, SampledMany, CeilDiv;
    forall k: nat {:trigger r[k]} | k < n ensures r[k] == Cleared(p, s.state, k / RATE)[CAPACITY + k % RATE] {
      SampledCell(p, s, CeilDiv(n), k);
    }
  }

  lemma InRangeCells(p: seq<Fe> -> seq<Fe>, s: Sponge, bits: nat, count: nat)
    requires IsSponge(s) && KeepsWidth(p)
    ensures var r := LowBits(FirstOf(SampledMany(p, s, CeilDiv(count)), count), bits);
            |r| == count && forall k: nat {:trigger r[k]} | k < count :: r[k] == Cleared(p, s.state, k / RATE)[CAPACITY + k % RATE] % Pow2(bits)
  {
    hide Cleared, SampledMany, FirstOf, CeilDiv, Pow2;
    SampledCells(p, s, count);
  }

  /** What both sides learn by sampling, cell by cell. */
  lemma LearnedCells(p: seq<Fe> -> seq<Fe>, e: Extension, s: Sponge, op: Op)
    requires IsSponge(s) && KeepsWidth(p) && IsExtension(e) && WellFormed(e, op)
    ensures var r := Learned(p, e, s, op);
            && (op.SampleVec? ==> |r| == op.len * e.dim
                                  && forall k: nat {:trigger r[k]} | k < |r| :: r[k] == Cleared(p, s.state, k / RATE)[CAPACITY + k % RATE])
            && (op.SampleInRange? ==> |r| == op.count
                                      && forall k: nat {:trigger r[k]} | k < |r| :: r[k] == Cleared(p, s.state, k / RATE)[CAPACITY + k % RATE] % Pow2(op.bits))
  {
    hide Cleared, SampledMany, FirstOf, IsExtension, KeepsWidth, CeilDiv;
    match op
    case SampleVec(len) =>
      NonNegativeProduct(len, e.dim);
      SampledCells(p, s, len * e.dim);
    case SampleInRange(bits, count) =>
      InRangeCells(p, s, bits, count);
    case _ =>
  }

  /** A shorter sample from the same sponge is a prefix of a longer one. */
  lemma SamplePrefix(p: seq<Fe> -> seq<Fe>, e: Extension, s: Sponge, short: nat, long: nat, bits: nat)
    requires IsSponge(s) && KeepsWidth(p) && IsExtension(e) && short <= long && bits < FIELD_BITS
    ensures Learned(p, e, s, SampleVec(short)) <= Learned(p, e, s, SampleVec(long))
    ensures Learned(p, e, s, SampleInRange(bits, short)) <= Learned(p, e, s, SampleInRange(bits, long))
  {
    hide Cleared, Learned, IsExtension, KeepsWidth;
    LearnedCells(p, e, s, SampleVec(short));
    LearnedCells(p, e, s, SampleVec(long));
    LearnedCells(p, e, s, SampleInRange(bits, short));
    LearnedCells(p, e, s, SampleInRange(bits, long));
    MulMonotone(short, long, e.dim);
  }

  /** Coordinate j of element i is scalar i * dim + j. */
  lemma {:induction false} FlattenCell(xs: seq<seq<Fe>>, dim: nat, i: nat, j: nat)
    requires Elements(xs, dim) && i < |xs| && j < dim
    ensures i * dim + j < |Flatten(xs)| && Flatten(xs)[i * dim + j] == xs[i][j]
    decreases |xs|
  {
    if i > 0 {
      FlattenCell(xs[1..], dim, i - 1, j);
      ShiftProduct(i, 1, dim);
      assert Flatten(xs) == xs[0] + Flatten(xs[1..]) && |xs[0]| == dim;
      assert xs[1..][i - 1] == xs[i];
    }
  }

  // ----- what the sponge fixes

  /** Two different inputs of the permutation whose outputs have the same capacity. */
  ghost predicate Collide(p: seq<Fe> -> seq<Fe>, x: seq<Fe>, y: seq<Fe>)
    requires KeepsWidth(p)
  {
    |x| == |y| == WIDTH && x != y && p(x)[..CAPACITY] == p(y)[..CAPACITY]
  }

  ghost predicate SameCapacity(s: Sponge, t: Sponge)
    requires IsSponge(s) && IsSponge(t)
  {
    s.state[..CAPACITY] == t.state[..CAPACITY]
  }

  lemma ObserveBinds(p: seq<Fe> -> seq<Fe>, s: Sponge, a: seq<Fe>, t: Sponge, b: seq<Fe>) returns (x: seq<Fe>, y: seq<Fe>)
    requires IsSponge(s) && IsSponge(t) && KeepsWidth(p) && |a| == |b| == RATE && SameCapacity(Observed(p, s, a), Observed(p, t, b))
    ensures (SameCapacity(s, t) && a == b) || Collide(p, x, y)
  {
    x, y := s.state[..CAPACITY] + a, t.state[..CAPACITY] + b;
    if x == y {
      assert x[..CAPACITY] == s.state[..CAPACITY] && y[..CAPACITY] == t.state[..CAPACITY];
      assert x[CAPACITY..] == a && y[CAPACITY..] == b;
    }
  }

  lemma {:induction false} ObserveManyBinds(p: seq<Fe> -> seq<Fe>, s: Sponge, a: seq<Fe>, t: Sponge, b: seq<Fe>) returns (x: seq<Fe>, y: seq<Fe>)
    requires IsSponge(s) && IsSponge(t) && KeepsWidth(p) && |a| == |b| && SameCapacity(ObservedMany(p, s, a), ObservedMany(p, t, b))
    ensures (SameCapacity(s, t) && a == b) || Collide(p, x, y)
    decreases |a|
  {
    hide Observed, KeepsWidth;
    x, y := [], [];
    if a == [] {
      assert b == [];
    } else if |a| <= RATE {
      x, y := ObserveBinds(p, s, Padded(a), t, Padded(b));
      assert Padded(a)[..|a|] == a && Padded(b)[..|b|] == b;
    } else {
      x, y := ObserveManyBinds(p, Observed(p, s, a[..RATE]), a[RATE..], Observed(p, t, b[..RATE]), b[RATE..]);
      if !Collide(p, x, y) {
        x, y := ObserveBinds(p, s, a[..RATE], t, b[..RATE]);
        assert a == a[..RATE] + a[RATE..] && b == b[..RATE] + b[RATE..];
      }
    }
  }

  lemma {:induction false} SamplesBind(p: seq<Fe> -> seq<Fe>, s: Sponge, t: Sponge, n: nat) returns (x: seq<Fe>, y: seq<Fe>)
    requires IsSponge(s) && IsSponge(t) && KeepsWidth(p) && SameCapacity(AfterSamples(p, s, n), AfterSamples(p, t, n))
    ensures SameCapacity(s, t) || Collide(p, x, y)
    decreases n
  {
    hide Observed, KeepsWidth;
    x, y := [], [];
    if n > 1 {
      x, y := ObserveBinds(p, AfterSamples(p, s, n - 1), ZeroVec(RATE), AfterSamples(p, t, n - 1), ZeroVec(RATE));
      if !Collide(p, x, y) {
        x, y := SamplesBind(p, s, t, n - 1);
      }
    }
  }

  /** Two operations of one kind and size. */
  ghost predicate SameShape(a: Op, b: Op) {
    match a
    case Scalars(s) => b.Scalars? && |s| == |b.scalars|
    case ObserveOnly(s) => b.ObserveOnly? && |s| == |b.scalars|
    case Duplex => b.Duplex?
    case SampleVec(len) => b == SampleVec(len)
    case SampleInRange(bits, count) => b == SampleInRange(bits, count)
    case Sumcheck(c, _) => b.Sumcheck? && |c| == |b.coeffs|
    case BareSumcheck(c, _, _) => b.BareSumcheck? && |c| == |b.bare|
    case Grind(bits, _) => b.Grind? && bits == b.bits
  }

  /** They carry the same data. */
  ghost predicate SameContent(e: Extension, a: Op, b: Op)
    requires IsExtension(e) && WellFormed(e, a) && WellFormed(e, b) && SameShape(a, b)
  {
    match a
    case Scalars(s) => s == b.scalars
    case ObserveOnly(s) => s == b.scalars
    case Sumcheck(c, _) => c == b.coeffs
    case BareSumcheck(c, alpha, _) => ExpandedBare(e, c, alpha) == ExpandedBare(e, b.bare, b.alpha)
    case Grind(bits, w) => bits > 0 ==> w == b.w
    case _ => true
  }

  lemma FlattenInjective(a: seq<seq<Fe>>, b: seq<seq<Fe>>, dim: nat)
    requires Elements(a, dim) && Elements(b, dim) && dim > 0 && Flatten(a) == Flatten(b)
    ensures a == b
  {
    hide Flatten, Pack;
    FlattenLength(a, dim);
    FlattenLength(b, dim);
    PackFlatten(a, dim);
    PackFlatten(b, dim);
  }

  lemma SameSize(e: Extension, a: Op, b: Op)
    requires IsExtension(e) && WellFormed(e, a) && WellFormed(e, b) && SameShape(a, b)
    ensures |Absorbed(e, a)| == |Absorbed(e, b)| && BlocksOf(a, e.dim) == BlocksOf(b, e.dim)
  {
    match a
    case Sumcheck(c, _) =>
      FlattenLength(c, e.dim);
      FlattenLength(b.coeffs, e.dim);
    case BareSumcheck(c, alpha, _) =>
      hide ExpandedBare;
      ExpandedElements(e, c, alpha);
      ExpandedElements(e, b.bare, b.alpha);
      FlattenLength(ExpandedBare(e, c, alpha), e.dim);
      FlattenLength(ExpandedBare(e, b.bare, b.alpha), e.dim);
    case _ =>
  }

  lemma ExpandedElements(e: Extension, bare: seq<seq<Fe>>, alpha: seq<Fe>)
    requires IsExtension(e) && Elements(bare, e.dim) && |alpha| == e.dim && bare != []
    ensures |ExpandedBare(e, bare, alpha)| == |bare| + 1 && Elements(ExpandedBare(e, bare, alpha), e.dim)
  {
  }

  lemma SameAbsorbed(e: Extension, a: Op, b: Op)
    requires IsExtension(e) && WellFormed(e, a) && WellFormed(e, b) && SameShape(a, b) && Absorbed(e, a) == Absorbed(e, b)
    ensures SameContent(e, a, b)
  {
    match a
    case Sumcheck(c, _) => FlattenInjective(c, b.coeffs, e.dim);
    case BareSumcheck(c, alpha, _) =>
      ExpandedElements(e, c, alpha);
      ExpandedElements(e, b.bare, b.alpha);
      FlattenInjective(ExpandedBare(e, c, alpha), ExpandedBare(e, b.bare, b.alpha), e.dim);
    case Grind(bits, w) => assert bits > 0 ==> Absorbed(e, a)[0] == w && Absorbed(e, b)[0] == b.w;
    case _ =>
  }

  lemma StepBinds(p: seq<Fe> -> seq<Fe>, e: Extension, s: Sponge, a: Op, t: Sponge, b: Op) returns (x: seq<Fe>, y: seq<Fe>)
    requires IsSponge(s) && IsSponge(t) && KeepsWidth(p) && IsExtension(e) && WellFormed(e, a) && WellFormed(e, b) && SameShape(a, b)
    requires SameCapacity(Stepped(p, e, s, a), Stepped(p, e, t, b))
    ensures (SameCapacity(s, t) && SameContent(e, a, b)) || Collide(p, x, y)
  {
    hide IsExtension, KeepsWidth, WellFormed, SameShape, SameContent, Absorbed, AfterSamples, ObservedMany, SameCapacity;
    SameSize(e, a, b);
    var s1, t1 := ObservedMany(p, s, Absorbed(e, a)), ObservedMany(p, t, Absorbed(e, b));
    x, y := SamplesBind(p, s1, t1, BlocksOf(a, e.dim));
    if !Collide(p, x, y) {
      x, y := ObserveManyBinds(p, s, Absorbed(e, a), t, Absorbed(e, b));
      if !Collide(p, x, y) {
        SameAbsorbed(e, a, b);
      }
    }
  }

  ghost predicate SameShapes(ops: seq<Op>, other: seq<Op>) {
    |ops| == |other| && forall i {:trigger ops[i]} {:trigger other[i]} | 0 <= i < |ops| :: SameShape(ops[i], other[i])
  }

  /** Two runs that end with the same capacity carried the same data throughout, or the permutation collides. */
  lemma {:induction false} RunsBind(p: seq<Fe> -> seq<Fe>, e: Extension, s: Sponge, ops: seq<Op>, t: Sponge, other: seq<Op>)
    returns (x: seq<Fe>, y: seq<Fe>)
    requires IsSponge(s) && IsSponge(t) && KeepsWidth(p) && IsExtension(e) && AllWellFormedOps(e, ops) && AllWellFormedOps(e, other)
    requires SameShapes(ops, other) && SameCapacity(AllStepped(p, e, s, ops), AllStepped(p, e, t, other))
    ensures (SameCapacity(s, t) && forall i {:trigger ops[i]} {:trigger other[i]} | 0 <= i < |ops| :: SameContent(e, ops[i], other[i]))
            || Collide(p, x, y)
    decreases |ops|
  {
    hide IsExtension, KeepsWidth, WellFormed, SameShape, SameContent, Stepped, SameCapacity;
    x, y := [], [];
    if ops != [] {
      x, y := RunsBind(p, e, Stepped(p, e, s, ops[0]), ops[1..], Stepped(p, e, t, other[0]), other[1..]);
      if !Collide(p, x, y) {
        x, y := StepBinds(p, e, s, ops[0], t, other[0]);
        forall i {:trigger ops[i]} {:trigger other[i]} | 0 <= i < |ops| ensures Collide(p, x, y) || SameContent(e, ops[i], other[i]) {
          if i > 0 {
            assert ops[i] == ops[1..][i - 1] && other[i] == other[1..][i - 1];
          }
        }
      }
    }
  }
}
