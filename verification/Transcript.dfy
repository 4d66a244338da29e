/**
 The Fiat-Shamir transcript as values: the sponge, the extension field as vectors over the base
 field, what the prover sends and absorbs, and what the verifier reads back
 (crates/backend/fiat-shamir/src).  The permutation is an arbitrary function.
 */
module Transcript {
  import opened Arith
  import opened Field
  import opened Prime
  import opened Interpolation
  import opened LinearAlgebra
  import opened Convolution

  const RATE: nat := 8
  const WIDTH: nat := 2 * RATE
  const CAPACITY: nat := WIDTH - RATE

  /** F::bits() of the base field. */
  const FIELD_BITS: nat := 31

  // ----- the sponge

  datatype Sponge = Sponge(state: seq<Fe>, rateFresh: bool)

  ghost predicate KeepsWidth(p: seq<Fe> -> seq<Fe>) {
    forall s: seq<Fe> {:trigger p(s)} | |s| == WIDTH :: |p(s)| == WIDTH
  }

  ghost predicate IsSponge(s: Sponge) { |s.state| == WIDTH }

  ghost function Observed(p: seq<Fe> -> seq<Fe>, s: Sponge, value: seq<Fe>): (r: Sponge)
    requires IsSponge(s) && |value| == RATE && KeepsWidth(p)
    ensures IsSponge(r) && r.rateFresh
  {
    Sponge(p(s.state[..CAPACITY] + value), true)
  }

  function Padded(chunk: seq<Fe>): (r: seq<Fe>)
    requires |chunk| <= RATE
    ensures |r| == RATE
  {
    chunk + ZeroVec(RATE - |chunk|)
  }

  /** observe_many: chunks of RATE, the last one padded with zeros. */
  ghost function ObservedMany(p: seq<Fe> -> seq<Fe>, s: Sponge, scalars: seq<Fe>): (r: Sponge)
    requires IsSponge(s) && KeepsWidth(p)
    ensures IsSponge(r)
    decreases |scalars|
  {
    if scalars == [] then s
    else if |scalars| <= RATE then Observed(p, s, Padded(scalars))
    else ObservedMany(p, Observed(p, s, scalars[..RATE]), scalars[RATE..])
  }

  /** scalars padded with zeros to a multiple of RATE. */
  function PaddedAll(scalars: seq<Fe>): (r: seq<Fe>)
    ensures |r| >= |scalars|
    decreases |scalars|
  {
    if scalars == [] then []
    else if |scalars| <= RATE then Padded(scalars)
    else scalars[..RATE] + PaddedAll(scalars[RATE..])
  }

  lemma {:induction false} PaddedAllIs(scalars: seq<Fe>)
    ensures |PaddedAll(scalars)| % RATE == 0 && |PaddedAll(scalars)| < |scalars| + RATE
    ensures PaddedAll(scalars) == scalars + ZeroVec(|PaddedAll(scalars)| - |scalars|)
    decreases |scalars|
  {
    if |scalars| > RATE {
      PaddedAllIs(scalars[RATE..]);
    }
  }

  /** Absorbing the padded scalars drives the sponge the same way. */
  lemma {:induction false} PaddingIsInvisible(p: seq<Fe> -> seq<Fe>, s: Sponge, scalars: seq<Fe>)
    requires IsSponge(s) && KeepsWidth(p)
    ensures ObservedMany(p, s, PaddedAll(scalars)) == ObservedMany(p, s, scalars)
    decreases |scalars|
  {
    if scalars != [] && |scalars| <= RATE {
      var r := Padded(scalars);
      assert Padded(r) == r;
    } else if |scalars| > RATE {
      var r := PaddedAll(scalars);
      PaddingIsInvisible(p, Observed(p, s, scalars[..RATE]), scalars[RATE..]);
      assert r[..RATE] == scalars[..RATE] && r[RATE..] == PaddedAll(scalars[RATE..]);
      assert |r| > RATE;
    }
  }

  /** sample: the rate part may be read once. */
  ghost function AfterSample(s: Sponge): Sponge { s.(rateFresh := false) }

  ghost function RateOf(s: Sponge): (r: seq<Fe>)
    requires IsSponge(s)
    ensures |r| == RATE
  {
    s.state[CAPACITY..]
  }

  ghost function Duplexed(p: seq<Fe> -> seq<Fe>, s: Sponge): (r: Sponge)
    requires IsSponge(s) && KeepsWidth(p)
    ensures IsSponge(r) && r.rateFresh
  {
    Observed(p, s, ZeroVec(RATE))
  }

  /** The outputs of sample_many after its first duplex-free sample, flattened. */
  ghost function SampledMany(p: seq<Fe> -> seq<Fe>, s: Sponge, n: nat): (r: seq<Fe>)
    requires IsSponge(s) && KeepsWidth(p)
    ensures |r| == n * RATE
    decreases n
  {
    if n == 0 then []
    else if n == 1 then RateOf(s)
    else SampledMany(p, s, n - 1) + RateOf(Duplexed(p, AfterSamples(p, s, n - 1)))
  }

  ghost function AfterSamples(p: seq<Fe> -> seq<Fe>, s: Sponge, n: nat): (r: Sponge)
    requires IsSponge(s) && KeepsWidth(p)
    ensures IsSponge(r)
    decreases n
  {
    if n == 0 then s
    else if n == 1 then AfterSample(s)
    else AfterSample(Duplexed(p, AfterSamples(p, s, n - 1)))
  }

  // ----- the extension field

  /** Multiplication of vectors over a basis whose first element is 1. */
  datatype Extension = Extension(dim: nat, mul: (seq<Fe>, seq<Fe>) -> seq<Fe>)

  ghost predicate IsExtension(e: Extension) {
    && 1 <= e.dim <= RATE
    && (forall a: seq<Fe>, b: seq<Fe> {:trigger e.mul(a, b)} | |a| == |b| == e.dim :: |e.mul(a, b)| == e.dim)
    && (forall b: seq<Fe> {:trigger e.mul(Unit(0, e.dim), b)} | |b| == e.dim :: e.mul(Unit(0, e.dim), b) == b)
    && (forall a: seq<Fe>, b: seq<Fe>, c: seq<Fe> {:trigger e.mul(a, Plus(b, c))} | |a| == |b| == |c| == e.dim ::
          e.mul(a, Plus(b, c)) == Plus(e.mul(a, b), e.mul(a, c)))
    && (forall a: seq<Fe>, b: seq<Fe>, c: seq<Fe> {:trigger e.mul(Plus(a, b), c)} | |a| == |b| == |c| == e.dim ::
          e.mul(Plus(a, b), c) == Plus(e.mul(a, c), e.mul(b, c)))
  }

  /** The product of two extension elements. */
  ghost function Product(e: Extension, a: seq<Fe>, b: seq<Fe>): (r: seq<Fe>)
    requires IsExtension(e) && |a| == |b| == e.dim
    ensures |r| == e.dim
  {
    e.mul(a, b)
  }

  lemma ProductLaws(e: Extension, a: seq<Fe>, b: seq<Fe>, c: seq<Fe>)
    requires IsExtension(e) && |a| == |b| == |c| == e.dim
    ensures Product(e, a, Plus(b, c)) == Plus(Product(e, a, b), Product(e, a, c))
    ensures Product(e, Plus(a, b), c) == Plus(Product(e, a, c), Product(e, b, c))
    ensures Product(e, Unit(0, e.dim), b) == b
  {
  }

  ghost predicate Elements(xs: seq<seq<Fe>>, dim: nat) { forall i {:trigger xs[i]} | 0 <= i < |xs| :: |xs[i]| == dim }

  /** flatten_scalars_to_base. */
  function Flatten(xs: seq<seq<Fe>>): seq<Fe> {
    if xs == [] then [] else xs[0] + Flatten(xs[1..])
  }

  /** pack_scalars_to_extension. */
  function Pack(s: seq<Fe>, dim: nat): seq<seq<Fe>>
    requires dim > 0
    decreases |s|
  {
    if |s| < dim then [] else [s[..dim]] + Pack(s[dim..], dim)
  }

  lemma {:induction false} FlattenLength(xs: seq<seq<Fe>>, dim: nat)
    requires Elements(xs, dim)
    ensures |Flatten(xs)| == |xs| * dim
    decreases |xs|
  {
    if xs != [] {
      FlattenLength(xs[1..], dim);
      assert |xs[0]| == dim;
      assert |xs| * dim == dim + (|xs| - 1) * dim;
    }
  }

  /** Packing undoes flattening. */
  lemma {:induction false} PackFlatten(xs: seq<seq<Fe>>, dim: nat)
    requires Elements(xs, dim) && dim > 0
    ensures Pack(Flatten(xs), dim) == xs
    decreases |xs|
  {
    if xs != [] {
      assert |xs[0]| == dim;
      assert Flatten(xs)[..dim] == xs[0] && Flatten(xs)[dim..] == Flatten(xs[1..]);
      PackFlatten(xs[1..], dim);
    }
  }

  /** Flattening undoes packing of whole elements. */
  lemma {:induction false} FlattenPack(s: seq<Fe>, dim: nat)
    requires dim > 0 && |s| % dim == 0
    ensures Elements(Pack(s, dim), dim) && Flatten(Pack(s, dim)) == s
    decreases |s|
  {
    if |s| < dim {
      DivModOfRow(0, |s|, dim);
    } else {
      DivShift(|s| - dim, 1, dim);
      assert |s[dim..]| % dim == 0 by {
        SplitRemainder(|s| - dim, dim);
      }
      FlattenPack(s[dim..], dim);
      assert Pack(s, dim)[1..] == Pack(s[dim..], dim);
    }
  }

  lemma SplitRemainder(x: nat, d: nat)
    requires d > 0 && (x + d) % d == 0
    ensures x % d == 0
  {
    DivShift(x, 1, d);
    assert x == x / d * d + x % d;
    assert x + d == (x + d) / d * d + (x + d) % d;
    assert (x / d + 1) * d == x / d * d + d;
  }

  lemma FlattenTail(xs: seq<seq<Fe>>, dim: nat)
    requires Elements(xs, dim) && xs != []
    ensures |Flatten(xs)| >= dim && Flatten(xs)[dim..] == Flatten(xs[1..])
  {
    assert |xs[0]| == dim;
  }

  /** The sum of a list of elements, added in order from zero. */
  ghost function SumOf(xs: seq<seq<Fe>>, dim: nat): (r: seq<Fe>)
    requires Elements(xs, dim)
    ensures |r| == dim
  {
    if xs == [] then ZeroVec(dim) else Plus(SumOf(xs[..|xs| - 1], dim), xs[|xs| - 1])
  }

  ghost function One(e: Extension): (r: seq<Fe>)
    ensures |r| == e.dim
  {
    Unit(0, e.dim)
  }

  /** Coefficient k of (1 - alpha + (2 alpha - 1) X) times the bare polynomial. */
  ghost function ExpandedAt(e: Extension, bare: seq<seq<Fe>>, alpha: seq<Fe>, k: nat): (r: seq<Fe>)
    requires IsExtension(e) && Elements(bare, e.dim) && |alpha| == e.dim && bare != [] && k <= |bare|
    ensures |r| == e.dim
  {
    hide IsExtension, Product;
    var oneMinusAlpha := Minus(One(e), alpha);
    var twoAlphaMinusOne := Minus(Plus(alpha, alpha), One(e));
    if k == 0 then Product(e, oneMinusAlpha, bare[0])
    else if k == |bare| then Product(e, twoAlphaMinusOne, bare[k - 1])
    else Plus(Product(e, oneMinusAlpha, bare[k]), Product(e, twoAlphaMinusOne, bare[k - 1]))
  }

  /** expand_bare_to_full over the extension. */
  ghost function ExpandedBare(e: Extension, bare: seq<seq<Fe>>, alpha: seq<Fe>): (full: seq<seq<Fe>>)
    requires IsExtension(e) && Elements(bare, e.dim) && |alpha| == e.dim && bare != []
    ensures |full| == |bare| + 1 && Elements(full, e.dim)
    ensures forall k {:trigger full[k]} | 0 <= k <= |bare| :: full[k] == ExpandedAt(e, bare, alpha, k)
  {
    hide IsExtension, ExpandedAt;
    seq(|bare| + 1, k requires 0 <= k <= |bare| => ExpandedAt(e, bare, alpha, k))
  }

  // ----- operations

  datatype Op =
    | Scalars(scalars: seq<Fe>)
    | ObserveOnly(scalars: seq<Fe>)
    | Duplex
    | SampleVec(len: nat)
    | SampleInRange(bits: nat, count: nat)
    | Sumcheck(coeffs: seq<seq<Fe>>, claimed: seq<Fe>)
    | BareSumcheck(bare: seq<seq<Fe>>, alpha: seq<Fe>, claimed: seq<Fe>)
    | Grind(bits: nat, w: Fe)

  /** What the sponge absorbs. */
  ghost function Absorbed(e: Extension, op: Op): seq<Fe>
    requires IsExtension(e) && WellFormed(e, op)
  {
    match op
    case Scalars(s) => s
    case ObserveOnly(s) => s
    case Duplex => ZeroVec(RATE)
    case SampleVec(_) => []
    case SampleInRange(_, _) => []
    case Sumcheck(c, _) => Flatten(c)
    case BareSumcheck(b, alpha, _) => Flatten(ExpandedBare(e, b, alpha))
    case Grind(bits, w) => if bits == 0 then [] else [w]
  }

  /** What the prover puts in the transcript: one coefficient of every sumcheck polynomial is left out. */
  function Sent(op: Op): seq<Fe> {
    match op
    case Scalars(s) => s
    case ObserveOnly(_) => []
    case Duplex => []
    case SampleVec(_) => []
    case SampleInRange(_, _) => []
    case Sumcheck(c, _) => if c == [] then [] else Flatten(c[1..])
    case BareSumcheck(b, _, _) => if b == [] then [] else Flatten(b[1..])
    case Grind(bits, w) => if bits == 0 then [] else [w]
  }

  /** What the raw transcript gains: recorded absorptions, padded. */
  ghost function Recorded(e: Extension, op: Op): seq<Fe>
    requires IsExtension(e) && WellFormed(e, op)
  {
    match op
    case Scalars(_) => PaddedAll(Absorbed(e, op))
    case Sumcheck(_, _) => PaddedAll(Absorbed(e, op))
    case BareSumcheck(_, _, _) => PaddedAll(Absorbed(e, op))
    case Grind(_, _) => PaddedAll(Absorbed(e, op))
    case _ => []
  }

  ghost predicate WellFormed(e: Extension, op: Op) {
    match op
    case Sumcheck(c, claimed) => c != [] && Elements(c, e.dim) && |claimed| == e.dim
    case BareSumcheck(b, alpha, claimed) => b != [] && Elements(b, e.dim) && |alpha| == |claimed| == e.dim
    case SampleInRange(bits, _) => bits < FIELD_BITS
    case Grind(bits, _) => bits < FIELD_BITS
    case _ => true
  }

  /** The claimed sum is the polynomial's value at 0 plus its value at 1. */
  ghost predicate HonestSum(e: Extension, op: Op)
    requires IsExtension(e) && WellFormed(e, op)
  {
    match op
    case Sumcheck(c, claimed) => claimed == Plus(c[0], SumOf(c, e.dim))
    case BareSumcheck(b, alpha, claimed) =>
      claimed == Plus(ExpandedBare(e, b, alpha)[0], SumOf(ExpandedBare(e, b, alpha), e.dim))
    case _ => true
  }

  /** The number of rate blocks a sampling operation reads. */
  function BlocksOf(op: Op, dim: nat): nat {
    match op
    case SampleVec(len) => CeilDiv(len * dim)
    case SampleInRange(_, count) => CeilDiv(count)
    case _ => 0
  }

  function CeilDiv(n: nat): nat { (n + RATE - 1) / RATE }

  predicate LowBitsZero(x: Fe, bits: nat) { x % Pow2(bits) == 0 }

  /** Sampling needs a fresh rate; grinding needs a witness that passes the check. */
  ghost predicate CanStep(p: seq<Fe> -> seq<Fe>, e: Extension, s: Sponge, op: Op)
    requires IsSponge(s) && KeepsWidth(p) && IsExtension(e)
  {
    && WellFormed(e, op)
    && (BlocksOf(op, e.dim) > 0 ==> s.rateFresh)
    && (op.Grind? && op.bits > 0 ==> LowBitsZero(ObservedMany(p, s, [op.w]).state[CAPACITY], op.bits))
  }

  ghost function Stepped(p: seq<Fe> -> seq<Fe>, e: Extension, s: Sponge, op: Op): (r: Sponge)
    requires IsSponge(s) && KeepsWidth(p) && IsExtension(e) && WellFormed(e, op)
    ensures IsSponge(r)
  {
    AfterSamples(p, ObservedMany(p, s, Absorbed(e, op)), BlocksOf(op, e.dim))
  }

  /** What both sides learn from an operation, as base scalars. */
  ghost function Learned(p: seq<Fe> -> seq<Fe>, e: Extension, s: Sponge, op: Op): seq<Fe>
    requires IsSponge(s) && KeepsWidth(p) && IsExtension(e) && WellFormed(e, op)
  {
    match op
    case Scalars(x) => x
    case SampleVec(len) => FirstOf(SampledMany(p, s, BlocksOf(op, e.dim)), len * e.dim)
    case SampleInRange(bits, count) => LowBits(FirstOf(SampledMany(p, s, BlocksOf(op, e.dim)), count), bits)
    case Sumcheck(c, _) => Flatten(c)
    case BareSumcheck(b, alpha, _) => Flatten(ExpandedBare(e, b, alpha))
    case _ => []
  }

  function FirstOf(s: seq<Fe>, n: nat): (r: seq<Fe>)
    ensures |r| <= n
  {
    if n <= |s| then s[..n] else s
  }

  /** `x & (2^bits - 1)`. */
  function LowBits(s: seq<Fe>, bits: nat): (r: seq<Fe>)
    ensures |r| == |s| && forall i {:trigger r[i]} | 0 <= i < |r| :: r[i] == s[i] % Pow2(bits)
  {
    seq<Fe>(|s|, i requires 0 <= i < |s| => ModBound(s[i], Pow2(bits)))
  }

  function ModBound(x: Fe, d: nat): (r: Fe)
    requires d > 0
    ensures r == x % d
  {
    ModLeq(x, d);
    x % d
  }

  lemma ModLeq(x: nat, d: nat)
    requires d > 0
    ensures 0 <= x % d <= x
  {
    assert x == x / d * d + x % d;
    NonNegativeProduct(x / d, d);
  }

  // ----- the verifier's reading side

  datatype Error = ExceededTranscript | InvalidGrindingWitness

  datatype Result<T> = Ok(value: T) | Err(error: Error)

  /** The verifier's fields that matter here. */
  datatype Reader = Reader(sponge: Sponge, transcript: seq<Fe>, offset: nat, raw: seq<Fe>)

  ghost predicate IsReader(v: Reader) { IsSponge(v.sponge) && v.offset <= |v.transcript| }

  /** The missing constant coefficient: (claimed - sum of the rest) / 2. */
  ghost function RecoveredC0(claimed: seq<Fe>, rest: seq<seq<Fe>>, dim: nat): (r: seq<Fe>)
    requires |claimed| == dim && Elements(rest, dim)
    ensures |r| == dim
  {
    Times(HALF, Minus(claimed, SumOf(rest, dim)))
  }

  /** The missing bare coefficient: claimed - alpha * (sum of the rest). */
  ghost function RecoveredH0(e: Extension, claimed: seq<Fe>, alpha: seq<Fe>, rest: seq<seq<Fe>>): (r: seq<Fe>)
    requires IsExtension(e) && |claimed| == |alpha| == e.dim && Elements(rest, e.dim)
    ensures |r| == e.dim
  {
    Minus(claimed, Product(e, alpha, SumOf(rest, e.dim)))
  }

  lemma {:induction false} SumOfCons(x: seq<Fe>, rest: seq<seq<Fe>>, dim: nat)
    requires |x| == dim && Elements(rest, dim)
    ensures Elements([x] + rest, dim) && SumOf([x] + rest, dim) == Plus(x, SumOf(rest, dim))
    decreases |rest|
  {
    var all := [x] + rest;
    if rest == [] {
      assert all[..0] == [];
      PlusZero(x);
    } else {
      var n := |rest|;
      assert all[..n] == [x] + rest[..n - 1];
      SumOfCons(x, rest[..n - 1], dim);
      PlusAssoc(x, SumOf(rest[..n - 1], dim), rest[n - 1]);
    }
  }

  /** The dropped constant coefficient is recovered from an honest sum. */
  lemma C0Recovered(c: seq<seq<Fe>>, claimed: seq<Fe>, dim: nat)
    requires c != [] && Elements(c, dim) && |claimed| == dim && claimed == Plus(c[0], SumOf(c, dim))
    ensures RecoveredC0(claimed, c[1..], dim) == c[0]
  {
    var x, rest := c[0], c[1..];
    assert c == [x] + rest;
    SumOfCons(x, rest, dim);
    var s := SumOf(rest, dim);
    forall i | 0 <= i < dim ensures RecoveredC0(claimed, rest, dim)[i] == x[i] {
      HalfOfRemainder(x[i], s[i]);
    }
  }

  lemma HalfOfRemainder(x: Fe, s: Fe)
    ensures Mul(HALF, Sub(Add(x, Add(x, s)), s)) == x
  {
    LiftSelf(x);
    LiftSelf(s);
    LiftAdd(x, s);
    LiftAdd(x, x + s);
    LiftSub(x + (x + s), s);
    LiftAdd(x, x);
    assert x + (x + s) - s == x + x;
    HalveDouble(x);
    MulComm(HALF, Double(x));
  }

  /** (1 - a) h is h - a h. */
  lemma OneMinusTimes(e: Extension, a: seq<Fe>, h: seq<Fe>)
    requires IsExtension(e) && |a| == |h| == e.dim
    ensures Plus(Product(e, Minus(One(e), a), h), Product(e, a, h)) == h
  {
    hide IsExtension, Product;
    var m := Minus(One(e), a);
    forall i | 0 <= i < e.dim ensures Plus(m, a)[i] == One(e)[i] {
      AddComm(m[i], a[i]);
      AddOfSub(One(e)[i], a[i]);
    }
    assert Plus(m, a) == One(e);
    ProductLaws(e, m, a, h);
    ProductLaws(e, m, h, h);
  }

  lemma TwoMinusOne(e: Extension, a: seq<Fe>, h: seq<Fe>)
    requires IsExtension(e) && |a| == |h| == e.dim
    ensures Plus(Product(e, Minus(One(e), a), h), Product(e, Minus(Plus(a, a), One(e)), h)) == Product(e, a, h)
  {
    hide IsExtension, Product;
    var m, t := Minus(One(e), a), Minus(Plus(a, a), One(e));
    forall i | 0 <= i < e.dim ensures Plus(m, t)[i] == a[i] {
      TwoMinusOneEntry(One(e)[i], a[i]);
    }
    assert Plus(m, t) == a;
    ProductLaws(e, m, t, h);
  }

  lemma TwoMinusOneEntry(o: Fe, a: Fe)
    ensures Add(Sub(o, a), Sub(Add(a, a), o)) == a
  {
    LiftSelf(o);
    LiftSelf(a);
    LiftSub(o, a);
    LiftAdd(a, a);
    LiftSub(a + a, o);
    LiftAdd(o - a, a + a - o);
  }

  lemma ExpandedOfOne(e: Extension, h: seq<Fe>, alpha: seq<Fe>)
    requires IsExtension(e) && |h| == |alpha| == e.dim
    ensures SumOf(ExpandedBare(e, [h], alpha), e.dim) == Product(e, alpha, SumOf([h], e.dim))
  {
    hide IsExtension, Product;
    var full := ExpandedBare(e, [h], alpha);
    var head := full[..1];
    assert head == [full[0]] && head[..0] == [];
    SumSplitLast(full, e.dim);
    SumSplitLast(head, e.dim);
    PlusZero(full[0]);
    var one := [h];
    assert one[..0] == [];
    SumSplitLast(one, e.dim);
    PlusZero(h);
    TwoMinusOne(e, alpha, h);
  }

  /** Dropping the last bare coefficient changes only the last two expanded ones. */
  lemma ExpandedPrefix(e: Extension, bare: seq<seq<Fe>>, alpha: seq<Fe>)
    requires IsExtension(e) && Elements(bare, e.dim) && |alpha| == e.dim && |bare| > 1
    ensures var n := |bare|;
            var m, t := Minus(One(e), alpha), Minus(Plus(alpha, alpha), One(e));
            var full, fp := ExpandedBare(e, bare, alpha), ExpandedBare(e, bare[..n - 1], alpha);
            && full[..n - 1] == fp[..n - 1] && full[n] == Product(e, t, bare[n - 1])
            && full[n - 1] == Plus(Product(e, m, bare[n - 1]), fp[n - 1])
  {
    hide IsExtension, Product, Plus, Minus, One, ExpandedBare;
    var n := |bare|;
    var full, fp := ExpandedBare(e, bare, alpha), ExpandedBare(e, bare[..n - 1], alpha);
    forall k | 0 <= k < n - 1 ensures full[k] == fp[k] {
      ExpandedOfPrefix(e, bare, alpha, k);
    }
    assert full[..n - 1] == fp[..n - 1];
  }

  lemma ExpandedOfPrefix(e: Extension, bare: seq<seq<Fe>>, alpha: seq<Fe>, k: nat)
    requires IsExtension(e) && Elements(bare, e.dim) && |alpha| == e.dim && k < |bare| - 1
    ensures ExpandedAt(e, bare[..|bare| - 1], alpha, k) == ExpandedAt(e, bare, alpha, k)
  {
    hide IsExtension, Product, Plus, Minus, One;
  }

  /** The sum of the expanded coefficients is alpha times the sum of the bare ones. */
  lemma {:induction false} ExpandedSum(e: Extension, bare: seq<seq<Fe>>, alpha: seq<Fe>)
    requires IsExtension(e) && Elements(bare, e.dim) && |alpha| == e.dim && bare != []
    ensures SumOf(ExpandedBare(e, bare, alpha), e.dim) == Product(e, alpha, SumOf(bare, e.dim))
    decreases |bare|
  {
    hide IsExtension, Product, Plus, Minus;
    var n := |bare|;
    var last := bare[n - 1];
    if n == 1 {
      assert bare == [last];
      ExpandedOfOne(e, last, alpha);
    } else {
      var m, t := Minus(One(e), alpha), Minus(Plus(alpha, alpha), One(e));
      var prev := bare[..n - 1];
      var full, fp := ExpandedBare(e, bare, alpha), ExpandedBare(e, prev, alpha);
      ExpandedPrefix(e, bare, alpha);
      hide ExpandedBare;
      ExpandedSum(e, prev, alpha);
      SumSplitLast(bare, e.dim);
      hide SumOf;
      SumOfLonger(full, fp, n, Product(e, m, last), Product(e, t, last), e.dim);
      TwoMinusOne(e, alpha, last);
      ProductLaws(e, alpha, SumOf(prev, e.dim), last);
    }
  }

  /** The sum of a list whose last entry gained a and which is followed by b. */
  lemma SumOfLonger(full: seq<seq<Fe>>, fp: seq<seq<Fe>>, n: nat, a: seq<Fe>, b: seq<Fe>, dim: nat)
    requires n > 0 && |fp| == n && |full| == n + 1 && Elements(full, dim) && Elements(fp, dim) && |a| == |b| == dim
    requires full[..n - 1] == fp[..n - 1] && full[n] == b && full[n - 1] == Plus(a, fp[n - 1])
    ensures SumOf(full, dim) == Plus(SumOf(fp, dim), Plus(a, b))
  {
    hide Plus;
    SumSplitLast(fp, dim);
    SumSplitLast(full, dim);
    var head := full[..n];
    assert head[..n - 1] == full[..n - 1] && head[n - 1] == full[n - 1];
    SumSplitLast(head, dim);
    SumsMeet(SumOf(fp[..n - 1], dim), fp[n - 1], a, b);
  }

  lemma SumSplitLast(xs: seq<seq<Fe>>, dim: nat)
    requires Elements(xs, dim) && xs != []
    ensures Elements(xs[..|xs| - 1], dim) && SumOf(xs, dim) == Plus(SumOf(xs[..|xs| - 1], dim), xs[|xs| - 1])
  {
  }

  lemma SumsMeet(s: seq<Fe>, f: seq<Fe>, a: seq<Fe>, b: seq<Fe>)
    requires |s| == |f| == |a| == |b|
    ensures Plus(Plus(s, Plus(a, f)), b) == Plus(Plus(s, f), Plus(a, b))
  {
    PlusComm(a, f);
    PlusAssoc(s, f, a);
    PlusAssoc(Plus(s, f), a, b);
  }

  /** An honest claim is the bare constant coefficient plus alpha times the sum of the others. */
  lemma HonestBareClaim(e: Extension, bare: seq<seq<Fe>>, alpha: seq<Fe>)
    requires IsExtension(e) && Elements(bare, e.dim) && |alpha| == e.dim && bare != []
    ensures Plus(ExpandedBare(e, bare, alpha)[0], SumOf(ExpandedBare(e, bare, alpha), e.dim))
         == Plus(bare[0], Product(e, alpha, SumOf(bare[1..], e.dim)))
  {
    var h, rest := bare[0], bare[1..];
    var m := Product(e, Minus(One(e), alpha), h);
    assert ExpandedBare(e, bare, alpha)[0] == m;
    hide IsExtension, Product, SumOf, ExpandedBare, Plus, Minus;
    ExpandedSum(e, bare, alpha);
    assert bare == [h] + rest;
    SumOfCons(h, rest, e.dim);
    var s := SumOf(rest, e.dim);
    ProductLaws(e, alpha, h, s);
    OneMinusTimes(e, alpha, h);
    PlusAssoc(m, Product(e, alpha, h), Product(e, alpha, s));
  }

  /** The dropped bare coefficient is recovered from an honest sum. */
  lemma H0Recovered(e: Extension, bare: seq<seq<Fe>>, alpha: seq<Fe>, claimed: seq<Fe>)
    requires IsExtension(e) && Elements(bare, e.dim) && |alpha| == |claimed| == e.dim && bare != []
    requires claimed == Plus(ExpandedBare(e, bare, alpha)[0], SumOf(ExpandedBare(e, bare, alpha), e.dim))
    ensures RecoveredH0(e, claimed, alpha, bare[1..]) == bare[0]
  {
    hide IsExtension, SumOf, ExpandedBare, Product;
    HonestBareClaim(e, bare, alpha);
    MinusOfPlus(bare[0], Product(e, alpha, SumOf(bare[1..], e.dim)));
  }

  lemma MinusOfPlus(h: seq<Fe>, u: seq<Fe>)
    requires |h| == |u|
    ensures Minus(Plus(h, u), u) == h
  {
    forall i | 0 <= i < |h| ensures Minus(Plus(h, u), u)[i] == h[i] {
      SubOfAddRight(h[i], u[i]);
    }
  }

  lemma SubOfAddRight(u: Fe, v: Fe)
    ensures Sub(Add(u, v), v) == u
  {
    LiftSelf(u);
    LiftSelf(v);
    LiftAdd(u, v);
    LiftSub(u + v, v);
  }

  // ----- reading back

  /** next_base_scalars_vec. */
  ghost function ReadScalars(p: seq<Fe> -> seq<Fe>, v: Reader, n: nat): (Result<seq<Fe>>, Reader)
    requires IsReader(v) && KeepsWidth(p)
  {
    if v.offset + n > |v.transcript| then (Err(ExceededTranscript), v)
    else
      var s := v.transcript[v.offset..v.offset + n];
      (Ok(s), Reader(ObservedMany(p, v.sponge, s), v.transcript, v.offset + n, v.raw + PaddedAll(s)))
  }

  /** check_pow_grinding. */
  ghost function CheckedPow(p: seq<Fe> -> seq<Fe>, v: Reader, bits: nat): (Result<seq<Fe>>, Reader)
    requires IsReader(v) && KeepsWidth(p)
  {
    if bits == 0 then (Ok([]), v)
    else if v.offset + 1 > |v.transcript| then (Err(ExceededTranscript), v)
    else
      var w := v.transcript[v.offset];
      var s := ObservedMany(p, v.sponge, [w]);
      if LowBitsZero(s.state[CAPACITY], bits) then
        (Ok([]), Reader(s, v.transcript, v.offset + 1, v.raw + [w] + ZeroVec(RATE - 1)))
      else (Err(InvalidGrindingWitness), Reader(s, v.transcript, v.offset + 1, v.raw))
  }

  /** next_sumcheck_polynomial with eq_alpha = None. */
  ghost function ReadSumcheck(p: seq<Fe> -> seq<Fe>, e: Extension, v: Reader, nCoeffs: nat, claimed: seq<Fe>): (Result<seq<Fe>>, Reader)
    requires IsReader(v) && KeepsWidth(p) && IsExtension(e) && |claimed| == e.dim && nCoeffs > 0
  {
    var n := (nCoeffs - 1) * e.dim;
    if v.offset + n > |v.transcript| then (Err(ExceededTranscript), v)
    else
      var s := v.transcript[v.offset..v.offset + n];
      MultipleOf(nCoeffs - 1, e.dim);
      FlattenPack(s, e.dim);
      var all := RecoveredC0(claimed, Pack(s, e.dim), e.dim) + s;
      (Ok(all), Reader(ObservedMany(p, v.sponge, all), v.transcript, v.offset + n, v.raw + PaddedAll(all)))
  }

  /** next_sumcheck_polynomial with eq_alpha = Some(alpha). */
  ghost function ReadBareSumcheck(p: seq<Fe> -> seq<Fe>, e: Extension, v: Reader, nCoeffs: nat, claimed: seq<Fe>, alpha: seq<Fe>):
    (Result<seq<Fe>>, Reader)
    requires IsReader(v) && KeepsWidth(p) && IsExtension(e) && |claimed| == |alpha| == e.dim && nCoeffs > 1
  {
    var n := (nCoeffs - 2) * e.dim;
    if v.offset + n > |v.transcript| then (Err(ExceededTranscript), v)
    else
      var s := v.transcript[v.offset..v.offset + n];
      MultipleOf(nCoeffs - 2, e.dim);
      FlattenPack(s, e.dim);
      var rest := Pack(s, e.dim);
      var all := Flatten(ExpandedBare(e, [RecoveredH0(e, claimed, alpha, rest)] + rest, alpha));
      (Ok(all), Reader(ObservedMany(p, v.sponge, all), v.transcript, v.offset + n, v.raw + PaddedAll(all)))
  }

  lemma MultipleOf(q: nat, d: nat)
    requires d > 0
    ensures q * d % d == 0 && q * d >= 0
  {
    DivExact(q, d);
  }

  /** The verifier's counterpart of an operation: it only sees sizes, claimed sums and its own transcript. */
  ghost function Replayed(p: seq<Fe> -> seq<Fe>, e: Extension, v: Reader, op: Op): (Result<seq<Fe>>, Reader)
    requires IsReader(v) && KeepsWidth(p) && IsExtension(e) && WellFormed(e, op)
  {
    match op
    case Scalars(s) => ReadScalars(p, v, |s|)
    case Sumcheck(c, claimed) => ReadSumcheck(p, e, v, |c|, claimed)
    case BareSumcheck(b, alpha, claimed) => ReadBareSumcheck(p, e, v, |b| + 1, claimed, alpha)
    case Grind(bits, _) => CheckedPow(p, v, bits)
    case _ => (Ok(Learned(p, e, v.sponge, op)), v.(sponge := Stepped(p, e, v.sponge, op)))
  }

  /** The verifier's step on an operation is what it should be. */
  ghost predicate InStep(p: seq<Fe> -> seq<Fe>, e: Extension, v: Reader, op: Op)
    requires IsReader(v) && KeepsWidth(p) && IsExtension(e) && WellFormed(e, op)
  {
    var (r, w) := Replayed(p, e, v, op);
    && r == Ok(Learned(p, e, v.sponge, op))
    && w == Reader(Stepped(p, e, v.sponge, op), v.transcript, v.offset + |Sent(op)|, v.raw + Recorded(e, op))
  }

  ghost predicate Holds(v: Reader, sent: seq<Fe>) {
    v.offset + |sent| <= |v.transcript| && v.transcript[v.offset..v.offset + |sent|] == sent
  }

  lemma SumcheckInStep(p: seq<Fe> -> seq<Fe>, e: Extension, v: Reader, op: Op)
    requires IsReader(v) && KeepsWidth(p) && IsExtension(e) && op.Sumcheck? && WellFormed(e, op) && HonestSum(e, op)
    requires Holds(v, Sent(op))
    ensures InStep(p, e, v, op)
  {
    var c := op.coeffs;
    FlattenLength(c[1..], e.dim);
    PackFlatten(c[1..], e.dim);
    C0Recovered(c, op.claimed, e.dim);
    hide IsExtension, SumOf, ObservedMany, PaddedAll, RecoveredC0, KeepsWidth, Pack;
    var s := Flatten(c[1..]);
    MultipleOf(|c| - 1, e.dim);
    FlattenPack(s, e.dim);
    assert Flatten(c) == c[0] + s;
  }

  /** Reading when the dropped coefficient is recovered. */
  lemma BareRead(p: seq<Fe> -> seq<Fe>, e: Extension, v: Reader, b: seq<seq<Fe>>, alpha: seq<Fe>, claimed: seq<Fe>)
    requires IsReader(v) && KeepsWidth(p) && IsExtension(e) && b != [] && Elements(b, e.dim) && |alpha| == |claimed| == e.dim
    requires RecoveredH0(e, claimed, alpha, b[1..]) == b[0] && Holds(v, Flatten(b[1..]))
    requires Pack(Flatten(b[1..]), e.dim) == b[1..] && |Flatten(b[1..])| == (|b| - 1) * e.dim
    ensures var all := Flatten(ExpandedBare(e, b, alpha));
            ReadBareSumcheck(p, e, v, |b| + 1, claimed, alpha)
            == (Ok(all), Reader(ObservedMany(p, v.sponge, all), v.transcript, v.offset + |Flatten(b[1..])|, v.raw + PaddedAll(all)))
  {
    hide IsExtension, SumOf, ObservedMany, PaddedAll, RecoveredH0, KeepsWidth, Pack, ExpandedBare, Flatten;
    var s := Flatten(b[1..]);
    assert v.transcript[v.offset..v.offset + |s|] == s;
    assert [b[0]] + b[1..] == b;
  }

  lemma BareSumcheckInStep(p: seq<Fe> -> seq<Fe>, e: Extension, v: Reader, op: Op)
    requires IsReader(v) && KeepsWidth(p) && IsExtension(e) && op.BareSumcheck? && WellFormed(e, op) && HonestSum(e, op)
    requires Holds(v, Sent(op))
    ensures InStep(p, e, v, op)
  {
    var b := op.bare;
    assert Elements(b[1..], e.dim);
    H0Recovered(e, b, op.alpha, op.claimed);
    hide IsExtension, SumOf, ObservedMany, PaddedAll, RecoveredH0, KeepsWidth, Pack, ExpandedBare, Flatten, Elements, ReadBareSumcheck, Holds;
    FlattenLength(b[1..], e.dim);
    PackFlatten(b[1..], e.dim);
    BareRead(p, e, v, b, op.alpha, op.claimed);
  }

  lemma GrindInStep(p: seq<Fe> -> seq<Fe>, e: Extension, v: Reader, op: Op)
    requires IsReader(v) && KeepsWidth(p) && IsExtension(e) && op.Grind? && CanStep(p, e, v.sponge, op)
    requires Holds(v, Sent(op))
    ensures InStep(p, e, v, op)
  {
    hide IsExtension, KeepsWidth;
    if op.bits > 0 {
      assert v.transcript[v.offset] == v.transcript[v.offset..v.offset + 1][0] == op.w;
      assert PaddedAll([op.w]) == [op.w] + ZeroVec(RATE - 1);
      assert v.raw + [op.w] + ZeroVec(RATE - 1) == v.raw + ([op.w] + ZeroVec(RATE - 1));
    } else {
      assert v.raw + [] == v.raw;
    }
  }

  /** One operation: the verifier finds the sent scalars at its offset, learns the same values and stays in step. */
  lemma StepInSync(p: seq<Fe> -> seq<Fe>, e: Extension, v: Reader, op: Op, after: seq<Fe>)
    requires IsReader(v) && KeepsWidth(p) && IsExtension(e) && CanStep(p, e, v.sponge, op) && HonestSum(e, op)
    requires v.transcript[v.offset..] == Sent(op) + after
    ensures InStep(p, e, v, op)
  {
    var sent := Sent(op);
    assert |v.transcript| - v.offset == |sent| + |after|;
    assert v.transcript[v.offset..v.offset + |sent|] == v.transcript[v.offset..][..|sent|] == sent;
    assert v.raw + [] == v.raw;
    match op
    case Sumcheck(_, _) => SumcheckInStep(p, e, v, op);
    case BareSumcheck(_, _, _) => BareSumcheckInStep(p, e, v, op);
    case Grind(_, _) => GrindInStep(p, e, v, op);
    case _ =>
  }

  // ----- whole runs

  /** The prover does not panic and its sums are honest. */
  ghost predicate CanRun(p: seq<Fe> -> seq<Fe>, e: Extension, s: Sponge, ops: seq<Op>)
    requires IsSponge(s) && KeepsWidth(p) && IsExtension(e)
    decreases |ops|
  {
    ops == []
    || (CanStep(p, e, s, ops[0]) && HonestSum(e, ops[0]) && CanRun(p, e, Stepped(p, e, s, ops[0]), ops[1..]))
  }

  ghost function AllSent(ops: seq<Op>): seq<Fe> {
    if ops == [] then [] else Sent(ops[0]) + AllSent(ops[1..])
  }

  /** Every operation of the run is replayed with the same outcome and the same sponge. */
  ghost predicate RunsInSync(p: seq<Fe> -> seq<Fe>, e: Extension, s: Sponge, v: Reader, ops: seq<Op>)
    requires IsSponge(s) && IsReader(v) && KeepsWidth(p) && IsExtension(e)
    decreases |ops|
  {
    v.sponge == s
    && (ops != [] ==>
          && WellFormed(e, ops[0])
          && var (r, w) := Replayed(p, e, v, ops[0]);
             r == Ok(Learned(p, e, s, ops[0])) && IsReader(w) && RunsInSync(p, e, Stepped(p, e, s, ops[0]), w, ops[1..]))
  }

  /** A verifier replaying the prover's transcript reads the same values and never diverges. */
  lemma {:induction false} VerifierFollows(p: seq<Fe> -> seq<Fe>, e: Extension, v: Reader, ops: seq<Op>, after: seq<Fe>)
    requires IsReader(v) && KeepsWidth(p) && IsExtension(e) && CanRun(p, e, v.sponge, ops)
    requires v.transcript[v.offset..] == AllSent(ops) + after
    ensures RunsInSync(p, e, v.sponge, v, ops)
    decreases |ops|
  {
    hide IsExtension, HonestSum, Learned, Sent;
    if ops != [] {
      var rest := AllSent(ops[1..]) + after;
      assert Sent(ops[0]) + rest == AllSent(ops) + after;
      StepInSync(p, e, v, ops[0], rest);
      var (r, w) := Replayed(p, e, v, ops[0]);
      assert w.transcript[w.offset..] == v.transcript[v.offset..][|Sent(ops[0])|..] == rest;
      VerifierFollows(p, e, w, ops[1..], after);
    }
  }

  // ----- the raw transcript

  /** A third machine reads only the raw transcript, in blocks of RATE. */
  ghost function RawStepped(p: seq<Fe> -> seq<Fe>, e: Extension, s: Sponge, op: Op, raw: seq<Fe>): (r: Sponge)
    requires IsSponge(s) && KeepsWidth(p) && IsExtension(e) && WellFormed(e, op)
    ensures IsSponge(r)
  {
    if op.ObserveOnly? || op.Duplex? || op.SampleVec? || op.SampleInRange? then Stepped(p, e, s, op)
    else ObservedMany(p, s, raw)
  }

  /** The recorded blocks drive the sponge exactly like the original absorption. */
  lemma RawStepInSync(p: seq<Fe> -> seq<Fe>, e: Extension, s: Sponge, op: Op)
    requires IsSponge(s) && KeepsWidth(p) && IsExtension(e) && WellFormed(e, op)
    ensures |Recorded(e, op)| % RATE == 0
    ensures RawStepped(p, e, s, op, Recorded(e, op)) == Stepped(p, e, s, op)
  {
    PaddedAllIs(Absorbed(e, op));
    PaddingIsInvisible(p, s, Absorbed(e, op));
  }

  ghost predicate AllWellFormedOps(e: Extension, ops: seq<Op>)
    requires IsExtension(e)
  {
    forall i {:trigger ops[i]} | 0 <= i < |ops| :: WellFormed(e, ops[i])
  }

  ghost function AllStepped(p: seq<Fe> -> seq<Fe>, e: Extension, s: Sponge, ops: seq<Op>): (r: Sponge)
    requires IsSponge(s) && KeepsWidth(p) && IsExtension(e) && AllWellFormedOps(e, ops)
    ensures IsSponge(r)
    decreases |ops|
  {
    if ops == [] then s else AllStepped(p, e, Stepped(p, e, s, ops[0]), ops[1..])
  }

  ghost function AllRecorded(e: Extension, ops: seq<Op>): seq<Fe>
    requires IsExtension(e) && AllWellFormedOps(e, ops)
  {
    if ops == [] then [] else Recorded(e, ops[0]) + AllRecorded(e, ops[1..])
  }

  /** The sponge driven by the raw transcript alone (plus the unrecorded observations). */
  ghost function RawRun(p: seq<Fe> -> seq<Fe>, e: Extension, s: Sponge, ops: seq<Op>, raw: seq<Fe>): (r: Sponge)
    requires IsSponge(s) && KeepsWidth(p) && IsExtension(e) && AllWellFormedOps(e, ops) && |raw| >= |AllRecorded(e, ops)|
    decreases |ops|
  {
    if ops == [] then s
    else
      var k := |Recorded(e, ops[0])|;
      RawRun(p, e, RawStepped(p, e, s, ops[0], raw[..k]), ops[1..], raw[k..])
  }

  /** The raw transcript, read in blocks of RATE, drives the sponge through the same states. */
  lemma {:induction false} RawFollows(p: seq<Fe> -> seq<Fe>, e: Extension, s: Sponge, ops: seq<Op>)
    requires IsSponge(s) && KeepsWidth(p) && IsExtension(e) && AllWellFormedOps(e, ops)
    ensures |AllRecorded(e, ops)| % RATE == 0
    ensures RawRun(p, e, s, ops, AllRecorded(e, ops)) == AllStepped(p, e, s, ops)
    decreases |ops|
  {
    hide IsExtension, KeepsWidth, RawStepped, Stepped, Recorded;
    if ops != [] {
      var k := |Recorded(e, ops[0])|;
      var raw := AllRecorded(e, ops);
      RawStepInSync(p, e, s, ops[0]);
      RawFollows(p, e, Stepped(p, e, s, ops[0]), ops[1..]);
      assert raw[..k] == Recorded(e, ops[0]) && raw[k..] == AllRecorded(e, ops[1..]);
    }
  }

  lemma {:induction false} RunIsWellFormed(p: seq<Fe> -> seq<Fe>, e: Extension, s: Sponge, ops: seq<Op>)
    requires IsSponge(s) && KeepsWidth(p) && IsExtension(e) && CanRun(p, e, s, ops)
    ensures AllWellFormedOps(e, ops)
    decreases |ops|
  {
    if ops != [] {
      RunIsWellFormed(p, e, Stepped(p, e, s, ops[0]), ops[1..]);
      forall i {:trigger ops[i]} | 0 <= i < |ops| ensures WellFormed(e, ops[i]) {
        if i > 0 {
          assert ops[i] == ops[1..][i - 1];
        }
      }
    }
  }

  ghost function ReaderAfter(p: seq<Fe> -> seq<Fe>, e: Extension, v: Reader, ops: seq<Op>): Reader
    requires IsReader(v) && KeepsWidth(p) && IsExtension(e)
    decreases |ops|
  {
    if ops == [] || !WellFormed(e, ops[0]) then v
    else
      var (r, w) := Replayed(p, e, v, ops[0]);
      if IsReader(w) then ReaderAfter(p, e, w, ops[1..]) else w
  }

  /** After the whole run the verifier has read everything that was sent, and its raw transcript is complete. */
  lemma {:induction false} FinalReader(p: seq<Fe> -> seq<Fe>, e: Extension, v: Reader, ops: seq<Op>, after: seq<Fe>)
    requires IsReader(v) && KeepsWidth(p) && IsExtension(e) && CanRun(p, e, v.sponge, ops)
    requires v.transcript[v.offset..] == AllSent(ops) + after
    ensures AllWellFormedOps(e, ops)
    ensures ReaderAfter(p, e, v, ops)
         == Reader(AllStepped(p, e, v.sponge, ops), v.transcript, v.offset + |AllSent(ops)|, v.raw + AllRecorded(e, ops))
    decreases |ops|
  {
    hide IsExtension, KeepsWidth, CanStep, HonestSum, Stepped, Recorded, Replayed, Sent, Learned;
    RunIsWellFormed(p, e, v.sponge, ops);
    if ops == [] {
      assert v.raw + [] == v.raw;
    } else {
      var rest := AllSent(ops[1..]) + after;
      assert Sent(ops[0]) + rest == AllSent(ops) + after;
      StepInSync(p, e, v, ops[0], rest);
      var w := Replayed(p, e, v, ops[0]).1;
      assert w.transcript[w.offset..] == v.transcript[v.offset..][|Sent(ops[0])|..] == rest;
      FinalReader(p, e, w, ops[1..], after);
      assert v.raw + Recorded(e, ops[0]) + AllRecorded(e, ops[1..]) == v.raw + AllRecorded(e, ops);
    }
  }
}
