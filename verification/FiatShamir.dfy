/**
 The challenger, prover and verifier state machines (crates/backend/fiat-shamir/src).  Every method
 is the corresponding step of module Transcript on the object's state.
 */
module FiatShamir {
  import opened Arith
  import opened Field
  import opened Prime
  import opened Interpolation
  import opened LinearAlgebra
  import opened Transcript
  import opened TranscriptLaws
  import MP = MerklePruning

  class Challenger {
    const permutation: seq<Fe> -> seq<Fe>
    const state: array<Fe>
    var rateFresh: bool

    ghost predicate Valid()
      reads this, state
    {
      state.Length == WIDTH && KeepsWidth(permutation)
    }

    ghost function Value(): (s: Sponge)
      requires Valid()
      reads this, state
      ensures IsSponge(s)
    {
      Sponge(state[..], rateFresh)
    }

    constructor (permutation: seq<Fe> -> seq<Fe>)
      requires KeepsWidth(permutation)
      ensures Valid() && fresh(state) && this.permutation == permutation && Value() == Sponge(ZeroVec(WIDTH), false)
    {
      this.permutation := permutation;
      var s := new Fe[WIDTH](_ => 0);
      state := s;
      rateFresh := false;
      new;
      assert state[..] == ZeroVec(WIDTH);
    }

    method Observe(value: seq<Fe>)
      requires Valid() && |value| == RATE
      modifies this, state
      ensures Valid() && Value() == Observed(permutation, old(Value()), value)
      ensures state[..] == permutation(old(state[..CAPACITY]) + value) && rateFresh
    {
      ghost var was := state[..];
      for i := 0 to RATE
        invariant forall j {:trigger state[j]} | 0 <= j < WIDTH ::
                    state[j] == if CAPACITY <= j < CAPACITY + i then value[j - CAPACITY] else was[j]
      {
        state[CAPACITY + i] := value[i];
      }
      assert state[..] == was[..CAPACITY] + value;
      var next := permutation(state[..]);
      for i := 0 to WIDTH
        invariant forall j {:trigger state[j]} | 0 <= j < i :: state[j] == next[j]
      {
        state[i] := next[i];
      }
      assert state[..] == next;
      rateFresh := true;
    }

    method ObserveMany(scalars: seq<Fe>)
      requires Valid()
      modifies this, state
      ensures Valid() && Value() == ObservedMany(permutation, old(Value()), scalars)
    {
      hide Observed;
      var rest := scalars;
      while rest != []
        invariant Valid()
        invariant ObservedMany(permutation, Value(), rest) == ObservedMany(permutation, old(Value()), scalars)
        decreases |rest|
      {
        var n := if |rest| < RATE then |rest| else RATE;
        var chunk := rest[..n];
        var buffer := Padded(chunk);
        if |rest| >= RATE {
          assert buffer == chunk;
        }
        if |rest| <= RATE {
          assert chunk == rest && rest[n..] == [];
        }
        Observe(buffer);
        rest := rest[n..];
      }
    }

    method Duplex()
      requires Valid()
      modifies this, state
      ensures Valid() && Value() == Duplexed(permutation, old(Value()))
    {
      Observe(ZeroVec(RATE));
    }

    /** The rate must be fresh: the source asserts it. */
    method Sample() returns (out: seq<Fe>)
      requires Valid() && rateFresh
      modifies this
      ensures Valid() && out == RateOf(old(Value())) && Value() == AfterSample(old(Value()))
    {
      out := state[CAPACITY..];
      rateFresh := false;
    }

    method SampleMany(n: nat) returns (out: seq<seq<Fe>>)
      requires Valid() && (n > 0 ==> rateFresh)
      modifies this, state
      ensures Valid() && |out| == n && Flatten(out) == SampledMany(permutation, old(Value()), n)
      ensures Value() == AfterSamples(permutation, old(Value()), n)
    {
      if n == 0 {
        return [];
      }
      hide Observed, Flatten;
      ghost var s := Value();
      var first := Sample();
      out := [first];
      FlattenOne(first);
      for k := 1 to n
        invariant Valid() && |out| == k
        invariant Flatten(out) == SampledMany(permutation, s, k) && Value() == AfterSamples(permutation, s, k)
      {
        Duplex();
        var block := Sample();
        FlattenSnoc(out, block);
        out := out + [block];
      }
    }

    /** Index k is the low bits of cell k % RATE of the rate, after k / RATE further permutations. */
    method SampleInRange(bits: nat, count: nat) returns (res: seq<Fe>)
      requires Valid() && bits < FIELD_BITS && (CeilDiv(count) > 0 ==> rateFresh)
      modifies this, state
      ensures Valid() && Value() == AfterSamples(permutation, old(Value()), CeilDiv(count))
      ensures res == LowBits(FirstOf(SampledMany(permutation, old(Value()), CeilDiv(count)), count), bits)
      ensures |res| == count
      ensures forall k: nat {:trigger res[k]} | k < count ::
                res[k] == Cleared(permutation, old(state[..]), k / RATE)[CAPACITY + k % RATE] % Pow2(bits)
    {
      hide Cleared, SampledMany, AfterSamples, CeilDiv, Pow2, KeepsWidth;
      ghost var s := Value();
      var blocks := SampleMany(CeilDiv(count));
      var scalars := FirstOf(Flatten(blocks), count);
      res := [];
      for i := 0 to |scalars|
        invariant |res| == i && forall k {:trigger res[k]} | 0 <= k < i :: res[k] == scalars[k] % Pow2(bits)
      {
        res := res + [ModBound(scalars[i], Pow2(bits))];
      }
      assert res == LowBits(scalars, bits);
      InRangeCells(permutation, s, bits, count);
    }
  }

  lemma FlattenOne(x: seq<Fe>)
    ensures Flatten([x]) == x
  {
    var one := [x];
    assert one[1..] == [];
    assert x + [] == x;
  }

  lemma {:induction false} FlattenSnoc(xs: seq<seq<Fe>>, x: seq<Fe>)
    ensures Flatten(xs + [x]) == Flatten(xs) + x
    decreases |xs|
  {
    if xs == [] {
      assert xs + [x] == [x];
      FlattenOne(x);
    } else {
      assert (xs + [x])[1..] == xs[1..] + [x];
      FlattenSnoc(xs[1..], x);
    }
  }

  /** sample_vec: base scalars regrouped into extension elements. */
  method SampleExtension(c: Challenger, len: nat, dim: nat) returns (res: seq<seq<Fe>>, scalars: seq<Fe>)
    requires c.Valid() && 1 <= dim <= RATE && (CeilDiv(len * dim) > 0 ==> c.rateFresh)
    modifies c, c.state
    ensures c.Valid() && c.Value() == AfterSamples(c.permutation, old(c.Value()), CeilDiv(len * dim))
    ensures scalars == FirstOf(SampledMany(c.permutation, old(c.Value()), CeilDiv(len * dim)), len * dim)
    ensures |scalars| == len * dim && |res| == len && Elements(res, dim) && Flatten(res) == scalars
    ensures forall k: nat {:trigger scalars[k]} | k < |scalars| ::
              scalars[k] == Cleared(c.permutation, old(c.state[..]), k / RATE)[CAPACITY + k % RATE]
  {
    NonNegativeProduct(len, dim);
    SampledCells(c.permutation, c.Value(), len * dim);
    var blocks := c.SampleMany(CeilDiv(len * dim));
    EnoughBlocks(len * dim);
    scalars := FirstOf(Flatten(blocks), len * dim);
    MultipleOf(len, dim);
    res := Pack(scalars, dim);
    FlattenPack(scalars, dim);
    FlattenLength(res, dim);
    SameProduct(|res|, len, dim);
  }

  lemma SameProduct(a: nat, b: nat, d: nat)
    requires a * d == b * d && d > 0
    ensures a == b
  {
    DivExact(a, d);
    DivExact(b, d);
  }

  /** expand_bare_to_full. */
  method ExpandBareToFull(e: Extension, bare: seq<seq<Fe>>, alpha: seq<Fe>) returns (full: seq<seq<Fe>>)
    requires IsExtension(e) && Elements(bare, e.dim) && |alpha| == e.dim && bare != []
    ensures full == ExpandedBare(e, bare, alpha)
  {
    hide IsExtension, ExpandedBare, Plus, Minus;
    var one := Unit(0, e.dim);
    var oneMinusAlpha := Minus(one, alpha);
    var twoAlphaMinusOne := Minus(Plus(alpha, alpha), one);
    var d := |bare| - 1;
    ghost var all := ExpandedBare(e, bare, alpha);
    ExpandedAt(e, bare, alpha, 0);
    full := [e.mul(oneMinusAlpha, bare[0])];
    for k := 1 to d + 1
      invariant |full| == k && forall i {:trigger full[i]} | 0 <= i < k :: full[i] == all[i]
    {
      ExpandedAt(e, bare, alpha, k);
      full := full + [Plus(e.mul(oneMinusAlpha, bare[k]), e.mul(twoAlphaMinusOne, bare[k - 1]))];
    }
    ExpandedAt(e, bare, alpha, d + 1);
    full := full + [e.mul(twoAlphaMinusOne, bare[d])];
    assert full == all;
  }

  lemma ExpandedAt(e: Extension, bare: seq<seq<Fe>>, alpha: seq<Fe>, k: nat)
    requires IsExtension(e) && Elements(bare, e.dim) && |alpha| == e.dim && bare != [] && k <= |bare|
    ensures var m, t := Minus(Unit(0, e.dim), alpha), Minus(Plus(alpha, alpha), Unit(0, e.dim));
            && (k < |bare| ==> |e.mul(m, bare[k])| == e.dim) && (k > 0 ==> |e.mul(t, bare[k - 1])| == e.dim)
            && ExpandedBare(e, bare, alpha)[k]
               == if k == 0 then e.mul(m, bare[0]) else if k == |bare| then e.mul(t, bare[k - 1])
                  else Plus(e.mul(m, bare[k]), e.mul(t, bare[k - 1]))
  {
    if k < |bare| {
      assert |bare[k]| == e.dim;
    }
    if k > 0 {
      assert |bare[k - 1]| == e.dim;
    }
    var m, t := Minus(One(e), alpha), Minus(Plus(alpha, alpha), One(e));
    var full := ExpandedBare(e, bare, alpha);
    if k == 0 {
      assert full[0] == Product(e, m, bare[0]);
    } else if k == |bare| {
      assert full[k] == Product(e, t, bare[k - 1]);
    } else {
      assert full[k] == Plus(Product(e, m, bare[k]), Product(e, t, bare[k - 1]));
    }
  }

  // ----- the prover

  datatype MerkleOpening = MerkleOpening(leafData: seq<Fe>, path: seq<MP.Digest>)

  /** The paths of one hint and the tree they come from. */
  datatype Hint = Hint(paths: seq<MP.MerklePath>, tree: MP.Tree)

  ghost predicate IsHint(h: Hint, hs: MP.Hashes) {
    MP.IsTree(h.tree) && h.paths != [] && MP.AllFromTree(h.paths, h.tree, hs)
  }

  ghost predicate HintsPruned(pruned: seq<MP.PrunedMerklePaths>, hints: seq<Hint>, hs: MP.Hashes) {
    |pruned| == |hints|
    && forall i {:trigger hints[i]} {:trigger pruned[i]} | 0 <= i < |hints| ::
         IsHint(hints[i], hs) && MP.IsPruned(pruned[i], hints[i].tree, hs, MP.IndicesOf(hints[i].paths))
  }

  datatype Proof = Proof(transcript: seq<Fe>, merklePaths: seq<MP.PrunedMerklePaths>)

  class ProverState {
    const challenger: Challenger
    const ext: Extension
    var transcript: seq<Fe>
    var merklePaths: seq<MP.PrunedMerklePaths>
    ghost const hs: MP.Hashes
    ghost var hints: seq<Hint>

    ghost predicate Valid()
      reads this, challenger, challenger.state
    {
      challenger.Valid() && IsExtension(ext) && HintsPruned(merklePaths, hints, hs)
    }

    constructor (permutation: seq<Fe> -> seq<Fe>, ext: Extension, ghost hs: MP.Hashes)
      requires KeepsWidth(permutation) && IsExtension(ext)
      ensures Valid() && fresh(challenger) && fresh(challenger.state) && challenger.permutation == permutation && this.ext == ext
      ensures transcript == [] && challenger.Value() == Sponge(ZeroVec(WIDTH), false) && this.hs == hs && hints == []
    {
      var c := new Challenger(permutation);
      challenger := c;
      this.ext := ext;
      transcript := [];
      merklePaths := [];
      this.hs := hs;
      hints := [];
    }

    method IntoProof() returns (proof: Proof)
      requires Valid()
      ensures proof == Proof(transcript, merklePaths) && HintsPruned(proof.merklePaths, hints, hs)
    {
      proof := Proof(transcript, merklePaths);
    }

    method AddBaseScalars(scalars: seq<Fe>)
      requires Valid()
      modifies this`transcript, challenger, challenger.state
      ensures Valid() && transcript == old(transcript) + Sent(Scalars(scalars))
      ensures challenger.Value() == Stepped(challenger.permutation, ext, old(challenger.Value()), Scalars(scalars))
    {
      challenger.ObserveMany(scalars);
      transcript := transcript + scalars;
    }

    method ObserveScalars(scalars: seq<Fe>)
      requires Valid()
      modifies challenger, challenger.state
      ensures Valid()
      ensures challenger.Value() == Stepped(challenger.permutation, ext, old(challenger.Value()), ObserveOnly(scalars))
    {
      challenger.ObserveMany(scalars);
    }

    method Duplex()
      requires Valid()
      modifies challenger, challenger.state
      ensures Valid()
      ensures challenger.Value() == Stepped(challenger.permutation, ext, old(challenger.Value()), Op.Duplex)
    {
      challenger.Duplex();
      DuplexAsObservation(challenger.permutation, old(challenger.Value()));
    }

    method SampleVec(len: nat) returns (res: seq<seq<Fe>>)
      requires Valid() && CanStep(challenger.permutation, ext, challenger.Value(), Op.SampleVec(len))
      modifies challenger, challenger.state
      ensures Valid() && |res| == len && Elements(res, ext.dim)
      ensures challenger.Value() == Stepped(challenger.permutation, ext, old(challenger.Value()), Op.SampleVec(len))
      ensures Flatten(res) == Learned(challenger.permutation, ext, old(challenger.Value()), Op.SampleVec(len))
      ensures |Flatten(res)| == len * ext.dim
      ensures forall k: nat {:trigger Flatten(res)[k]} | k < |Flatten(res)| ::
                Flatten(res)[k] == Cleared(challenger.permutation, old(challenger.state[..]), k / RATE)[CAPACITY + k % RATE]
    {
      var scalars;
      res, scalars := SampleExtension(challenger, len, ext.dim);
    }

    method SampleInRange(bits: nat, count: nat) returns (res: seq<Fe>)
      requires Valid() && CanStep(challenger.permutation, ext, challenger.Value(), Op.SampleInRange(bits, count))
      modifies challenger, challenger.state
      ensures Valid()
      ensures challenger.Value() == Stepped(challenger.permutation, ext, old(challenger.Value()), Op.SampleInRange(bits, count))
      ensures res == Learned(challenger.permutation, ext, old(challenger.Value()), Op.SampleInRange(bits, count))
      ensures |res| == count && forall k: nat {:trigger res[k]} | k < count ::
                res[k] == Cleared(challenger.permutation, old(challenger.state[..]), k / RATE)[CAPACITY + k % RATE] % Pow2(bits)
    {
      res := challenger.SampleInRange(bits, count);
    }

    /** add_sumcheck_polynomial: everything is absorbed, one coefficient is not sent. */
    method AddSumcheckPolynomial(coeffs: seq<seq<Fe>>, eqAlpha: Option<seq<Fe>>, ghost claimed: seq<Fe>) returns (ghost op: Op)
      requires Valid() && coeffs != [] && Elements(coeffs, ext.dim) && |claimed| == ext.dim && (eqAlpha.Some? ==> |eqAlpha.value| == ext.dim)
      modifies this`transcript, challenger, challenger.state
      ensures op == match eqAlpha case None => Sumcheck(coeffs, claimed) case Some(alpha) => BareSumcheck(coeffs, alpha, claimed)
      ensures Valid() && WellFormed(ext, op) && transcript == old(transcript) + Sent(op)
      ensures challenger.Value() == Stepped(challenger.permutation, ext, old(challenger.Value()), op)
    {
      var scalars := Flatten(coeffs);
      FlattenTail(coeffs, ext.dim);
      match eqAlpha
      case None =>
        op := Sumcheck(coeffs, claimed);
        challenger.ObserveMany(scalars);
        transcript := transcript + scalars[ext.dim..];
      case Some(alpha) =>
        op := BareSumcheck(coeffs, alpha, claimed);
        var full := ExpandBareToFull(ext, coeffs, alpha);
        challenger.ObserveMany(Flatten(full));
        transcript := transcript + scalars[ext.dim..];
    }

    /** The search's test on a candidate: the capacity part, the candidate, zeros. */
    ghost predicate SearchAccepts(candidate: Fe, bits: nat)
      requires Valid()
      reads this, challenger, challenger.state
    {
      LowBitsZero(challenger.permutation(challenger.state[..CAPACITY] + [candidate] + ZeroVec(RATE - 1))[CAPACITY], bits)
    }

    /** pow_grinding: `found` is the candidate that the search returns. */
    method PowGrinding(bits: nat, found: Fe)
      requires Valid() && bits < FIELD_BITS && (bits > 0 ==> SearchAccepts(found, bits))
      modifies this`transcript, challenger, challenger.state
      ensures Valid() && transcript == old(transcript) + Sent(Grind(bits, found))
      ensures old(CanStep(challenger.permutation, ext, challenger.Value(), Grind(bits, found)))
      ensures challenger.Value() == Stepped(challenger.permutation, ext, old(challenger.Value()), Grind(bits, found))
    {
      if bits == 0 {
        return;
      }
      assert Padded([found]) == [found] + ZeroVec(RATE - 1);
      assert challenger.state[..CAPACITY] + [found] + ZeroVec(RATE - 1) == challenger.state[..CAPACITY] + ([found] + ZeroVec(RATE - 1));
      challenger.ObserveMany([found]);
      assert LowBitsZero(challenger.state[CAPACITY], bits);
      transcript := transcript + [found];
    }

    method HintMerklePathsBase(paths: seq<MP.MerklePath>, ghost tree: MP.Tree)
      requires Valid() && IsHint(Hint(paths, tree), hs)
      modifies this`merklePaths, this`hints
      ensures Valid() && hints == old(hints) + [Hint(paths, tree)]
    {
      hide MP.IsPruned, MP.AllFromTree, MP.IsTree;
      var pruned := MP.Prune(paths, tree, hs);
      merklePaths := merklePaths + [pruned];
      hints := hints + [Hint(paths, tree)];
    }
  }

  lemma DuplexAsObservation(p: seq<Fe> -> seq<Fe>, s: Sponge)
    requires IsSponge(s) && KeepsWidth(p)
    ensures ObservedMany(p, s, ZeroVec(RATE)) == Duplexed(p, s)
  {
    assert Padded(ZeroVec(RATE)) == ZeroVec(RATE);
  }

  // ----- the verifier

  /** The openings of all hints, in order. */
  ghost function AllOpenings(hints: seq<Hint>): seq<MerkleOpening> {
    if hints == [] then [] else AllOpenings(hints[..|hints| - 1]) + Openings(hints[|hints| - 1].paths)
  }

  function Openings(paths: seq<MP.MerklePath>): (r: seq<MerkleOpening>)
    ensures |r| == |paths| && forall i {:trigger r[i]} | 0 <= i < |r| :: r[i] == MerkleOpening(paths[i].leafData, paths[i].siblingHashes)
  {
    seq(|paths|, i requires 0 <= i < |paths| => MerkleOpening(paths[i].leafData, paths[i].siblingHashes))
  }

  /** restore's size guards. */
  ghost predicate WithinLimits(pr: MP.PrunedMerklePaths) {
    pr.merkleHeight < MP.MAX_HEIGHT && pr.nTrailingZeros <= MP.MAX_TRAILING_ZEROS
  }

  /** restore_merkle_paths on every hint, concatenated; None is InvalidProof. */
  method RestoreAll(pruned: seq<MP.PrunedMerklePaths>, hs: MP.Hashes, ghost hints: seq<Hint>) returns (r: Option<seq<MerkleOpening>>)
    requires HintsPruned(pruned, hints, hs)
    ensures r.Some? <==> forall i {:trigger pruned[i]} | 0 <= i < |pruned| :: WithinLimits(pruned[i])
    ensures r.Some? ==> r.value == AllOpenings(hints)
  {
    hide MP.IsPruned, MP.AllFromTree, MP.IsTree, MP.PathOf;
    var openings: seq<MerkleOpening> := [];
    for i := 0 to |pruned|
      invariant forall k {:trigger pruned[k]} | 0 <= k < i :: WithinLimits(pruned[k])
      invariant openings == AllOpenings(hints[..i])
    {
      var h := hints[i];
      var p := pruned[i];
      var restored := MP.Restore(p, hs, h.tree, MP.IndicesOf(h.paths));
      if restored.None? {
        assert !WithinLimits(p);
        return None;
      }
      SamePaths(restored.value, h, hs);
      openings := openings + Openings(restored.value);
      assert hints[..i + 1][..i] == hints[..i];
    }
    assert hints[..|pruned|] == hints;
    return Some(openings);
  }

  lemma SamePaths(restored: seq<MP.MerklePath>, h: Hint, hs: MP.Hashes)
    requires IsHint(h, hs) && |restored| == |h.paths| && MP.Below(MP.IndicesOf(h.paths), |h.tree.leaves|)
    requires forall k {:trigger restored[k]} | 0 <= k < |restored| :: restored[k] == MP.PathOf(h.tree, hs, MP.IndicesOf(h.paths)[k])
    ensures restored == h.paths
  {
    hide MP.PathOf, MP.IsTree;
    forall k | 0 <= k < |restored| ensures restored[k] == h.paths[k] {
      var p := h.paths[k];
    }
  }

  class VerifierState {
    const challenger: Challenger
    const ext: Extension
    const transcript: seq<Fe>
    var transcriptOffset: nat
    const merkleOpenings: seq<MerkleOpening>
    var merkleOpeningIndex: nat
    var rawTranscript: seq<Fe>

    ghost predicate Valid()
      reads this, challenger, challenger.state
    {
      challenger.Valid() && IsExtension(ext) && transcriptOffset <= |transcript| && merkleOpeningIndex <= |merkleOpenings|
    }

    ghost function View(): (v: Reader)
      requires Valid()
      reads this, challenger, challenger.state
      ensures IsReader(v)
    {
      Reader(challenger.Value(), transcript, transcriptOffset, rawTranscript)
    }

    constructor (transcript: seq<Fe>, openings: seq<MerkleOpening>, permutation: seq<Fe> -> seq<Fe>, ext: Extension)
      requires KeepsWidth(permutation) && IsExtension(ext)
      ensures Valid() && fresh(challenger) && fresh(challenger.state) && challenger.permutation == permutation && this.ext == ext
      ensures View() == Reader(Sponge(ZeroVec(WIDTH), false), transcript, 0, [])
      ensures merkleOpenings == openings && merkleOpeningIndex == 0
    {
      var c := new Challenger(permutation);
      challenger := c;
      this.ext := ext;
      this.transcript := transcript;
      transcriptOffset := 0;
      merkleOpenings := openings;
      merkleOpeningIndex := 0;
      rawTranscript := [];
    }

    /** absorb_and_record. */
    method AbsorbAndRecord(scalars: seq<Fe>)
      requires Valid()
      modifies this`rawTranscript, challenger, challenger.state
      ensures Valid() && rawTranscript == old(rawTranscript) + PaddedAll(scalars)
      ensures challenger.Value() == ObservedMany(challenger.permutation, old(challenger.Value()), scalars)
    {
      challenger.ObserveMany(scalars);
      PaddedAllIs(scalars);
      var totalPadded := CeilDiv(|scalars|) * RATE;
      SamePadding(|PaddedAll(scalars)|, |scalars|);
      rawTranscript := rawTranscript + scalars + ZeroVec(totalPadded - |scalars|);
    }

    /** read_transcript. */
    method ReadTranscript(n: nat) returns (r: Result<seq<Fe>>)
      requires Valid()
      modifies this`transcriptOffset
      ensures Valid()
      ensures old(transcriptOffset) + n > |transcript| ==> r == Err(ExceededTranscript) && transcriptOffset == old(transcriptOffset)
      ensures old(transcriptOffset) + n <= |transcript| ==>
                transcriptOffset == old(transcriptOffset) + n && r == Ok(transcript[old(transcriptOffset)..transcriptOffset])
    {
      if transcriptOffset + n > |transcript| {
        return Err(ExceededTranscript);
      }
      var scalars := transcript[transcriptOffset..transcriptOffset + n];
      transcriptOffset := transcriptOffset + n;
      return Ok(scalars);
    }

    method ObserveScalars(scalars: seq<Fe>)
      requires Valid()
      modifies challenger, challenger.state
      ensures Valid() && View() == old(View()).(sponge := Stepped(challenger.permutation, ext, old(challenger.Value()), ObserveOnly(scalars)))
    {
      challenger.ObserveMany(scalars);
    }

    method Duplex()
      requires Valid()
      modifies challenger, challenger.state
      ensures Valid() && View() == old(View()).(sponge := Stepped(challenger.permutation, ext, old(challenger.Value()), Op.Duplex))
    {
      challenger.Duplex();
      DuplexAsObservation(challenger.permutation, old(challenger.Value()));
    }

    method SampleVec(len: nat) returns (res: seq<seq<Fe>>)
      requires Valid() && CanStep(challenger.permutation, ext, challenger.Value(), Op.SampleVec(len))
      modifies challenger, challenger.state
      ensures Valid() && |res| == len && Elements(res, ext.dim)
      ensures (Ok(Flatten(res)), View()) == Replayed(challenger.permutation, ext, old(View()), Op.SampleVec(len))
      ensures |Flatten(res)| == len * ext.dim
      ensures forall k: nat {:trigger Flatten(res)[k]} | k < |Flatten(res)| ::
                Flatten(res)[k] == Cleared(challenger.permutation, old(challenger.state[..]), k / RATE)[CAPACITY + k % RATE]
    {
      var scalars;
      res, scalars := SampleExtension(challenger, len, ext.dim);
    }

    method SampleInRange(bits: nat, count: nat) returns (res: seq<Fe>)
      requires Valid() && CanStep(challenger.permutation, ext, challenger.Value(), Op.SampleInRange(bits, count))
      modifies challenger, challenger.state
      ensures Valid()
      ensures (Ok(res), View()) == Replayed(challenger.permutation, ext, old(View()), Op.SampleInRange(bits, count))
      ensures |res| == count && forall k: nat {:trigger res[k]} | k < count ::
                res[k] == Cleared(challenger.permutation, old(challenger.state[..]), k / RATE)[CAPACITY + k % RATE] % Pow2(bits)
    {
      res := challenger.SampleInRange(bits, count);
    }

    method NextBaseScalarsVec(n: nat) returns (r: Result<seq<Fe>>)
      requires Valid()
      modifies this, challenger, challenger.state
      ensures Valid() && merkleOpeningIndex == old(merkleOpeningIndex)
      ensures (r, View()) == ReadScalars(challenger.permutation, old(View()), n)
    {
      r := ReadTranscript(n);
      if r.Err? {
        return;
      }
      AbsorbAndRecord(r.value);
    }

    method CheckPowGrinding(bits: nat) returns (r: Result<seq<Fe>>)
      requires Valid() && bits < FIELD_BITS
      modifies this, challenger, challenger.state
      ensures Valid() && merkleOpeningIndex == old(merkleOpeningIndex)
      ensures (r, View()) == CheckedPow(challenger.permutation, old(View()), bits)
      ensures bits == 0 ==> r == Ok([])
      ensures bits > 0 && old(transcriptOffset) >= |transcript| ==> r == Err(ExceededTranscript)
      ensures bits > 0 && old(transcriptOffset) < |transcript| ==>
                r == if challenger.permutation(old(challenger.state[..CAPACITY]) + [transcript[old(transcriptOffset)]] + ZeroVec(RATE - 1))[CAPACITY]
                        % Pow2(bits) == 0
                     then Ok([]) else Err(InvalidGrindingWitness)
    {
      if bits == 0 {
        return Ok([]);
      }
      var read := ReadTranscript(1);
      if read.Err? {
        return Err(read.error);
      }
      var w := read.value[0];
      assert [w] == read.value;
      assert Padded([w]) == [w] + ZeroVec(RATE - 1);
      assert challenger.state[..CAPACITY] + [w] + ZeroVec(RATE - 1) == challenger.state[..CAPACITY] + ([w] + ZeroVec(RATE - 1));
      challenger.ObserveMany([w]);
      if !LowBitsZero(challenger.state[CAPACITY], bits) {
        return Err(InvalidGrindingWitness);
      }
      rawTranscript := rawTranscript + [w];
      rawTranscript := rawTranscript + ZeroVec(RATE - 1);
      return Ok([]);
    }

    method SumCoefficients(xs: seq<seq<Fe>>) returns (s: seq<Fe>)
      requires Elements(xs, ext.dim)
      ensures s == SumOf(xs, ext.dim)
    {
      s := ZeroVec(ext.dim);
      assert xs[..0] == [];
      for i := 0 to |xs|
        invariant |s| == ext.dim && Elements(xs[..i], ext.dim) && s == SumOf(xs[..i], ext.dim)
      {
        assert xs[..i + 1][..i] == xs[..i];
        assert Elements(xs[..i + 1], ext.dim);
        s := Plus(s, xs[i]);
      }
      assert xs[..|xs|] == xs;
    }

    /** next_sumcheck_polynomial. */
    method NextSumcheckPolynomial(nCoeffs: nat, claimedSum: seq<Fe>, eqAlpha: Option<seq<Fe>>) returns (r: Result<seq<seq<Fe>>>)
      requires Valid() && |claimedSum| == ext.dim && (eqAlpha.None? ==> nCoeffs > 0)
      requires eqAlpha.Some? ==> nCoeffs > 1 && |eqAlpha.value| == ext.dim
      modifies this, challenger, challenger.state
      ensures Valid() && merkleOpeningIndex == old(merkleOpeningIndex)
      ensures r.Ok? ==> Elements(r.value, ext.dim)
      ensures eqAlpha.None? ==> (Flattened(r), View()) == ReadSumcheck(challenger.permutation, ext, old(View()), nCoeffs, claimedSum)
      ensures eqAlpha.Some? ==>
                (Flattened(r), View()) == ReadBareSumcheck(challenger.permutation, ext, old(View()), nCoeffs, claimedSum, eqAlpha.value)
    {
      match eqAlpha
      case None =>
        r := NextPlainPolynomial(nCoeffs, claimedSum);
      case Some(alpha) =>
        r := NextBarePolynomial(nCoeffs, claimedSum, alpha);
    }

    method NextPlainPolynomial(nCoeffs: nat, claimedSum: seq<Fe>) returns (r: Result<seq<seq<Fe>>>)
      requires Valid() && |claimedSum| == ext.dim && nCoeffs > 0
      modifies this, challenger, challenger.state
      ensures Valid() && merkleOpeningIndex == old(merkleOpeningIndex)
      ensures r.Ok? ==> Elements(r.value, ext.dim)
      ensures (Flattened(r), View()) == ReadSumcheck(challenger.permutation, ext, old(View()), nCoeffs, claimedSum)
    {
      hide ObservedMany, PaddedAll, Flatten, SumOf, Pack;
      MultipleOf(nCoeffs - 1, ext.dim);
      var read := ReadTranscript((nCoeffs - 1) * ext.dim);
      if read.Err? {
        return Err(read.error);
      }
      var restScalars := read.value;
      FlattenPack(restScalars, ext.dim);
      var rest := Pack(restScalars, ext.dim);
      var sum := SumCoefficients(rest);
      var c0 := Times(HALF, Minus(claimedSum, sum));
      var all := c0 + restScalars;
      AbsorbAndRecord(all);
      FlattenCons(c0, rest);
      return Ok([c0] + rest);
    }

    method NextBarePolynomial(nCoeffs: nat, claimedSum: seq<Fe>, alpha: seq<Fe>) returns (r: Result<seq<seq<Fe>>>)
      requires Valid() && |claimedSum| == |alpha| == ext.dim && nCoeffs > 1
      modifies this, challenger, challenger.state
      ensures Valid() && merkleOpeningIndex == old(merkleOpeningIndex)
      ensures r.Ok? ==> Elements(r.value, ext.dim)
      ensures (Flattened(r), View()) == ReadBareSumcheck(challenger.permutation, ext, old(View()), nCoeffs, claimedSum, alpha)
    {
      hide ObservedMany, PaddedAll, Flatten, SumOf, Pack, ExpandedBare;
      MultipleOf(nCoeffs - 2, ext.dim);
      var read := ReadTranscript((nCoeffs - 2) * ext.dim);
      if read.Err? {
        return Err(read.error);
      }
      FlattenPack(read.value, ext.dim);
      var rest := Pack(read.value, ext.dim);
      var sum := SumCoefficients(rest);
      var h0 := Minus(claimedSum, ext.mul(alpha, sum));
      var full := ExpandBareToFull(ext, [h0] + rest, alpha);
      AbsorbAndRecord(Flatten(full));
      return Ok(full);
    }

    method NextMerkleOpening() returns (r: Result<MerkleOpening>)
      requires Valid()
      modifies this`merkleOpeningIndex
      ensures Valid()
      ensures old(merkleOpeningIndex) >= |merkleOpenings| ==> r == Err(ExceededTranscript) && merkleOpeningIndex == old(merkleOpeningIndex)
      ensures old(merkleOpeningIndex) < |merkleOpenings| ==>
                r == Ok(merkleOpenings[old(merkleOpeningIndex)]) && merkleOpeningIndex == old(merkleOpeningIndex) + 1
    {
      if merkleOpeningIndex >= |merkleOpenings| {
        return Err(ExceededTranscript);
      }
      r := Ok(merkleOpenings[merkleOpeningIndex]);
      merkleOpeningIndex := merkleOpeningIndex + 1;
    }
  }

  ghost function Flattened(r: Result<seq<seq<Fe>>>): Result<seq<Fe>> {
    match r
    case Ok(xs) => Ok(Flatten(xs))
    case Err(x) => Err(x)
  }

  lemma FlattenCons(x: seq<Fe>, xs: seq<seq<Fe>>)
    ensures Flatten([x] + xs) == x + Flatten(xs)
  {
    assert ([x] + xs)[1..] == xs;
  }

  lemma SamePadding(padded: nat, n: nat)
    requires padded % RATE == 0 && n <= padded < n + RATE
    ensures CeilDiv(n) * RATE == padded
  {
  }

  /** The verifier's constructor on the prover's proof: its openings are the hinted paths, in order. */
  method NewVerifier(proof: Proof, permutation: seq<Fe> -> seq<Fe>, ext: Extension, hs: MP.Hashes, ghost hints: seq<Hint>)
    returns (r: Option<VerifierState>)
    requires KeepsWidth(permutation) && IsExtension(ext) && HintsPruned(proof.merklePaths, hints, hs)
    ensures r.Some? <==> forall i {:trigger proof.merklePaths[i]} | 0 <= i < |proof.merklePaths| :: WithinLimits(proof.merklePaths[i])
    ensures r.Some? ==> fresh(r.value) && r.value.Valid() && r.value.merkleOpenings == AllOpenings(hints)
                        && r.value.View() == Reader(Sponge(ZeroVec(WIDTH), false), proof.transcript, 0, [])
  {
    hide HintsPruned;
    var openings := RestoreAll(proof.merklePaths, hs, hints);
    if openings.None? {
      return None;
    }
    var v := new VerifierState(proof.transcript, openings.value, permutation, ext);
    return Some(v);
  }
}
