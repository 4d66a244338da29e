/**
 Winternitz one-time signatures: hash chains, message encoding and public key recovery
 (crates/xmss/src/lib.rs, crates/xmss/src/wots.rs).  The compression function and the
 pseudo-random generators are arbitrary functions.
 */
module Wots {
  import opened Field
  import opened Interpolation
  import opened LinearAlgebra

  const XMSS_DIGEST_LEN: nat := 4
  const TWEAK_LEN: nat := 2
  const DIGEST_LEN_FE: nat := 8
  const V: nat := 42
  const W: nat := 3
  const CHAIN_LENGTH: nat := 8
  const NUM_CHAIN_HASHES: nat := 110
  const TARGET_SUM: nat := V * (CHAIN_LENGTH - 1) - NUM_CHAIN_HASHES
  const RANDOMNESS_LEN_FE: nat := 6
  const MESSAGE_LEN_FE: nat := 8
  const PUBLIC_PARAM_LEN_FE: nat := 4
  const TWEAK_TYPE_CHAIN: nat := 0
  const TWEAK_TYPE_WOTS_PK: nat := 1
  const TWEAK_TYPE_MERKLE: nat := 2
  const TWEAK_TYPE_ENCODING: nat := 3

  type u32 = x: nat | x < 0x1_0000_0000

  type Words = seq<Fe>

  /** poseidon16_compress_pair on two blocks of 8, and the seeded generators. */
  datatype Primitives = Primitives(
    compressPair: (Words, Words) -> Words,
    preImages: (seq<nat>, nat) -> seq<Words>,
    publicParam: seq<nat> -> Words,
    randomNode: (seq<nat>, nat, nat) -> Words)

  ghost predicate WellSized(o: Primitives) {
    && (forall a: Words, b: Words {:trigger o.compressPair(a, b)} | |a| == |b| == DIGEST_LEN_FE :: |o.compressPair(a, b)| == DIGEST_LEN_FE)
    && (forall s: seq<nat>, slot: nat {:trigger o.preImages(s, slot)} ::
          |o.preImages(s, slot)| == V && forall i {:trigger o.preImages(s, slot)[i]} | 0 <= i < V :: |o.preImages(s, slot)[i]| == XMSS_DIGEST_LEN)
    && (forall s: seq<nat> {:trigger o.publicParam(s)} :: |o.publicParam(s)| == PUBLIC_PARAM_LEN_FE)
    && (forall s: seq<nat>, l: nat, i: nat {:trigger o.randomNode(s, l, i)} :: |o.randomNode(s, l, i)| == XMSS_DIGEST_LEN)
  }

  // ----- tweaks

  /** make_tweak. */
  function MakeTweak(tweakType: nat, subPosition: nat, index: u32): (t: Words)
    requires tweakType < 4 && subPosition < 1024
    ensures |t| == TWEAK_LEN
  {
    [tweakType * 0x400_0000 + index / 0x1_0000 * 1024 + subPosition, index % 0x1_0000]
  }

  /** The fields of a tweak: the purpose above bit 26, the high half of the index, ten bits of position; the low half. */
  lemma TweakFields(tweakType: nat, subPosition: nat, index: u32)
    requires tweakType < 4 && subPosition < 1024
    ensures var t := MakeTweak(tweakType, subPosition, index);
            && t[0] / 0x400_0000 == tweakType && t[0] / 1024 % 0x1_0000 == index / 0x1_0000 && t[0] % 1024 == subPosition
            && t[1] == index % 0x1_0000
  {
    var high := index / 0x1_0000;
    assert high < 0x1_0000;
    assert tweakType * 0x400_0000 + high * 1024 + subPosition == (tweakType * 0x1_0000 + high) * 1024 + subPosition;
  }

  /** Domain separation: different purposes, positions or indices never share a tweak. */
  lemma TweaksDiffer(t1: nat, s1: nat, i1: u32, t2: nat, s2: nat, i2: u32)
    requires t1 < 4 && s1 < 1024 && t2 < 4 && s2 < 1024 && MakeTweak(t1, s1, i1) == MakeTweak(t2, s2, i2)
    ensures t1 == t2 && s1 == s2 && i1 == i2
  {
    TweakFields(t1, s1, i1);
    TweakFields(t2, s2, i2);
  }

  // ----- hash inputs

  /** build_left_chain_input: tweak, zeros, data. */
  function LeftChainInput(tweak: Words, data: Words): (r: Words)
    requires |tweak| == TWEAK_LEN && |data| == XMSS_DIGEST_LEN
    ensures |r| == DIGEST_LEN_FE
  {
    tweak + ZeroVec(DIGEST_LEN_FE - TWEAK_LEN - XMSS_DIGEST_LEN) + data
  }

  /** build_right_chain_input: public parameter, zeros. */
  function RightChainInput(publicParam: Words): (r: Words)
    requires |publicParam| == PUBLIC_PARAM_LEN_FE
    ensures |r| == DIGEST_LEN_FE
  {
    publicParam + ZeroVec(DIGEST_LEN_FE - PUBLIC_PARAM_LEN_FE)
  }

  /** poseidon16_compress(build_merkle_data(...)), truncated: tweak, zeros, parameter | left, right. */
  function MerkleParent(o: Primitives, tweak: Words, publicParam: Words, left: Words, right: Words): (r: Words)
    requires |tweak| == TWEAK_LEN && |publicParam| == PUBLIC_PARAM_LEN_FE && |left| == |right| == XMSS_DIGEST_LEN
  {
    Truncated(o.compressPair(tweak + ZeroVec(DIGEST_LEN_FE - PUBLIC_PARAM_LEN_FE - TWEAK_LEN) + publicParam, left + right))
  }

  function Truncated(x: Words): Words { if |x| >= XMSS_DIGEST_LEN then x[..XMSS_DIGEST_LEN] else x }

  // ----- chains

  /** One step of a chain. */
  function ChainStep(o: Primitives, a: Words, publicParam: Words, slot: u32, position: nat): (r: Words)
    requires |a| == XMSS_DIGEST_LEN && |publicParam| == PUBLIC_PARAM_LEN_FE && position < 1024
  {
    Truncated(o.compressPair(LeftChainInput(MakeTweak(TWEAK_TYPE_CHAIN, position, slot), a), RightChainInput(publicParam)))
  }

  lemma ChainStepLength(o: Primitives, a: Words, publicParam: Words, slot: u32, position: nat)
    requires WellSized(o) && |a| == XMSS_DIGEST_LEN && |publicParam| == PUBLIC_PARAM_LEN_FE && position < 1024
    ensures |ChainStep(o, a, publicParam, slot, position)| == XMSS_DIGEST_LEN
  {
    var l, r := LeftChainInput(MakeTweak(TWEAK_TYPE_CHAIN, position, slot), a), RightChainInput(publicParam);
    assert |o.compressPair(l, r)| == DIGEST_LEN_FE;
  }

  /** iterate_hash. */
  ghost function IterateHash(o: Primitives, a: Words, n: nat, publicParam: Words, slot: u32, chain: nat, start: nat): (r: Words)
    requires WellSized(o) && |a| == XMSS_DIGEST_LEN && |publicParam| == PUBLIC_PARAM_LEN_FE
    requires chain < V && start + n < CHAIN_LENGTH
    ensures |r| == XMSS_DIGEST_LEN
    decreases n
  {
    if n == 0 then a
    else
      var prev := IterateHash(o, a, n - 1, publicParam, slot, chain, start);
      ChainStepLength(o, prev, publicParam, slot, chain * CHAIN_LENGTH + start + (n - 1));
      ChainStep(o, prev, publicParam, slot, chain * CHAIN_LENGTH + start + (n - 1))
  }

  /** A chain walked in two legs is the whole chain. */
  lemma {:induction false} ChainsCompose(o: Primitives, a: Words, m: nat, n: nat, publicParam: Words, slot: u32, chain: nat, start: nat)
    requires WellSized(o) && |a| == XMSS_DIGEST_LEN && |publicParam| == PUBLIC_PARAM_LEN_FE
    requires chain < V && start + m + n < CHAIN_LENGTH
    ensures IterateHash(o, IterateHash(o, a, m, publicParam, slot, chain, start), n, publicParam, slot, chain, start + m)
         == IterateHash(o, a, m + n, publicParam, slot, chain, start)
    decreases n
  {
    if n > 0 {
      ChainsCompose(o, a, m, n - 1, publicParam, slot, chain, start);
      assert chain * CHAIN_LENGTH + (start + m) + (n - 1) == chain * CHAIN_LENGTH + start + (m + n - 1);
    }
  }

  method IterateHashLoop(o: Primitives, a: Words, n: nat, publicParam: Words, slot: u32, chain: nat, start: nat) returns (acc: Words)
    requires WellSized(o) && |a| == XMSS_DIGEST_LEN && |publicParam| == PUBLIC_PARAM_LEN_FE
    requires chain < V && start + n < CHAIN_LENGTH
    ensures acc == IterateHash(o, a, n, publicParam, slot, chain, start)
  {
    hide WellSized;
    acc := a;
    for j := 0 to n
      invariant acc == IterateHash(o, a, j, publicParam, slot, chain, start)
    {
      acc := ChainStep(o, acc, publicParam, slot, chain * CHAIN_LENGTH + start + j);
    }
  }

  // ----- message encoding

  /** The lowest `count` bits, least significant first. */
  function LittleEndianBits(x: nat, count: nat): (b: seq<nat>)
    ensures |b| == count && forall i {:trigger b[i]} | 0 <= i < count :: b[i] < 2
  {
    if count == 0 then [] else [x % 2] + LittleEndianBits(x / 2, count - 1)
  }

  function FlatBits(words: Words): (b: seq<nat>)
    ensures |b| == 24 * |words| && forall i {:trigger b[i]} | 0 <= i < |b| :: b[i] < 2
  {
    if words == [] then [] else LittleEndianBits(words[0], 24) + FlatBits(words[1..])
  }

  /** Chunks of W bits, least significant first. */
  function Indices(bits: seq<nat>, count: nat): (r: seq<nat>)
    requires |bits| >= W * count && forall i {:trigger bits[i]} | 0 <= i < |bits| :: bits[i] < 2
    ensures |r| == count && forall i {:trigger r[i]} | 0 <= i < count :: r[i] < CHAIN_LENGTH
  {
    if count == 0 then [] else [bits[0] + 2 * bits[1] + 4 * bits[2]] + Indices(bits[W..], count - 1)
  }

  function SumOfAll(e: seq<nat>): nat { if e == [] then 0 else e[0] + SumOfAll(e[1..]) }

  /** is_valid_encoding. */
  predicate IsValidEncoding(e: seq<nat>) {
    && |e| == V
    && (forall i {:trigger e[i]} | 0 <= i < |e| :: e[i] < CHAIN_LENGTH)
    && SumOfAll(e) == TARGET_SUM
  }

  const MINUS_ONE: Fe := P - 1

  /** The two compressions of wots_encode: message, randomness and tweak; then the public parameter. */
  function EncodingDigest(o: Primitives, message: Words, slot: u32, publicParam: Words, randomness: Words): Words
    requires |message| == MESSAGE_LEN_FE && |publicParam| == PUBLIC_PARAM_LEN_FE && |randomness| == RANDOMNESS_LEN_FE
  {
    var pre := o.compressPair(message, randomness + MakeTweak(TWEAK_TYPE_ENCODING, 0, slot));
    o.compressPair(pre, publicParam + ZeroVec(DIGEST_LEN_FE - PUBLIC_PARAM_LEN_FE))
  }

  /** wots_encode. */
  function WotsEncode(o: Primitives, message: Words, slot: u32, publicParam: Words, randomness: Words): Option<seq<nat>>
    requires |message| == MESSAGE_LEN_FE && |publicParam| == PUBLIC_PARAM_LEN_FE && |randomness| == RANDOMNESS_LEN_FE
  {
    var compressed := EncodingDigest(o, message, slot, publicParam, randomness);
    if MINUS_ONE in compressed || |compressed| != DIGEST_LEN_FE then None
    else
      var all := Indices(FlatBits(compressed), V);
      if IsValidEncoding(all) then Some(all) else None
  }

  lemma EncodingIsValid(o: Primitives, message: Words, slot: u32, publicParam: Words, randomness: Words)
    requires |message| == MESSAGE_LEN_FE && |publicParam| == PUBLIC_PARAM_LEN_FE && |randomness| == RANDOMNESS_LEN_FE
    ensures WotsEncode(o, message, slot, publicParam, randomness).Some? ==>
              IsValidEncoding(WotsEncode(o, message, slot, publicParam, randomness).value)
  {
  }

  /** No valid encoding dominates another: advancing some chains forces others to go back. */
  lemma {:induction false} EncodingsIncomparable(a: seq<nat>, b: seq<nat>)
    requires |a| == |b| && forall i {:trigger a[i]} {:trigger b[i]} | 0 <= i < |a| :: a[i] <= b[i]
    ensures SumOfAll(a) <= SumOfAll(b)
    ensures SumOfAll(a) == SumOfAll(b) ==> a == b
    decreases |a|
  {
    if a != [] {
      EncodingsIncomparable(a[1..], b[1..]);
      assert a == [a[0]] + a[1..] && b == [b[0]] + b[1..];
    }
  }

  lemma ValidEncodingsIncomparable(a: seq<nat>, b: seq<nat>)
    requires IsValidEncoding(a) && IsValidEncoding(b) && a != b
    ensures exists i {:trigger a[i]} {:trigger b[i]} :: 0 <= i < V && a[i] > b[i]
  {
    if forall i {:trigger a[i]} {:trigger b[i]} | 0 <= i < V :: a[i] <= b[i] {
      EncodingsIncomparable(a, b);
    }
  }

  // ----- keys and signatures

  ghost predicate AllDigests(d: seq<Words>) { |d| == V && forall i {:trigger d[i]} | 0 <= i < V :: |d[i]| == XMSS_DIGEST_LEN }

  /** The ends of all chains. */
  ghost function ChainEnds(o: Primitives, preImages: seq<Words>, publicParam: Words, slot: u32): (pk: seq<Words>)
    requires WellSized(o) && AllDigests(preImages) && |publicParam| == PUBLIC_PARAM_LEN_FE
    ensures AllDigests(pk)
    ensures forall i {:trigger pk[i]} {:trigger preImages[i]} | 0 <= i < V ::
              pk[i] == IterateHash(o, preImages[i], CHAIN_LENGTH - 1, publicParam, slot, i, 0)
  {
    seq(V, i requires 0 <= i < V =>
      assert |preImages[i]| == XMSS_DIGEST_LEN;
      IterateHash(o, preImages[i], CHAIN_LENGTH - 1, publicParam, slot, i, 0))
  }

  /** WotsSecretKey::new. */
  method WotsPublicKeyOf(o: Primitives, preImages: seq<Words>, publicParam: Words, slot: u32) returns (pk: seq<Words>)
    requires WellSized(o) && AllDigests(preImages) && |publicParam| == PUBLIC_PARAM_LEN_FE
    ensures pk == ChainEnds(o, preImages, publicParam, slot)
  {
    hide WellSized, IterateHash;
    pk := [];
    for i := 0 to V
      invariant |pk| == i && forall k {:trigger pk[k]} | 0 <= k < i :: pk[k] == ChainEnds(o, preImages, publicParam, slot)[k]
    {
      assert |preImages[i]| == XMSS_DIGEST_LEN;
      var end := IterateHashLoop(o, preImages[i], CHAIN_LENGTH - 1, publicParam, slot, i, 0);
      pk := pk + [end];
    }
    assert pk == ChainEnds(o, preImages, publicParam, slot);
  }

  datatype WotsSignature = WotsSignature(chainTips: seq<Words>, randomness: Words)

  /** sign_with_encoding. */
  method SignWithEncoding(o: Primitives, preImages: seq<Words>, randomness: Words, encoding: seq<nat>, publicParam: Words, slot: u32)
    returns (sig: WotsSignature)
    requires WellSized(o) && AllDigests(preImages) && |publicParam| == PUBLIC_PARAM_LEN_FE && IsValidEncoding(encoding)
    ensures sig.randomness == randomness && AllDigests(sig.chainTips)
    ensures forall i {:trigger sig.chainTips[i]} | 0 <= i < V ::
              encoding[i] < CHAIN_LENGTH && |preImages[i]| == XMSS_DIGEST_LEN
              && sig.chainTips[i] == IterateHash(o, preImages[i], encoding[i], publicParam, slot, i, 0)
  {
    hide WellSized, IterateHash, SumOfAll;
    var tips: seq<Words> := [];
    for i := 0 to V
      invariant |tips| == i
      invariant forall k {:trigger tips[k]} | 0 <= k < i :: |tips[k]| == XMSS_DIGEST_LEN
      invariant forall k {:trigger tips[k]} | 0 <= k < i ::
                  encoding[k] < CHAIN_LENGTH && |preImages[k]| == XMSS_DIGEST_LEN
                  && tips[k] == IterateHash(o, preImages[k], encoding[k], publicParam, slot, k, 0)
    {
      assert |preImages[i]| == XMSS_DIGEST_LEN && encoding[i] < CHAIN_LENGTH;
      var tip := IterateHashLoop(o, preImages[i], encoding[i], publicParam, slot, i, 0);
      tips := tips + [tip];
    }
    sig := WotsSignature(tips, randomness);
  }

  /** The chain ends that the signature's tips lead to. */
  ghost predicate EndsOf(o: Primitives, publicParam: Words, slot: u32, encoding: Option<seq<nat>>, tips: seq<Words>, ends: seq<Words>)
    requires WellSized(o) && |publicParam| == PUBLIC_PARAM_LEN_FE && AllDigests(tips)
  {
    && encoding.Some? && |encoding.value| == V && AllDigests(ends)
    && forall i {:trigger ends[i]} | 0 <= i < V ::
         encoding.value[i] < CHAIN_LENGTH && |tips[i]| == XMSS_DIGEST_LEN
         && ends[i] == IterateHash(o, tips[i], CHAIN_LENGTH - 1 - encoding.value[i], publicParam, slot, i, encoding.value[i])
  }

  /** recover_public_key. */
  method RecoverPublicKey(o: Primitives, sig: WotsSignature, message: Words, slot: u32, publicParam: Words) returns (pk: Option<seq<Words>>)
    requires WellSized(o) && AllDigests(sig.chainTips) && |sig.randomness| == RANDOMNESS_LEN_FE
    requires |message| == MESSAGE_LEN_FE && |publicParam| == PUBLIC_PARAM_LEN_FE
    ensures pk.None? <==> WotsEncode(o, message, slot, publicParam, sig.randomness).None?
    ensures pk.Some? ==> EndsOf(o, publicParam, slot, WotsEncode(o, message, slot, publicParam, sig.randomness), sig.chainTips, pk.value)
  {
    hide WellSized, IterateHash, SumOfAll, WotsEncode;
    var encoding := WotsEncode(o, message, slot, publicParam, sig.randomness);
    if encoding.None? {
      return None;
    }
    EncodingIsValid(o, message, slot, publicParam, sig.randomness);
    var e := encoding.value;
    var ends: seq<Words> := [];
    for i := 0 to V
      invariant |ends| == i
      invariant forall k {:trigger ends[k]} | 0 <= k < i :: |ends[k]| == XMSS_DIGEST_LEN
      invariant forall k {:trigger ends[k]} | 0 <= k < i ::
                  e[k] < CHAIN_LENGTH && |sig.chainTips[k]| == XMSS_DIGEST_LEN
                  && ends[k] == IterateHash(o, sig.chainTips[k], CHAIN_LENGTH - 1 - e[k], publicParam, slot, k, e[k])
    {
      assert |sig.chainTips[i]| == XMSS_DIGEST_LEN && e[i] < CHAIN_LENGTH;
      var end := IterateHashLoop(o, sig.chainTips[i], CHAIN_LENGTH - 1 - e[i], publicParam, slot, i, e[i]);
      ends := ends + [end];
    }
    pk := Some(ends);
  }

  /** The state of the T-sponge after the first k pairs of chain ends. */
  ghost function PairsAbsorbed(o: Primitives, state: Words, pk: seq<Words>, k: nat): (r: Words)
    requires WellSized(o) && AllDigests(pk) && |state| == DIGEST_LEN_FE && 2 * k <= V
    ensures |r| == DIGEST_LEN_FE
  {
    if k == 0 then state
    else
      assert |pk[2 * k - 2]| == |pk[2 * k - 1]| == XMSS_DIGEST_LEN;
      o.compressPair(PairsAbsorbed(o, state, pk, k - 1), pk[2 * k - 2] + pk[2 * k - 1])
  }

  /** WotsPublicKey::hash. */
  ghost function PublicKeyHash(o: Primitives, pk: seq<Words>, publicParam: Words, slot: u32): (r: Words)
    requires WellSized(o) && AllDigests(pk) && |publicParam| == PUBLIC_PARAM_LEN_FE
    ensures |r| == XMSS_DIGEST_LEN
  {
    var iv := MakeTweak(TWEAK_TYPE_WOTS_PK, 0, slot) + ZeroVec(2) + publicParam;
    PairsAbsorbed(o, o.compressPair(iv, ZeroVec(8)), pk, V / 2)[..XMSS_DIGEST_LEN]
  }

  method HashPublicKey(o: Primitives, pk: seq<Words>, publicParam: Words, slot: u32) returns (r: Words)
    requires WellSized(o) && AllDigests(pk) && |publicParam| == PUBLIC_PARAM_LEN_FE
    ensures r == PublicKeyHash(o, pk, publicParam, slot)
  {
    var state: Words := MakeTweak(TWEAK_TYPE_WOTS_PK, 0, slot) + ZeroVec(2) + publicParam;
    state := o.compressPair(state, ZeroVec(8));
    ghost var start := state;
    var i := 0;
    while i < V
      invariant 0 <= i <= V && i % 2 == 0 && |state| == DIGEST_LEN_FE
      invariant state == PairsAbsorbed(o, start, pk, i / 2)
    {
      assert |pk[i]| == |pk[i + 1]| == XMSS_DIGEST_LEN;
      state := o.compressPair(state, pk[i] + pk[i + 1]);
      i := i + 2;
    }
    r := state[..XMSS_DIGEST_LEN];
  }
}
