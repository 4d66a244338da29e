/**
 XMSS over a partially stored Merkle tree: key generation, signing and verification
 (crates/xmss/src/xmss.rs).
 */
module Xmss {
  import opened Arith
  import opened Interpolation
  import opened LinearAlgebra
  import opened Wots
  import MP = MerklePruning

  const LOG_LIFETIME: nat := 32

  datatype XmssSecretKey = XmssSecretKey(slotStart: u32, slotEnd: u32, publicParam: Words, seed: seq<nat>, merkleTree: seq<seq<Words>>)

  datatype XmssPublicKey = XmssPublicKey(merkleRoot: Words, publicParam: Words)

  datatype XmssSignature = XmssSignature(wotsSignature: WotsSignature, merkleProof: seq<Words>)

  datatype KeyGenResult = KeyGenOk(secretKey: XmssSecretKey, publicKey: XmssPublicKey) | InvalidRange

  datatype SignResult = Signed(signature: XmssSignature) | SlotOutOfRange | NoEncoding

  datatype VerifyResult = Valid | InvalidWots | InvalidMerklePath

  // ----- the tree

  lemma {:induction false} ShrMonotone(a: nat, b: nat, k: nat)
    requires a <= b
    ensures MP.Shr(a, k) <= MP.Shr(b, k) <= b
    decreases k
  {
    if k > 0 {
      ShrMonotone(a / 2, b / 2, k - 1);
    }
  }

  lemma ShrIsU32(a: u32, k: nat)
    ensures MP.Shr(a, k) < 0x1_0000_0000
  {
    ShrMonotone(a, a, k);
  }

  predicate Stored(start: u32, end: u32, level: nat, index: nat) {
    MP.Shr(start, level) <= index <= MP.Shr(end, level)
  }

  /** The node a level and index stand for: a hash inside the stored range, pseudo-random filler outside. */
  ghost function Node(o: Primitives, seed: seq<nat>, start: u32, end: u32, level: nat, index: nat): (r: Words)
    requires WellSized(o) && level <= LOG_LIFETIME && start <= end
    ensures |r| == XMSS_DIGEST_LEN
    decreases level
  {
    if !Stored(start, end, level, index) then o.randomNode(seed, level, index)
    else if level == 0 then
      LeafHash(o, seed, index)
    else
      ParentHash(o, o.publicParam(seed), level, index,
                 Node(o, seed, start, end, level - 1, 2 * index), Node(o, seed, start, end, level - 1, 2 * index + 1))
  }

  ghost function LeafHash(o: Primitives, seed: seq<nat>, slot: nat): (r: Words)
    requires WellSized(o)
    ensures |r| == XMSS_DIGEST_LEN
  {
    if slot < 0x1_0000_0000 then
      PublicKeyHash(o, ChainEnds(o, o.preImages(seed, slot), o.publicParam(seed), slot), o.publicParam(seed), slot)
    else ZeroVec(XMSS_DIGEST_LEN)
  }

  /** The index of a parent node is an u32, as the cast in the source assumes. */
  ghost function ParentHash(o: Primitives, publicParam: Words, level: nat, index: nat, left: Words, right: Words): (r: Words)
    requires WellSized(o) && |publicParam| == PUBLIC_PARAM_LEN_FE && |left| == |right| == XMSS_DIGEST_LEN && level <= LOG_LIFETIME
    ensures |r| == XMSS_DIGEST_LEN
  {
    if index < 0x1_0000_0000 then
      ParentLength(o, MakeTweak(TWEAK_TYPE_MERKLE, level, index), publicParam, left, right);
      MerkleParent(o, MakeTweak(TWEAK_TYPE_MERKLE, level, index), publicParam, left, right)
    else ZeroVec(XMSS_DIGEST_LEN)
  }

  lemma ParentLength(o: Primitives, tweak: Words, publicParam: Words, left: Words, right: Words)
    requires WellSized(o) && |tweak| == TWEAK_LEN && |publicParam| == PUBLIC_PARAM_LEN_FE && |left| == |right| == XMSS_DIGEST_LEN
    ensures |MerkleParent(o, tweak, publicParam, left, right)| == XMSS_DIGEST_LEN
  {
    var l, r := tweak + ZeroVec(DIGEST_LEN_FE - PUBLIC_PARAM_LEN_FE - TWEAK_LEN) + publicParam, left + right;
    assert |o.compressPair(l, r)| == DIGEST_LEN_FE;
  }

  /** Level `level` of the stored tree holds exactly the nodes in range. */
  ghost predicate LevelStored(o: Primitives, seed: seq<nat>, start: u32, end: u32, level: nat, nodes: seq<Words>)
    requires WellSized(o) && level <= LOG_LIFETIME && start <= end
  {
    && MP.Shr(start, level) <= MP.Shr(end, level)
    && |nodes| == MP.Shr(end, level) - MP.Shr(start, level) + 1
    && forall i {:trigger nodes[i]} | 0 <= i < |nodes| :: nodes[i] == Node(o, seed, start, end, level, MP.Shr(start, level) + i)
  }

  /** A stored node, or the filler in its place. */
  method NodeOrFiller(o: Primitives, seed: seq<nat>, start: u32, end: u32, level: nat, index: nat, nodes: seq<Words>) returns (r: Words)
    requires WellSized(o) && level <= LOG_LIFETIME && start <= end && LevelStored(o, seed, start, end, level, nodes)
    ensures r == Node(o, seed, start, end, level, index)
  {
    hide WellSized;
    if MP.Shr(start, level) <= index && index <= MP.Shr(end, level) {
      r := nodes[index - MP.Shr(start, level)];
    } else {
      r := o.randomNode(seed, level, index);
    }
  }

  method Leaves(o: Primitives, seed: seq<nat>, start: u32, end: u32) returns (leaves: seq<Words>)
    requires WellSized(o) && start <= end
    ensures LevelStored(o, seed, start, end, 0, leaves)
  {
    leaves := [];
    var publicParam := o.publicParam(seed);
    for k := 0 to end - start + 1
      invariant |leaves| == k && forall i {:trigger leaves[i]} | 0 <= i < k :: leaves[i] == Node(o, seed, start, end, 0, start + i)
    {
      var slot: u32 := start + k;
      var preImages := o.preImages(seed, slot);
      var leaf := WotsLeaf(o, preImages, publicParam, slot);
      leaves := leaves + [leaf];
    }
  }

  method WotsLeaf(o: Primitives, preImages: seq<Words>, publicParam: Words, slot: u32) returns (leaf: Words)
    requires WellSized(o) && AllDigests(preImages) && |publicParam| == PUBLIC_PARAM_LEN_FE
    ensures leaf == PublicKeyHash(o, ChainEnds(o, preImages, publicParam, slot), publicParam, slot)
  {
    var pk := WotsPublicKeyOf(o, preImages, publicParam, slot);
    leaf := HashPublicKey(o, pk, publicParam, slot);
  }

  method NextLevel(o: Primitives, seed: seq<nat>, start: u32, end: u32, level: nat, prev: seq<Words>) returns (nodes: seq<Words>)
    requires WellSized(o) && 1 <= level <= LOG_LIFETIME && start <= end && LevelStored(o, seed, start, end, level - 1, prev)
    ensures LevelStored(o, seed, start, end, level, nodes)
  {
    ShrMonotone(start, end, level);
    var base, top := MP.Shr(start, level), MP.Shr(end, level);
    var publicParam := o.publicParam(seed);
    assert |publicParam| == PUBLIC_PARAM_LEN_FE;
    hide WellSized;
    nodes := [];
    for k := 0 to top - base + 1
      invariant |nodes| == k && forall i {:trigger nodes[i]} | 0 <= i < k :: nodes[i] == Node(o, seed, start, end, level, base + i)
    {
      var i := base + k;
      var left := NodeOrFiller(o, seed, start, end, level - 1, 2 * i, prev);
      var right := NodeOrFiller(o, seed, start, end, level - 1, 2 * i + 1, prev);
      var node := MerkleParent(o, MakeTweak(TWEAK_TYPE_MERKLE, level, i), publicParam, left, right);
      nodes := nodes + [node];
    }
  }

  ghost predicate IsKey(o: Primitives, sk: XmssSecretKey)
    requires WellSized(o)
  {
    && sk.slotStart <= sk.slotEnd && sk.publicParam == o.publicParam(sk.seed) && |sk.merkleTree| == LOG_LIFETIME + 1
    && forall l {:trigger sk.merkleTree[l]} | 0 <= l <= LOG_LIFETIME ::
         LevelStored(o, sk.seed, sk.slotStart, sk.slotEnd, l, sk.merkleTree[l])
  }

  /** The root is the whole tree's top node. */
  ghost function Root(o: Primitives, sk: XmssSecretKey): Words
    requires WellSized(o) && IsKey(o, sk)
  {
    Node(o, sk.seed, sk.slotStart, sk.slotEnd, LOG_LIFETIME, 0)
  }

  lemma LifetimeIsU32()
    ensures Pow2(LOG_LIFETIME) == 0x1_0000_0000
  {
    assert Pow2(8) == 256;
    Pow2Add(8, 8);
    Pow2Add(16, 16);
  }

  lemma TopShift(a: u32)
    ensures MP.Shr(a, LOG_LIFETIME) == 0
  {
    LifetimeIsU32();
    MP.ShrBound(a, LOG_LIFETIME, LOG_LIFETIME);
  }

  /** public_key. */
  method PublicKey(o: Primitives, sk: XmssSecretKey) returns (pk: XmssPublicKey)
    requires WellSized(o) && IsKey(o, sk)
    ensures pk == XmssPublicKey(Root(o, sk), sk.publicParam)
  {
    hide WellSized, Node;
    TopShift(sk.slotStart);
    var top := sk.merkleTree[LOG_LIFETIME];
    pk := XmssPublicKey(top[0], sk.publicParam);
  }

  /** xmss_key_gen. */
  method XmssKeyGen(o: Primitives, seed: seq<nat>, slotStart: u32, slotEnd: u32) returns (r: KeyGenResult)
    requires WellSized(o)
    ensures r.InvalidRange? <==> slotStart > slotEnd
    ensures r.KeyGenOk? ==> IsKey(o, r.secretKey) && r.secretKey.seed == seed && r.secretKey.slotStart == slotStart && r.secretKey.slotEnd == slotEnd
    ensures r.KeyGenOk? ==> r.publicKey == XmssPublicKey(Root(o, r.secretKey), r.secretKey.publicParam)
  {
    LifetimeIsU32();
    if slotStart > slotEnd || slotEnd >= Pow2(LOG_LIFETIME) {
      return InvalidRange;
    }
    hide WellSized, LevelStored;
    var leaves := Leaves(o, seed, slotStart, slotEnd);
    var tree := [leaves];
    for level := 1 to LOG_LIFETIME + 1
      invariant |tree| == level
      invariant forall l {:trigger tree[l]} | 0 <= l < level :: LevelStored(o, seed, slotStart, slotEnd, l, tree[l])
    {
      var nodes := NextLevel(o, seed, slotStart, slotEnd, level, tree[level - 1]);
      tree := tree + [nodes];
    }
    var sk := XmssSecretKey(slotStart, slotEnd, o.publicParam(seed), seed, tree);
    var pk := PublicKey(o, sk);
    return KeyGenOk(sk, pk);
  }

  // ----- signing

  /** The siblings of the slot's path. */
  ghost predicate IsProof(o: Primitives, sk: XmssSecretKey, slot: u32, proof: seq<Words>)
    requires WellSized(o) && IsKey(o, sk)
  {
    |proof| == LOG_LIFETIME
    && forall l {:trigger proof[l]} | 0 <= l < LOG_LIFETIME ::
         proof[l] == Node(o, sk.seed, sk.slotStart, sk.slotEnd, l, MP.Sibling(MP.Shr(slot, l)))
  }

  method MerkleProof(o: Primitives, sk: XmssSecretKey, slot: u32) returns (proof: seq<Words>)
    requires WellSized(o) && IsKey(o, sk)
    ensures IsProof(o, sk, slot, proof)
  {
    hide WellSized, LevelStored, Node;
    proof := [];
    for level := 0 to LOG_LIFETIME
      invariant |proof| == level
      invariant forall l {:trigger proof[l]} | 0 <= l < level ::
                  proof[l] == Node(o, sk.seed, sk.slotStart, sk.slotEnd, l, MP.Sibling(MP.Shr(slot, l)))
    {
      var neighbour := MP.Sibling(MP.Shr(slot, level));
      var nodes := sk.merkleTree[level];
      var node := NodeOrFiller(o, sk.seed, sk.slotStart, sk.slotEnd, level, neighbour, nodes);
      proof := proof + [node];
    }
  }

  /** xmss_sign_with_randomness; NoEncoding is the panic of unwrap on unusable randomness. */
  method XmssSignWithRandomness(o: Primitives, sk: XmssSecretKey, message: Words, slot: u32, randomness: Words) returns (r: SignResult)
    requires WellSized(o) && IsKey(o, sk) && |message| == MESSAGE_LEN_FE && |randomness| == RANDOMNESS_LEN_FE
    ensures |sk.publicParam| == PUBLIC_PARAM_LEN_FE
    ensures r.SlotOutOfRange? <==> !(sk.slotStart <= slot <= sk.slotEnd)
    ensures r.Signed? <==> sk.slotStart <= slot <= sk.slotEnd && WotsEncode(o, message, slot, sk.publicParam, randomness).Some?
    ensures r.Signed? ==>
              var e := WotsEncode(o, message, slot, sk.publicParam, randomness).value;
              && r.signature.wotsSignature.randomness == randomness && AllDigests(r.signature.wotsSignature.chainTips)
              && IsValidEncoding(e) && TipsOf(o, sk, slot, e, r.signature.wotsSignature.chainTips) && IsProof(o, sk, slot, r.signature.merkleProof)
  {
    assert |sk.publicParam| == PUBLIC_PARAM_LEN_FE;
    if slot < sk.slotStart || slot > sk.slotEnd {
      return SlotOutOfRange;
    }
    var preImages := o.preImages(sk.seed, slot);
    assert AllDigests(preImages);
    hide WellSized, IsKey, WotsEncode, IterateHash, SumOfAll;
    var encoding := WotsEncode(o, message, slot, sk.publicParam, randomness);
    if encoding.None? {
      return NoEncoding;
    }
    EncodingIsValid(o, message, slot, sk.publicParam, randomness);
    var wots := SignWithEncoding(o, preImages, randomness, encoding.value, sk.publicParam, slot);
    var proof := MerkleProof(o, sk, slot);
    return Signed(XmssSignature(wots, proof));
  }

  ghost predicate TipsOf(o: Primitives, sk: XmssSecretKey, slot: u32, e: seq<nat>, tips: seq<Words>)
    requires WellSized(o) && |sk.publicParam| == PUBLIC_PARAM_LEN_FE && |e| == V
  {
    AllDigests(o.preImages(sk.seed, slot)) && AllDigests(tips)
    && forall i {:trigger tips[i]} | 0 <= i < V ::
         e[i] < CHAIN_LENGTH && |o.preImages(sk.seed, slot)[i]| == XMSS_DIGEST_LEN
         && tips[i] == IterateHash(o, o.preImages(sk.seed, slot)[i], e[i], sk.publicParam, slot, i, 0)
  }

  // ----- verification

  /** The hash reached after the first `level` siblings. */
  ghost function PathHash(o: Primitives, publicParam: Words, leaf: Words, proof: seq<Words>, slot: u32, level: nat): (r: Words)
    requires WellSized(o) && |publicParam| == PUBLIC_PARAM_LEN_FE && |leaf| == XMSS_DIGEST_LEN && level <= |proof| && level <= LOG_LIFETIME
    requires forall l {:trigger proof[l]} | 0 <= l < |proof| :: |proof[l]| == XMSS_DIGEST_LEN
    ensures |r| == XMSS_DIGEST_LEN
    decreases level
  {
    if level == 0 then leaf
    else
      var current := PathHash(o, publicParam, leaf, proof, slot, level - 1);
      var neighbour := proof[level - 1];
      if MP.Shr(slot, level - 1) % 2 == 0 then ParentHash(o, publicParam, level, MP.Shr(slot, level), current, neighbour)
      else ParentHash(o, publicParam, level, MP.Shr(slot, level), neighbour, current)
  }

  ghost predicate IsSignature(sig: XmssSignature) {
    && AllDigests(sig.wotsSignature.chainTips) && |sig.wotsSignature.randomness| == RANDOMNESS_LEN_FE
    && forall l {:trigger sig.merkleProof[l]} | 0 <= l < |sig.merkleProof| :: |sig.merkleProof[l]| == XMSS_DIGEST_LEN
  }

  /** The signature's tips lead to the given chain ends, and their leaf climbs to the root. */
  ghost predicate Opens(o: Primitives, pk: XmssPublicKey, message: Words, sig: XmssSignature, slot: u32, ends: seq<Words>)
    requires WellSized(o) && |pk.publicParam| == PUBLIC_PARAM_LEN_FE && |message| == MESSAGE_LEN_FE && IsSignature(sig)
  {
    && EndsOf(o, pk.publicParam, slot, WotsEncode(o, message, slot, pk.publicParam, sig.wotsSignature.randomness), sig.wotsSignature.chainTips, ends)
    && |sig.merkleProof| == LOG_LIFETIME
    && PathHash(o, pk.publicParam, PublicKeyHash(o, ends, pk.publicParam, slot), sig.merkleProof, slot, LOG_LIFETIME) == pk.merkleRoot
  }

  /** xmss_verify. */
  method XmssVerify(o: Primitives, pk: XmssPublicKey, message: Words, sig: XmssSignature, slot: u32) returns (r: VerifyResult)
    requires WellSized(o) && |pk.publicParam| == PUBLIC_PARAM_LEN_FE && |message| == MESSAGE_LEN_FE && IsSignature(sig)
    ensures r == InvalidWots <==> WotsEncode(o, message, slot, pk.publicParam, sig.wotsSignature.randomness).None?
    ensures r == Valid <==> exists ends: seq<Words> :: Opens(o, pk, message, sig, slot, ends)
  {
    hide WellSized, WotsEncode, IterateHash, PublicKeyHash;
    var wotsPublicKey := RecoverPublicKey(o, sig.wotsSignature, message, slot, pk.publicParam);
    if wotsPublicKey.None? {
      return InvalidWots;
    }
    var ends := wotsPublicKey.value;
    ghost var encoding := WotsEncode(o, message, slot, pk.publicParam, sig.wotsSignature.randomness);
    EndsUnique(o, pk.publicParam, slot, encoding, sig.wotsSignature.chainTips, ends);
    var currentHash := HashPublicKey(o, ends, pk.publicParam, slot);
    if |sig.merkleProof| != LOG_LIFETIME {
      return InvalidMerklePath;
    }
    currentHash := ClimbPath(o, pk.publicParam, currentHash, sig.merkleProof, slot);
    assert Opens(o, pk, message, sig, slot, ends) <==> currentHash == pk.merkleRoot;
    if currentHash == pk.merkleRoot {
      return Valid;
    } else {
      return InvalidMerklePath;
    }
  }

  method ClimbPath(o: Primitives, publicParam: Words, leaf: Words, proof: seq<Words>, slot: u32) returns (currentHash: Words)
    requires WellSized(o) && |publicParam| == PUBLIC_PARAM_LEN_FE && |leaf| == XMSS_DIGEST_LEN && |proof| == LOG_LIFETIME
    requires forall l {:trigger proof[l]} | 0 <= l < |proof| :: |proof[l]| == XMSS_DIGEST_LEN
    ensures currentHash == PathHash(o, publicParam, leaf, proof, slot, LOG_LIFETIME)
  {
    hide WellSized, MerkleParent, MakeTweak;
    currentHash := leaf;
    for level := 0 to LOG_LIFETIME
      invariant |currentHash| == XMSS_DIGEST_LEN && currentHash == PathHash(o, publicParam, leaf, proof, slot, level)
    {
      ShrIsU32(slot, level + 1);
      var neighbour := proof[level];
      var isLeft := MP.Shr(slot, level) % 2 == 0;
      var parentIndex: u32 := MP.Shr(slot, level + 1);
      var leftChild := if isLeft then currentHash else neighbour;
      var rightChild := if isLeft then neighbour else currentHash;
      ParentLength(o, MakeTweak(TWEAK_TYPE_MERKLE, level + 1, parentIndex), publicParam, leftChild, rightChild);
      currentHash := MerkleParent(o, MakeTweak(TWEAK_TYPE_MERKLE, level + 1, parentIndex), publicParam, leftChild, rightChild);
    }
  }

  lemma EndsUnique(o: Primitives, publicParam: Words, slot: u32, encoding: Option<seq<nat>>, tips: seq<Words>, ends: seq<Words>)
    requires WellSized(o) && |publicParam| == PUBLIC_PARAM_LEN_FE && AllDigests(tips)
    requires EndsOf(o, publicParam, slot, encoding, tips, ends)
    ensures forall other: seq<Words> | EndsOf(o, publicParam, slot, encoding, tips, other) :: other == ends
  {
    hide WellSized, IterateHash;
    forall other: seq<Words> | EndsOf(o, publicParam, slot, encoding, tips, other) ensures other == ends {
      forall i | 0 <= i < V ensures other[i] == ends[i] {
        assert other[i] == other[i] && ends[i] == ends[i];
      }
    }
  }

  /** Climbing from the slot's leaf along its siblings reaches the stored node at every level. */
  lemma {:induction false} PathReachesNode(o: Primitives, sk: XmssSecretKey, slot: u32, proof: seq<Words>, level: nat)
    requires WellSized(o) && IsKey(o, sk) && sk.slotStart <= slot <= sk.slotEnd && IsProof(o, sk, slot, proof) && level <= LOG_LIFETIME
    ensures |sk.publicParam| == PUBLIC_PARAM_LEN_FE && |proof| == LOG_LIFETIME
    ensures forall l {:trigger proof[l]} | 0 <= l < |proof| :: |proof[l]| == XMSS_DIGEST_LEN
    ensures PathHash(o, sk.publicParam, LeafHash(o, sk.seed, slot), proof, slot, level)
         == Node(o, sk.seed, sk.slotStart, sk.slotEnd, level, MP.Shr(slot, level))
    decreases level
  {
    hide WellSized, LeafHash, ParentHash, Node, IsKey, IsProof;
    ProofNodes(o, sk, slot, proof);
    NodeOfSlot(o, sk.seed, sk.slotStart, sk.slotEnd, slot, level);
    if level > 0 {
      PathReachesNode(o, sk, slot, proof, level - 1);
      SlotAbove(slot, level);
    }
  }

  lemma ProofNodes(o: Primitives, sk: XmssSecretKey, slot: u32, proof: seq<Words>)
    requires WellSized(o) && IsKey(o, sk) && IsProof(o, sk, slot, proof)
    ensures |sk.publicParam| == PUBLIC_PARAM_LEN_FE && sk.publicParam == o.publicParam(sk.seed) && sk.slotStart <= sk.slotEnd && |proof| == LOG_LIFETIME
    ensures forall l {:trigger proof[l]} | 0 <= l < |proof| ::
              |proof[l]| == XMSS_DIGEST_LEN && proof[l] == Node(o, sk.seed, sk.slotStart, sk.slotEnd, l, MP.Sibling(MP.Shr(slot, l)))
  {
    assert |o.publicParam(sk.seed)| == PUBLIC_PARAM_LEN_FE;
    hide WellSized, LevelStored;
  }

  /** The node above a slot in range: its leaf, or the parent of the two nodes below. */
  lemma NodeOfSlot(o: Primitives, seed: seq<nat>, start: u32, end: u32, slot: u32, level: nat)
    requires WellSized(o) && start <= slot <= end && level <= LOG_LIFETIME
    ensures var i := MP.Shr(slot, level);
            Node(o, seed, start, end, level, i)
            == if level == 0 then LeafHash(o, seed, slot)
               else ParentHash(o, o.publicParam(seed), level, i, Node(o, seed, start, end, level - 1, 2 * i), Node(o, seed, start, end, level - 1, 2 * i + 1))
  {
    hide WellSized, LeafHash, ParentHash;
    ShrMonotone(start, slot, level);
    ShrMonotone(slot, end, level);
  }

  lemma SlotAbove(slot: nat, level: nat)
    requires level > 0
    ensures var below, above := MP.Shr(slot, level - 1), MP.Shr(slot, level);
            && (below % 2 == 0 ==> below == 2 * above && MP.Sibling(below) == 2 * above + 1)
            && (below % 2 == 1 ==> below == 2 * above + 1 && MP.Sibling(below) == 2 * above)
  {
    MP.ShrStep(slot, level - 1);
  }

  /** Every signature made with a generated key, inside its range, on usable randomness, verifies. */
  method SignThenVerify(o: Primitives, seed: seq<nat>, slotStart: u32, slotEnd: u32, message: Words, slot: u32, randomness: Words)
    returns (keys: KeyGenResult, signed: SignResult, verdict: VerifyResult)
    requires WellSized(o) && |message| == MESSAGE_LEN_FE && |randomness| == RANDOMNESS_LEN_FE && slotStart <= slot <= slotEnd
    ensures keys.KeyGenOk? && |keys.publicKey.publicParam| == PUBLIC_PARAM_LEN_FE
    ensures signed.Signed? <==> WotsEncode(o, message, slot, keys.publicKey.publicParam, randomness).Some?
    ensures signed.Signed? ==> verdict == Valid
  {
    keys := XmssKeyGen(o, seed, slotStart, slotEnd);
    var sk, pk := keys.secretKey, keys.publicKey;
    signed := XmssSignWithRandomness(o, sk, message, slot, randomness);
    verdict := InvalidWots;
    if signed.Signed? {
      var sig := signed.signature;
      SignatureAccepted(o, sk, message, slot, sig);
      verdict := XmssVerify(o, pk, message, sig, slot);
    }
  }

  /** The public key recovered from an honest signature leads to the root. */
  lemma SignatureAccepted(o: Primitives, sk: XmssSecretKey, message: Words, slot: u32, sig: XmssSignature)
    requires WellSized(o) && IsKey(o, sk) && |message| == MESSAGE_LEN_FE && |sig.wotsSignature.randomness| == RANDOMNESS_LEN_FE
    requires |sk.publicParam| == PUBLIC_PARAM_LEN_FE && sk.slotStart <= slot <= sk.slotEnd
    requires var e := WotsEncode(o, message, slot, sk.publicParam, sig.wotsSignature.randomness);
             e.Some? && IsValidEncoding(e.value) && TipsOf(o, sk, slot, e.value, sig.wotsSignature.chainTips)
    requires IsProof(o, sk, slot, sig.merkleProof)
    ensures IsSignature(sig)
    ensures exists ends: seq<Words> :: Opens(o, XmssPublicKey(Root(o, sk), sk.publicParam), message, sig, slot, ends)
  {
    var e := WotsEncode(o, message, slot, sk.publicParam, sig.wotsSignature.randomness);
    var preImages := o.preImages(sk.seed, slot);
    var ends := ChainEnds(o, preImages, sk.publicParam, slot);
    assert LeafHash(o, sk.seed, slot) == PublicKeyHash(o, ends, sk.publicParam, slot);
    hide WellSized, IterateHash, PublicKeyHash, WotsEncode, PathHash, Node, LeafHash, IsProof, EndsOf, TipsOf, IsValidEncoding, ChainEnds;
    TipsLeadToEnds(o, sk, slot, e.value, sig.wotsSignature.chainTips);
    PathReachesNode(o, sk, slot, sig.merkleProof, LOG_LIFETIME);
    TopShift(slot);
    ProofLength(o, sk, slot, sig.merkleProof);
    assert Opens(o, XmssPublicKey(Root(o, sk), sk.publicParam), message, sig, slot, ends);
  }

  lemma ProofLength(o: Primitives, sk: XmssSecretKey, slot: u32, proof: seq<Words>)
    requires WellSized(o) && IsKey(o, sk) && IsProof(o, sk, slot, proof)
    ensures |proof| == LOG_LIFETIME
  {
  }

  lemma TipsLeadToEnds(o: Primitives, sk: XmssSecretKey, slot: u32, e: seq<nat>, tips: seq<Words>)
    requires WellSized(o) && |sk.publicParam| == PUBLIC_PARAM_LEN_FE && IsValidEncoding(e) && TipsOf(o, sk, slot, e, tips)
    ensures EndsOf(o, sk.publicParam, slot, Some(e), tips, ChainEnds(o, o.preImages(sk.seed, slot), sk.publicParam, slot))
  {
    hide WellSized, IterateHash, SumOfAll;
    var preImages := o.preImages(sk.seed, slot);
    var ends := ChainEnds(o, preImages, sk.publicParam, slot);
    forall i {:trigger ends[i]} | 0 <= i < V
      ensures e[i] < CHAIN_LENGTH && |tips[i]| == XMSS_DIGEST_LEN
              && ends[i] == IterateHash(o, tips[i], CHAIN_LENGTH - 1 - e[i], sk.publicParam, slot, i, e[i])
    {
      assert tips[i] == IterateHash(o, preImages[i], e[i], sk.publicParam, slot, i, 0);
      ChainsCompose(o, preImages[i], e[i], CHAIN_LENGTH - 1 - e[i], sk.publicParam, slot, i, 0);
    }
  }
}
