/**
 What a signature and a tree opening fix: the encoding is read off a digest that fixes the message,
 and two accepted openings of one root at one slot are the same, or a collision of the compression
 function can be read off them (crates/xmss/src/wots.rs, crates/xmss/src/xmss.rs).
 */
module XmssBinding {
  import opened Arith
  import opened Field
  import opened Interpolation
  import opened LinearAlgebra
  import opened Wots
  import opened Xmss
  import MP = MerklePruning

  /** The two blocks that are compressed. */
  datatype Blocks = Blocks(left: Words, right: Words)

  /** Different inputs whose compressions begin with the same digest. */
  ghost predicate Collide(o: Primitives, x: Blocks, y: Blocks)
    requires WellSized(o)
  {
    && |x.left| == |x.right| == |y.left| == |y.right| == DIGEST_LEN_FE && x != y
    && |o.compressPair(x.left, x.right)| == |o.compressPair(y.left, y.right)| == DIGEST_LEN_FE
    && o.compressPair(x.left, x.right)[..XMSS_DIGEST_LEN] == o.compressPair(y.left, y.right)[..XMSS_DIGEST_LEN]
  }

  lemma Compressed(o: Primitives, x: Blocks, y: Blocks)
    requires WellSized(o) && |x.left| == |x.right| == |y.left| == |y.right| == DIGEST_LEN_FE
    ensures |o.compressPair(x.left, x.right)| == |o.compressPair(y.left, y.right)| == DIGEST_LEN_FE
    ensures o.compressPair(x.left, x.right)[..XMSS_DIGEST_LEN] == o.compressPair(y.left, y.right)[..XMSS_DIGEST_LEN] ==> x == y || Collide(o, x, y)
  {
  }

  lemma SplitEqual(a: Words, b: Words, c: Words, d: Words)
    requires |a| == |c| && a + b == c + d
    ensures a == c && b == d
  {
    assert (a + b)[..|a|] == a && (c + d)[..|c|] == c;
    assert (a + b)[|a|..] == b && (c + d)[|c|..] == d;
  }

  // ----- where everything stands in the compressed blocks

  /** A chain step: tweak in cells 0 and 1, the value in the last four; the public parameter first on the right; zeros elsewhere. */
  lemma StepLayout(o: Primitives, a: Words, publicParam: Words, slot: u32, position: nat) returns (x: Blocks)
    requires WellSized(o) && |a| == XMSS_DIGEST_LEN && |publicParam| == PUBLIC_PARAM_LEN_FE && position < 1024
    ensures |x.left| == |x.right| == 8 && |o.compressPair(x.left, x.right)| == 8
    ensures ChainStep(o, a, publicParam, slot, position) == o.compressPair(x.left, x.right)[..4]
    ensures x.left[..2] == MakeTweak(TWEAK_TYPE_CHAIN, position, slot) && x.left[2..4] == [0, 0] && x.left[4..] == a
    ensures x.right[..4] == publicParam && x.right[4..] == [0, 0, 0, 0]
  {
    x := Blocks(LeftChainInput(MakeTweak(TWEAK_TYPE_CHAIN, position, slot), a), RightChainInput(publicParam));
    Compressed(o, x, x);
  }

  /** A node: tweak, two zeros and the public parameter on the left; its children in order on the right. */
  lemma ParentLayout(o: Primitives, publicParam: Words, level: nat, index: nat, left: Words, right: Words) returns (x: Blocks)
    requires WellSized(o) && |publicParam| == PUBLIC_PARAM_LEN_FE && |left| == |right| == XMSS_DIGEST_LEN
    requires level <= LOG_LIFETIME && index < 0x1_0000_0000
    ensures |x.left| == |x.right| == 8 && |o.compressPair(x.left, x.right)| == 8
    ensures ParentHash(o, publicParam, level, index, left, right) == o.compressPair(x.left, x.right)[..4]
    ensures x.left[..2] == MakeTweak(TWEAK_TYPE_MERKLE, level, index) && x.left[2..4] == [0, 0] && x.left[4..] == publicParam
    ensures x.right[..4] == left && x.right[4..] == right
  {
    var head := MakeTweak(TWEAK_TYPE_MERKLE, level, index) + ZeroVec(DIGEST_LEN_FE - PUBLIC_PARAM_LEN_FE - TWEAK_LEN) + publicParam;
    x := Blocks(head, left + right);
    Compressed(o, x, x);
  }

  /** The leaf: tweak, two zeros and the public parameter first, then the chain ends two by two, in order. */
  lemma LeafLayout(o: Primitives, pk: seq<Words>, publicParam: Words, slot: u32) returns (first: Words, states: seq<Words>)
    requires WellSized(o) && AllDigests(pk) && |publicParam| == PUBLIC_PARAM_LEN_FE
    ensures |first| == 8 && first[..2] == MakeTweak(TWEAK_TYPE_WOTS_PK, 0, slot) && first[2..4] == [0, 0] && first[4..] == publicParam
    ensures |states| == 22 && states[0] == o.compressPair(first, ZeroVec(8)) && |states[21]| == 8 && |pk| == 42
    ensures PublicKeyHash(o, pk, publicParam, slot) == states[21][..4]
    ensures forall k {:trigger states[k]} | 0 <= k < 21 :: states[k + 1] == o.compressPair(states[k], pk[2 * k] + pk[2 * k + 1])
  {
    first := MakeTweak(TWEAK_TYPE_WOTS_PK, 0, slot) + ZeroVec(2) + publicParam;
    Compressed(o, Blocks(first, ZeroVec(8)), Blocks(first, ZeroVec(8)));
    var start := o.compressPair(first, ZeroVec(8));
    states := seq(22, k requires 0 <= k < 22 => PairsAbsorbed(o, start, pk, k));
    hide WellSized, MakeTweak;
    forall k {:trigger states[k]} | 0 <= k < 21 ensures states[k + 1] == o.compressPair(states[k], pk[2 * k] + pk[2 * k + 1]) {
      assert PairsAbsorbed(o, start, pk, k + 1) == o.compressPair(PairsAbsorbed(o, start, pk, k), pk[2 * k] + pk[2 * k + 1]);
    }
  }

  /** The encoding's digest: the message beside randomness and tweak; their compression beside the public parameter. */
  lemma DigestLayout(o: Primitives, message: Words, slot: u32, publicParam: Words, randomness: Words) returns (x: Blocks, y: Blocks)
    requires WellSized(o) && |message| == MESSAGE_LEN_FE && |publicParam| == PUBLIC_PARAM_LEN_FE && |randomness| == RANDOMNESS_LEN_FE
    ensures |x.left| == |x.right| == |y.left| == |y.right| == 8
    ensures EncodingDigest(o, message, slot, publicParam, randomness) == o.compressPair(y.left, y.right)
    ensures y.left == o.compressPair(x.left, x.right) && y.right[..4] == publicParam && y.right[4..] == [0, 0, 0, 0]
    ensures x.left == message && x.right[..6] == randomness && x.right[6..] == MakeTweak(TWEAK_TYPE_ENCODING, 0, slot)
  {
    x := Blocks(message, randomness + MakeTweak(TWEAK_TYPE_ENCODING, 0, slot));
    y := Blocks(o.compressPair(x.left, x.right), publicParam + ZeroVec(DIGEST_LEN_FE - PUBLIC_PARAM_LEN_FE));
    Compressed(o, x, y);
  }

  // ----- the encoding

  lemma Regrouped(q: nat, m: nat, r: nat, k: nat)
    ensures (q * m + r) * k == q * (m * k) + r * k
  {
  }

  lemma DigitsBelow(r: nat, m: nat, k: nat, s: nat)
    requires r < m && s < k
    ensures 0 <= r * k + s < m * k
  {
    ShiftProduct(m, r, k);
    ShiftProduct(m - r, 1, k);
    NonNegativeProduct(r, k);
    NonNegativeProduct(m - r - 1, k);
  }

  lemma DivModIs(x: nat, k: nat)
    requires k > 0
    ensures x == x / k * k + x % k && x % k < k
  {
  }

  /** Dividing twice. */
  lemma DivTwice(x: nat, k: nat, m: nat)
    requires k > 0 && m > 0
    ensures m * k > 0 && x / k / m == x / (m * k)
  {
    var a, s := x / k, x % k;
    var q, r := a / m, a % m;
    DivModIs(x, k);
    DivModIs(a, m);
    Regrouped(q, m, r, k);
    DigitsBelow(r, m, k, s);
    DivModOfRow(q, r * k + s, m * k);
  }

  lemma {:induction false} BitIs(x: nat, count: nat, j: nat)
    requires j < count
    ensures LittleEndianBits(x, count)[j] == x / Pow2(j) % 2
    decreases count
  {
    if j > 0 {
      BitIs(x / 2, count - 1, j - 1);
      DivTwice(x, 2, Pow2(j - 1));
      assert Pow2(j) == Pow2(j - 1) * 2;
    }
  }

  lemma {:induction false} FlatBitIs(words: Words, j: nat)
    requires j < 24 * |words|
    ensures FlatBits(words)[j] == words[j / 24] / Pow2(j % 24) % 2
    decreases |words|
  {
    if j < 24 {
      BitIs(words[0], 24, j);
    } else {
      FlatBitIs(words[1..], j - 24);
      NextWord(j);
    }
  }

  lemma NextWord(j: nat)
    requires j >= 24
    ensures (j - 24) / 24 == j / 24 - 1 && (j - 24) % 24 == j % 24
  {
  }

  lemma {:induction false} ChunkIs(bits: seq<nat>, count: nat, i: nat)
    requires |bits| >= W * count && i < count && forall k {:trigger bits[k]} | 0 <= k < |bits| :: bits[k] < 2
    ensures Indices(bits, count)[i] == bits[3 * i] + 2 * bits[3 * i + 1] + 4 * bits[3 * i + 2]
    decreases count
  {
    if i > 0 {
      ChunkIs(bits[W..], count - 1, i - 1);
    }
  }

  lemma LowThreeBits(y: nat)
    ensures y % 2 + 2 * (y / 2 % 2) + 4 * (y / 4 % 2) == y % 8
  {
  }

  lemma ThreeBits(x: nat, k: nat, k2: nat, k4: nat)
    requires k > 0 && k2 == 2 * k && k4 == 4 * k
    ensures x / k % 2 + 2 * (x / k2 % 2) + 4 * (x / k4 % 2) == x / k % 8
  {
    DivTwice(x, k, 2);
    DivTwice(x, k, 4);
    LowThreeBits(x / k);
  }

  lemma BitPlace(i: nat, b: nat)
    requires i < V && b < 3
    ensures (3 * i + b) / 24 == i / 8 && (3 * i + b) % 24 == 3 * (i % 8) + b
  {
  }

  lemma EncodingReads(o: Primitives, message: Words, slot: u32, publicParam: Words, randomness: Words)
    requires |message| == MESSAGE_LEN_FE && |publicParam| == PUBLIC_PARAM_LEN_FE && |randomness| == RANDOMNESS_LEN_FE
    requires WotsEncode(o, message, slot, publicParam, randomness).Some?
    ensures var digest := EncodingDigest(o, message, slot, publicParam, randomness);
            |digest| == DIGEST_LEN_FE && WotsEncode(o, message, slot, publicParam, randomness).value == Indices(FlatBits(digest), V)
  {
    hide FlatBits, Indices, IsValidEncoding, EncodingDigest;
  }

  /** Entry i of an encoding is digit i % 8, to base 8 and from the low end, of word i / 8 of the digest. */
  lemma EntryIsDigit(o: Primitives, message: Words, slot: u32, publicParam: Words, randomness: Words, i: nat)
    requires |message| == MESSAGE_LEN_FE && |publicParam| == PUBLIC_PARAM_LEN_FE && |randomness| == RANDOMNESS_LEN_FE
    requires WotsEncode(o, message, slot, publicParam, randomness).Some? && i < V
    ensures var e := WotsEncode(o, message, slot, publicParam, randomness).value;
            var digest := EncodingDigest(o, message, slot, publicParam, randomness);
            && |e| == V && |digest| == DIGEST_LEN_FE
            && e[i] == digest[i / 8] / Pow2(3 * (i % 8)) % 8
  {
    hide IsValidEncoding, Pow2, EncodingDigest;
    EncodingIsValid(o, message, slot, publicParam, randomness);
    var digest := EncodingDigest(o, message, slot, publicParam, randomness);
    var bits := FlatBits(digest);
    EncodingReads(o, message, slot, publicParam, randomness);
    hide FlatBits, Indices, WotsEncode;
    ChunkIs(bits, V, i);
    FlatBitIs(digest, 3 * i);
    FlatBitIs(digest, 3 * i + 1);
    FlatBitIs(digest, 3 * i + 2);
    BitPlace(i, 0);
    BitPlace(i, 1);
    BitPlace(i, 2);
    NextPowers(3 * (i % 8));
    ThreeBits(digest[i / 8], Pow2(3 * (i % 8)), Pow2(3 * (i % 8) + 1), Pow2(3 * (i % 8) + 2));
  }

  lemma NextPowers(k: nat)
    ensures Pow2(k) > 0 && Pow2(k + 1) == 2 * Pow2(k) && Pow2(k + 2) == 4 * Pow2(k)
  {
  }

  /** The digest fixes message, slot, public parameter and randomness. */
  lemma DigestBinds(o: Primitives, message: Words, slot: u32, publicParam: Words, randomness: Words,
                    message2: Words, slot2: u32, publicParam2: Words, randomness2: Words) returns (x: Blocks, y: Blocks)
    requires WellSized(o) && |message| == |message2| == MESSAGE_LEN_FE
    requires |publicParam| == |publicParam2| == PUBLIC_PARAM_LEN_FE && |randomness| == |randomness2| == RANDOMNESS_LEN_FE
    requires EncodingDigest(o, message, slot, publicParam, randomness) == EncodingDigest(o, message2, slot2, publicParam2, randomness2)
    ensures (message == message2 && slot == slot2 && publicParam == publicParam2 && randomness == randomness2) || Collide(o, x, y)
  {
    var t, t2 := MakeTweak(TWEAK_TYPE_ENCODING, 0, slot), MakeTweak(TWEAK_TYPE_ENCODING, 0, slot2);
    var inner, inner2 := Blocks(message, randomness + t), Blocks(message2, randomness2 + t2);
    var pre, pre2 := o.compressPair(inner.left, inner.right), o.compressPair(inner2.left, inner2.right);
    var zeros := ZeroVec(DIGEST_LEN_FE - PUBLIC_PARAM_LEN_FE);
    x, y := Blocks(pre, publicParam + zeros), Blocks(pre2, publicParam2 + zeros);
    Compressed(o, inner, inner2);
    Compressed(o, x, y);
    hide WellSized, MakeTweak, Collide;
    if !Collide(o, x, y) {
      SplitEqual(publicParam, zeros, publicParam2, zeros);
      x, y := inner, inner2;
      if !Collide(o, x, y) {
        SplitEqual(randomness, t, randomness2, t2);
        TweaksDiffer(TWEAK_TYPE_ENCODING, 0, slot, TWEAK_TYPE_ENCODING, 0, slot2);
      }
    }
  }

  // ----- chains

  /** A step fixes its input, the public parameter, the slot and the position. */
  lemma StepBinds(o: Primitives, a: Words, publicParam: Words, slot: u32, position: nat,
                  b: Words, publicParam2: Words, slot2: u32, position2: nat) returns (x: Blocks, y: Blocks)
    requires WellSized(o) && |a| == |b| == XMSS_DIGEST_LEN && |publicParam| == |publicParam2| == PUBLIC_PARAM_LEN_FE
    requires position < 1024 && position2 < 1024
    requires ChainStep(o, a, publicParam, slot, position) == ChainStep(o, b, publicParam2, slot2, position2)
    ensures (a == b && publicParam == publicParam2 && slot == slot2 && position == position2) || Collide(o, x, y)
  {
    var t, t2 := MakeTweak(TWEAK_TYPE_CHAIN, position, slot), MakeTweak(TWEAK_TYPE_CHAIN, position2, slot2);
    x, y := Blocks(LeftChainInput(t, a), RightChainInput(publicParam)), Blocks(LeftChainInput(t2, b), RightChainInput(publicParam2));
    Compressed(o, x, y);
    hide WellSized, MakeTweak, Collide;
    if !Collide(o, x, y) {
      var zeros, zeros2 := ZeroVec(DIGEST_LEN_FE - TWEAK_LEN - XMSS_DIGEST_LEN), ZeroVec(DIGEST_LEN_FE - PUBLIC_PARAM_LEN_FE);
      SplitEqual(t + zeros, a, t2 + zeros, b);
      SplitEqual(t, zeros, t2, zeros);
      SplitEqual(publicParam, zeros2, publicParam2, zeros2);
      TweaksDiffer(TWEAK_TYPE_CHAIN, position, slot, TWEAK_TYPE_CHAIN, position2, slot2);
    }
  }

  /** Chains with one end: the same start on the same chain of the same key, however long they are. */
  lemma {:induction false} ChainBinds(o: Primitives, a: Words, b: Words, n: nat, publicParam: Words, slot: u32, chain: nat,
                                      publicParam2: Words, slot2: u32, chain2: nat, start: nat)
    returns (x: Blocks, y: Blocks)
    requires WellSized(o) && |a| == |b| == XMSS_DIGEST_LEN && |publicParam| == |publicParam2| == PUBLIC_PARAM_LEN_FE
    requires chain < V && chain2 < V && start + n < CHAIN_LENGTH
    requires IterateHash(o, a, n, publicParam, slot, chain, start) == IterateHash(o, b, n, publicParam2, slot2, chain2, start)
    ensures (a == b && (n > 0 ==> publicParam == publicParam2 && slot == slot2 && chain == chain2)) || Collide(o, x, y)
    decreases n
  {
    hide WellSized, ChainStep, Collide;
    x, y := Blocks([], []), Blocks([], []);
    if n > 0 {
      var u, v := IterateHash(o, a, n - 1, publicParam, slot, chain, start), IterateHash(o, b, n - 1, publicParam2, slot2, chain2, start);
      var position, position2 := chain * CHAIN_LENGTH + start + (n - 1), chain2 * CHAIN_LENGTH + start + (n - 1);
      x, y := StepBinds(o, u, publicParam, slot, position, v, publicParam2, slot2, position2);
      if !Collide(o, x, y) {
        x, y := ChainBinds(o, a, b, n - 1, publicParam, slot, chain, publicParam2, slot2, chain2, start);
      }
    }
  }

  /** Two tips with the same end lie on one chain: the earlier one leads to the later one. */
  lemma TipsOnOneChain(o: Primitives, a: Words, e: nat, b: Words, f: nat, publicParam: Words, slot: u32, chain: nat) returns (x: Blocks, y: Blocks)
    requires WellSized(o) && |a| == |b| == XMSS_DIGEST_LEN && |publicParam| == PUBLIC_PARAM_LEN_FE && chain < V && e <= f < CHAIN_LENGTH
    requires IterateHash(o, a, CHAIN_LENGTH - 1 - e, publicParam, slot, chain, e) == IterateHash(o, b, CHAIN_LENGTH - 1 - f, publicParam, slot, chain, f)
    ensures IterateHash(o, a, f - e, publicParam, slot, chain, e) == b || Collide(o, x, y)
  {
    hide WellSized, IterateHash, Collide;
    var c := IterateHash(o, a, f - e, publicParam, slot, chain, e);
    ChainsCompose(o, a, f - e, CHAIN_LENGTH - 1 - f, publicParam, slot, chain, e);
    assert (f - e) + (CHAIN_LENGTH - 1 - f) == CHAIN_LENGTH - 1 - e && e + (f - e) == f;
    x, y := ChainBinds(o, c, b, CHAIN_LENGTH - 1 - f, publicParam, slot, chain, publicParam, slot, chain, f);
  }

  // ----- the leaf

  lemma {:induction false} PairsBind(o: Primitives, state: Words, pk: seq<Words>, state2: Words, pk2: seq<Words>, k: nat) returns (x: Blocks, y: Blocks)
    requires WellSized(o) && AllDigests(pk) && AllDigests(pk2) && |state| == |state2| == DIGEST_LEN_FE && 2 * k <= V
    requires PairsAbsorbed(o, state, pk, k)[..XMSS_DIGEST_LEN] == PairsAbsorbed(o, state2, pk2, k)[..XMSS_DIGEST_LEN]
    ensures (state[..XMSS_DIGEST_LEN] == state2[..XMSS_DIGEST_LEN] && pk[..2 * k] == pk2[..2 * k]) || Collide(o, x, y)
    decreases k
  {
    x, y := Blocks([], []), Blocks([], []);
    if k > 0 {
      var i := 2 * k - 2;
      assert |pk[i]| == |pk[i + 1]| == |pk2[i]| == |pk2[i + 1]| == XMSS_DIGEST_LEN;
      x, y := Blocks(PairsAbsorbed(o, state, pk, k - 1), pk[i] + pk[i + 1]), Blocks(PairsAbsorbed(o, state2, pk2, k - 1), pk2[i] + pk2[i + 1]);
      Compressed(o, x, y);
      hide WellSized, Collide;
      if !Collide(o, x, y) {
        SplitEqual(pk[i], pk[i + 1], pk2[i], pk2[i + 1]);
        x, y := PairsBind(o, state, pk, state2, pk2, k - 1);
        if !Collide(o, x, y) {
          assert pk[..2 * k] == pk[..i] + [pk[i], pk[i + 1]] && pk2[..2 * k] == pk2[..i] + [pk2[i], pk2[i + 1]];
        }
      }
    }
  }

  /** The leaf fixes all chain ends, the public parameter and the slot. */
  lemma LeafBinds(o: Primitives, pk: seq<Words>, publicParam: Words, slot: u32, pk2: seq<Words>, publicParam2: Words, slot2: u32)
    returns (x: Blocks, y: Blocks)
    requires WellSized(o) && AllDigests(pk) && AllDigests(pk2) && |publicParam| == |publicParam2| == PUBLIC_PARAM_LEN_FE
    requires PublicKeyHash(o, pk, publicParam, slot) == PublicKeyHash(o, pk2, publicParam2, slot2)
    ensures (pk == pk2 && publicParam == publicParam2 && slot == slot2) || Collide(o, x, y)
  {
    var t, t2, zeros := MakeTweak(TWEAK_TYPE_WOTS_PK, 0, slot), MakeTweak(TWEAK_TYPE_WOTS_PK, 0, slot2), ZeroVec(2);
    var first, first2 := Blocks(t + zeros + publicParam, ZeroVec(8)), Blocks(t2 + zeros + publicParam2, ZeroVec(8));
    Compressed(o, first, first2);
    hide WellSized, Collide, MakeTweak;
    x, y := PairsBind(o, o.compressPair(first.left, first.right), pk, o.compressPair(first2.left, first2.right), pk2, V / 2);
    assert pk[..V] == pk && pk2[..V] == pk2;
    if !Collide(o, x, y) {
      x, y := first, first2;
      if !Collide(o, x, y) {
        SplitEqual(t + zeros, publicParam, t2 + zeros, publicParam2);
        SplitEqual(t, zeros, t2, zeros);
        TweaksDiffer(TWEAK_TYPE_WOTS_PK, 0, slot, TWEAK_TYPE_WOTS_PK, 0, slot2);
      }
    }
  }

  // ----- the path

  /** A node fixes its children, the public parameter, its level and its index. */
  lemma ParentBinds(o: Primitives, publicParam: Words, level: nat, index: nat, left: Words, right: Words,
                    publicParam2: Words, level2: nat, index2: nat, left2: Words, right2: Words)
    returns (x: Blocks, y: Blocks)
    requires WellSized(o) && |publicParam| == |publicParam2| == PUBLIC_PARAM_LEN_FE && |left| == |right| == |left2| == |right2| == XMSS_DIGEST_LEN
    requires level <= LOG_LIFETIME && level2 <= LOG_LIFETIME && index < 0x1_0000_0000 && index2 < 0x1_0000_0000
    requires ParentHash(o, publicParam, level, index, left, right) == ParentHash(o, publicParam2, level2, index2, left2, right2)
    ensures (left == left2 && right == right2 && publicParam == publicParam2 && level == level2 && index == index2) || Collide(o, x, y)
  {
    var t, t2 := MakeTweak(TWEAK_TYPE_MERKLE, level, index), MakeTweak(TWEAK_TYPE_MERKLE, level2, index2);
    var zeros := ZeroVec(DIGEST_LEN_FE - PUBLIC_PARAM_LEN_FE - TWEAK_LEN);
    x, y := Blocks(t + zeros + publicParam, left + right), Blocks(t2 + zeros + publicParam2, left2 + right2);
    Compressed(o, x, y);
    hide WellSized, Collide, MakeTweak;
    if !Collide(o, x, y) {
      SplitEqual(left, right, left2, right2);
      SplitEqual(t + zeros, publicParam, t2 + zeros, publicParam2);
      SplitEqual(t, zeros, t2, zeros);
      TweaksDiffer(TWEAK_TYPE_MERKLE, level, index, TWEAK_TYPE_MERKLE, level2, index2);
    }
  }

  /** A chain value is never a node of the tree, unless it collides with one. */
  lemma StepIsNoParent(o: Primitives, a: Words, publicParam: Words, slot: u32, position: nat,
                       publicParam2: Words, level: nat, index: nat, left: Words, right: Words) returns (x: Blocks, y: Blocks)
    requires WellSized(o) && |publicParam| == |publicParam2| == PUBLIC_PARAM_LEN_FE && |a| == |left| == |right| == XMSS_DIGEST_LEN
    requires position < 1024 && level <= LOG_LIFETIME && index < 0x1_0000_0000
    requires ChainStep(o, a, publicParam, slot, position) == ParentHash(o, publicParam2, level, index, left, right)
    ensures Collide(o, x, y)
  {
    var t, t2 := MakeTweak(TWEAK_TYPE_CHAIN, position, slot), MakeTweak(TWEAK_TYPE_MERKLE, level, index);
    var zeros := ZeroVec(DIGEST_LEN_FE - PUBLIC_PARAM_LEN_FE - TWEAK_LEN);
    x, y := Blocks(LeftChainInput(t, a), RightChainInput(publicParam)), Blocks(t2 + zeros + publicParam2, left + right);
    Compressed(o, x, y);
    hide WellSized, Collide, MakeTweak;
    if !Collide(o, x, y) {
      SplitEqual(t + zeros, a, t2 + zeros, publicParam2);
      SplitEqual(t, zeros, t2, zeros);
      TweaksDiffer(TWEAK_TYPE_CHAIN, position, slot, TWEAK_TYPE_MERKLE, level, index);
    }
  }

  ghost predicate IsPath(proof: seq<Words>) {
    |proof| == LOG_LIFETIME && forall l {:trigger proof[l]} | 0 <= l < |proof| :: |proof[l]| == XMSS_DIGEST_LEN
  }

  lemma LevelBinds(o: Primitives, publicParam: Words, leaf: Words, proof: seq<Words>,
                   publicParam2: Words, leaf2: Words, proof2: seq<Words>, slot: u32, level: nat)
    returns (x: Blocks, y: Blocks)
    requires WellSized(o) && |publicParam| == |publicParam2| == PUBLIC_PARAM_LEN_FE && |leaf| == |leaf2| == XMSS_DIGEST_LEN
    requires IsPath(proof) && IsPath(proof2) && 0 < level <= LOG_LIFETIME
    requires PathHash(o, publicParam, leaf, proof, slot, level) == PathHash(o, publicParam2, leaf2, proof2, slot, level)
    ensures (&& PathHash(o, publicParam, leaf, proof, slot, level - 1) == PathHash(o, publicParam2, leaf2, proof2, slot, level - 1)
             && proof[level - 1] == proof2[level - 1] && publicParam == publicParam2) || Collide(o, x, y)
  {
    hide WellSized, ParentHash, Collide;
    var current, current2 := PathHash(o, publicParam, leaf, proof, slot, level - 1), PathHash(o, publicParam2, leaf2, proof2, slot, level - 1);
    var sibling, sibling2 := proof[level - 1], proof2[level - 1];
    ShrIsU32(slot, level);
    var index := MP.Shr(slot, level);
    if MP.Shr(slot, level - 1) % 2 == 0 {
      x, y := ParentBinds(o, publicParam, level, index, current, sibling, publicParam2, level, index, current2, sibling2);
    } else {
      x, y := ParentBinds(o, publicParam, level, index, sibling, current, publicParam2, level, index, sibling2, current2);
    }
  }

  lemma {:induction false} PathBinds(o: Primitives, publicParam: Words, leaf: Words, proof: seq<Words>,
                                     publicParam2: Words, leaf2: Words, proof2: seq<Words>, slot: u32, level: nat)
    returns (x: Blocks, y: Blocks)
    requires WellSized(o) && |publicParam| == |publicParam2| == PUBLIC_PARAM_LEN_FE && |leaf| == |leaf2| == XMSS_DIGEST_LEN
    requires IsPath(proof) && IsPath(proof2) && level <= LOG_LIFETIME
    requires PathHash(o, publicParam, leaf, proof, slot, level) == PathHash(o, publicParam2, leaf2, proof2, slot, level)
    ensures (leaf == leaf2 && proof[..level] == proof2[..level] && (level > 0 ==> publicParam == publicParam2)) || Collide(o, x, y)
    decreases level
  {
    x, y := Blocks([], []), Blocks([], []);
    if level > 0 {
      hide WellSized, PathHash, Collide;
      x, y := LevelBinds(o, publicParam, leaf, proof, publicParam2, leaf2, proof2, slot, level);
      if !Collide(o, x, y) {
        x, y := PathBinds(o, publicParam, leaf, proof, publicParam2, leaf2, proof2, slot, level - 1);
        assert proof[..level] == proof[..level - 1] + [proof[level - 1]] && proof2[..level] == proof2[..level - 1] + [proof2[level - 1]];
      }
    }
  }

  /** Two openings of one root at one slot have the same public parameter, chain ends and siblings, or collide. */
  lemma OpeningsBind(o: Primitives, slot: u32, publicParam: Words, ends: seq<Words>, proof: seq<Words>,
                     publicParam2: Words, ends2: seq<Words>, proof2: seq<Words>)
    returns (x: Blocks, y: Blocks)
    requires WellSized(o) && |publicParam| == |publicParam2| == PUBLIC_PARAM_LEN_FE && AllDigests(ends) && AllDigests(ends2)
    requires IsPath(proof) && IsPath(proof2)
    requires PathHash(o, publicParam, PublicKeyHash(o, ends, publicParam, slot), proof, slot, LOG_LIFETIME)
          == PathHash(o, publicParam2, PublicKeyHash(o, ends2, publicParam2, slot), proof2, slot, LOG_LIFETIME)
    ensures (publicParam == publicParam2 && ends == ends2 && proof == proof2) || Collide(o, x, y)
  {
    hide WellSized, PathHash, PublicKeyHash, Collide;
    x, y := PathBinds(o, publicParam, PublicKeyHash(o, ends, publicParam, slot), proof,
                      publicParam2, PublicKeyHash(o, ends2, publicParam2, slot), proof2, slot, LOG_LIFETIME);
    if !Collide(o, x, y) {
      assert proof[..LOG_LIFETIME] == proof && proof2[..LOG_LIFETIME] == proof2;
      x, y := LeafBinds(o, ends, publicParam, slot, ends2, publicParam2, slot);
    }
  }

  // ----- accepted signatures

  /** Chain i of two signatures: whichever tip is the earlier one leads to the other. */
  ghost predicate OnOneChain(o: Primitives, publicParam: Words, slot: u32, a: seq<Words>, e: seq<nat>, b: seq<Words>, f: seq<nat>, i: nat)
    requires WellSized(o) && |publicParam| == PUBLIC_PARAM_LEN_FE && AllDigests(a) && AllDigests(b) && |e| == |f| == V && i < V
  {
    && |a[i]| == |b[i]| == XMSS_DIGEST_LEN && e[i] < CHAIN_LENGTH && f[i] < CHAIN_LENGTH
    && (e[i] <= f[i] ==> IterateHash(o, a[i], f[i] - e[i], publicParam, slot, i, e[i]) == b[i])
    && (f[i] <= e[i] ==> IterateHash(o, b[i], e[i] - f[i], publicParam, slot, i, f[i]) == a[i])
  }

  lemma ChainsMeet(o: Primitives, publicParam: Words, slot: u32, a: seq<Words>, e: seq<nat>, b: seq<Words>, f: seq<nat>, ends: seq<Words>, i: nat)
    returns (x: Blocks, y: Blocks)
    requires WellSized(o) && |publicParam| == PUBLIC_PARAM_LEN_FE && AllDigests(a) && AllDigests(b) && |e| == |f| == V && i < V
    requires EndsOf(o, publicParam, slot, Some(e), a, ends) && EndsOf(o, publicParam, slot, Some(f), b, ends)
    ensures OnOneChain(o, publicParam, slot, a, e, b, f, i) || Collide(o, x, y)
  {
    hide WellSized, IterateHash, Collide;
    var end := ends[i];
    assert |a[i]| == |b[i]| == XMSS_DIGEST_LEN;
    if e[i] <= f[i] {
      x, y := TipsOnOneChain(o, a[i], e[i], b[i], f[i], publicParam, slot, i);
      if e[i] == f[i] && !Collide(o, x, y) {
        x, y := TipsOnOneChain(o, b[i], f[i], a[i], e[i], publicParam, slot, i);
      }
    } else {
      x, y := TipsOnOneChain(o, b[i], f[i], a[i], e[i], publicParam, slot, i);
    }
  }

  lemma {:induction false} AllChainsMeet(o: Primitives, publicParam: Words, slot: u32, a: seq<Words>, e: seq<nat>, b: seq<Words>, f: seq<nat>,
                                         ends: seq<Words>, n: nat) returns (x: Blocks, y: Blocks)
    requires WellSized(o) && |publicParam| == PUBLIC_PARAM_LEN_FE && AllDigests(a) && AllDigests(b) && |e| == |f| == V && n <= V
    requires EndsOf(o, publicParam, slot, Some(e), a, ends) && EndsOf(o, publicParam, slot, Some(f), b, ends)
    ensures (forall i: nat {:trigger OnOneChain(o, publicParam, slot, a, e, b, f, i)} | i < n :: OnOneChain(o, publicParam, slot, a, e, b, f, i))
            || Collide(o, x, y)
    decreases n
  {
    hide WellSized, Collide, OnOneChain, EndsOf;
    x, y := Blocks([], []), Blocks([], []);
    if n > 0 {
      x, y := ChainsMeet(o, publicParam, slot, a, e, b, f, ends, n - 1);
      if !Collide(o, x, y) {
        x, y := AllChainsMeet(o, publicParam, slot, a, e, b, f, ends, n - 1);
      }
    }
  }

  lemma EndsHave(o: Primitives, publicParam: Words, slot: u32, encoding: Option<seq<nat>>, tips: seq<Words>, ends: seq<Words>)
    requires WellSized(o) && |publicParam| == PUBLIC_PARAM_LEN_FE && AllDigests(tips) && EndsOf(o, publicParam, slot, encoding, tips, ends)
    ensures encoding.Some? && |encoding.value| == V && AllDigests(ends)
  {
  }

  /**
   Two signatures accepted under one key at one slot: they open the same ends along the same siblings, their tips lie on the
   same chains, and with the same digest they are for the same message; or a collision can be read off them.
   */
  lemma AcceptedBind(o: Primitives, pk: XmssPublicKey, slot: u32, message: Words, sig: XmssSignature, ends: seq<Words>,
                     message2: Words, sig2: XmssSignature, ends2: seq<Words>) returns (x: Blocks, y: Blocks)
    requires WellSized(o) && |pk.publicParam| == PUBLIC_PARAM_LEN_FE && |message| == |message2| == MESSAGE_LEN_FE && IsSignature(sig) && IsSignature(sig2)
    requires Opens(o, pk, message, sig, slot, ends) && Opens(o, pk, message2, sig2, slot, ends2)
    ensures Collide(o, x, y)
            || (&& ends == ends2 && sig.merkleProof == sig2.merkleProof
                && (var e := WotsEncode(o, message, slot, pk.publicParam, sig.wotsSignature.randomness);
                    var f := WotsEncode(o, message2, slot, pk.publicParam, sig2.wotsSignature.randomness);
                    && e.Some? && f.Some? && |e.value| == |f.value| == V
                    && forall i: nat {:trigger OnOneChain(o, pk.publicParam, slot, sig.wotsSignature.chainTips, e.value, sig2.wotsSignature.chainTips, f.value, i)}
                         | i < V :: OnOneChain(o, pk.publicParam, slot, sig.wotsSignature.chainTips, e.value, sig2.wotsSignature.chainTips, f.value, i))
                && (EncodingDigest(o, message, slot, pk.publicParam, sig.wotsSignature.randomness)
                    == EncodingDigest(o, message2, slot, pk.publicParam, sig2.wotsSignature.randomness)
                    ==> message == message2 && sig.wotsSignature.randomness == sig2.wotsSignature.randomness))
  {
    hide WellSized, Collide, EndsOf, WotsEncode, PathHash, PublicKeyHash, OnOneChain, EncodingDigest;
    var e := WotsEncode(o, message, slot, pk.publicParam, sig.wotsSignature.randomness);
    var f := WotsEncode(o, message2, slot, pk.publicParam, sig2.wotsSignature.randomness);
    EndsHave(o, pk.publicParam, slot, e, sig.wotsSignature.chainTips, ends);
    EndsHave(o, pk.publicParam, slot, f, sig2.wotsSignature.chainTips, ends2);
    x, y := OpeningsBind(o, slot, pk.publicParam, ends, sig.merkleProof, pk.publicParam, ends2, sig2.merkleProof);
    if !Collide(o, x, y) {
      x, y := AllChainsMeet(o, pk.publicParam, slot, sig.wotsSignature.chainTips, e.value, sig2.wotsSignature.chainTips, f.value, ends, V);
      if !Collide(o, x, y) && EncodingDigest(o, message, slot, pk.publicParam, sig.wotsSignature.randomness)
                              == EncodingDigest(o, message2, slot, pk.publicParam, sig2.wotsSignature.randomness) {
        x, y := DigestBinds(o, message, slot, pk.publicParam, sig.wotsSignature.randomness, message2, slot, pk.publicParam, sig2.wotsSignature.randomness);
      }
    }
  }

  /** Verifying two signatures: accepted with different siblings, or for two messages with one digest, they exhibit a collision. */
  method VerifyBoth(o: Primitives, pk: XmssPublicKey, slot: u32, message: Words, sig: XmssSignature, message2: Words, sig2: XmssSignature)
    returns (r: VerifyResult, r2: VerifyResult, ghost x: Blocks, ghost y: Blocks)
    requires WellSized(o) && |pk.publicParam| == PUBLIC_PARAM_LEN_FE && |message| == |message2| == MESSAGE_LEN_FE && IsSignature(sig) && IsSignature(sig2)
    ensures r == Valid <==> exists ends: seq<Words> :: Opens(o, pk, message, sig, slot, ends)
    ensures r2 == Valid <==> exists ends: seq<Words> :: Opens(o, pk, message2, sig2, slot, ends)
    ensures r == r2 == Valid && !Collide(o, x, y) ==>
              && sig.merkleProof == sig2.merkleProof
              && (forall ends: seq<Words>, ends2: seq<Words> {:trigger Opens(o, pk, message, sig, slot, ends), Opens(o, pk, message2, sig2, slot, ends2)}
                    | Opens(o, pk, message, sig, slot, ends) && Opens(o, pk, message2, sig2, slot, ends2) :: ends == ends2)
              && (EncodingDigest(o, message, slot, pk.publicParam, sig.wotsSignature.randomness)
                    == EncodingDigest(o, message2, slot, pk.publicParam, sig2.wotsSignature.randomness)
                  ==> message == message2)
  {
    hide WellSized, Collide, EndsOf, WotsEncode, PathHash, PublicKeyHash, OnOneChain, EncodingDigest;
    r := XmssVerify(o, pk, message, sig, slot);
    r2 := XmssVerify(o, pk, message2, sig2, slot);
    x, y := Blocks([], []), Blocks([], []);
    if r == Valid && r2 == Valid {
      ghost var ends: seq<Words> :| Opens(o, pk, message, sig, slot, ends);
      ghost var ends2: seq<Words> :| Opens(o, pk, message2, sig2, slot, ends2);
      x, y := AcceptedBind(o, pk, slot, message, sig, ends, message2, sig2, ends2);
      OnlyEnds(o, pk, message, sig, slot, ends);
      OnlyEnds(o, pk, message2, sig2, slot, ends2);
    }
  }

  lemma OnlyEnds(o: Primitives, pk: XmssPublicKey, message: Words, sig: XmssSignature, slot: u32, ends: seq<Words>)
    requires WellSized(o) && |pk.publicParam| == PUBLIC_PARAM_LEN_FE && |message| == MESSAGE_LEN_FE && IsSignature(sig)
    requires Opens(o, pk, message, sig, slot, ends)
    ensures forall other: seq<Words> {:trigger Opens(o, pk, message, sig, slot, other)} | Opens(o, pk, message, sig, slot, other) :: other == ends
  {
    hide EndsOf, WotsEncode, PathHash, PublicKeyHash;
    EndsUnique(o, pk.publicParam, slot, WotsEncode(o, message, slot, pk.publicParam, sig.wotsSignature.randomness), sig.wotsSignature.chainTips, ends);
  }
}
