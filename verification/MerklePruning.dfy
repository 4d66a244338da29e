/**
 Merkle path pruning and restoration (crates/backend/fiat-shamir/src/merkle_pruning.rs).  The leaf
 hash and the two-to-one hash are arbitrary functions.
 */
module MerklePruning {
  import opened Arith
  import opened Field
  import opened Interpolation
  import opened LinearAlgebra

  type Digest = seq<Fe>

  datatype MerklePath = MerklePath(leafData: seq<Fe>, siblingHashes: seq<Digest>, leafIndex: nat)

  datatype StoredPath = StoredPath(leafIndex: nat, siblings: seq<Digest>)

  datatype PrunedMerklePaths = PrunedMerklePaths(
    merkleHeight: nat,
    originalOrder: seq<nat>,
    leafData: seq<seq<Fe>>,
    paths: seq<StoredPath>,
    nTrailingZeros: nat)

  datatype Hashes = Hashes(leaf: seq<Fe> -> Digest, combine: (Digest, Digest) -> Digest)

  // ----- indices

  /** i >> k. */
  function Shr(i: nat, k: nat): nat
    decreases k
  {
    if k == 0 then i else Shr(i / 2, k - 1)
  }

  function Xor(a: nat, b: nat): nat
    decreases a + b
  {
    if a == 0 && b == 0 then 0 else (if a % 2 == b % 2 then 0 else 1) + 2 * Xor(a / 2, b / 2)
  }

  /** The word length minus the leading zeros. */
  function BitLength(x: nat): nat { if x == 0 then 0 else 1 + BitLength(x / 2) }

  function LcaLevel(a: nat, b: nat): nat { BitLength(Xor(a, b)) }

  lemma {:induction false} XorZero(a: nat, b: nat)
    ensures Xor(a, b) == 0 <==> a == b
    decreases a + b
  {
    if a != 0 || b != 0 {
      XorZero(a / 2, b / 2);
    }
  }

  lemma LcaUnfold(a: nat, b: nat)
    ensures a == b ==> LcaLevel(a, b) == 0
    ensures a != b ==> LcaLevel(a, b) == 1 + LcaLevel(a / 2, b / 2)
  {
    XorZero(a, b);
    if a != b {
      assert Xor(a, b) / 2 == Xor(a / 2, b / 2);
    }
  }

  /** lca_level is the first level at which the two positions coincide. */
  lemma {:induction false} LcaIsLeast(a: nat, b: nat, k: nat)
    ensures Shr(a, k) == Shr(b, k) <==> k >= LcaLevel(a, b)
    decreases k
  {
    LcaUnfold(a, b);
    if k > 0 && a != b {
      LcaIsLeast(a / 2, b / 2, k - 1);
    } else if k > 0 {
      SameShift(a, b, k);
    }
  }

  lemma SameShift(a: nat, b: nat, k: nat)
    requires a == b
    ensures Shr(a, k) == Shr(b, k)
  {
  }

  lemma {:induction false} ShrStep(i: nat, k: nat)
    ensures Shr(i, k + 1) == Shr(i, k) / 2
    decreases k
  {
    if k > 0 {
      ShrStep(i / 2, k - 1);
    }
  }

  lemma {:induction false} ShrBound(i: nat, k: nat, h: nat)
    requires k <= h && i < Pow2(h)
    ensures Shr(i, k) < Pow2(h - k)
    decreases k
  {
    if k > 0 {
      ShrBound(i / 2, k - 1, h - 1);
    }
  }

  lemma {:induction false} LcaBound(a: nat, b: nat, h: nat)
    requires a < Pow2(h) && b < Pow2(h)
    ensures LcaLevel(a, b) <= h
    decreases h
  {
    LcaUnfold(a, b);
    if a != b {
      assert h > 0;
      LcaBound(a / 2, b / 2, h - 1);
    }
  }

  /** i ^ 1. */
  function Sibling(i: nat): nat { if i % 2 == 0 then i + 1 else i - 1 }

  // ----- the tree

  datatype Tree = Tree(height: nat, leaves: seq<seq<Fe>>)

  ghost predicate IsTree(t: Tree) {
    && |t.leaves| == Pow2(t.height)
    && forall i {:trigger t.leaves[i]} | 0 <= i < |t.leaves| :: |t.leaves[i]| == LeafLen(t)
  }

  /** The common leaf length. */
  function LeafLen(t: Tree): nat
    requires t.leaves != []
  {
    |t.leaves[0]|
  }

  ghost function Node(t: Tree, hs: Hashes, level: nat, i: nat): Digest
    requires IsTree(t) && level <= t.height && i < Pow2(t.height - level)
    decreases level
  {
    if level == 0 then hs.leaf(t.leaves[i])
    else hs.combine(Node(t, hs, level - 1, 2 * i), Node(t, hs, level - 1, 2 * i + 1))
  }

  /** The sibling on the path of leaf i at a level. */
  ghost function SiblingNode(t: Tree, hs: Hashes, i: nat, level: nat): Digest
    requires IsTree(t) && level < t.height && i < |t.leaves|
  {
    ShrBound(i, level, t.height);
    Node(t, hs, level, Sibling(Shr(i, level)))
  }

  /** The node on the path of leaf i at a level. */
  ghost function PathNode(t: Tree, hs: Hashes, i: nat, level: nat): Digest
    requires IsTree(t) && level <= t.height && i < |t.leaves|
  {
    ShrBound(i, level, t.height);
    Node(t, hs, level, Shr(i, level))
  }

  ghost function SiblingsFrom(t: Tree, hs: Hashes, i: nat): (r: seq<Digest>)
    requires IsTree(t) && i < |t.leaves|
    ensures |r| == t.height && forall k {:trigger r[k]} | 0 <= k < |r| :: r[k] == SiblingNode(t, hs, i, k)
  {
    seq(t.height, k requires 0 <= k < t.height => SiblingNode(t, hs, i, k))
  }

  ghost function PathOf(t: Tree, hs: Hashes, i: nat): MerklePath
    requires IsTree(t) && i < |t.leaves|
  {
    MerklePath(t.leaves[i], SiblingsFrom(t, hs, i), i)
  }

  ghost predicate AllFromTree(paths: seq<MerklePath>, t: Tree, hs: Hashes)
    requires IsTree(t)
  {
    forall k {:trigger paths[k]} | 0 <= k < |paths| :: paths[k].leafIndex < |t.leaves| && paths[k] == PathOf(t, hs, paths[k].leafIndex)
  }

  /** One level up: a node is the combination of the path's node and its sibling. */
  lemma ParentNode(t: Tree, hs: Hashes, i: nat, level: nat)
    requires IsTree(t) && level < t.height && i < |t.leaves|
    ensures PathNode(t, hs, i, level + 1)
         == if Shr(i, level) % 2 == 0 then hs.combine(PathNode(t, hs, i, level), SiblingNode(t, hs, i, level))
            else hs.combine(SiblingNode(t, hs, i, level), PathNode(t, hs, i, level))
  {
    ShrStep(i, level);
    ShrBound(i, level, t.height);
    ShrBound(i, level + 1, t.height);
  }

  /** Just below their meeting level two paths are siblings; from it on their siblings coincide. */
  lemma Meeting(t: Tree, hs: Hashes, a: nat, b: nat)
    requires IsTree(t) && a < |t.leaves| && b < |t.leaves| && a != b
    ensures 0 < LcaLevel(a, b) <= t.height
    ensures SiblingNode(t, hs, a, LcaLevel(a, b) - 1) == PathNode(t, hs, b, LcaLevel(a, b) - 1)
    ensures forall k {:trigger SiblingNode(t, hs, a, k)} | LcaLevel(a, b) <= k < t.height :: SiblingNode(t, hs, a, k) == SiblingNode(t, hs, b, k)
  {
    LcaUnfold(a, b);
    LcaBound(a, b, t.height);
    var m := LcaLevel(a, b);
    LcaIsLeast(a, b, m);
    LcaIsLeast(a, b, m - 1);
    ShrStep(a, m - 1);
    ShrStep(b, m - 1);
    assert Sibling(Shr(a, m - 1)) == Shr(b, m - 1);
    forall k {:trigger SiblingNode(t, hs, a, k)} | m <= k < t.height
      ensures SiblingNode(t, hs, a, k) == SiblingNode(t, hs, b, k)
    {
      LcaIsLeast(a, b, k);
    }
  }

  // ----- what is stored

  /** The number of levels stored for the i-th distinct leaf. */
  function LevelsOf(s: seq<nat>, i: nat, h: nat): nat
    requires i < |s|
  {
    if i == 0 then h else LcaLevel(s[i - 1], s[i])
  }

  /** The level that the next leaf's subtree supplies. */
  function SkipOf(s: seq<nat>, i: nat): Option<int>
    requires i < |s|
  {
    if i + 1 < |s| then Some(LcaLevel(s[i], s[i + 1]) - 1) else None
  }

  ghost function StoredUpTo(t: Tree, hs: Hashes, s: seq<nat>, i: nat, k: nat): seq<Digest>
    requires IsTree(t) && i < |s| && s[i] < |t.leaves| && k <= t.height
    decreases k
  {
    if k == 0 then []
    else StoredUpTo(t, hs, s, i, k - 1) + (if SkipOf(s, i) == Some(k - 1) then [] else [SiblingNode(t, hs, s[i], k - 1)])
  }

  ghost predicate Increasing(s: seq<nat>) {
    forall i, j {:trigger s[i], s[j]} | 0 <= i < j < |s| :: s[i] < s[j]
  }

  ghost predicate Below(s: seq<nat>, bound: nat) { forall i {:trigger s[i]} | 0 <= i < |s| :: s[i] < bound }

  function Indices(paths: seq<StoredPath>): (s: seq<nat>)
    ensures |s| == |paths| && forall i {:trigger s[i]} {:trigger paths[i]} | 0 <= i < |s| :: s[i] == paths[i].leafIndex
  {
    seq(|paths|, i requires 0 <= i < |paths| => paths[i].leafIndex)
  }

  /** The last z entries of every listed leaf are the default value. */
  ghost predicate ZeroTail(t: Tree, s: seq<nat>, z: nat)
    requires IsTree(t) && Below(s, |t.leaves|)
  {
    forall i, k {:trigger t.leaves[s[i]][k]} | 0 <= i < |s| && 0 <= k < LeafLen(t) && k >= LeafLen(t) - z :: t.leaves[s[i]][k] == 0
  }

  lemma LevelsFit(t: Tree, s: seq<nat>, i: nat)
    requires IsTree(t) && Below(s, |t.leaves|) && i < |s|
    ensures LevelsOf(s, i, t.height) <= t.height
  {
    if i > 0 {
      LcaBound(s[i - 1], s[i], t.height);
    }
  }

  /** The siblings kept for the i-th distinct leaf. */
  ghost function StoredSiblings(t: Tree, hs: Hashes, s: seq<nat>, i: nat): seq<Digest>
    requires IsTree(t) && Below(s, |t.leaves|) && i < |s|
  {
    LevelsFit(t, s, i);
    StoredUpTo(t, hs, s, i, LevelsOf(s, i, t.height))
  }

  /** The stored part of every path is what pruning leaves. */
  ghost predicate PathsStored(paths: seq<StoredPath>, t: Tree, hs: Hashes)
    requires IsTree(t) && Below(Indices(paths), |t.leaves|)
  {
    forall i {:trigger paths[i]} | 0 <= i < |paths| :: paths[i].siblings == StoredSiblings(t, hs, Indices(paths), i)
  }

  /** Every listed leaf without its last z entries. */
  ghost predicate Trimmed(data: seq<seq<Fe>>, t: Tree, s: seq<nat>, z: nat)
    requires IsTree(t) && Below(s, |t.leaves|) && z <= LeafLen(t)
  {
    |data| == |s| && forall i {:trigger data[i]} | 0 <= i < |s| :: data[i] == t.leaves[s[i]][..LeafLen(t) - z]
  }

  /** Position order[k] of s holds idx[k]. */
  ghost predicate Locates(order: seq<nat>, s: seq<nat>, idx: seq<nat>) {
    |order| == |idx| && forall k {:trigger order[k]} | 0 <= k < |idx| :: order[k] < |s| && s[order[k]] == idx[k]
  }

  /** What pruning the paths of the leaves `idx` leaves behind. */
  ghost predicate IsPruned(pr: PrunedMerklePaths, t: Tree, hs: Hashes, idx: seq<nat>)
    requires IsTree(t)
  {
    && pr.merkleHeight == t.height && Increasing(Indices(pr.paths)) && Below(Indices(pr.paths), |t.leaves|)
    && Locates(pr.originalOrder, Indices(pr.paths), idx) && PathsStored(pr.paths, t, hs)
    && pr.nTrailingZeros <= LeafLen(t) && Trimmed(pr.leafData, t, Indices(pr.paths), pr.nTrailingZeros)
    && ZeroTail(t, Indices(pr.paths), pr.nTrailingZeros)
    && (pr.nTrailingZeros < LeafLen(t) ==> !ZeroTail(t, Indices(pr.paths), pr.nTrailingZeros + 1))
  }

  // ----- which siblings are kept

  lemma SiblingIffHalves(x: nat, y: nat)
    ensures y == Sibling(x) <==> x / 2 == y / 2 && x != y
  {
  }

  /** A level is cut off exactly where the leaf before passes through the same node, and skipped exactly where the next one passes through its sibling. */
  lemma KeptIff(s: seq<nat>, i: nat, h: nat, lvl: nat)
    requires Increasing(s) && i < |s| && Below(s, Pow2(h)) && lvl < h
    ensures lvl < LevelsOf(s, i, h) <==> i == 0 || Shr(s[i - 1], lvl) != Shr(s[i], lvl)
    ensures SkipOf(s, i) == Some(lvl) <==> i + 1 < |s| && Shr(s[i + 1], lvl) == Sibling(Shr(s[i], lvl))
  {
    hide LcaLevel, Shr, Sibling;
    if i > 0 {
      LcaIsLeast(s[i - 1], s[i], lvl);
    }
    if i + 1 < |s| {
      var a, b := s[i], s[i + 1];
      LcaIsLeast(a, b, lvl);
      LcaIsLeast(a, b, lvl + 1);
      ShrStep(a, lvl);
      ShrStep(b, lvl);
      SiblingIffHalves(Shr(a, lvl), Shr(b, lvl));
    }
  }

  lemma {:induction false} KeptUpTo(t: Tree, hs: Hashes, s: seq<nat>, i: nat, k: nat) returns (levels: seq<nat>)
    requires IsTree(t) && i < |s| && s[i] < |t.leaves| && k <= t.height
    ensures Increasing(levels) && Below(levels, k) && |levels| == |StoredUpTo(t, hs, s, i, k)|
    ensures forall lvl: nat :: lvl in levels <==> lvl < k && SkipOf(s, i) != Some(lvl)
    ensures forall j {:trigger levels[j]} | 0 <= j < |levels| :: levels[j] < t.height && StoredUpTo(t, hs, s, i, k)[j] == SiblingNode(t, hs, s[i], levels[j])
    decreases k
  {
    hide SkipOf, SiblingNode;
    levels := [];
    if k > 0 {
      var below := KeptUpTo(t, hs, s, i, k - 1);
      levels := if SkipOf(s, i) == Some(k - 1) then below else below + [k - 1];
    }
  }

  /**
   The siblings a pruned path keeps, from the leaf upwards: those of the levels where the leaf before runs through another node
   and the next one does not run through the sibling.
   */
  lemma PrunedKeeps(pr: PrunedMerklePaths, t: Tree, hs: Hashes, idx: seq<nat>, i: nat) returns (levels: seq<nat>)
    requires IsTree(t) && IsPruned(pr, t, hs, idx) && i < |pr.paths|
    ensures Increasing(levels) && |pr.paths[i].siblings| == |levels| && pr.paths[i].leafIndex < |t.leaves|
    ensures forall j {:trigger levels[j]} | 0 <= j < |levels| ::
              levels[j] < t.height && pr.paths[i].siblings[j] == SiblingNode(t, hs, pr.paths[i].leafIndex, levels[j])
    ensures forall lvl: nat :: lvl in levels <==>
              && lvl < t.height
              && (i == 0 || Shr(pr.paths[i - 1].leafIndex, lvl) != Shr(pr.paths[i].leafIndex, lvl))
              && (i + 1 == |pr.paths| || Shr(pr.paths[i + 1].leafIndex, lvl) != Sibling(Shr(pr.paths[i].leafIndex, lvl)))
  {
    hide SkipOf, LevelsOf, SiblingNode, Shr, Sibling, Trimmed, ZeroTail, Locates, StoredUpTo;
    var s := Indices(pr.paths);
    assert pr.paths[i].siblings == StoredSiblings(t, hs, s, i);
    LevelsFit(t, s, i);
    levels := KeptUpTo(t, hs, s, i, LevelsOf(s, i, t.height));
    forall lvl: nat | lvl < t.height
      ensures lvl < LevelsOf(s, i, t.height) <==> i == 0 || Shr(s[i - 1], lvl) != Shr(s[i], lvl)
      ensures SkipOf(s, i) == Some(lvl) <==> i + 1 < |s| && Shr(s[i + 1], lvl) == Sibling(Shr(s[i], lvl))
    {
      KeptIff(s, i, t.height, lvl);
    }
  }

  // ----- pruning

  ghost predicate IsSortedOrder(paths: seq<MerklePath>, order: seq<nat>, n: nat) {
    InOrder(paths, order, n) && forall i | 0 <= i < n :: i in order
  }

  /** sort_by_key on the leaf index. */
  method SortByLeafIndex(paths: seq<MerklePath>) returns (order: seq<nat>)
    ensures IsSortedOrder(paths, order, |paths|)
  {
    order := [];
    for i := 0 to |paths|
      invariant IsSortedOrder(paths, order, i)
    {
      var at := |order|;
      while at > 0 && paths[order[at - 1]].leafIndex > paths[i].leafIndex
        invariant 0 <= at <= |order|
        invariant forall k {:trigger order[k]} | at <= k < |order| :: paths[i].leafIndex < paths[order[k]].leafIndex
      {
        at := at - 1;
      }
      InsertedInOrder(paths, order, i, at);
      InsertedMembers(order, i, at);
      order := order[..at] + [i] + order[at..];
    }
  }

  lemma InsertedMembers(order: seq<nat>, i: nat, at: nat)
    requires at <= |order| == i && forall j | 0 <= j < i :: j in order
    ensures forall j | 0 <= j < i + 1 :: j in order[..at] + [i] + order[at..]
  {
    var now := order[..at] + [i] + order[at..];
    forall j | 0 <= j < i + 1 ensures j in now {
      if j < i {
        assert j in order;
        var k :| 0 <= k < |order| && order[k] == j;
        assert now[if k < at then k else k + 1] == j;
      } else {
        assert now[at] == i;
      }
    }
  }

  ghost predicate InOrder(paths: seq<MerklePath>, order: seq<nat>, n: nat) {
    && n <= |paths| && |order| == n && (forall k {:trigger order[k]} | 0 <= k < n :: order[k] < n)
    && (forall j, k {:trigger order[j], order[k]} | 0 <= j < k < n :: order[j] != order[k] && paths[order[j]].leafIndex <= paths[order[k]].leafIndex)
  }

  lemma InsertedInOrder(paths: seq<MerklePath>, order: seq<nat>, i: nat, at: nat)
    requires i < |paths| && InOrder(paths, order, i) && at <= i
    requires forall k {:trigger order[k]} | at <= k < i :: paths[i].leafIndex < paths[order[k]].leafIndex
    requires at > 0 ==> paths[order[at - 1]].leafIndex <= paths[i].leafIndex
    ensures InOrder(paths, order[..at] + [i] + order[at..], i + 1)
  {
    var now := order[..at] + [i] + order[at..];
    InsertedEntries(order, i, at, now);
    forall j, k {:trigger now[j], now[k]} | 0 <= j < k < i + 1
      ensures now[j] != now[k] && paths[now[j]].leafIndex <= paths[now[k]].leafIndex
    {
      if k == at && j < at - 1 {
        assert paths[order[j]].leafIndex <= paths[order[at - 1]].leafIndex;
      }
    }
  }

  lemma InsertedEntries(order: seq<nat>, i: nat, at: nat, now: seq<nat>)
    requires at <= |order| && now == order[..at] + [i] + order[at..]
    ensures |now| == |order| + 1
    ensures forall j {:trigger now[j]} | 0 <= j < |now| :: now[j] == if j < at then order[j] else if j == at then i else order[j - 1]
  {
  }

  ghost function IndicesOf(paths: seq<MerklePath>): (s: seq<nat>)
    ensures |s| == |paths| && forall i {:trigger s[i]} {:trigger paths[i]} | 0 <= i < |s| :: s[i] == paths[i].leafIndex
  {
    seq(|paths|, i requires 0 <= i < |paths| => paths[i].leafIndex)
  }

  /** The sorted list without repetitions, and where each original path went. */
  method Dedup(paths: seq<MerklePath>, order: seq<nat>) returns (originalOrder: seq<nat>, deduped: seq<MerklePath>)
    requires IsSortedOrder(paths, order, |paths|) && paths != []
    ensures deduped != [] && Increasing(IndicesOf(deduped)) && Locates(originalOrder, IndicesOf(deduped), IndicesOf(paths))
    ensures forall i {:trigger deduped[i]} | 0 <= i < |deduped| :: deduped[i] in paths
  {
    originalOrder := seq(|paths|, _ => 0);
    deduped := [];
    for q := 0 to |order|
      invariant |originalOrder| == |paths| && (q > 0 ==> deduped != []) && Increasing(IndicesOf(deduped))
      invariant q > 0 ==> deduped[|deduped| - 1].leafIndex == paths[order[q - 1]].leafIndex
      invariant q == 0 ==> deduped == []
      invariant forall p {:trigger order[p]} | 0 <= p < q ::
                  originalOrder[order[p]] < |deduped| && deduped[originalOrder[order[p]]].leafIndex == paths[order[p]].leafIndex
      invariant forall i {:trigger deduped[i]} | 0 <= i < |deduped| :: deduped[i] in paths
    {
      var origIdx := order[q];
      var path := paths[origIdx];
      ghost var was := deduped;
      if deduped != [] && deduped[|deduped| - 1].leafIndex == path.leafIndex {
        originalOrder := originalOrder[origIdx := |deduped| - 1];
      } else {
        originalOrder := originalOrder[origIdx := |deduped|];
        deduped := deduped + [path];
        if q > 0 {
          assert paths[order[q - 1]].leafIndex <= paths[order[q]].leafIndex;
        }
        IncreasingSnoc(was, path);
      }
    }
    forall k {:trigger originalOrder[k]} | 0 <= k < |paths|
      ensures originalOrder[k] < |deduped| && deduped[originalOrder[k]].leafIndex == paths[k].leafIndex
    {
      assert k in order;
      var p :| 0 <= p < |order| && order[p] == k;
    }
  }

  lemma IncreasingSnoc(d: seq<MerklePath>, p: MerklePath)
    requires Increasing(IndicesOf(d)) && (d != [] ==> d[|d| - 1].leafIndex < p.leafIndex)
    ensures Increasing(IndicesOf(d + [p]))
  {
    var s, r := IndicesOf(d), IndicesOf(d + [p]);
    forall i, j {:trigger r[i], r[j]} | 0 <= i < j < |r| ensures r[i] < r[j] {
      if j < |d| {
        assert r[i] == s[i] && r[j] == s[j];
      } else {
        assert r[i] == s[i];
        assert i < |d| - 1 ==> s[i] < s[|d| - 1];
      }
    }
  }

  /** The number of common trailing default entries. */
  method CountTrailingZeros(deduped: seq<MerklePath>, ghost t: Tree, ghost hs: Hashes) returns (z: nat)
    requires IsTree(t) && deduped != [] && AllFromTree(deduped, t, hs) && Below(IndicesOf(deduped), |t.leaves|)
    ensures z <= LeafLen(t) && ZeroTail(t, IndicesOf(deduped), z)
    ensures z < LeafLen(t) ==> !ZeroTail(t, IndicesOf(deduped), z + 1)
  {
    ghost var s := IndicesOf(deduped);
    assert deduped[0].leafData == t.leaves[s[0]];
    var leafLen := |deduped[0].leafData|;
    z := 0;
    while z < leafLen
      invariant z <= leafLen && ZeroTail(t, s, z)
    {
      var offset := leafLen - 1 - z;
      var found := false;
      for i := 0 to |deduped|
        invariant !found ==> forall k {:trigger s[k]} | 0 <= k < i :: t.leaves[s[k]][offset] == 0
        invariant found ==> exists k {:trigger s[k]} :: 0 <= k < |s| && t.leaves[s[k]][offset] != 0
      {
        assert deduped[i].leafData == t.leaves[s[i]];
        if deduped[i].leafData[offset] != 0 {
          found := true;
        }
      }
      if found {
        return;
      }
      z := z + 1;
    }
  }

  lemma DedupedBelow(deduped: seq<MerklePath>, t: Tree, hs: Hashes)
    requires IsTree(t) && AllFromTree(deduped, t, hs)
    ensures Below(IndicesOf(deduped), |t.leaves|)
  {
    var s := IndicesOf(deduped);
    forall i {:trigger s[i]} | 0 <= i < |s| ensures s[i] < |t.leaves| {
      var p := deduped[i];
    }
  }

  /** The siblings kept for the i-th distinct leaf. */
  method KeptSiblings(deduped: seq<MerklePath>, i: nat, height: nat, ghost t: Tree, ghost hs: Hashes) returns (siblings: seq<Digest>)
    requires IsTree(t) && AllFromTree(deduped, t, hs) && i < |deduped| && height == t.height
    requires Below(IndicesOf(deduped), |t.leaves|)
    ensures siblings == StoredSiblings(t, hs, IndicesOf(deduped), i)
  {
    ghost var s := IndicesOf(deduped);
    LevelsFit(t, s, i);
    var path := deduped[i];
    var levels := if i == 0 then height else LcaLevel(deduped[i - 1].leafIndex, path.leafIndex);
    var skip := if i + 1 < |deduped| then Some(LcaLevel(path.leafIndex, deduped[i + 1].leafIndex) - 1) else None;
    siblings := [];
    for lvl := 0 to levels
      invariant siblings == StoredUpTo(t, hs, s, i, lvl)
    {
      if skip != Some(lvl) {
        siblings := siblings + [path.siblingHashes[lvl]];
      }
    }
  }

  method StorePaths(deduped: seq<MerklePath>, height: nat, ghost t: Tree, ghost hs: Hashes) returns (stored: seq<StoredPath>)
    requires IsTree(t) && AllFromTree(deduped, t, hs) && height == t.height && Below(IndicesOf(deduped), |t.leaves|)
    ensures Indices(stored) == IndicesOf(deduped) && PathsStored(stored, t, hs)
  {
    hide StoredSiblings, AllFromTree;
    ghost var s := IndicesOf(deduped);
    stored := [];
    for i := 0 to |deduped|
      invariant |stored| == i
      invariant forall k {:trigger stored[k]} | 0 <= k < i :: stored[k].leafIndex == s[k] && stored[k].siblings == StoredSiblings(t, hs, s, k)
    {
      var siblings := KeptSiblings(deduped, i, height, t, hs);
      stored := stored + [StoredPath(deduped[i].leafIndex, siblings)];
    }
    assert Indices(stored) == s;
  }

  method TrimLeaves(deduped: seq<MerklePath>, z: nat, ghost t: Tree, ghost hs: Hashes) returns (leafData: seq<seq<Fe>>)
    requires IsTree(t) && AllFromTree(deduped, t, hs) && z <= LeafLen(t) && Below(IndicesOf(deduped), |t.leaves|)
    ensures Trimmed(leafData, t, IndicesOf(deduped), z)
  {
    hide SiblingsFrom;
    ghost var s := IndicesOf(deduped);
    leafData := [];
    for i := 0 to |deduped|
      invariant |leafData| == i
      invariant forall k {:trigger leafData[k]} | 0 <= k < i :: leafData[k] == t.leaves[s[k]][..LeafLen(t) - z]
    {
      assert deduped[i].leafData == t.leaves[s[i]];
      leafData := leafData + [deduped[i].leafData[..|deduped[i].leafData| - z]];
    }
  }

  /** prune. */
  method Prune(paths: seq<MerklePath>, ghost t: Tree, ghost hs: Hashes) returns (pr: PrunedMerklePaths)
    requires paths != [] && IsTree(t) && AllFromTree(paths, t, hs)
    ensures IsPruned(pr, t, hs, IndicesOf(paths))
  {
    hide ZeroTail, PathsStored, Trimmed, Locates, SiblingsFrom;
    assert paths[0] == PathOf(t, hs, paths[0].leafIndex);
    var merkleHeight := |paths[0].siblingHashes|;
    var order := SortByLeafIndex(paths);
    var originalOrder, deduped := Dedup(paths, order);
    assert AllFromTree(deduped, t, hs);
    DedupedBelow(deduped, t, hs);
    var z := CountTrailingZeros(deduped, t, hs);
    var stored := StorePaths(deduped, merkleHeight, t, hs);
    var leafData := TrimLeaves(deduped, z, t, hs);
    pr := PrunedMerklePaths(merkleHeight, originalOrder, leafData, stored, z);
  }

  // ----- restoring

  const MAX_HEIGHT: nat := 32
  const MAX_TRAILING_ZEROS: nat := 1024

  /** The sibling at one level: the next leaf's subtree, or the next stored hash. */
  method NextSibling(subtrees: seq<seq<Digest>>, stored: seq<Digest>, at: nat, skip: Option<int>, i: nat, lvl: nat)
    returns (sibling: Option<Digest>, next: nat)
    requires at <= |stored|
    ensures skip == Some(lvl) ==>
              next == at && (sibling.Some? <==> i + 1 < |subtrees| && lvl < |subtrees[i + 1]|)
              && (sibling.Some? ==> sibling.value == subtrees[i + 1][lvl])
    ensures skip != Some(lvl) ==>
              (sibling.Some? <==> at < |stored|) && (sibling.Some? ==> next == at + 1 && sibling.value == stored[at])
    ensures next <= |stored|
  {
    next := at;
    if skip == Some(lvl) {
      if i + 1 < |subtrees| && lvl < |subtrees[i + 1]| {
        return Some(subtrees[i + 1][lvl]), at;
      }
      return None, at;
    }
    if at < |stored| {
      return Some(stored[at]), at + 1;
    }
    return None, at;
  }

  /** The nodes on the path of the i-th distinct leaf up to its own levels. */
  ghost function SubtreeNodes(t: Tree, hs: Hashes, s: seq<nat>, i: nat): (r: seq<Digest>)
    requires IsTree(t) && Below(s, |t.leaves|) && i < |s|
    ensures LevelsOf(s, i, t.height) <= t.height && |r| == LevelsOf(s, i, t.height) + 1
    ensures forall k {:trigger r[k]} | 0 <= k < |r| :: r[k] == PathNode(t, hs, s[i], k)
  {
    LevelsFit(t, s, i);
    seq(LevelsOf(s, i, t.height) + 1, k requires 0 <= k <= LevelsOf(s, i, t.height) => PathNode(t, hs, s[i], k))
  }

  /** What the backward pass must have computed for the leaves from i on. */
  ghost predicate SubtreesKnown(t: Tree, hs: Hashes, s: seq<nat>, subtrees: seq<seq<Digest>>, from: nat)
    requires IsTree(t) && Below(s, |t.leaves|)
  {
    |subtrees| == |s| && forall i {:trigger subtrees[i]} | from <= i < |s| :: subtrees[i] == SubtreeNodes(t, hs, s, i)
  }

  lemma StoredGrows(t: Tree, hs: Hashes, s: seq<nat>, i: nat, j: nat, k: nat)
    requires IsTree(t) && i < |s| && s[i] < |t.leaves| && j <= k <= t.height
    ensures |StoredUpTo(t, hs, s, i, j)| <= |StoredUpTo(t, hs, s, i, k)|
    ensures StoredUpTo(t, hs, s, i, k)[..|StoredUpTo(t, hs, s, i, j)|] == StoredUpTo(t, hs, s, i, j)
    decreases k
  {
    if j < k {
      StoredGrows(t, hs, s, i, j, k - 1);
    }
  }

  lemma StoredSiblingsGrow(t: Tree, hs: Hashes, s: seq<nat>, i: nat)
    requires IsTree(t) && Below(s, |t.leaves|) && i < |s| && LevelsOf(s, i, t.height) <= t.height
    ensures forall k: nat {:trigger StoredUpTo(t, hs, s, i, k)} | k <= LevelsOf(s, i, t.height) ::
              |StoredUpTo(t, hs, s, i, k)| <= |StoredSiblings(t, hs, s, i)|
  {
    hide StoredUpTo;
    forall k: nat {:trigger StoredUpTo(t, hs, s, i, k)} | k <= LevelsOf(s, i, t.height)
      ensures |StoredUpTo(t, hs, s, i, k)| <= |StoredSiblings(t, hs, s, i)|
    {
      StoredGrows(t, hs, s, i, k, LevelsOf(s, i, t.height));
    }
  }

  /** The sibling found is the tree's. */
  lemma SiblingFound(t: Tree, hs: Hashes, s: seq<nat>, subtrees: seq<seq<Digest>>, i: nat, lvl: nat, stored: seq<Digest>, at: nat)
    requires IsTree(t) && Below(s, |t.leaves|) && Increasing(s) && i < |s| && LevelsOf(s, i, t.height) <= t.height
    requires lvl < LevelsOf(s, i, t.height) && SubtreesKnown(t, hs, s, subtrees, i + 1)
    requires stored == StoredSiblings(t, hs, s, i) && at == |StoredUpTo(t, hs, s, i, lvl)|
    ensures SkipOf(s, i) == Some(lvl) ==> i + 1 < |s| && lvl < |subtrees[i + 1]| && subtrees[i + 1][lvl] == SiblingNode(t, hs, s[i], lvl)
    ensures SkipOf(s, i) != Some(lvl) ==> at < |stored| && stored[at] == SiblingNode(t, hs, s[i], lvl)
    ensures |StoredUpTo(t, hs, s, i, lvl + 1)| == if SkipOf(s, i) == Some(lvl) then at else at + 1
  {
    if SkipOf(s, i) == Some(lvl) {
      assert s[i] < s[i + 1];
      Meeting(t, hs, s[i], s[i + 1]);
      assert subtrees[i + 1] == SubtreeNodes(t, hs, s, i + 1);
    } else {
      StoredGrows(t, hs, s, i, lvl + 1, LevelsOf(s, i, t.height));
      assert StoredUpTo(t, hs, s, i, lvl + 1)[at] == SiblingNode(t, hs, s[i], lvl);
    }
  }

  /** Bit `lvl` of the leaf index. */
  function BitAt(i: nat, lvl: nat): nat { Shr(i, lvl) % 2 }

  /** One leaf of the backward pass. */
  method BackwardStep(paths: seq<StoredPath>, leaf: seq<Fe>, subtrees: seq<seq<Digest>>, i: nat, h: nat, hs: Hashes, ghost t: Tree)
    returns (nodes: seq<Digest>)
    requires i < |paths| && IsTree(t) && h == t.height
    requires Below(Indices(paths), |t.leaves|) && Increasing(Indices(paths)) && leaf == t.leaves[paths[i].leafIndex]
    requires paths[i].siblings == StoredSiblings(t, hs, Indices(paths), i)
    requires SubtreesKnown(t, hs, Indices(paths), subtrees, i + 1)
    ensures nodes == SubtreeNodes(t, hs, Indices(paths), i)
  {
    hide StoredUpTo, StoredSiblings, Node, SiblingNode, LcaLevel, SubtreesKnown;
    LevelsFit(t, Indices(paths), i);
    StoredSiblingsGrow(t, hs, Indices(paths), i);
    ghost var s := Indices(paths);
    var leafIdx := paths[i].leafIndex;
    var levels := LevelsOf(Indices(paths), i, h);
    var skip := SkipOf(Indices(paths), i);
    var hash := hs.leaf(leaf);
    LeafNode(t, hs, leafIdx);
    var all := [hash];
    var at := 0;
    NothingStored(t, hs, s, i);
    for lvl := 0 to levels
      invariant |all| == lvl + 1 && hash == all[lvl]
      invariant forall k {:trigger all[k]} | 0 <= k <= lvl :: all[k] == PathNode(t, hs, leafIdx, k)
      invariant at == |StoredUpTo(t, hs, s, i, lvl)| <= |paths[i].siblings|
    {
      SiblingFound(t, hs, s, subtrees, i, lvl, paths[i].siblings, at);
      var sibling;
      sibling, at := NextSibling(subtrees, paths[i].siblings, at, skip, i, lvl);
      SubtreesLength(t, hs, s, subtrees, i + 1);
      ParentNode(t, hs, leafIdx, lvl);
      hash := if BitAt(leafIdx, lvl) == 0 then hs.combine(hash, sibling.value) else hs.combine(sibling.value, hash);
      all := all + [hash];
    }
    nodes := all;
    assert nodes == SubtreeNodes(t, hs, s, i);
  }

  lemma SubtreesLength(t: Tree, hs: Hashes, s: seq<nat>, subtrees: seq<seq<Digest>>, from: nat)
    requires IsTree(t) && Below(s, |t.leaves|) && SubtreesKnown(t, hs, s, subtrees, from)
    ensures |subtrees| == |s|
  {
  }

  lemma LeafNode(t: Tree, hs: Hashes, i: nat)
    requires IsTree(t) && i < |t.leaves|
    ensures PathNode(t, hs, i, 0) == hs.leaf(t.leaves[i])
  {
  }

  lemma NothingStored(t: Tree, hs: Hashes, s: seq<nat>, i: nat)
    requires IsTree(t) && i < |s| && s[i] < |t.leaves|
    ensures StoredUpTo(t, hs, s, i, 0) == []
  {
  }

  /** One leaf of the forward pass: its own levels, then the previous leaf's. */
  method ForwardStep(paths: seq<StoredPath>, subtrees: seq<seq<Digest>>, i: nat, h: nat, previous: seq<Digest>, ghost hs: Hashes, ghost t: Tree)
    returns (siblings: seq<Digest>)
    requires i < |paths| && IsTree(t) && h == t.height
    requires Below(Indices(paths), |t.leaves|) && Increasing(Indices(paths))
    requires paths[i].siblings == StoredSiblings(t, hs, Indices(paths), i)
    requires SubtreesKnown(t, hs, Indices(paths), subtrees, i + 1)
    requires i > 0 ==> previous == SiblingsFrom(t, hs, paths[i - 1].leafIndex)
    ensures siblings == SiblingsFrom(t, hs, paths[i].leafIndex)
  {
    hide StoredUpTo, StoredSiblings, Node, SiblingNode, LcaLevel, SubtreesKnown;
    LevelsFit(t, Indices(paths), i);
    StoredSiblingsGrow(t, hs, Indices(paths), i);
    ghost var s := Indices(paths);
    var leafIdx := paths[i].leafIndex;
    var levels := LevelsOf(Indices(paths), i, h);
    var skip := SkipOf(Indices(paths), i);
    siblings := [];
    var at := 0;
    NothingStored(t, hs, s, i);
    for lvl := 0 to levels
      invariant |siblings| == lvl && at == |StoredUpTo(t, hs, s, i, lvl)| <= |paths[i].siblings|
      invariant forall k {:trigger siblings[k]} | 0 <= k < lvl :: siblings[k] == SiblingNode(t, hs, leafIdx, k)
    {
      SiblingFound(t, hs, s, subtrees, i, lvl, paths[i].siblings, at);
      SubtreesLength(t, hs, s, subtrees, i + 1);
      var sibling;
      sibling, at := NextSibling(subtrees, paths[i].siblings, at, skip, i, lvl);
      siblings := siblings + [sibling.value];
    }
    if i > 0 {
      assert s[i - 1] < s[i];
      Meeting(t, hs, s[i - 1], s[i]);
      siblings := siblings + previous[levels..];
    }
    assert siblings == SiblingsFrom(t, hs, leafIdx);
  }

  /** Default entries are appended again. */
  method PadLeaves(data: seq<seq<Fe>>, z: nat, ghost t: Tree, ghost s: seq<nat>) returns (leafData: seq<seq<Fe>>)
    requires IsTree(t) && Below(s, |t.leaves|) && z <= LeafLen(t) && ZeroTail(t, s, z) && Trimmed(data, t, s, z)
    ensures Trimmed(leafData, t, s, 0)
  {
    hide ZeroTail;
    leafData := [];
    for i := 0 to |data|
      invariant |leafData| == i && forall k {:trigger leafData[k]} | 0 <= k < i :: leafData[k] == t.leaves[s[k]]
    {
      var d := data[i];
      PaddedLeaf(t, s, i, z, d);
      leafData := leafData + [d + ZeroVec(z)];
    }
  }

  /** The backward pass; None when a leaf index does not fit the height. */
  method BackwardPass(paths: seq<StoredPath>, leafData: seq<seq<Fe>>, h: nat, hs: Hashes, ghost t: Tree) returns (r: Option<seq<seq<Digest>>>)
    requires IsTree(t) && h == t.height && Below(Indices(paths), |t.leaves|) && Increasing(Indices(paths)) && PathsStored(paths, t, hs)
    requires Trimmed(leafData, t, Indices(paths), 0)
    ensures r.Some? && SubtreesKnown(t, hs, Indices(paths), r.value, 0)
  {
    hide StoredSiblings, SubtreeNodes, Node, LevelsOf, Increasing;
    var n := |paths|;
    var subtrees: seq<seq<Digest>> := seq(n, _ => []);
    var b := n;
    while b > 0
      invariant 0 <= b <= n && |subtrees| == n && SubtreesKnown(t, hs, Indices(paths), subtrees, b)
    {
      b := b - 1;
      assert Indices(paths)[b] == paths[b].leafIndex;
      if paths[b].leafIndex >= Pow2(h) {
        return None;
      }
      var leaf := leafData[b];
      var nodes := BackwardStep(paths, leaf, subtrees, b, h, hs, t);
      subtrees := subtrees[b := nodes];
    }
    r := Some(subtrees);
  }

  method ForwardPass(paths: seq<StoredPath>, leafData: seq<seq<Fe>>, subtrees: seq<seq<Digest>>, h: nat, ghost hs: Hashes, ghost t: Tree)
    returns (restored: seq<MerklePath>)
    requires IsTree(t) && h == t.height && Below(Indices(paths), |t.leaves|) && Increasing(Indices(paths)) && PathsStored(paths, t, hs)
    requires Trimmed(leafData, t, Indices(paths), 0) && SubtreesKnown(t, hs, Indices(paths), subtrees, 0)
    ensures |restored| == |paths|
    ensures forall k {:trigger restored[k]} | 0 <= k < |paths| :: restored[k] == PathOf(t, hs, Indices(paths)[k])
  {
    hide StoredSiblings, SubtreeNodes, Node, LevelsOf, Increasing, SiblingsFrom;
    ghost var s := Indices(paths);
    restored := [];
    for i := 0 to |paths|
      invariant |restored| == i && forall k {:trigger restored[k]} | 0 <= k < i :: restored[k] == PathOf(t, hs, s[k])
    {
      var previous := if i > 0 then restored[i - 1].siblingHashes else [];
      assert s[i] == paths[i].leafIndex && (i > 0 ==> s[i - 1] == paths[i - 1].leafIndex);
      var siblings := ForwardStep(paths, subtrees, i, h, previous, hs, t);
      var leaf := leafData[i];
      restored := restored + [MerklePath(leaf, siblings, paths[i].leafIndex)];
    }
  }

  /**
   restore on a pruned list of honest paths: the original list comes back exactly when neither of
   the two size guards fires.
   */
  method Restore(pr: PrunedMerklePaths, hs: Hashes, ghost t: Tree, ghost idx: seq<nat>) returns (r: Option<seq<MerklePath>>)
    requires IsTree(t) && IsPruned(pr, t, hs, idx)
    ensures r.Some? <==> pr.merkleHeight < MAX_HEIGHT && pr.nTrailingZeros <= MAX_TRAILING_ZEROS
    ensures r.Some? ==> |r.value| == |idx| && Below(idx, |t.leaves|)
    ensures r.Some? ==> forall k {:trigger r.value[k]} | 0 <= k < |idx| :: r.value[k] == PathOf(t, hs, idx[k])
  {
    hide ZeroTail, PathOf, SubtreesKnown, Increasing, PathsStored, Trimmed;
    if pr.merkleHeight >= MAX_HEIGHT {
      return None;
    }
    if pr.nTrailingZeros > MAX_TRAILING_ZEROS {
      return None;
    }
    ghost var s := Indices(pr.paths);
    var leafData := PadLeaves(pr.leafData, pr.nTrailingZeros, t, s);
    var subtrees := BackwardPass(pr.paths, leafData, pr.merkleHeight, hs, t);
    var restored := ForwardPass(pr.paths, leafData, subtrees.value, pr.merkleHeight, hs, t);
    LocatedBelow(pr.originalOrder, s, idx, |t.leaves|);
    var all: seq<MerklePath> := [];
    for k := 0 to |pr.originalOrder|
      invariant |all| == k && forall j {:trigger all[j]} | 0 <= j < k :: all[j] == PathOf(t, hs, idx[j])
    {
      assert pr.originalOrder[k] < |s| && s[pr.originalOrder[k]] == idx[k];
      all := all + [restored[pr.originalOrder[k]]];
    }
    r := Some(all);
  }

  lemma LocatedBelow(order: seq<nat>, s: seq<nat>, idx: seq<nat>, bound: nat)
    requires Locates(order, s, idx) && Below(s, bound)
    ensures Below(idx, bound)
  {
    forall k {:trigger idx[k]} | 0 <= k < |idx| ensures idx[k] < bound {
      assert s[order[k]] == idx[k];
    }
  }

  lemma PaddedLeaf(t: Tree, s: seq<nat>, i: nat, z: nat, data: seq<Fe>)
    requires IsTree(t) && Below(s, |t.leaves|) && i < |s| && ZeroTail(t, s, z) && z <= LeafLen(t)
    requires data == t.leaves[s[i]][..LeafLen(t) - z]
    ensures data + ZeroVec(z) == t.leaves[s[i]]
  {
    var l := t.leaves[s[i]];
    forall k | 0 <= k < |l| ensures (data + ZeroVec(z))[k] == l[k] {
      if k >= |l| - z {
        assert t.leaves[s[i]][k] == 0;
      }
    }
  }

  /** restore(prune(paths)) is the original list, in the original order. */
  method PruneThenRestore(paths: seq<MerklePath>, hs: Hashes, ghost t: Tree) returns (pr: PrunedMerklePaths, r: Option<seq<MerklePath>>)
    requires paths != [] && IsTree(t) && AllFromTree(paths, t, hs)
    ensures IsPruned(pr, t, hs, IndicesOf(paths))
    ensures r == if t.height < MAX_HEIGHT && pr.nTrailingZeros <= MAX_TRAILING_ZEROS then Some(paths) else None
  {
    hide IsPruned, PathOf;
    pr := Prune(paths, t, hs);
    r := Restore(pr, hs, t, IndicesOf(paths));
    PrunedHeight(pr, t, hs, IndicesOf(paths));
    if r.Some? {
      forall k | 0 <= k < |paths| ensures r.value[k] == paths[k] {
        var p := paths[k];
      }
      assert r.value == paths;
    }
  }

  lemma PrunedHeight(pr: PrunedMerklePaths, t: Tree, hs: Hashes, idx: seq<nat>)
    requires IsTree(t) && IsPruned(pr, t, hs, idx)
    ensures pr.merkleHeight == t.height
  {
  }
}
