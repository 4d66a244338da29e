/**
 Checking one opening of a Merkle tree (merkle_verify, crates/backend/symetric/src/merkle.rs): which
 openings are accepted, that those of a tree are, and that accepted ones fix what they open.
 */
module MerkleOpening {
  import opened Arith
  import opened Field
  import opened MerklePruning

  /** The nodes climbed through: from the leaf's digest to the root, combined with the siblings on the side the index says. */
  ghost predicate Opens(hs: Hashes, root: Digest, index: nat, values: seq<Fe>, proof: seq<Digest>, nodes: seq<Digest>) {
    && |nodes| == |proof| + 1 && nodes[0] == hs.leaf(values) && nodes[|proof|] == root
    && forall k {:trigger proof[k]} | 0 <= k < |proof| ::
         nodes[k + 1] == if Shr(index, k) % 2 == 0 then hs.combine(nodes[k], proof[k]) else hs.combine(proof[k], nodes[k])
  }

  /** merkle_verify. */
  method MerkleVerify(hs: Hashes, root: Digest, logHeight: nat, index: nat, values: seq<Fe>, proof: seq<Digest>) returns (ok: bool)
    ensures ok <==> |proof| == logHeight && exists nodes: seq<Digest> :: Opens(hs, root, index, values, proof, nodes)
  {
    if |proof| != logHeight {
      return false;
    }
    var node, rest := hs.leaf(values), index;
    ghost var nodes := [node];
    for i := 0 to |proof|
      invariant |nodes| == i + 1 && node == nodes[i] && nodes[0] == hs.leaf(values) && rest == Shr(index, i)
      invariant forall k {:trigger proof[k]} | 0 <= k < i ::
        nodes[k + 1] == if Shr(index, k) % 2 == 0 then hs.combine(nodes[k], proof[k]) else hs.combine(proof[k], nodes[k])
    {
      ShrStep(index, i);
      node := if rest % 2 == 0 then hs.combine(node, proof[i]) else hs.combine(proof[i], node);
      rest := rest / 2;
      nodes := nodes + [node];
    }
    ok := root == node;
    if ok {
      assert Opens(hs, root, index, values, proof, nodes);
    }
    forall other: seq<Digest> | Opens(hs, root, index, values, proof, other) ensures ok {
      OneClimb(hs, root, index, values, proof, other, nodes, |proof|);
    }
  }

  /** There is only one way up. */
  lemma {:induction false} OneClimb(hs: Hashes, root: Digest, index: nat, values: seq<Fe>, proof: seq<Digest>, nodes: seq<Digest>, other: seq<Digest>, i: nat)
    requires Opens(hs, root, index, values, proof, nodes) && i <= |proof| && |other| == |proof| + 1 && other[0] == hs.leaf(values)
    requires forall k {:trigger proof[k]} | 0 <= k < |proof| ::
      other[k + 1] == if Shr(index, k) % 2 == 0 then hs.combine(other[k], proof[k]) else hs.combine(proof[k], other[k])
    ensures nodes[i] == other[i]
    decreases i
  {
    if i > 0 {
      OneClimb(hs, root, index, values, proof, nodes, other, i - 1);
      var sibling := proof[i - 1];
    }
  }

  /** Every path of a tree opens the tree's root. */
  lemma TreeOpens(t: Tree, hs: Hashes, i: nat) returns (nodes: seq<Digest>)
    requires IsTree(t) && i < |t.leaves|
    ensures var p := PathOf(t, hs, i); |p.siblingHashes| == t.height && Opens(hs, Node(t, hs, t.height, 0), i, p.leafData, p.siblingHashes, nodes)
  {
    nodes := seq(t.height + 1, k requires 0 <= k < t.height + 1 => PathNode(t, hs, i, k));
    var proof := PathOf(t, hs, i).siblingHashes;
    LeafNode(t, hs, i);
    ShrBound(i, t.height, t.height);
    hide PathNode, SiblingNode, Node;
    forall k {:trigger proof[k]} | 0 <= k < |proof|
      ensures nodes[k + 1] == if Shr(i, k) % 2 == 0 then hs.combine(nodes[k], proof[k]) else hs.combine(proof[k], nodes[k])
    {
      ParentNode(t, hs, i, k);
    }
  }

  /** The arguments combined at one level. */
  function Combined(index: nat, k: nat, node: Digest, sibling: Digest): (Digest, Digest) {
    if Shr(index, k) % 2 == 0 then (node, sibling) else (sibling, node)
  }

  /** Different leaves with one digest, or different children of one node. */
  ghost predicate Collides(hs: Hashes, index: nat, values: seq<Fe>, proof: seq<Digest>, nodes: seq<Digest>,
                           values2: seq<Fe>, proof2: seq<Digest>, nodes2: seq<Digest>, k: nat)
    requires |nodes| == |proof| + 1 == |nodes2| == |proof2| + 1
  {
    || (values != values2 && hs.leaf(values) == hs.leaf(values2))
    || (&& k < |proof|
        && var (a, b) := Combined(index, k, nodes[k], proof[k]); var (c, d) := Combined(index, k, nodes2[k], proof2[k]);
           (a, b) != (c, d) && hs.combine(a, b) == hs.combine(c, d))
  }

  /** Two openings of one root at one index are the same, or the leaf hash or the two-to-one compression collides on them. */
  lemma OpeningsBind(hs: Hashes, root: Digest, index: nat, values: seq<Fe>, proof: seq<Digest>, nodes: seq<Digest>,
                     values2: seq<Fe>, proof2: seq<Digest>, nodes2: seq<Digest>) returns (k: nat)
    requires Opens(hs, root, index, values, proof, nodes) && Opens(hs, root, index, values2, proof2, nodes2) && |proof| == |proof2|
    ensures (values == values2 && proof == proof2) || Collides(hs, index, values, proof, nodes, values2, proof2, nodes2, k)
  {
    k := |proof|;
    while k > 0
      invariant k <= |proof| && nodes[k] == nodes2[k] && proof[k..] == proof2[k..]
    {
      k := k - 1;
      var sibling, sibling2 := proof[k], proof2[k];
      if Combined(index, k, nodes[k], proof[k]) != Combined(index, k, nodes2[k], proof2[k]) {
        return;
      }
      assert proof[k..] == [proof[k]] + proof[k + 1..] && proof2[k..] == [proof2[k]] + proof2[k + 1..];
    }
    assert proof[0..] == proof && proof2[0..] == proof2;
  }
}
