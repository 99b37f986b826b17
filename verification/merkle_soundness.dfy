/**
  Soundness of both verifiers against a tree in array layout: when no two different preimages hashed by the tree
  or by the verifier collide, and leaf values are never node values, only leaves of the tree are accepted.

  The hypotheses speak only of the finitely many preimages that the tree and the run actually hash, because no
  function from 64 bytes to 32 bytes is injective.
 */
module MerkleSoundness {
  import opened Wrappers
  import opened Merkle
  import opened MerkleTree

  ghost predicate CollisionFree(h: Hasher, preimages: set<seq<byte>>) {
    forall x, y :: x in preimages && y in preimages && h(x) == h(y) ==> x == y
  }

  /** `v` is the hash of none of the preimages: what the domain tag of a leaf preimage is for. */
  ghost predicate NotHashOf(h: Hasher, v: Node, preimages: set<seq<byte>>) {
    forall x :: x in preimages ==> h(x) != v
  }

  ghost function TreePreimages(nodes: seq<Node>): set<seq<byte>> {
    set i | 0 <= i < |nodes| / 2 && 2 * i + 2 < |nodes| :: PairPreimage(nodes[2 * i + 1], nodes[2 * i + 2])
  }

  ghost function ClimbPreimages(h: Hasher, leaf: Node, proof: seq<Node>): set<seq<byte>>
    decreases proof
  {
    if proof == [] then
      {}
    else
      {PairPreimage(leaf, proof[0])} + ClimbPreimages(h, HashPairSorted(h, leaf, proof[0]), proof[1..])
  }

  ghost function RunPreimages(h: Hasher, proof: seq<Node>, flags: seq<bool>, c: Cursor): set<seq<byte>>
    requires Run(h, proof, flags, c).Some?
  {
    if flags == [] then
      {}
    else
      var right := if flags[0] then c.queue[c.next + 1] else proof[c.used];
      {PairPreimage(c.queue[c.next], right)}
      + RunPreimages(h, proof, flags[1..], Step(h, proof, flags[0], c).value)
  }

  /** The last sibling is hashed last. */
  lemma {:induction false} ClimbLast(h: Hasher, leaf: Node, proof: seq<Node>)
    requires proof != []
    ensures var init, last := proof[..|proof| - 1], proof[|proof| - 1];
            && Climb(h, leaf, proof) == HashPairSorted(h, Climb(h, leaf, init), last)
            && ClimbPreimages(h, leaf, proof)
               == ClimbPreimages(h, leaf, init) + {PairPreimage(Climb(h, leaf, init), last)}
    decreases proof
  {
    var init := proof[..|proof| - 1];
    if |proof| > 1 {
      ClimbLast(h, HashPairSorted(h, leaf, proof[0]), proof[1..]);
      assert init[1..] == proof[1..][..|proof| - 2];
    }
  }

  /** What the descent from a node needs: no collision among the hashed preimages, and leaf values kept apart from
      node values. */
  ghost predicate Separated(h: Hasher, nodes: seq<Node>, leaf: Node, hashed: set<seq<byte>>) {
    && CollisionFree(h, TreePreimages(nodes) + hashed)
    && NotHashOf(h, leaf, TreePreimages(nodes))
    && forall k :: |nodes| / 2 <= k < |nodes| ==> NotHashOf(h, nodes[k], hashed)
  }

  lemma InnerIsHash(h: Hasher, nodes: seq<Node>, i: nat)
    requires IsTree(h, nodes) && i < |nodes|
    ensures i < |nodes| / 2 ==> !NotHashOf(h, nodes[i], TreePreimages(nodes))
  {
    if i < |nodes| / 2 {
      assert Inner(h, nodes, i);
      assert PairPreimage(nodes[2 * i + 1], nodes[2 * i + 2]) in TreePreimages(nodes);
    }
  }

  /** A hashed pair that gives an internal node's value is the pair of that node's children. */
  lemma PairBelow(h: Hasher, nodes: seq<Node>, i: nat, leaf: Node, a: Node, b: Node, hashed: set<seq<byte>>)
    returns (child: nat)
    requires IsTree(h, nodes) && i < |nodes|
    requires Separated(h, nodes, leaf, hashed) && PairPreimage(a, b) in hashed
    requires HashPairSorted(h, a, b) == nodes[i]
    ensures i < |nodes| / 2
    ensures 0 < child < |nodes| && Parent(child) == i && Sibling(child) < |nodes|
    ensures nodes[child] == a && nodes[Sibling(child)] == b
  {
    assert !NotHashOf(h, nodes[i], hashed);
    assert Inner(h, nodes, i);
    var l, r := nodes[2 * i + 1], nodes[2 * i + 2];
    assert PairPreimage(l, r) in TreePreimages(nodes);
    PreimageIsUnorderedPair(a, b, l, r);
    child := if a == l && b == r then 2 * i + 1 else 2 * i + 2;
  }

  /** From the root downwards, the node below each sibling is a node of the tree and the sibling its tree sibling. */
  lemma {:induction false} Descend(h: Hasher, nodes: seq<Node>, leaf: Node, proof: seq<Node>, i: nat,
                                   hashed: set<seq<byte>>)
    returns (j: nat)
    requires IsTree(h, nodes) && i < |nodes|
    requires Climb(h, leaf, proof) == nodes[i]
    requires ClimbPreimages(h, leaf, proof) <= hashed && Separated(h, nodes, leaf, hashed)
    ensures |nodes| / 2 <= j < |nodes| && leaf == nodes[j]
    ensures proof + ProofFrom(nodes, i) == ProofFrom(nodes, j)
    decreases |proof|
  {
    if proof == [] {
      j := i;
      InnerIsHash(h, nodes, i);
      assert proof + ProofFrom(nodes, i) == ProofFrom(nodes, i);
    } else {
      var init, last := proof[..|proof| - 1], proof[|proof| - 1];
      ClimbLast(h, leaf, proof);
      var child := PairBelow(h, nodes, i, leaf, Climb(h, leaf, init), last, hashed);
      j := Descend(h, nodes, leaf, init, child, hashed);
      assert proof + ProofFrom(nodes, i) == init + ([last] + ProofFrom(nodes, i));
    }
  }

  /** The single-proof verifier accepts a value against a tree's root exactly when the value is a leaf of the tree
      and the proof is the one the tree generates for that leaf. */
  lemma SingleProofSound(h: Hasher, nodes: seq<Node>, leaf: Node, proof: seq<Node>)
    requires IsTree(h, nodes)
    requires Separated(h, nodes, leaf, ClimbPreimages(h, leaf, proof))
    ensures Climb(h, leaf, proof) == nodes[0]
            <==> exists j :: |nodes| / 2 <= j < |nodes| && leaf == nodes[j] && proof == ProofFrom(nodes, j)
  {
    if Climb(h, leaf, proof) == nodes[0] {
      var j := Descend(h, nodes, leaf, proof, 0, ClimbPreimages(h, leaf, proof));
      assert proof + ProofFrom(nodes, 0) == proof;
    }
    forall j | |nodes| / 2 <= j < |nodes| && leaf == nodes[j] && proof == ProofFrom(nodes, j)
      ensures Climb(h, leaf, proof) == nodes[0]
    {
      TreeProofClimbs(h, nodes, j);
    }
  }

  /** A leaf's path through a multi-proof run hashes nothing that the run does not hash. */
  lemma {:induction false} PathPreimagesInRun(h: Hasher, proof: seq<Node>, flags: seq<bool>, c: Cursor, j: nat)
    requires Run(h, proof, flags, c).Some?
    requires c.next <= j < |c.queue|
    ensures ClimbPreimages(h, c.queue[j], SinglePath(h, proof, flags, c, j)) <= RunPreimages(h, proof, flags, c)
  {
    if flags != [] {
      var d := Step(h, proof, flags[0], c).value;
      if j == c.next {
        PathPreimagesInRun(h, proof, flags[1..], d, |c.queue|);
      } else if flags[0] && j == c.next + 1 {
        HashPairCommutes(h, c.queue[c.next], c.queue[j]);
        PreimageIsUnorderedPair(c.queue[c.next], c.queue[j], c.queue[j], c.queue[c.next]);
        PathPreimagesInRun(h, proof, flags[1..], d, |c.queue|);
      } else {
        PathPreimagesInRun(h, proof, flags[1..], d, j);
      }
    }
  }

  /** Every leaf of a multi-proof accepted against a tree's root is a leaf of the tree. */
  lemma MultiProofSound(h: Hasher, nodes: seq<Node>, leaves: seq<Node>, proof: seq<Node>, flags: seq<bool>)
    requires IsTree(h, nodes)
    requires Accepts(h, leaves, proof, flags, nodes[0])
    requires forall leaf :: leaf in leaves ==>
               Separated(h, nodes, leaf, RunPreimages(h, proof, flags, Start(leaves)))
    ensures forall leaf :: leaf in leaves ==> leaf in nodes[|nodes| / 2..]
  {
    MultiProofImpliesSingleProofs(h, leaves, proof, flags, nodes[0]);
    forall i | 0 <= i < |leaves|
      ensures leaves[i] in nodes[|nodes| / 2..]
    {
      PathPreimagesInRun(h, proof, flags, Start(leaves), i);
      var j := Descend(h, nodes, leaves[i], SingleProof(h, leaves, proof, flags, nodes[0], i), 0,
                       RunPreimages(h, proof, flags, Start(leaves)));
      assert nodes[|nodes| / 2..][j - |nodes| / 2] == nodes[j];
    }
  }
}
