/**
  Sorted-pair Merkle proofs: the single-proof verifier, the multi-proof verifier, and the reduction of
  an accepted multi-proof to one accepted single proof per leaf.

  SHA-256 is a parameter `h` about which nothing is assumed in this module.
 */
module Merkle {
  import opened Wrappers

  newtype byte = x: int | 0 <= x < 256

  /** A 32-byte hash. */
  type Node = s: seq<byte> | |s| == 32 witness seq(32, _ => 0 as byte)

  type Hasher = seq<byte> -> Node

  /** The order of byte arrays: the first difference decides. */
  predicate LessEq(a: seq<byte>, b: seq<byte>)
    requires |a| == |b|
    decreases |a|
  {
    |a| == 0 || a[0] < b[0] || (a[0] == b[0] && LessEq(a[1..], b[1..]))
  }

  /** The 64 bytes hashed for the pair: the smaller node, then the larger. */
  function PairPreimage(a: Node, b: Node): seq<byte> {
    if LessEq(a, b) then a + b else b + a
  }

  function HashPairSorted(h: Hasher, a: Node, b: Node): Node {
    h(PairPreimage(a, b))
  }

  lemma {:induction false} LessEqTotalOrder(a: seq<byte>, b: seq<byte>)
    requires |a| == |b|
    ensures LessEq(a, b) || LessEq(b, a)
    ensures LessEq(a, b) && LessEq(b, a) ==> a == b
    decreases |a|
  {
    if |a| > 0 {
      LessEqTotalOrder(a[1..], b[1..]);
      assert a == [a[0]] + a[1..] && b == [b[0]] + b[1..];
    }
  }

  lemma {:induction false} FirstDifferenceDecides(a: seq<byte>, b: seq<byte>, k: nat)
    requires |a| == |b| && k < |a| && a[..k] == b[..k] && a[k] < b[k]
    ensures LessEq(a, b) && !LessEq(b, a)
    decreases k
  {
    if k > 0 {
      assert a[0] == a[..k][0] == b[..k][0] == b[0];
      assert a[1..][..k - 1] == a[..k][1..] && b[1..][..k - 1] == b[..k][1..];
      FirstDifferenceDecides(a[1..], b[1..], k - 1);
    }
  }

  /** The node with the smaller byte at the first difference is hashed first, whichever operand it is. */
  lemma SmallerNodeFirst(h: Hasher, a: Node, b: Node, k: nat)
    requires k < 32 && a[..k] == b[..k] && a[k] < b[k]
    ensures HashPairSorted(h, a, b) == HashPairSorted(h, b, a) == h(a + b)
  {
    FirstDifferenceDecides(a, b, k);
  }

  lemma EqualNodesHash(h: Hasher, a: Node)
    ensures HashPairSorted(h, a, a) == h(a + a)
  {
  }

  /** The preimage identifies the unordered pair: it does not depend on the order of the two nodes, and no other
      pair has it. */
  lemma PreimageIsUnorderedPair(a: Node, b: Node, c: Node, d: Node)
    ensures PairPreimage(a, b) == PairPreimage(c, d) <==> (a == c && b == d) || (a == d && b == c)
  {
    LessEqTotalOrder(a, b);
    LessEqTotalOrder(c, d);
    assert forall x: Node, y: Node :: (x + y)[..32] == x && (x + y)[32..] == y;
  }

  lemma HashPairCommutes(h: Hasher, a: Node, b: Node)
    ensures HashPairSorted(h, a, b) == HashPairSorted(h, b, a)
  {
    PreimageIsUnorderedPair(a, b, b, a);
  }

  // ----- single proofs

  /** The node reached from `leaf` by hashing with each sibling in turn. */
  function Climb(h: Hasher, leaf: Node, proof: seq<Node>): Node
    decreases proof
  {
    if proof == [] then leaf else Climb(h, HashPairSorted(h, leaf, proof[0]), proof[1..])
  }

  method VerifyMerkleProof(h: Hasher, leaf: Node, proof: seq<Node>, root: Node) returns (ok: bool)
    ensures ok <==> Climb(h, leaf, proof) == root
  {
    var current := leaf;
    for i := 0 to |proof|
      invariant Climb(h, leaf, proof) == Climb(h, current, proof[i..])
    {
      current := HashPairSorted(h, current, proof[i]);
    }
    return current == root;
  }

  // ----- multi-proofs

  /** The verifier's position: `queue` holds the leaves and then every node computed so far, `next` counts the
      queue items read, `used` the proof items read. */
  datatype Cursor = Cursor(queue: seq<Node>, next: nat, used: nat)

  /** One hash: the left operand comes from the queue, the right one from the queue or the proof. */
  function Step(h: Hasher, proof: seq<Node>, flag: bool, c: Cursor): Option<Cursor> {
    if c.next >= |c.queue| then
      None
    else if flag then
      if c.next + 1 >= |c.queue| then
        None
      else
        Some(Cursor(c.queue + [HashPairSorted(h, c.queue[c.next], c.queue[c.next + 1])], c.next + 2, c.used))
    else if c.used >= |proof| then
      None
    else
      Some(Cursor(c.queue + [HashPairSorted(h, c.queue[c.next], proof[c.used])], c.next + 1, c.used + 1))
  }

  function Run(h: Hasher, proof: seq<Node>, flags: seq<bool>, c: Cursor): Option<Cursor> {
    if flags == [] then
      Some(c)
    else
      match Step(h, proof, flags[0], c)
      case None => None
      case Some(d) => Run(h, proof, flags[1..], d)
  }

  function Start(leaves: seq<Node>): Cursor {
    Cursor(leaves, 0, 0)
  }

  /** What the multi-proof verifier accepts. */
  predicate Accepts(h: Hasher, leaves: seq<Node>, proof: seq<Node>, flags: seq<bool>, root: Node) {
    && |leaves| > 0
    && |leaves| + |proof| <= U32_MAX
    && |flags| + 1 == |leaves| + |proof|
    && var end := Run(h, proof, flags, Start(leaves));
       end.Some? && end.value.used == |proof| && end.value.queue != [] && end.value.queue[|end.value.queue| - 1] == root
  }

  method VerifyMerkleMultiProof(h: Hasher, leaves: seq<Node>, proof: seq<Node>, proofFlags: seq<bool>, root: Node)
    returns (ok: bool)
    ensures ok <==> Accepts(h, leaves, proof, proofFlags, root)
  {
    if |leaves| == 0 {
      return false;
    }
    if |leaves| + |proof| > U32_MAX || |proofFlags| + 1 > U32_MAX || |proofFlags| + 1 != |leaves| + |proof| {
      return false;
    }
    if |proofFlags| == 0 {
      return leaves[0] == root;
    }

    var hashes, proofPos := HashAll(h, leaves, proof, proofFlags);
    if hashes == None || proofPos != |proof| {
      return false;
    }
    return hashes.value[|hashes.value| - 1] == root;
  }

  /** The hashing loop of the verifier; `None` when an operand is missing. */
  method HashAll(h: Hasher, leaves: seq<Node>, proof: seq<Node>, proofFlags: seq<bool>)
    returns (result: Option<seq<Node>>, proofPos: nat)
    ensures var end := Run(h, proof, proofFlags, Start(leaves));
            && (result == None <==> end == None)
            && (result.Some? ==> end.value.queue == leaves + result.value && end.value.used == proofPos)
    ensures result.Some? ==> |result.value| == |proofFlags|
  {
    ghost var c := Start(leaves);
    var hashes: seq<Node> := [];
    var leafPos, hashPos := 0, 0;
    proofPos := 0;
    for i := 0 to |proofFlags|
      invariant Positions(leaves, hashes, leafPos, hashPos)
      invariant |hashes| == i
      invariant c.queue == leaves + hashes && c.next == leafPos + hashPos && c.used == proofPos
      invariant Run(h, proof, proofFlags, Start(leaves)) == Run(h, proof, proofFlags[i..], c)
    {
      RunFrom(h, proof, proofFlags, i, c);
      var a, b: Option<Node>;
      a, b, leafPos, hashPos, proofPos := Operands(leaves, hashes, proof, proofFlags[i], leafPos, hashPos, proofPos);
      StepReads(h, proof, proofFlags[i], c, a, b);
      if a == None || b == None {
        return None, proofPos;
      }
      hashes := hashes + [HashPairSorted(h, a.value, b.value)];
      c := Step(h, proof, proofFlags[i], c).value;
    }
    return Some(hashes), proofPos;
  }

  function ItemAt(items: seq<Node>, i: nat): Option<Node> {
    if i < |items| then Some(items[i]) else None
  }

  /** A step is decided by its two operands, and appends their hash. */
  lemma StepReads(h: Hasher, proof: seq<Node>, flag: bool, c: Cursor, a: Option<Node>, b: Option<Node>)
    requires a == ItemAt(c.queue, c.next)
    requires a.Some? ==> b == if flag then ItemAt(c.queue, c.next + 1) else ItemAt(proof, c.used)
    ensures a == None || b == None ==> Step(h, proof, flag, c) == None
    ensures a.Some? && b.Some? ==>
              Step(h, proof, flag, c)
              == Some(Cursor(c.queue + [HashPairSorted(h, a.value, b.value)],
                             c.next + (if flag then 2 else 1), c.used + (if flag then 0 else 1)))
  {
  }

  /** The operands of one hash; when the first is missing the second is not read. */
  method Operands(leaves: seq<Node>, hashes: seq<Node>, proof: seq<Node>, flag: bool,
                  leafPos: nat, hashPos: nat, proofPos: nat)
    returns (a: Option<Node>, b: Option<Node>, leafPos': nat, hashPos': nat, proofPos': nat)
    requires Positions(leaves, hashes, leafPos, hashPos)
    ensures a == ItemAt(leaves + hashes, leafPos + hashPos)
    ensures a.Some? ==>
              b == if flag then ItemAt(leaves + hashes, leafPos + hashPos + 1) else ItemAt(proof, proofPos)
    ensures a.Some? && b.Some? ==>
              && Positions(leaves, hashes, leafPos', hashPos')
              && leafPos' + hashPos' == leafPos + hashPos + (if flag then 2 else 1)
              && proofPos' == proofPos + (if flag then 0 else 1)
  {
    b, proofPos' := None, proofPos;
    a, leafPos', hashPos' := NextNode(leaves, hashes, leafPos, hashPos);
    if a == None {
      return;
    }
    if flag {
      b, leafPos', hashPos' := NextNode(leaves, hashes, leafPos', hashPos');
    } else {
      b := ItemAt(proof, proofPos);
      proofPos' := proofPos + 1;
    }
  }

  /** The two read positions: computed hashes are read only once the leaves are exhausted. */
  ghost predicate Positions(leaves: seq<Node>, hashes: seq<Node>, leafPos: nat, hashPos: nat) {
    leafPos <= |leaves| && hashPos <= |hashes| && (leafPos < |leaves| ==> hashPos == 0)
  }

  /** The closure `next_node`: pops the leaves first, then the computed hashes. */
  method NextNode(leaves: seq<Node>, hashes: seq<Node>, leafPos: nat, hashPos: nat)
    returns (node: Option<Node>, leafPos': nat, hashPos': nat)
    requires Positions(leaves, hashes, leafPos, hashPos)
    ensures leafPos' + hashPos' == leafPos + hashPos + 1
    ensures node == ItemAt(leaves + hashes, leafPos + hashPos)
    ensures node.Some? ==> Positions(leaves, hashes, leafPos', hashPos')
  {
    if leafPos < |leaves| {
      return Some(leaves[leafPos]), leafPos + 1, hashPos;
    } else {
      return if hashPos < |hashes| then Some(hashes[hashPos]) else None, leafPos, hashPos + 1;
    }
  }

  /** The rest of a run, seen from position `i` of the flags. */
  lemma RunFrom(h: Hasher, proof: seq<Node>, flags: seq<bool>, i: nat, c: Cursor)
    requires i <= |flags|
    ensures i == |flags| ==> Run(h, proof, flags[i..], c) == Some(c)
    ensures i < |flags| ==>
              Run(h, proof, flags[i..], c)
              == match Step(h, proof, flags[i], c)
                 case None => None
                 case Some(d) => Run(h, proof, flags[i + 1..], d)
  {
    if i < |flags| {
      assert flags[i..][1..] == flags[i + 1..];
    }
  }

  // ----- a multi-proof is a bundle of single proofs

  /** Every hash reads two items and adds one to the queue. */
  lemma {:induction false} RunCounts(h: Hasher, proof: seq<Node>, flags: seq<bool>, c: Cursor)
    requires Run(h, proof, flags, c).Some?
    ensures var d := Run(h, proof, flags, c).value;
            && d.next + d.used == c.next + c.used + 2 * |flags|
            && |d.queue| == |c.queue| + |flags|
            && c.queue <= d.queue
  {
    if flags != [] {
      RunCounts(h, proof, flags[1..], Step(h, proof, flags[0], c).value);
    }
  }

  /** The siblings met by queue item `j` and its ancestors in the rest of the run. */
  function SinglePath(h: Hasher, proof: seq<Node>, flags: seq<bool>, c: Cursor, j: nat): seq<Node>
    requires Run(h, proof, flags, c).Some?
    requires c.next <= j < |c.queue|
  {
    if flags == [] then
      []
    else
      var d := Step(h, proof, flags[0], c).value;
      if j == c.next then
        [if flags[0] then c.queue[j + 1] else proof[c.used]] + SinglePath(h, proof, flags[1..], d, |c.queue|)
      else if flags[0] && j == c.next + 1 then
        [c.queue[c.next]] + SinglePath(h, proof, flags[1..], d, |c.queue|)
      else
        SinglePath(h, proof, flags[1..], d, j)
  }

  /** In a run that ends with only one unread item, every item unread before it climbs to that item. */
  lemma {:induction false} PathReachesLast(h: Hasher, proof: seq<Node>, flags: seq<bool>, c: Cursor, j: nat)
    requires Run(h, proof, flags, c).Some?
    requires var d := Run(h, proof, flags, c).value; d.next + 1 == |d.queue|
    requires c.next <= j < |c.queue|
    ensures var d := Run(h, proof, flags, c).value;
            Climb(h, c.queue[j], SinglePath(h, proof, flags, c, j)) == d.queue[|d.queue| - 1]
    ensures |SinglePath(h, proof, flags, c, j)| <= |flags|
  {
    if flags != [] {
      var d := Step(h, proof, flags[0], c).value;
      if j == c.next {
        PathReachesLast(h, proof, flags[1..], d, |c.queue|);
      } else if flags[0] && j == c.next + 1 {
        HashPairCommutes(h, c.queue[c.next], c.queue[j]);
        PathReachesLast(h, proof, flags[1..], d, |c.queue|);
      } else {
        PathReachesLast(h, proof, flags[1..], d, j);
      }
    }
  }

  /** The sibling list that an accepted multi-proof contains for leaf `i`. */
  function SingleProof(h: Hasher, leaves: seq<Node>, proof: seq<Node>, flags: seq<bool>, root: Node, i: nat): seq<Node>
    requires Accepts(h, leaves, proof, flags, root)
    requires i < |leaves|
  {
    SinglePath(h, proof, flags, Start(leaves), i)
  }

  /** The length check and the requirement that all proof items are used force every queue item but the root to be
      read exactly once. */
  lemma AcceptedRunReadsAllButRoot(h: Hasher, leaves: seq<Node>, proof: seq<Node>, flags: seq<bool>, root: Node)
    requires Accepts(h, leaves, proof, flags, root)
    ensures var d := Run(h, proof, flags, Start(leaves)).value;
            d.next + 1 == |d.queue| == |leaves| + |flags| && d.queue[d.next] == root
    ensures |leaves| + |proof| == |flags| + 1 <= U32_MAX
  {
    RunCounts(h, proof, flags, Start(leaves));
  }

  /** Whatever the hash function, an accepted multi-proof yields for every one of its leaves a sibling list that the
      single-proof verifier accepts against the same root. */
  lemma MultiProofImpliesSingleProofs(h: Hasher, leaves: seq<Node>, proof: seq<Node>, flags: seq<bool>, root: Node)
    requires Accepts(h, leaves, proof, flags, root)
    ensures forall i :: 0 <= i < |leaves| ==>
              && Climb(h, leaves[i], SingleProof(h, leaves, proof, flags, root, i)) == root
              && |SingleProof(h, leaves, proof, flags, root, i)| < |leaves| + |proof|
  {
    AcceptedRunReadsAllButRoot(h, leaves, proof, flags, root);
    forall i | 0 <= i < |leaves|
      ensures Climb(h, leaves[i], SingleProof(h, leaves, proof, flags, root, i)) == root
      ensures |SingleProof(h, leaves, proof, flags, root, i)| < |leaves| + |proof|
    {
      PathReachesLast(h, proof, flags, Start(leaves), i);
    }
  }
}
