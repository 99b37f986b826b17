/**
  The off-chain side: a complete tree in array layout (root at 0, children of `i` at `2i + 1` and `2i + 2`, leaves
  last), its single proofs, and the multi-proof generator that the on-chain verifier must accept.
 */
module MerkleTree {
  import opened Wrappers
  import opened Arith
  import opened Merkle

  /** Node `i` is the hash of its two children. */
  ghost predicate Inner(h: Hasher, nodes: seq<Node>, i: nat) {
    2 * i + 2 < |nodes| && nodes[i] == HashPairSorted(h, nodes[2 * i + 1], nodes[2 * i + 2])
  }

  /** Every internal node is the hash of its children; `|nodes|` is `2n - 1` for `n` leaves. */
  ghost predicate IsTree(h: Hasher, nodes: seq<Node>) {
    && |nodes| % 2 == 1
    && forall i :: 0 <= i < |nodes| / 2 ==> Inner(h, nodes, i)
  }

  /** A node and its sibling hash to their parent, in either order. */
  lemma ParentHash(h: Hasher, nodes: seq<Node>, i: nat)
    requires IsTree(h, nodes) && 0 < i < |nodes|
    ensures Sibling(i) < |nodes|
    ensures HashPairSorted(h, nodes[i], nodes[Sibling(i)]) == nodes[Parent(i)]
  {
    var p := Parent(i);
    assert Inner(h, nodes, p);
    HashPairCommutes(h, nodes[2 * p + 1], nodes[2 * p + 2]);
  }

  function Sibling(i: nat): nat
    requires i > 0
  {
    if i % 2 == 1 then i + 1 else i - 1
  }

  function Parent(i: nat): nat
    requires i > 0
  {
    (i - 1) / 2
  }

  /** The siblings on the way from node `i` to the root. */
  function ProofFrom(nodes: seq<Node>, i: nat): seq<Node>
    requires |nodes| % 2 == 1 && i < |nodes|
  {
    if i == 0 then [] else [nodes[Sibling(i)]] + ProofFrom(nodes, Parent(i))
  }

  lemma {:induction false} TreeProofClimbs(h: Hasher, nodes: seq<Node>, i: nat)
    requires IsTree(h, nodes) && i < |nodes|
    ensures Climb(h, nodes[i], ProofFrom(nodes, i)) == nodes[0]
  {
    if i > 0 {
      ParentHash(h, nodes, i);
      TreeProofClimbs(h, nodes, Parent(i));
    }
  }

  // ----- the generator

  /** The front of the deque is followed by its sibling. */
  predicate Paired(stack: seq<nat>)
    requires stack != [] && stack[0] > 0
  {
    |stack| > 1 && stack[1] == Sibling(stack[0])
  }

  /** The deque after one round: the front, and its sibling if that comes next, are replaced by their parent at the
      back. */
  function Advance(stack: seq<nat>): seq<nat>
    requires stack != [] && stack[0] > 0
  {
    (if Paired(stack) then stack[2..] else stack[1..]) + [Parent(stack[0])]
  }

  ghost function Sum(stack: seq<nat>): nat {
    if stack == [] then 0 else stack[0] + Sum(stack[1..])
  }

  lemma {:induction false} SumAppend(stack: seq<nat>, x: nat)
    ensures Sum(stack + [x]) == Sum(stack) + x
  {
    if stack != [] {
      SumAppend(stack[1..], x);
      assert (stack + [x])[1..] == stack[1..] + [x];
    }
  }

  lemma AdvanceShrinks(stack: seq<nat>)
    requires stack != [] && stack[0] > 0
    ensures Sum(Advance(stack)) < Sum(stack)
  {
    var rest := if Paired(stack) then stack[2..] else stack[1..];
    SumAppend(rest, Parent(stack[0]));
    if Paired(stack) {
      assert stack[1..][1..] == stack[2..];
    }
  }

  predicate Within(stack: seq<nat>, size: nat) {
    forall k :: 0 <= k < |stack| ==> stack[k] < size
  }

  lemma AdvanceWithin(stack: seq<nat>, size: nat)
    requires stack != [] && stack[0] > 0 && Within(stack, size)
    ensures Within(Advance(stack), size)
  {
    var taken := if Paired(stack) then 2 else 1;
    assert forall k :: 0 <= k < |Advance(stack)| - 1 ==> Advance(stack)[k] == stack[k + taken];
  }

  datatype Plan = Plan(proof: seq<Node>, flags: seq<bool>)

  /** The proof items and flags emitted from deque `stack` on. */
  function Generate(nodes: seq<Node>, stack: seq<nat>): Plan
    requires |nodes| % 2 == 1 && Within(stack, |nodes|)
    decreases Sum(stack)
  {
    if stack == [] || stack[0] == 0 then
      Plan([], [])
    else
      AdvanceShrinks(stack);
      AdvanceWithin(stack, |nodes|);
      var g := Generate(nodes, Advance(stack));
      if Paired(stack) then
        Plan(g.proof, [true] + g.flags)
      else
        Plan([nodes[Sibling(stack[0])]] + g.proof, [false] + g.flags)
  }

  /** The deque on which the generator stops. */
  ghost function FinalStack(stack: seq<nat>): seq<nat>
    decreases Sum(stack)
  {
    if stack == [] || stack[0] == 0 then
      stack
    else
      AdvanceShrinks(stack);
      FinalStack(Advance(stack))
  }

  /** The internal nodes pushed, in order: one for each flag, and each is hashed by the verifier. */
  ghost function Pushed(stack: seq<nat>): seq<nat>
    decreases Sum(stack)
  {
    if stack == [] || stack[0] == 0 then
      []
    else
      AdvanceShrinks(stack);
      [Parent(stack[0])] + Pushed(Advance(stack))
  }

  function NodesAt(nodes: seq<Node>, indices: seq<nat>): seq<Node>
    requires Within(indices, |nodes|)
  {
    seq(|indices|, k requires 0 <= k < |indices| => nodes[indices[k]])
  }

  /** The generator's output makes the verifier go through the generator's own deques: in any run started with
      the deque's nodes unread, the unread nodes at the end are those of the generator's last deque. */
  lemma {:induction false} Simulates(h: Hasher, nodes: seq<Node>, stack: seq<nat>, proof: seq<Node>, c: Cursor)
    requires IsTree(h, nodes) && Within(stack, |nodes|)
    requires c.next <= |c.queue| && c.queue[c.next..] == NodesAt(nodes, stack)
    requires c.used <= |proof| && proof[c.used..] == Generate(nodes, stack).proof
    ensures var end := Run(h, proof, Generate(nodes, stack).flags, c);
            && end.Some?
            && end.value.used == |proof|
            && end.value.next <= |end.value.queue|
            && Within(FinalStack(stack), |nodes|)
            && end.value.queue[end.value.next..] == NodesAt(nodes, FinalStack(stack))
    decreases Sum(stack)
  {
    if stack != [] && stack[0] > 0 {
      AdvanceShrinks(stack);
      AdvanceWithin(stack, |nodes|);
      var j, next := stack[0], Advance(stack);
      var p, g := Parent(j), Generate(nodes, stack);
      ParentHash(h, nodes, j);
      assert c.queue[c.next] == NodesAt(nodes, stack)[0] == nodes[j];
      if Paired(stack) {
        assert c.queue[c.next + 1] == NodesAt(nodes, stack)[1] == nodes[Sibling(j)];
      } else {
        assert proof[c.used] == g.proof[0];
      }
      var d := Step(h, proof, g.flags[0], c).value;
      assert d.queue == c.queue + [nodes[p]];
      assert d.queue[d.next..] == c.queue[d.next..] + [nodes[p]];
      assert c.queue[d.next..] == NodesAt(nodes, stack)[d.next - c.next..];
      assert d.queue[d.next..] == NodesAt(nodes, next);
      assert proof[d.used..] == Generate(nodes, next).proof;
      Simulates(h, nodes, next, proof, d);
      assert g.flags[1..] == Generate(nodes, next).flags;
    }
  }

  // ----- the order of the deque

  ghost predicate Decreasing(stack: seq<nat>) {
    forall i, j :: 0 <= i < j < |stack| ==> stack[i] > stack[j]
  }

  ghost predicate NonIncreasing(stack: seq<nat>) {
    forall i, j :: 0 <= i < j < |stack| ==> stack[i] >= stack[j]
  }

  /** Indices fall from front to back, and everything already hashed lies above the parent of the front. */
  ghost predicate Ordered(stack: seq<nat>) {
    && stack != []
    && Decreasing(stack)
    && (stack[0] > 0 ==> Parent(stack[0]) < stack[|stack| - 1])
  }

  /** The same with a repetition: two equal neighbours, or a back equal to the parent of the front. */
  ghost predicate Repeating(stack: seq<nat>) {
    && |stack| >= 2
    && NonIncreasing(stack)
    && (stack[0] > 0 ==> Parent(stack[0]) <= stack[|stack| - 1])
    && (|| (exists i :: 0 <= i < |stack| - 1 && stack[i] == stack[i + 1])
        || (stack[0] > 0 && Parent(stack[0]) == stack[|stack| - 1]))
  }

  lemma OrderedAdvances(stack: seq<nat>)
    requires Ordered(stack) && stack[0] > 0
    ensures Ordered(Advance(stack))
  {
    var taken := if Paired(stack) then 2 else 1;
    var rest, p, next := stack[taken..], Parent(stack[0]), Advance(stack);
    assert next == rest + [p];
    assert Decreasing(next) by {
      assert forall k :: 0 <= k < |rest| ==> rest[k] >= stack[|stack| - 1] > p;
    }
    if rest != [] {
      var front := rest[0];
      assert front < stack[0];
      assert front > 0 ==> Parent(front) < p;
    }
  }

  lemma NonIncreasingAdvances(stack: seq<nat>)
    requires NonIncreasing(stack) && stack != [] && stack[0] > 0 && Parent(stack[0]) <= stack[|stack| - 1]
    ensures var next := Advance(stack);
            NonIncreasing(next) && (next[0] > 0 ==> Parent(next[0]) <= next[|next| - 1])
  {
    var taken := if Paired(stack) then 2 else 1;
    var rest, p := stack[taken..], Parent(stack[0]);
    assert forall k :: 0 <= k < |rest| ==> stack[0] >= rest[k] >= stack[|stack| - 1] >= p;
  }

  lemma RepeatingAdvances(stack: seq<nat>)
    requires Repeating(stack) && stack[0] > 0
    ensures Repeating(Advance(stack))
  {
    var taken := if Paired(stack) then 2 else 1;
    var next, p := Advance(stack), Parent(stack[0]);
    NonIncreasingAdvances(stack);
    forall k | 0 <= k < |next| - 1
      ensures next[k] == stack[taken + k]
    {
      assert next == stack[taken..] + [p];
    }
    if i :| 0 <= i < |stack| - 1 && stack[i] == stack[i + 1] {
      if i >= taken {
        assert next[i - taken] == next[i - taken + 1];
      } else {
        assert next[0] == stack[taken] == stack[taken - 1];
        assert Parent(next[0]) == p;
      }
    } else {
      assert stack[|stack| - 1] == p;
      assert next[|next| - 2] == next[|next| - 1];
    }
  }

  /** A deque without repetition shrinks to the root alone; the pushed nodes are pairwise different. */
  lemma {:induction false} OrderedEndsAtRoot(stack: seq<nat>)
    requires Ordered(stack)
    ensures FinalStack(stack) == [0]
    ensures Decreasing(Pushed(stack))
    ensures forall p :: p in Pushed(stack) ==> p < stack[|stack| - 1]
    decreases Sum(stack)
  {
    if stack[0] > 0 {
      AdvanceShrinks(stack);
      OrderedAdvances(stack);
      var later := Pushed(Advance(stack));
      OrderedEndsAtRoot(Advance(stack));
      assert Pushed(stack) == [Parent(stack[0])] + later;
      assert forall k :: 0 <= k < |later| ==> later[k] in later;
    } else {
      var front, back := stack[0], stack[|stack| - 1];
      assert |stack| > 1 ==> front > back;
    }
  }

  lemma {:induction false} RepeatingEndsTwice(stack: seq<nat>)
    requires Repeating(stack)
    ensures |FinalStack(stack)| >= 2
    decreases Sum(stack)
  {
    if stack[0] > 0 {
      AdvanceShrinks(stack);
      RepeatingAdvances(stack);
      RepeatingEndsTwice(Advance(stack));
    }
  }

  // ----- which nodes are hashed

  /** The proper ancestors of node `i`. */
  ghost function Ancestors(i: nat): set<nat> {
    if i == 0 then {} else {Parent(i)} + Ancestors(Parent(i))
  }

  ghost function AllAncestors(stack: seq<nat>): set<nat> {
    if stack == [] then {} else Ancestors(stack[0]) + AllAncestors(stack[1..])
  }

  lemma {:induction false} AllAncestorsAppend(stack: seq<nat>, x: nat)
    ensures AllAncestors(stack + [x]) == AllAncestors(stack) + Ancestors(x)
  {
    if stack != [] {
      AllAncestorsAppend(stack[1..], x);
      assert (stack + [x])[1..] == stack[1..] + [x];
    }
  }

  lemma SiblingsShareAncestors(i: nat)
    requires i > 0
    ensures Parent(Sibling(i)) == Parent(i) && Ancestors(Sibling(i)) == Ancestors(i)
  {
  }

  lemma AncestorsAdvance(stack: seq<nat>)
    requires stack != [] && stack[0] > 0
    ensures AllAncestors(stack) == {Parent(stack[0])} + AllAncestors(Advance(stack))
  {
    var j := stack[0];
    var rest := if Paired(stack) then stack[2..] else stack[1..];
    AllAncestorsAppend(rest, Parent(j));
    assert AllAncestors(stack) == Ancestors(j) + AllAncestors(rest) by {
      if Paired(stack) {
        SiblingsShareAncestors(j);
        assert stack[1..][1..] == stack[2..] && stack[1..][0] == stack[1];
      }
    }
  }

  ghost function Elements(s: seq<nat>): (e: set<nat>)
    ensures forall x :: x in e <==> x in s
  {
    if s == [] then {} else {s[0]} + Elements(s[1..])
  }

  lemma {:induction false} DistinctCardinality(s: seq<nat>)
    requires Decreasing(s)
    ensures |Elements(s)| == |s|
  {
    if s != [] {
      var rest := s[1..];
      DistinctCardinality(rest);
      assert s[0] !in rest;
      assert |{s[0]} + Elements(rest)| == 1 + |Elements(rest)|;
    }
  }

  lemma {:induction false} PushedAreAncestors(nodes: seq<Node>, stack: seq<nat>)
    requires |nodes| % 2 == 1 && Within(stack, |nodes|)
    requires Ordered(stack)
    ensures Elements(Pushed(stack)) == AllAncestors(stack)
    ensures |Pushed(stack)| == |Generate(nodes, stack).flags|
    decreases Sum(stack)
  {
    if stack[0] > 0 {
      var next := Advance(stack);
      AdvanceShrinks(stack);
      AdvanceWithin(stack, |nodes|);
      AncestorsAdvance(stack);
      OrderedAdvances(stack);
      PushedAreAncestors(nodes, next);
      assert Elements(Pushed(stack)) == {Parent(stack[0])} + Elements(Pushed(next));
    } else {
      OrderedEndsAtRoot(stack);
      assert stack == [0];
    }
  }

  lemma {:induction false} BelowCardinality(s: set<nat>, n: nat)
    requires forall x :: x in s ==> x < n
    ensures |s| <= n
  {
    if n > 0 {
      BelowCardinality(s - {n - 1}, n - 1);
    } else {
      assert s == {};
    }
  }

  /** Nodes of level `d` have `d` proper ancestors. */
  lemma {:induction false} AncestorCount(i: nat, d: nat)
    requires Pow2(d) - 1 <= i < 2 * Pow2(d) - 1
    ensures |Ancestors(i)| <= d
    decreases d
  {
    if d > 0 {
      AncestorCount(Parent(i), d - 1);
    }
  }

  lemma {:induction false} AllAncestorsCount(stack: seq<nat>, d: nat)
    requires Within(stack, 2 * Pow2(d) - 1)
    requires forall k :: 0 <= k < |stack| ==> Pow2(d) - 1 <= stack[k]
    ensures |AllAncestors(stack)| <= |stack| * d
  {
    if stack != [] {
      var rest := stack[1..];
      assert forall k :: 0 <= k < |rest| ==> rest[k] == stack[k + 1];
      AncestorCount(stack[0], d);
      AllAncestorsCount(rest, d);
      UnionCount(Ancestors(stack[0]), AllAncestors(rest));
      MulDistributes(|rest|, 1, d);
    }
  }

  lemma UnionCount(a: set<nat>, b: set<nat>)
    ensures |a + b| <= |a| + |b|
  {
    assert a + b == a + (b - a);
    assert |a + (b - a)| == |a| + |b - a|;
    assert b == (b - a) + (a * b);
  }

  // ----- sorting the selected indices

  ghost predicate Distinct(s: seq<nat>) {
    forall i, j :: 0 <= i < j < |s| ==> s[i] != s[j]
  }

  function InsertDesc(x: nat, s: seq<nat>): seq<nat> {
    if s == [] || x >= s[0] then [x] + s else [s[0]] + InsertDesc(x, s[1..])
  }

  /** `sort_unstable_by` with the reversed order; on integers every sort gives the same sequence. */
  function SortDesc(s: seq<nat>): seq<nat> {
    if s == [] then [] else InsertDesc(s[0], SortDesc(s[1..]))
  }

  lemma {:induction false} InsertDescPermutes(x: nat, s: seq<nat>)
    ensures multiset(InsertDesc(x, s)) == multiset(s) + multiset{x}
  {
    if s != [] && x < s[0] {
      InsertDescPermutes(x, s[1..]);
      assert s == [s[0]] + s[1..];
    }
  }

  lemma {:induction false} InsertDescSorts(x: nat, s: seq<nat>)
    requires NonIncreasing(s)
    ensures NonIncreasing(InsertDesc(x, s))
  {
    if s != [] && x < s[0] {
      var rest := s[1..];
      var t := InsertDesc(x, rest);
      InsertDescSorts(x, rest);
      InsertDescPermutes(x, rest);
      forall k | 0 <= k < |t|
        ensures s[0] >= t[k]
      {
        assert t[k] in multiset(t);
        assert t[k] == x || t[k] in rest;
      }
    }
  }

  lemma {:induction false} SortDescSorts(s: seq<nat>)
    ensures NonIncreasing(SortDesc(s))
    ensures multiset(SortDesc(s)) == multiset(s)
    ensures |SortDesc(s)| == |s|
  {
    if s != [] {
      SortDescSorts(s[1..]);
      InsertDescSorts(s[0], SortDesc(s[1..]));
      InsertDescPermutes(s[0], SortDesc(s[1..]));
      assert s == [s[0]] + s[1..];
    }
    assert |multiset(SortDesc(s))| == |multiset(s)|;
  }

  lemma {:induction false} DistinctMultiset(s: seq<nat>)
    ensures Distinct(s) <==> forall v :: multiset(s)[v] <= 1
  {
    if s != [] {
      var t := s[1..];
      DistinctMultiset(t);
      assert s == [s[0]] + t;
      assert multiset(s) == multiset{s[0]} + multiset(t);
      if Distinct(s) {
        assert s[0] !in t;
      } else if Distinct(t) {
        assert s[0] in t;
        assert multiset(s)[s[0]] > 1;
      } else {
        var v :| multiset(t)[v] > 1;
        assert multiset(s)[v] > 1;
      }
    }
  }

  // ----- the generator as a whole

  ghost predicate Selectable(nodes: seq<Node>, selected: seq<nat>) {
    |nodes| % 2 == 1 && forall l :: l in selected ==> l <= |nodes| / 2
  }

  function LeafIndices(nodes: seq<Node>, selected: seq<nat>): (indices: seq<nat>)
    ensures |indices| == |selected|
    ensures forall k :: 0 <= k < |selected| ==> indices[k] == |nodes| / 2 + selected[k]
  {
    seq(|selected|, k requires 0 <= k < |selected| => |nodes| / 2 + selected[k])
  }

  lemma SortedIndicesInRange(nodes: seq<Node>, selected: seq<nat>)
    requires Selectable(nodes, selected)
    ensures var stack := SortDesc(LeafIndices(nodes, selected));
            && Within(stack, |nodes|)
            && forall k :: 0 <= k < |stack| ==> |nodes| / 2 <= stack[k]
  {
    var indices := LeafIndices(nodes, selected);
    SortDescSorts(indices);
    forall k | 0 <= k < |SortDesc(indices)|
      ensures |nodes| / 2 <= SortDesc(indices)[k] < |nodes|
    {
      assert SortDesc(indices)[k] in multiset(SortDesc(indices));
      var i :| 0 <= i < |indices| && indices[i] == SortDesc(indices)[k];
      assert selected[i] in selected;
    }
  }

  datatype Bundle = Bundle(ordered: seq<Node>, proof: seq<Node>, flags: seq<bool>)

  /** `multi_proof`: the leaves in proof order, the proof items and the flags. */
  function MultiProofFor(nodes: seq<Node>, selected: seq<nat>): Bundle
    requires Selectable(nodes, selected)
  {
    SortedIndicesInRange(nodes, selected);
    var indices := SortDesc(LeafIndices(nodes, selected));
    var g := Generate(nodes, indices);
    Bundle(NodesAt(nodes, indices), g.proof, g.flags)
  }

  lemma LeafIndicesDistinct(nodes: seq<Node>, selected: seq<nat>)
    ensures Distinct(LeafIndices(nodes, selected)) <==> Distinct(selected)
  {
    var indices := LeafIndices(nodes, selected);
    assert forall k :: 0 <= k < |selected| ==> indices[k] - |nodes| / 2 == selected[k];
  }

  lemma SortDescDistinct(s: seq<nat>)
    ensures Distinct(SortDesc(s)) <==> Distinct(s)
    ensures Distinct(s) ==> Decreasing(SortDesc(s))
    ensures !Distinct(s) ==>
              exists i :: 0 <= i < |SortDesc(s)| - 1 && SortDesc(s)[i] == SortDesc(s)[i + 1]
  {
    var t := SortDesc(s);
    SortDescSorts(s);
    DistinctMultiset(s);
    DistinctMultiset(t);
    if !Distinct(s) {
      var i, j :| 0 <= i < j < |t| && t[i] == t[j];
      assert t[i] >= t[i + 1] >= t[j];
    }
  }

  lemma SortedSelection(nodes: seq<Node>, selected: seq<nat>)
    requires Selectable(nodes, selected) && selected != []
    ensures var stack := SortDesc(LeafIndices(nodes, selected));
            && |stack| == |selected|
            && (Distinct(selected) ==> Ordered(stack))
            && (!Distinct(selected) ==> Repeating(stack))
  {
    var indices := LeafIndices(nodes, selected);
    SortDescSorts(indices);
    SortDescDistinct(indices);
    LeafIndicesDistinct(nodes, selected);
    SortedIndicesInRange(nodes, selected);
  }

  /** The verifier accepts what the generator emits for a selection of leaves if and only if the selection is not
      empty and repeats no leaf. (`u32` lengths: the tree has at most `u32::MAX` leaves.) */
  lemma GeneratedMultiProofAccepted(h: Hasher, nodes: seq<Node>, selected: seq<nat>)
    requires IsTree(h, nodes) && Selectable(nodes, selected)
    requires |nodes| / 2 + 1 <= U32_MAX
    ensures var m := MultiProofFor(nodes, selected);
            Accepts(h, m.ordered, m.proof, m.flags, nodes[0]) <==> selected != [] && Distinct(selected)
  {
    var m := MultiProofFor(nodes, selected);
    var stack := SortDesc(LeafIndices(nodes, selected));
    SortDescSorts(LeafIndices(nodes, selected));
    if selected != [] {
      SortedIndicesInRange(nodes, selected);
      SortedSelection(nodes, selected);
      Simulates(h, nodes, stack, m.proof, Start(m.ordered));
      RunCounts(h, m.proof, m.flags, Start(m.ordered));
      if Distinct(selected) {
        HashCount(nodes, selected);
        OrderedEndsAtRoot(stack);
        var end := Run(h, m.proof, m.flags, Start(m.ordered)).value;
        assert end.queue[end.next..][0] == nodes[0];
      } else {
        RepeatingEndsTwice(stack);
      }
    }
  }

  /** The number of hashes is the number of different internal nodes above the selected leaves: each shared node is
      hashed exactly once, and there are fewer of them than leaves in the tree. */
  lemma HashCount(nodes: seq<Node>, selected: seq<nat>)
    requires Selectable(nodes, selected) && selected != [] && Distinct(selected)
    ensures |MultiProofFor(nodes, selected).flags|
            == |AllAncestors(SortDesc(LeafIndices(nodes, selected)))|
            <= |nodes| / 2
  {
    var stack := SortDesc(LeafIndices(nodes, selected));
    SortedIndicesInRange(nodes, selected);
    SortedSelection(nodes, selected);
    PushedAreAncestors(nodes, stack);
    OrderedEndsAtRoot(stack);
    DistinctCardinality(Pushed(stack));
    PushedBelow(nodes, stack);
    BelowCardinality(AllAncestors(stack), |nodes| / 2);
  }

  lemma {:induction false} PushedBelow(nodes: seq<Node>, stack: seq<nat>)
    requires |nodes| % 2 == 1 && Within(stack, |nodes|)
    ensures forall p :: p in Pushed(stack) ==> p < |nodes| / 2
    decreases Sum(stack)
  {
    if stack != [] && stack[0] > 0 {
      AdvanceShrinks(stack);
      AdvanceWithin(stack, |nodes|);
      PushedBelow(nodes, Advance(stack));
    }
  }

  /** In a tree of depth `d`, a batch of `k` leaves never costs more than the `k * d` hashes of `k` single proofs. */
  lemma BatchCostsNoMoreThanSingles(nodes: seq<Node>, selected: seq<nat>, d: nat)
    requires |nodes| == 2 * Pow2(d) - 1
    requires Selectable(nodes, selected) && selected != [] && Distinct(selected)
    ensures |MultiProofFor(nodes, selected).flags| <= |selected| * d
  {
    SortedIndicesInRange(nodes, selected);
    SortDescSorts(LeafIndices(nodes, selected));
    HashCount(nodes, selected);
    AllAncestorsCount(SortDesc(LeafIndices(nodes, selected)), d);
  }

  // ----- the array tree and its loops

  class Tree {
    var nodes: array<Node>

    ghost predicate Valid(h: Hasher)
      reads this, nodes
    {
      IsTree(h, nodes[..])
    }

    /** Leaf values are given; `n` must be a power of two. */
    constructor Build(h: Hasher, leaves: seq<Node>, ghost d: nat)
      requires |leaves| == Pow2(d)
      ensures fresh(nodes) && Valid(h)
      ensures nodes.Length == 2 * |leaves| - 1
      ensures nodes[|leaves| - 1..] == leaves
    {
      var n := |leaves|;
      var a := new Node[2 * n - 1](_ => seq(32, _ => 0 as byte));
      for i := 0 to n
        invariant forall k :: 0 <= k < i ==> a[n - 1 + k] == leaves[k]
      {
        a[n - 1 + i] := leaves[i];
      }
      var i := n - 1;
      while i > 0
        invariant 0 <= i <= n - 1
        invariant forall k :: 0 <= k < n ==> a[n - 1 + k] == leaves[k]
        invariant forall k :: i <= k < n - 1 ==> Inner(h, a[..], k)
      {
        i := i - 1;
        ghost var before := a[..];
        a[i] := HashPairSorted(h, a[2 * i + 1], a[2 * i + 2]);
        assert forall k :: i < k < n - 1 && Inner(h, before, k) ==> Inner(h, a[..], k);
        assert Inner(h, a[..], i);
      }
      nodes := a;
      new;
      assert nodes[n - 1..] == leaves;
    }

    method Proof(h: Hasher, leaf: nat) returns (proof: seq<Node>)
      requires Valid(h) && leaf <= nodes.Length / 2
      ensures proof == ProofFrom(nodes[..], nodes.Length / 2 + leaf)
      ensures Climb(h, nodes[nodes.Length / 2 + leaf], proof) == nodes[0]
    {
      var i: nat := nodes.Length / 2 + leaf;
      ghost var all, whole := nodes[..], ProofFrom(nodes[..], i);
      TreeProofClimbs(h, all, i);
      proof := [];
      while i > 0
        invariant i < |all| && whole == proof + ProofFrom(all, i)
      {
        ghost var rest := ProofFrom(all, Parent(i));
        assert proof + ([nodes[Sibling(i)]] + rest) == (proof + [nodes[Sibling(i)]]) + rest;
        proof := proof + [nodes[Sibling(i)]];
        i := Parent(i);
      }
    }

    method MultiProof(h: Hasher, selected: seq<nat>)
      returns (ordered: seq<Node>, proof: seq<Node>, flags: seq<bool>)
      requires Valid(h) && Selectable(nodes[..], selected)
      ensures MultiProofFor(nodes[..], selected) == Bundle(ordered, proof, flags)
      ensures nodes.Length / 2 + 1 <= U32_MAX ==>
                (Accepts(h, ordered, proof, flags, nodes[0]) <==> selected != [] && Distinct(selected))
    {
      ghost var all := nodes[..];
      var indices := SortDesc(LeafIndices(nodes[..], selected));
      SortedIndicesInRange(all, selected);
      proof, flags := EmitProof(indices);
      ordered := [];
      for k := 0 to |indices|
        invariant ordered == NodesAt(all, indices)[..k]
      {
        ordered := ordered + [nodes[indices[k]]];
      }
      if nodes.Length / 2 + 1 <= U32_MAX {
        GeneratedMultiProofAccepted(h, all, selected);
      }
    }

    /** The deque loop of the generator. */
    method EmitProof(indices: seq<nat>) returns (proof: seq<Node>, flags: seq<bool>)
      requires nodes.Length % 2 == 1 && Within(indices, nodes.Length)
      ensures Plan(proof, flags) == Generate(nodes[..], indices)
    {
      ghost var all := nodes[..];
      var stack: seq<nat> := indices;
      proof, flags := [], [];
      while stack != [] && stack[0] != 0
        invariant Within(stack, |all|)
        invariant Generate(all, indices).proof == proof + Generate(all, stack).proof
        invariant Generate(all, indices).flags == flags + Generate(all, stack).flags
        decreases Sum(stack)
      {
        ghost var before := stack;
        AdvanceShrinks(before);
        AdvanceWithin(before, |all|);
        var j := stack[0];
        stack := stack[1..];
        var s := Sibling(j);
        if stack != [] && stack[0] == s {
          flags := flags + [true];
          stack := stack[1..];
        } else {
          flags := flags + [false];
          proof := proof + [nodes[s]];
        }
        stack := stack + [Parent(j)];
        assert stack == Advance(before);
      }
    }
  }
}
