/**
  A funded airdrop honours every batch: the entries of a tree that the off-chain generator bundles into one multi-proof
  are claimed together, up to the refusals of the tokens and the overflow of a split.
 */
module AirdropFunded {
  import opened Wrappers
  import opened Runs
  import opened TokenLedger
  import opened Merkle
  import opened MerkleTree
  import opened Airdrop
  import opened AirdropBatch
  import opened AirdropSafety
  import opened AirdropDistribution

  // ----- the entries of a bundle

  /** The selected entries are allotted ones for different pairs, so none is selected twice. */
  ghost predicate Selects(allotted: seq<Entry>, selected: seq<nat>) {
    && (forall l :: l in selected ==> l < |allotted|)
    && forall i, j :: 0 <= i < j < |selected| && selected[i] < |allotted| && selected[j] < |allotted| ==>
         PairOf(allotted[selected[i]]) != PairOf(allotted[selected[j]])
  }

  /** The indices are those of leaves, where `first` is the index of the first leaf. */
  predicate LeavesAt(allotted: seq<Entry>, first: nat, indices: seq<nat>) {
    forall k :: 0 <= k < |indices| ==> first <= indices[k] < first + |allotted|
  }

  /** The entries at the given nodes. */
  function EntriesAt(allotted: seq<Entry>, first: nat, indices: seq<nat>): seq<Entry>
    requires LeavesAt(allotted, first, indices)
  {
    seq(|indices|, k requires 0 <= k < |indices| => allotted[indices[k] - first])
  }

  lemma TreeSize(env: Host, nodes: seq<Node>, allotted: seq<Entry>)
    requires Distributes(env, nodes, allotted)
    ensures |nodes| % 2 == 1 && |allotted| == |nodes| / 2 + 1
  {
    assert |nodes[|nodes| / 2..]| == |allotted|;
  }

  lemma SelectsDistinct(allotted: seq<Entry>, selected: seq<nat>)
    requires Selects(allotted, selected)
    ensures Distinct(selected)
  {
    forall i, j | 0 <= i < j < |selected|
      ensures selected[i] != selected[j]
    {
      assert selected[i] in selected && selected[j] in selected;
    }
  }

  /** The generator's indices are those of the selected leaves, in decreasing order. */
  lemma SortedLeaves(nodes: seq<Node>, selected: seq<nat>)
    requires Selectable(nodes, selected) && Distinct(selected)
    ensures var indices := SortDesc(LeafIndices(nodes, selected));
            && |indices| == |selected| && Decreasing(indices)
            && forall k :: 0 <= k < |indices| ==>
                 |nodes| / 2 <= indices[k] < |nodes| && indices[k] - |nodes| / 2 in selected
  {
    var leaves := LeafIndices(nodes, selected);
    SortedIndicesInRange(nodes, selected);
    SortDescSorts(leaves);
    LeafIndicesDistinct(nodes, selected);
    SortDescDistinct(leaves);
    forall k | 0 <= k < |SortDesc(leaves)|
      ensures SortDesc(leaves)[k] - |nodes| / 2 in selected
    {
      assert SortDesc(leaves)[k] in multiset(SortDesc(leaves));
      var i :| 0 <= i < |leaves| && leaves[i] == SortDesc(leaves)[k];
      assert selected[i] in selected;
    }
  }

  lemma SelectionIsSound(env: Host, nodes: seq<Node>, allotted: seq<Entry>, selected: seq<nat>)
    requires Distributes(env, nodes, allotted) && Selects(allotted, selected)
    ensures Selectable(nodes, selected) && Distinct(selected)
    ensures |allotted| == |nodes| / 2 + 1
    ensures LeavesAt(allotted, |nodes| / 2, SortDesc(LeafIndices(nodes, selected)))
  {
    TreeSize(env, nodes, allotted);
    SelectsDistinct(allotted, selected);
    SortedLeaves(nodes, selected);
  }

  /** The selected entries in the order of the generator's leaves. */
  ghost function BatchEntries(env: Host, nodes: seq<Node>, allotted: seq<Entry>, selected: seq<nat>): seq<Entry>
    requires Distributes(env, nodes, allotted) && Selects(allotted, selected)
  {
    SelectionIsSound(env, nodes, allotted, selected);
    EntriesAt(allotted, |nodes| / 2, SortDesc(LeafIndices(nodes, selected)))
  }

  /** Different indices of the selection have different pairs. */
  lemma SelectedPairsDiffer(allotted: seq<Entry>, selected: seq<nat>, x: nat, y: nat)
    requires Selects(allotted, selected) && x in selected && y in selected && x != y
    ensures x < |allotted| && y < |allotted| && PairOf(allotted[x]) != PairOf(allotted[y])
  {
    var i :| 0 <= i < |selected| && selected[i] == x;
    var j :| 0 <= j < |selected| && selected[j] == y;
  }

  lemma EntriesHaveLeaves(env: Host, nodes: seq<Node>, allotted: seq<Entry>, indices: seq<nat>)
    requires Distributes(env, nodes, allotted) && Within(indices, |nodes|)
    requires LeavesAt(allotted, |nodes| / 2, indices)
    ensures Leaves(env, EntriesAt(allotted, |nodes| / 2, indices)) == NodesAt(nodes, indices)
  {
    forall k | 0 <= k < |indices|
      ensures LeafOf(env, allotted[indices[k] - |nodes| / 2]) == nodes[indices[k]]
    {
      assert nodes[|nodes| / 2..][indices[k] - |nodes| / 2] == nodes[indices[k]];
    }
  }

  lemma EntriesDiffer(allotted: seq<Entry>, selected: seq<nat>, first: nat, indices: seq<nat>)
    requires Selects(allotted, selected) && Decreasing(indices)
    requires LeavesAt(allotted, first, indices)
    requires forall k :: 0 <= k < |indices| ==> indices[k] - first in selected
    ensures DistinctPairs(EntriesAt(allotted, first, indices))
  {
    forall j, k | 0 <= j < k < |indices|
      ensures PairOf(allotted[indices[j] - first]) != PairOf(allotted[indices[k] - first])
    {
      SelectedPairsDiffer(allotted, selected, indices[j] - first, indices[k] - first);
    }
  }

  /** The bundle's leaves are those of its entries, which are selected ones and have different pairs. */
  lemma BatchEntriesMatch(env: Host, nodes: seq<Node>, allotted: seq<Entry>, selected: seq<nat>)
    requires Distributes(env, nodes, allotted) && Selects(allotted, selected)
    ensures Selectable(nodes, selected) && Distinct(selected)
    ensures var entries := BatchEntries(env, nodes, allotted, selected);
            && |entries| == |selected|
            && Leaves(env, entries) == MultiProofFor(nodes, selected).ordered
            && DistinctPairs(entries)
            && forall e :: e in entries ==> exists l :: l in selected && l < |allotted| && e == allotted[l]
  {
    SelectionIsSound(env, nodes, allotted, selected);
    SortedLeaves(nodes, selected);
    SortedIndicesInRange(nodes, selected);
    var first, indices := |nodes| / 2, SortDesc(LeafIndices(nodes, selected));
    EntriesHaveLeaves(env, nodes, allotted, indices);
    EntriesDiffer(allotted, selected, first, indices);
    EntriesAreSelected(allotted, selected, first, indices);
  }

  lemma EntriesAreSelected(allotted: seq<Entry>, selected: seq<nat>, first: nat, indices: seq<nat>)
    requires LeavesAt(allotted, first, indices)
    requires forall k :: 0 <= k < |indices| ==> indices[k] - first in selected
    ensures forall e :: e in EntriesAt(allotted, first, indices) ==>
              exists l :: l in selected && l < |allotted| && e == allotted[l]
  {
    forall k | 0 <= k < |indices|
      ensures exists l :: l in selected && l < |allotted| && EntriesAt(allotted, first, indices)[k] == allotted[l]
    {
      assert indices[k] - first in selected;
    }
  }

  // ----- settling a covered batch

  lemma SettlesUnchanged(w: World, v: World, e: Entry)
    requires SameTerms(w, v)
    ensures Settles(w, e) <==> Settles(v, e)
  {
  }

  /** A claimable and covered batch settles exactly when every entry does. */
  lemma {:induction false} BatchSettlesExactly(w: World, entries: seq<Entry>)
    requires Inv(w) && Claimable(w, entries) && Covered(w, entries)
    ensures SettleAll(w, entries).Ok? <==> forall e :: e in entries ==> Settles(w, e)
    decreases entries
  {
    if entries != [] {
      FirstIsAvailable(w, entries);
      SettleKeepsInv(w, entries[0]);
      assert entries[0] in entries;
      if Settle(w, entries[0]).Ok? {
        var v := Settle(w, entries[0]).value;
        RestCovered(w, entries);
        BatchSettlesExactly(v, entries[1..]);
        forall e
          ensures Settles(w, e) <==> Settles(v, e)
        {
          SettlesUnchanged(w, v, e);
        }
        assert forall e :: e in entries <==> e == entries[0] || e in entries[1..];
      }
    }
  }

  // ----- the theorem

  /** The budget has room for a whole batch of unclaimed entries beside all granted ones. */
  lemma RoomForBatch(granted: seq<Entry>, claimed: set<Pair>, allotted: seq<Entry>, entries: seq<Entry>, t: Address)
    requires DistinctPairs(granted) && forall g :: g in granted ==> g in allotted && PairOf(g) in claimed
    requires DistinctPairs(entries) && forall e :: e in entries ==> e in allotted && PairOf(e) !in claimed
    ensures TotalOf(granted, t) + TotalOf(entries, t) <= Budget(allotted, t)
  {
    var all := granted + entries;
    forall j, k | 0 <= j < k < |all|
      ensures PairOf(all[j]) != PairOf(all[k])
    {
      assert all[j] in granted || all[j] in entries;
      assert j < |granted| ==> all[j] in granted;
      assert k >= |granted| ==> all[k] in entries;
    }
    SelectionWithinBudget(all, allotted, t);
    TotalOfAppend(granted, entries, t);
  }

  /** For every token, the contract was funded with what the tree allots of it. */
  ghost predicate Funded(w: World, allotted: seq<Entry>) {
    forall t :: Available(w, t) >= Budget(allotted, t)
  }

  /** Selected entries that can still be claimed are claimable and covered in a funded airdrop, after any run. */
  lemma FundedBatchIsCovered(env: Host, w: World, ops: seq<Op>, nodes: seq<Node>, allotted: seq<Entry>,
                             entries: seq<Entry>)
    requires Inv(w) && Along(Next(env), Admissible, w, ops) && Funded(w, allotted)
    requires Distributes(env, nodes, allotted) && Governed(w, nodes[0]) && AllApart(env, nodes, allotted, ops)
    requires DistinctPairs(entries)
    requires forall e :: e in entries ==>
               e in allotted && e.amount > 0 && PairOf(e) !in Exec(Next(env), w, ops).claimed
    ensures var v := Exec(Next(env), w, ops);
            Inv(v) && Governed(v, nodes[0]) && Claimable(v, entries) && Covered(v, entries)
  {
    var v, granted := Exec(Next(env), w, ops), AllGranted(env, w, ops);
    RunGrantsAllotted(env, w, ops, nodes, allotted, w.self);
    forall k | 0 <= k < |entries|
      ensures entries[k].amount > 0 && PairOf(entries[k]) !in v.claimed
      ensures var t := entries[k].token; FitsI128(Available(v, t)) && TotalOf(entries, t) <= Available(v, t)
    {
      assert entries[k] in entries;
      var t := entries[k].token;
      RunGrantsAllotted(env, w, ops, nodes, allotted, t);
      RoomForBatch(granted, v.claimed, allotted, entries, t);
      OwedNonNegative(v, t);
    }
  }

  lemma AcceptedBatchSettles(env: Host, w: World, entries: seq<Entry>, proof: seq<Node>, flags: seq<bool>)
    requires Inv(w) && ContextError(w) == None && entries != []
    requires Accepts(env.hash, Leaves(env, entries), proof, flags, w.root.value)
    requires Claimable(w, entries) && Covered(w, entries)
    ensures ClaimBatch(env, w, entries, proof, flags).Ok? <==> forall e :: e in entries ==> Settles(w, e)
  {
    ValidationExact(w, entries);
    BatchSettlesExactly(w, entries);
  }

  /** If the contract was funded with what the tree allots, then after any run every non-empty selection of unclaimed
      entries for different pairs can be claimed as one batch while claims are open: with the leaves in the
      generator's order and the generator's proof and flags, the batch succeeds exactly when no split overflows and no
      token refuses a payment. */
  lemma FundedBatchSucceeds(env: Host, w: World, ops: seq<Op>, nodes: seq<Node>, allotted: seq<Entry>,
                            selected: seq<nat>)
    requires Inv(w) && Along(Next(env), Admissible, w, ops) && Funded(w, allotted)
    requires Distributes(env, nodes, allotted) && Governed(w, nodes[0]) && AllApart(env, nodes, allotted, ops)
    requires |allotted| <= U32_MAX && Selects(allotted, selected) && selected != []
    requires forall l :: l in selected ==>
               allotted[l].amount > 0 && PairOf(allotted[l]) !in Exec(Next(env), w, ops).claimed
    ensures Selectable(nodes, selected)
    ensures var v, entries := Exec(Next(env), w, ops), BatchEntries(env, nodes, allotted, selected);
            var m := MultiProofFor(nodes, selected);
            ContextError(v) == None ==>
              (ClaimBatch(env, v, entries, m.proof, m.flags).Ok? <==> forall e :: e in entries ==> Settles(v, e))
  {
    var v, entries := Exec(Next(env), w, ops), BatchEntries(env, nodes, allotted, selected);
    TreeSize(env, nodes, allotted);
    BatchEntriesMatch(env, nodes, allotted, selected);
    forall e | e in entries
      ensures e in allotted && e.amount > 0 && PairOf(e) !in v.claimed
    {
      var l :| l in selected && l < |allotted| && e == allotted[l];
    }
    FundedBatchIsCovered(env, w, ops, nodes, allotted, entries);
    if ContextError(v) == None {
      var m := MultiProofFor(nodes, selected);
      GeneratedMultiProofAccepted(env.hash, nodes, selected);
      AcceptedBatchSettles(env, v, entries, m.proof, m.flags);
    }
  }
}
