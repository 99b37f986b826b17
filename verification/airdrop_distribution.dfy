/**
  The airdrop against the tree it distributes: over any run the claims granted under a tree's root are entries of that
  tree, each at most once, so they never exceed what the tree allots; and a contract that was funded with that much
  can honour every entry.
 */
module AirdropDistribution {
  import opened Wrappers
  import opened Sums
  import opened Runs
  import opened TokenLedger
  import opened Merkle
  import opened MerkleTree
  import opened MerkleSoundness
  import opened Airdrop
  import opened AirdropBatch
  import opened AirdropSafety

  // ----- what a tree allots

  function AllottedOf(t: Address): Entry -> int {
    (e: Entry) => if e.token == t && e.amount > 0 then e.amount else 0
  }

  /** The sum of the positive amounts of `t` in the tree. */
  ghost function Budget(allotted: seq<Entry>, t: Address): int {
    SumSeq(allotted, AllottedOf(t))
  }

  lemma BudgetWithout(allotted: seq<Entry>, t: Address, k: nat)
    requires k < |allotted|
    ensures Budget(allotted[..k] + allotted[k + 1..], t) == Budget(allotted, t) - AllottedOf(t)(allotted[k])
  {
    var f := AllottedOf(t);
    SumSeqAppend(allotted[..k], allotted[k + 1..], f);
    SumSeqAppend(allotted[..k], [allotted[k]] + allotted[k + 1..], f);
    assert ([allotted[k]] + allotted[k + 1..])[1..] == allotted[k + 1..];
    assert allotted == allotted[..k] + ([allotted[k]] + allotted[k + 1..]);
  }

  ghost predicate DistinctPairs(entries: seq<Entry>) {
    forall j, k :: 0 <= j < k < |entries| ==> PairOf(entries[j]) != PairOf(entries[k])
  }

  /** Entries of the tree for different pairs never add up to more than the budget. */
  lemma {:induction false} SelectionWithinBudget(entries: seq<Entry>, allotted: seq<Entry>, t: Address)
    requires DistinctPairs(entries)
    requires forall e :: e in entries ==> e in allotted
    ensures TotalOf(entries, t) <= Budget(allotted, t)
    decreases |entries|
  {
    SumSeqNonNegative(allotted, AllottedOf(t));
    if entries != [] {
      var n := |entries| - 1;
      assert entries[n] in entries;
      var k :| 0 <= k < |allotted| && allotted[k] == entries[n];
      var others := allotted[..k] + allotted[k + 1..];
      forall e | e in entries[..n]
        ensures e in others
      {
        var j :| 0 <= j < n && entries[..n][j] == e;
        assert e in entries && PairOf(e) != PairOf(entries[n]);
        var i :| 0 <= i < |allotted| && allotted[i] == e;
        assert others[if i < k then i else i - 1] == e;
      }
      SelectionWithinBudget(entries[..n], others, t);
      BudgetWithout(allotted, t, k);
    }
  }

  lemma {:induction false} TotalOfAppend(a: seq<Entry>, b: seq<Entry>, t: Address)
    ensures TotalOf(a + b, t) == TotalOf(a, t) + TotalOf(b, t)
    decreases |b|
  {
    if b == [] {
      assert a + b == a;
    } else {
      var n := |b| - 1;
      assert (a + b)[..|a + b| - 1] == a + b[..n];
      TotalOfAppend(a, b[..n], t);
    }
  }

  // ----- the tree behind the root

  /** The leaves of the tree are those of the allotted entries. */
  ghost predicate Distributes(env: Host, nodes: seq<Node>, allotted: seq<Entry>) {
    IsTree(env.hash, nodes) && nodes[|nodes| / 2..] == Leaves(env, allotted)
  }

  /** The leaf of `e` is not that of another allotted entry. */
  ghost predicate EncodedApart(env: Host, allotted: seq<Entry>, e: Entry) {
    forall k :: 0 <= k < |allotted| && LeafOf(env, e) == LeafOf(env, allotted[k]) ==> e == allotted[k]
  }

  /** What the hash and the leaf encoding must satisfy for the claims of one operation. */
  ghost predicate Apart(env: Host, nodes: seq<Node>, allotted: seq<Entry>, op: Op) {
    match op
    case OpClaim(e, path) =>
      && EncodedApart(env, allotted, e)
      && Separated(env.hash, nodes, LeafOf(env, e), ClimbPreimages(env.hash, LeafOf(env, e), path))
    case OpClaimBatch(entries, proof, flags) =>
      Run(env.hash, proof, flags, Start(Leaves(env, entries))).Some? ==>
        forall e :: e in entries ==>
          && EncodedApart(env, allotted, e)
          && Separated(env.hash, nodes, LeafOf(env, e),
                       RunPreimages(env.hash, proof, flags, Start(Leaves(env, entries))))
    case _ => true
  }

  lemma LeafIsAllotted(env: Host, nodes: seq<Node>, allotted: seq<Entry>, e: Entry)
    requires Distributes(env, nodes, allotted) && EncodedApart(env, allotted, e)
    requires LeafOf(env, e) in nodes[|nodes| / 2..]
    ensures e in allotted
  {
    var k :| 0 <= k < |Leaves(env, allotted)| && Leaves(env, allotted)[k] == LeafOf(env, e);
    assert e == allotted[k];
  }

  // ----- granted claims

  /** The entries that a step settles. */
  ghost function Granted(env: Host, w: World, op: Op): seq<Entry> {
    if Apply(env, w, op).Err? then
      []
    else
      match op
      case OpClaim(e, _) => [e]
      case OpClaimBatch(entries, _, _) => entries
      case _ => []
  }

  ghost function AllGranted(env: Host, w: World, ops: seq<Op>): seq<Entry>
    decreases ops
  {
    if ops == [] then [] else Granted(env, w, ops[0]) + AllGranted(env, Next(env)(w, ops[0]), ops[1..])
  }

  /** The root is `root` as long as claims are open. */
  ghost predicate Governed(w: World, root: Node) {
    w.initialized && (w.root == Some(root) || w.now > w.claimDeadline)
  }

  lemma {:induction false} SettleAllMarks(w: World, entries: seq<Entry>)
    requires ValidVesting(w.vesting) && Claimable(w, entries) && SettleAll(w, entries).Ok?
    ensures var v := SettleAll(w, entries).value;
            && SameTerms(w, v)
            && (forall e :: e in entries ==> PairOf(e) in v.claimed)
            && w.claimed <= v.claimed
    decreases entries
  {
    if entries != [] {
      SettleTakesAmount(w, entries[0], entries[0].token);
      var v := Settle(w, entries[0]).value;
      assert Claimable(v, entries[1..]);
      SettleAllMarks(v, entries[1..]);
      assert forall e :: e in entries ==> e == entries[0] || e in entries[1..];
    }
  }

  /** One root governs all claims: while claims are open it cannot be replaced. */
  lemma GovernedStep(env: Host, w: World, op: Op, root: Node)
    requires Inv(w) && Governed(w, root)
    ensures Governed(Next(env)(w, op), root)
  {
    var r := Apply(env, w, op);
    if r.Ok? {
      match op
      case OpClaim(e, _) =>
        SettleTakesAmount(w, e, e.token);
      case OpClaimBatch(entries, _, _) =>
        ValidationExact(w, entries);
        SettleAllMarks(w, entries);
      case OpRelease(p) =>
        ReleaseOutcome(w, p);
      case _ =>
    }
  }

  /** Whatever a step grants was allotted, was not claimed before, and is claimed afterwards. */
  lemma GrantedIsAllotted(env: Host, w: World, op: Op, nodes: seq<Node>, allotted: seq<Entry>)
    requires Inv(w) && Distributes(env, nodes, allotted) && Governed(w, nodes[0]) && Apart(env, nodes, allotted, op)
    ensures var granted := Granted(env, w, op);
            && Claimable(w, granted)
            && forall e :: e in granted ==> e in allotted && PairOf(e) in Next(env)(w, op).claimed
  {
    if Apply(env, w, op).Ok? {
      match op
      case OpClaim(e, path) =>
        SingleIsAllotted(env, nodes, allotted, e, path);
        SingleIsMarked(env, w, e, path);
      case OpClaimBatch(entries, proof, flags) =>
        BatchIsAllotted(env, nodes, allotted, entries, proof, flags);
        BatchIsMarked(env, w, entries, proof, flags);
      case _ =>
    }
  }

  lemma SingleIsMarked(env: Host, w: World, e: Entry, path: seq<Node>)
    requires ValidVesting(w.vesting) && Claim(env, w, e, path).Ok?
    ensures Claimable(w, [e]) && PairOf(e) in Claim(env, w, e, path).value.claimed
  {
    SettleTakesAmount(w, e, e.token);
  }

  lemma BatchIsMarked(env: Host, w: World, entries: seq<Entry>, proof: seq<Node>, flags: seq<bool>)
    requires ValidVesting(w.vesting) && ClaimBatch(env, w, entries, proof, flags).Ok?
    ensures Claimable(w, entries)
    ensures forall e :: e in entries ==> PairOf(e) in ClaimBatch(env, w, entries, proof, flags).value.claimed
  {
    ValidationExact(w, entries);
    SettleAllMarks(w, entries);
  }

  lemma SingleIsAllotted(env: Host, nodes: seq<Node>, allotted: seq<Entry>, e: Entry, path: seq<Node>)
    requires Distributes(env, nodes, allotted) && Apart(env, nodes, allotted, OpClaim(e, path))
    requires Climb(env.hash, LeafOf(env, e), path) == nodes[0]
    ensures e in allotted
  {
    SingleProofSound(env.hash, nodes, LeafOf(env, e), path);
    var j :| |nodes| / 2 <= j < |nodes| && LeafOf(env, e) == nodes[j];
    assert nodes[|nodes| / 2..][j - |nodes| / 2] == nodes[j];
    LeafIsAllotted(env, nodes, allotted, e);
  }

  lemma BatchIsAllotted(env: Host, nodes: seq<Node>, allotted: seq<Entry>, entries: seq<Entry>, proof: seq<Node>,
                        flags: seq<bool>)
    requires Distributes(env, nodes, allotted) && Apart(env, nodes, allotted, OpClaimBatch(entries, proof, flags))
    requires Accepts(env.hash, Leaves(env, entries), proof, flags, nodes[0])
    ensures forall e :: e in entries ==> e in allotted
  {
    var leaves := Leaves(env, entries);
    forall leaf | leaf in leaves
      ensures Separated(env.hash, nodes, leaf, RunPreimages(env.hash, proof, flags, Start(leaves)))
    {
      var k :| 0 <= k < |leaves| && leaves[k] == leaf;
      assert entries[k] in entries;
    }
    MultiProofSound(env.hash, nodes, leaves, proof, flags);
    forall e | e in entries
      ensures e in allotted
    {
      var k :| 0 <= k < |entries| && entries[k] == e;
      assert leaves[k] in leaves;
      LeafIsAllotted(env, nodes, allotted, e);
    }
  }

  // ----- what is available

  lemma {:induction false} SettleAllTakes(w: World, entries: seq<Entry>, t: Address)
    requires ValidVesting(w.vesting) && Claimable(w, entries) && SettleAll(w, entries).Ok?
    ensures Available(SettleAll(w, entries).value, t) >= Available(w, t) - TotalOf(entries, t)
    decreases entries
  {
    if entries != [] {
      var v := Settle(w, entries[0]).value;
      SettleTakesAmount(w, entries[0], t);
      assert Claimable(v, entries[1..]);
      SettleAllTakes(v, entries[1..], t);
      TotalOfHead(entries, t);
    }
  }

  /** Nothing but granted claims reduces what is available, and they do so by no more than their amounts. */
  lemma StepTakesGranted(env: Host, w: World, op: Op, t: Address)
    requires Inv(w) && Admissible(w, op)
    ensures Available(Next(env)(w, op), t) >= Available(w, t) - TotalOf(Granted(env, w, op), t)
  {
    if Apply(env, w, op).Ok? {
      match op
      case OpClaim(e, _) =>
        SettleTakesAmount(w, e, t);
        assert [e][..0] == [];
      case OpClaimBatch(entries, _, _) =>
        ValidationExact(w, entries);
        SettleAllTakes(w, entries, t);
      case OpRelease(p) =>
        assert (p.0, p.1) == p;
        ReleaseMovesOwed(w, p, w.self, t);
      case OpTransfer(token, from, to, amount) =>
        TransferMoves(RefusedBy(w, token), WalletsOf(w, token), from, to, amount);
        TransferKeepsOthers(w, token, from, to, amount, t);
      case _ =>
    }
  }

  lemma TransferKeepsOthers(w: World, token: Address, from: Address, to: Address, amount: int, t: Address)
    requires Inv(w) && from != w.self && Transfer(RefusedBy(w, token), WalletsOf(w, token), from, to, amount).Some?
    ensures var moved := Transfer(RefusedBy(w, token), WalletsOf(w, token), from, to, amount).value;
            Available(w.(balances := w.balances[token := moved]), t) >= Available(w, t)
  {
  }

  // ----- over runs

  ghost predicate AllApart(env: Host, nodes: seq<Node>, allotted: seq<Entry>, ops: seq<Op>) {
    forall k :: 0 <= k < |ops| ==> Apart(env, nodes, allotted, ops[k])
  }

  /** All claims granted over a run are entries of the tree for different pairs, all newly claimed, and the run takes
      no more than their amounts out of what is available. */
  lemma {:induction false} RunGrantsAllotted(env: Host, w: World, ops: seq<Op>, nodes: seq<Node>,
                                             allotted: seq<Entry>, t: Address)
    requires Inv(w) && Along(Next(env), Admissible, w, ops)
    requires Distributes(env, nodes, allotted) && Governed(w, nodes[0]) && AllApart(env, nodes, allotted, ops)
    ensures var granted, end := AllGranted(env, w, ops), Exec(Next(env), w, ops);
            && Claimable(w, granted)
            && (forall e :: e in granted ==> e in allotted && PairOf(e) in end.claimed)
            && Available(end, t) >= Available(w, t) - TotalOf(granted, t)
            && Inv(end) && Governed(end, nodes[0]) && end.self == w.self
    decreases ops
  {
    if ops != [] {
      var v, first, rest := Next(env)(w, ops[0]), Granted(env, w, ops[0]), ops[1..];
      StepKeepsInv(env, w, ops[0]);
      GovernedStep(env, w, ops[0], nodes[0]);
      GrantedIsAllotted(env, w, ops[0], nodes, allotted);
      StepTakesGranted(env, w, ops[0], t);
      SchedulesAreNeverOverwritten(env, v, rest);
      RunGrantsAllotted(env, v, rest, nodes, allotted, t);
      var later := AllGranted(env, v, rest);
      ClaimableAppend(w, v, first, later);
      TotalOfAppend(first, later, t);
    }
  }

  lemma ClaimableAppend(w: World, v: World, first: seq<Entry>, later: seq<Entry>)
    requires Claimable(w, first) && Claimable(v, later) && w.claimed <= v.claimed
    requires forall e :: e in first ==> PairOf(e) in v.claimed
    ensures Claimable(w, first + later)
  {
    var all := first + later;
    forall j, k | 0 <= j < k < |all|
      ensures PairOf(all[j]) != PairOf(all[k])
    {
      assert j < |first| ==> all[j] in first;
    }
  }

  /** Over every run under a tree's root, what has been paid or locked of a token never exceeds what the tree allots of
      it: neither the sum of the granted claims, nor what has gone from the contract's available balance. */
  lemma NeverMoreThanAllotted(env: Host, w: World, ops: seq<Op>, nodes: seq<Node>, allotted: seq<Entry>, t: Address)
    requires Inv(w) && Along(Next(env), Admissible, w, ops)
    requires Distributes(env, nodes, allotted) && Governed(w, nodes[0]) && AllApart(env, nodes, allotted, ops)
    ensures TotalOf(AllGranted(env, w, ops), t) <= Budget(allotted, t)
    ensures Available(w, t) - Available(Exec(Next(env), w, ops), t) <= Budget(allotted, t)
  {
    RunGrantsAllotted(env, w, ops, nodes, allotted, t);
    SelectionWithinBudget(AllGranted(env, w, ops), allotted, t);
  }

  /** An unclaimed entry fits into the budget beside all granted ones. */
  lemma RoomForUnclaimed(granted: seq<Entry>, claimed: set<Pair>, allotted: seq<Entry>, e: Entry)
    requires DistinctPairs(granted) && forall g :: g in granted ==> g in allotted && PairOf(g) in claimed
    requires e in allotted && PairOf(e) !in claimed
    ensures TotalOf(granted, e.token) + e.amount <= Budget(allotted, e.token)
  {
    var all := granted + [e];
    forall j, k | 0 <= j < k < |all|
      ensures PairOf(all[j]) != PairOf(all[k])
    {
      assert granted[j] in granted;
    }
    SelectionWithinBudget(all, allotted, e.token);
    TotalOfAppend(granted, [e], e.token);
    assert [e][..0] == [];
  }

  /** A claim with a valid proof, of an available amount: only the split and the token can make it fail. */
  lemma ValidClaimSettles(env: Host, w: World, e: Entry, path: seq<Node>)
    requires Inv(w) && ContextError(w) == None && Climb(env.hash, LeafOf(env, e), path) == w.root.value
    requires e.amount > 0 && e.recipient != w.self
    requires PairOf(e) !in w.claimed && e.amount <= Available(w, e.token)
    ensures Claim(env, w, e, path).Ok? <==> Settles(w, e)
  {
    OwedNonNegative(w, e.token);
    SettleKeepsInv(w, e);
  }

  /** The proof that the tree generates for an allotted entry. */
  function TreeProof(nodes: seq<Node>, k: nat): seq<Node>
    requires |nodes| % 2 == 1 && |nodes| / 2 + k < |nodes|
  {
    ProofFrom(nodes, |nodes| / 2 + k)
  }

  lemma AllottedLeafClimbs(env: Host, nodes: seq<Node>, allotted: seq<Entry>, k: nat)
    requires Distributes(env, nodes, allotted) && k < |allotted|
    ensures |nodes| % 2 == 1 && |nodes| / 2 + k < |nodes|
    ensures Climb(env.hash, LeafOf(env, allotted[k]), TreeProof(nodes, k)) == nodes[0]
  {
    assert |nodes[|nodes| / 2..]| == |allotted|;
    assert nodes[|nodes| / 2..][k] == nodes[|nodes| / 2 + k];
    TreeProofClimbs(env.hash, nodes, |nodes| / 2 + k);
  }

  /** If the contract was funded with what the tree allots of a token, then after any run every allotted entry whose
      pair is unclaimed can still be claimed while claims are open, with the proof that the tree generates, unless its
      split overflows or the token refuses the payment. */
  lemma FundedClaimsSucceed(env: Host, w: World, ops: seq<Op>, nodes: seq<Node>, allotted: seq<Entry>, k: nat)
    requires Inv(w) && Along(Next(env), Admissible, w, ops)
    requires Distributes(env, nodes, allotted) && Governed(w, nodes[0]) && AllApart(env, nodes, allotted, ops)
    requires k < |allotted| && allotted[k].amount > 0 && allotted[k].recipient != w.self
    requires Available(w, allotted[k].token) >= Budget(allotted, allotted[k].token)
    ensures var e, v := allotted[k], Exec(Next(env), w, ops);
            && |nodes| % 2 == 1 && |nodes| / 2 + k < |nodes|
            && (ContextError(v) == None && PairOf(e) !in v.claimed ==>
                  (Claim(env, v, e, TreeProof(nodes, k)).Ok? <==> Settles(v, e)))
  {
    var e, v := allotted[k], Exec(Next(env), w, ops);
    AllottedLeafClimbs(env, nodes, allotted, k);
    RunGrantsAllotted(env, w, ops, nodes, allotted, e.token);
    if ContextError(v) == None && PairOf(e) !in v.claimed {
      RoomForUnclaimed(AllGranted(env, w, ops), v.claimed, allotted, e);
      ValidClaimSettles(env, v, e, TreeProof(nodes, k));
    }
  }
}
