/**
  A batch is a sequence of single claims: the same new state, with the sibling lists contained in the multi-proof, and
  an up-front check of the totals that stands for the checks of the single claims.
 */
module AirdropBatch {
  import opened Wrappers
  import opened Arith
  import opened Sums
  import opened TokenLedger
  import opened FixedMath
  import opened Merkle
  import opened Airdrop

  // ----- one claim

  /** Nothing but claims, schedules, locked totals and balances differs. */
  ghost predicate SameTerms(w: World, v: World) {
    && v.self == w.self && v.initialized == w.initialized && v.root == w.root
    && v.claimDeadline == w.claimDeadline && v.vesting == w.vesting && v.now == w.now
    && v.refused == w.refused
  }

  lemma LiquidWithinAmount(w: World, amount: i128)
    requires ValidVesting(w.vesting) && amount > 0 && Liquid(w, amount).Some?
    ensures 0 <= Liquid(w, amount).value <= amount
    ensures amount - Liquid(w, amount).value > 0 ==> w.vesting.Some? && w.vesting.value.durationLedgers > 0
  {
    if w.vesting.Some? {
      BpsFeeWithinAmount(amount, w.vesting.value.initialUnlockBps);
    }
  }

  /** A payment takes what it pays out of what is available, unless it goes to the contract itself. */
  lemma PayTakes(w: World, to: Address, token: Address, amount: int, t: Address)
    requires Pay(w, to, token, amount).Ok?
    ensures var v := Pay(w, to, token, amount).value;
            && v == w.(balances := v.balances)
            && Available(v, t) == Available(w, t) - When(t == token && to != w.self, amount)
  {
  }

  lemma LockTakes(w: World, e: Entry, locked: int, t: Address)
    requires w.vesting.Some?
    ensures Available(Lock(w, e.recipient, e.token, locked), t) == Available(w, t) - When(t == e.token, locked)
  {
  }

  /** What is paid out and what is locked add up to the amount, so a claim takes exactly its amount out of what is
      available; only a claim to the contract itself keeps the part paid out. */
  lemma SettleTakesAmount(w: World, e: Entry, t: Address)
    requires ValidVesting(w.vesting) && e.amount > 0
    ensures Settle(w, e).Ok? ==>
              var v := Settle(w, e).value;
              && SameTerms(w, v)
              && v.claimed == w.claimed + {PairOf(e)}
              && Available(w, t) - AskedOf(t)(e) <= Available(v, t) <= Available(w, t)
              && (e.recipient != w.self ==> Available(v, t) == Available(w, t) - AskedOf(t)(e))
  {
    if Settle(w, e).Ok? {
      LiquidWithinAmount(w, e.amount);
      var liquid := Liquid(w, e.amount).value;
      var locked := e.amount - liquid;
      var marked := w.(claimed := w.claimed + {PairOf(e)});
      assert Available(marked, t) == Available(w, t);
      var kept := marked;
      if locked > 0 {
        LockTakes(marked, e, locked, t);
        kept := Lock(marked, e.recipient, e.token, locked);
      }
      assert Settle(w, e) == if liquid > 0 then Pay(kept, e.recipient, e.token, liquid) else Ok(kept);
      if liquid > 0 {
        PayTakes(kept, e.recipient, e.token, liquid, t);
      }
    }
  }

  // ----- what the validation of a batch establishes

  predicate Claimable(w: World, entries: seq<Entry>) {
    && (forall k :: 0 <= k < |entries| ==> entries[k].amount > 0 && PairOf(entries[k]) !in w.claimed)
    && (forall j, k :: 0 <= j < k < |entries| ==> PairOf(entries[j]) != PairOf(entries[k]))
  }

  /** The contract has, beyond what is locked, the total asked for of every token. */
  predicate Covered(w: World, entries: seq<Entry>) {
    forall k :: 0 <= k < |entries| ==>
      var t := entries[k].token;
      FitsI128(Available(w, t)) && TotalOf(entries, t) <= Available(w, t)
  }

  lemma {:induction false} TotalOfHead(entries: seq<Entry>, t: Address)
    requires entries != []
    ensures TotalOf(entries, t) == AskedOf(t)(entries[0]) + TotalOf(entries[1..], t)
  {
    var n := |entries| - 1;
    if n > 0 {
      TotalOfHead(entries[..n], t);
      assert entries[..n][1..] == entries[1..][..n - 1];
    }
  }

  /** With positive amounts the totals only grow. */
  lemma {:induction false} PrefixTotal(entries: seq<Entry>, t: Address, i: nat)
    requires forall k :: 0 <= k < |entries| ==> entries[k].amount > 0
    requires i <= |entries|
    ensures 0 <= TotalOf(entries[..i], t) <= TotalOf(entries, t)
    ensures forall k :: 0 <= k < |entries| && entries[k].token == t ==> entries[k].amount <= TotalOf(entries, t)
  {
    if i == |entries| {
      assert entries[..i] == entries;
      if i > 0 {
        PrefixTotal(entries[..i - 1], t, i - 1);
      }
    } else {
      var n := |entries| - 1;
      assert entries[..i] == entries[..n][..i];
      PrefixTotal(entries[..n], t, i);
    }
  }

  lemma {:induction false} NoEntryError(w: World, entries: seq<Entry>, i: nat)
    requires i <= |entries|
    ensures FirstEntryError(w, entries, i) == None <==>
              forall k :: i <= k < |entries| ==> EntryError(w, entries, k) == None
    decreases |entries| - i
  {
    if i < |entries| {
      NoEntryError(w, entries, i + 1);
    }
  }

  lemma {:induction false} NoShortfall(w: World, entries: seq<Entry>, i: nat)
    requires i <= |entries|
    ensures FirstShortfall(w, entries, i) == None <==>
              forall k :: i <= k < |entries| ==>
                var t := entries[k].token;
                FitsI128(Available(w, t)) && TotalOf(entries, t) <= Available(w, t)
    decreases |entries| - i
  {
    if i < |entries| {
      NoShortfall(w, entries, i + 1);
    }
  }

  lemma EntryValid(w: World, entries: seq<Entry>, i: nat)
    requires i < |entries|
    ensures EntryError(w, entries, i) == None <==>
              && entries[i].amount > 0 && PairOf(entries[i]) !in w.claimed
              && (forall j :: 0 <= j < i ==> PairOf(entries[j]) != PairOf(entries[i]))
              && FitsI128(TotalOf(entries[..i + 1], entries[i].token))
  {
    assert forall j :: 0 <= j < i ==> entries[..i][j] == entries[j];
  }

  /** Validation passes exactly when the batch is claimable and covered. */
  lemma ValidationExact(w: World, entries: seq<Entry>)
    ensures FirstEntryError(w, entries, 0) == None && FirstShortfall(w, entries, 0) == None <==>
              Claimable(w, entries) && Covered(w, entries)
  {
    NoEntryError(w, entries, 0);
    NoShortfall(w, entries, 0);
    forall i | 0 <= i < |entries|
      ensures EntryError(w, entries, i) == None ==> entries[i].amount > 0
      ensures Claimable(w, entries) && Covered(w, entries) ==> EntryError(w, entries, i) == None
    {
      EntryValid(w, entries, i);
      if Claimable(w, entries) && Covered(w, entries) {
        PrefixTotal(entries, entries[i].token, i + 1);
      }
    }
    if FirstEntryError(w, entries, 0) == None {
      forall i | 0 <= i < |entries|
        ensures entries[i].amount > 0 && PairOf(entries[i]) !in w.claimed
        ensures forall j :: 0 <= j < i ==> PairOf(entries[j]) != PairOf(entries[i])
      {
        EntryValid(w, entries, i);
      }
    }
  }

  // ----- the sequence of single claims

  function ClaimAll(env: Host, w: World, entries: seq<Entry>, proofs: seq<seq<Node>>): Result<World, AirdropError>
    requires |proofs| == |entries|
    decreases entries
  {
    if entries == [] then
      Ok(w)
    else
      match Claim(env, w, entries[0], proofs[0])
      case Err(error) => Err(error)
      case Ok(v) => ClaimAll(env, v, entries[1..], proofs[1..])
  }

  /** Claims are open and every entry has a valid proof. */
  ghost predicate Proved(env: Host, w: World, entries: seq<Entry>, proofs: seq<seq<Node>>) {
    && ContextError(w) == None
    && |proofs| == |entries|
    && forall k :: 0 <= k < |entries| ==> Climb(env.hash, LeafOf(env, entries[k]), proofs[k]) == w.root.value
  }

  ghost predicate RecipientsOutside(w: World, entries: seq<Entry>) {
    forall k :: 0 <= k < |entries| ==> entries[k].recipient != w.self
  }

  /** After the first claim the rest of the batch is still claimable and covered. */
  lemma RestCovered(w: World, entries: seq<Entry>)
    requires ValidVesting(w.vesting) && entries != []
    requires Claimable(w, entries) && Covered(w, entries)
    requires Settle(w, entries[0]).Ok?
    ensures var v := Settle(w, entries[0]).value;
            && SameTerms(w, v)
            && Claimable(v, entries[1..]) && Covered(v, entries[1..])
  {
    var v, rest := Settle(w, entries[0]).value, entries[1..];
    SettleTakesAmount(w, entries[0], entries[0].token);
    forall k | 0 <= k < |rest|
      ensures FitsI128(Available(v, rest[k].token)) && TotalOf(rest, rest[k].token) <= Available(v, rest[k].token)
    {
      var t := rest[k].token;
      assert entries[k + 1].token == t;
      SettleTakesAmount(w, entries[0], t);
      TotalOfHead(entries, t);
      PrefixTotal(rest, t, 0);
    }
  }

  lemma FirstIsAvailable(w: World, entries: seq<Entry>)
    requires entries != [] && Claimable(w, entries) && Covered(w, entries)
    ensures EnsureAvailable(w, entries[0].token, entries[0].amount) == None
  {
    PrefixTotal(entries, entries[0].token, 0);
  }

  /** Claiming a claimable and covered batch one by one is settling it in one go: no single check fails. */
  lemma {:induction false} CoveredBatchClaims(env: Host, w: World, entries: seq<Entry>, proofs: seq<seq<Node>>)
    requires ValidVesting(w.vesting) && Proved(env, w, entries, proofs)
    requires RecipientsOutside(w, entries) && Claimable(w, entries) && Covered(w, entries)
    ensures ClaimAll(env, w, entries, proofs) == SettleAll(w, entries)
    decreases entries
  {
    if entries != [] {
      FirstIsAvailable(w, entries);
      if Settle(w, entries[0]).Ok? {
        RestCovered(w, entries);
        CoveredBatchClaims(env, Settle(w, entries[0]).value, entries[1..], proofs[1..]);
      }
    }
  }

  /** Conversely, single claims that all succeed are claimable and covered, and none pays the contract itself. */
  lemma {:induction false} ClaimsAreCovered(env: Host, w: World, entries: seq<Entry>, proofs: seq<seq<Node>>)
    requires ValidVesting(w.vesting) && Proved(env, w, entries, proofs)
    requires ClaimAll(env, w, entries, proofs).Ok?
    ensures RecipientsOutside(w, entries) && Claimable(w, entries) && Covered(w, entries)
    decreases entries
  {
    if entries != [] {
      var v := Settle(w, entries[0]).value;
      SettleTakesAmount(w, entries[0], entries[0].token);
      ClaimsAreCovered(env, v, entries[1..], proofs[1..]);
      ClaimableFromRest(w, entries, v);
      forall k | 0 <= k < |entries|
        ensures var t := entries[k].token; FitsI128(Available(w, t)) && TotalOf(entries, t) <= Available(w, t)
      {
        CoveredByFirst(w, entries, v, k);
      }
    }
  }

  lemma ClaimableFromRest(w: World, entries: seq<Entry>, v: World)
    requires entries != [] && v.self == w.self && v.claimed == w.claimed + {PairOf(entries[0])}
    requires entries[0].amount > 0 && PairOf(entries[0]) !in w.claimed && entries[0].recipient != w.self
    requires RecipientsOutside(v, entries[1..]) && Claimable(v, entries[1..])
    ensures RecipientsOutside(w, entries) && Claimable(w, entries)
  {
    assert forall k :: 0 < k < |entries| ==> entries[k] == entries[1..][k - 1];
  }

  lemma CoveredByFirst(w: World, entries: seq<Entry>, v: World, k: nat)
    requires ValidVesting(w.vesting) && k < |entries|
    requires entries[0].amount > 0 && entries[0].recipient != w.self && Settle(w, entries[0]) == Ok(v)
    requires EnsureAvailable(w, entries[0].token, entries[0].amount) == None
    requires Covered(v, entries[1..])
    ensures var t := entries[k].token; FitsI128(Available(w, t)) && TotalOf(entries, t) <= Available(w, t)
  {
    var rest, t := entries[1..], entries[k].token;
    SettleTakesAmount(w, entries[0], t);
    TotalOfHead(entries, t);
    assert k > 0 ==> rest[k - 1] == entries[k];
    if forall j :: 0 <= j < |rest| ==> rest[j].token != t {
      NotAsked(rest, t);
    }
  }

  lemma {:induction false} NotAsked(entries: seq<Entry>, t: Address)
    requires forall k :: 0 <= k < |entries| ==> entries[k].token != t
    ensures TotalOf(entries, t) == 0
  {
    if entries != [] {
      NotAsked(entries[..|entries| - 1], t);
    }
  }

  // ----- the equivalence

  /** The sibling lists contained in a multi-proof for the entries. */
  function SingleProofs(env: Host, entries: seq<Entry>, proof: seq<Node>, flags: seq<bool>, root: Node)
    : seq<seq<Node>>
    requires Accepts(env.hash, Leaves(env, entries), proof, flags, root)
  {
    seq(|entries|, k requires 0 <= k < |entries| => SingleProof(env.hash, Leaves(env, entries), proof, flags, root, k))
  }

  /** Claiming the entries one by one, each with the sibling list contained in the multi-proof, reaches a new state
      exactly when the batch reaches it and no recipient is the contract, which cannot authorise a single claim. So
      the up-front check of the totals passes whenever all single checks do. */
  lemma BatchIsSequenceOfClaims(env: Host, w: World, entries: seq<Entry>, proof: seq<Node>, flags: seq<bool>)
    requires ValidVesting(w.vesting) && w.root.Some?
    requires Accepts(env.hash, Leaves(env, entries), proof, flags, w.root.value)
    ensures var proofs := SingleProofs(env, entries, proof, flags, w.root.value);
            forall v :: ClaimAll(env, w, entries, proofs) == Ok(v) <==>
                          ClaimBatch(env, w, entries, proof, flags) == Ok(v) && RecipientsOutside(w, entries)
  {
    var proofs := SingleProofs(env, entries, proof, flags, w.root.value);
    MultiProofImpliesSingleProofs(env.hash, Leaves(env, entries), proof, flags, w.root.value);
    ValidationExact(w, entries);
    if ContextError(w) == None {
      assert Proved(env, w, entries, proofs);
      if ClaimAll(env, w, entries, proofs).Ok? {
        ClaimsAreCovered(env, w, entries, proofs);
      }
      if RecipientsOutside(w, entries) && Claimable(w, entries) && Covered(w, entries) {
        CoveredBatchClaims(env, w, entries, proofs);
      }
    } else {
      assert ClaimAll(env, w, entries, proofs).Err?;
    }
  }
}
