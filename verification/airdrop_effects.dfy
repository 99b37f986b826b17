/**
  What the entry points of the airdrop require and do, in terms of the stored configuration and amounts alone: when a
  claim succeeds, how it is split between payment and vesting, and how vesting follows the straight line.
 */
module AirdropEffects {
  import opened Wrappers
  import opened Arith
  import opened Sums
  import opened TokenLedger
  import opened FixedMath
  import opened Merkle
  import opened Airdrop
  import opened AirdropBatch
  import opened AirdropSafety
  import opened AirdropDistribution
  import opened AirdropFunded

  // ----- setting up

  /** The airdrop is initialised exactly once, with a configuration that pays at most everything at once and lets
      what it locks vest over at least one ledger. */
  lemma InitializeExactly(w: World, claimDeadline: u32, vesting: Option<VestingConfig>)
    ensures Initialize(w, claimDeadline, vesting).Ok? <==>
              && !w.initialized
              && (match vesting
                  case None => true
                  case Some(cfg) =>
                    cfg.initialUnlockBps == 10_000 || (cfg.initialUnlockBps < 10_000 && cfg.durationLedgers >= 1))
    ensures Initialize(w, claimDeadline, vesting).Ok? ==>
              Initialize(w, claimDeadline, vesting).value
              == w.(initialized := true, claimDeadline := claimDeadline,
                    vesting := if vesting == None then w.vesting else vesting)
  {
  }

  /** Why the configuration or a root is refused. */
  lemma SetupRefusals(w: World, claimDeadline: u32, vesting: Option<VestingConfig>, root: Node)
    ensures var r := Initialize(w, claimDeadline, vesting);
            && (r == Err(AlreadyInitialized) <==> w.initialized)
            && (r.Err? && !w.initialized ==> r == Err(InvalidVestingConfig))
    ensures var r := SetRoot(w, root);
            && (r == Err(NotInitialized) <==> !w.initialized)
            && (r.Err? && w.initialized ==> r == Err(RoundActive))
  {
  }

  /** A root can be set unless there is one and claims are still open. */
  lemma SetRootExactly(w: World, root: Node)
    ensures SetRoot(w, root).Ok? <==> w.initialized && (w.root.Some? ==> w.claimDeadline < w.now)
    ensures SetRoot(w, root).Ok? ==> SetRoot(w, root).value == w.(root := Some(root))
  {
  }

  // ----- claims

  /** The part of a claim that is paid at once: everything without vesting, and otherwise the unlocked part, in basis
      points, rounded down. */
  ghost function PaidAtOnce(w: World, amount: int): int {
    match w.vesting
    case None => amount
    case Some(cfg) => amount * cfg.initialUnlockBps / 10_000
  }

  /** The product in the split fits `i128`. */
  ghost predicate SplitFits(w: World, amount: int) {
    match w.vesting
    case None => true
    case Some(cfg) => amount * cfg.initialUnlockBps <= I128_MAX
  }

  /** Neither the contract nor `a` is refused by `token`. */
  ghost predicate Accepted(w: World, token: Address, a: Address) {
    token in w.refused ==> w.self !in w.refused[token] && a !in w.refused[token]
  }

  lemma LiquidIsPaidAtOnce(w: World, amount: i128)
    requires ValidVesting(w.vesting) && amount > 0
    ensures Liquid(w, amount) == if SplitFits(w, amount) then Some(PaidAtOnce(w, amount)) else None
    ensures SplitFits(w, amount) ==> 0 <= PaidAtOnce(w, amount) <= amount
  {
    if w.vesting.Some? {
      BpsFeeIsExact(amount, w.vesting.value.initialUnlockBps);
    }
    if Liquid(w, amount).Some? {
      LiquidWithinAmount(w, amount);
    }
  }

  lemma SettlesExactly(w: World, e: Entry)
    requires ValidVesting(w.vesting) && e.amount > 0
    ensures Settles(w, e) <==>
              && SplitFits(w, e.amount)
              && (PaidAtOnce(w, e.amount) > 0 ==> Accepted(w, e.token, e.recipient))
  {
    LiquidIsPaidAtOnce(w, e.amount);
  }

  /** A single claim succeeds exactly while claims are open, for a recipient other than the contract, a positive
      amount, a pair that was not claimed, and a valid proof, if the contract holds the amount beyond what is locked,
      the split fits, and the part paid at once is not refused. */
  lemma ClaimExactly(env: Host, w: World, e: Entry, path: seq<Node>)
    requires Inv(w)
    ensures Claim(env, w, e, path).Ok? <==>
              && w.initialized && w.root.Some? && w.now <= w.claimDeadline
              && e.recipient != w.self && e.amount > 0
              && (e.recipient, e.token) !in w.claimed
              && Climb(env.hash, env.leaf(e.recipient, e.token, e.amount), path) == w.root.value
              && Get(w.locked, e.token) + e.amount <= Get(WalletsIn(w.balances, e.token), w.self)
              && SplitFits(w, e.amount)
              && (PaidAtOnce(w, e.amount) > 0 ==> Accepted(w, e.token, e.recipient))
  {
    OwedNonNegative(w, e.token);
    if e.amount > 0 && PairOf(e) !in w.claimed && e.amount <= Available(w, e.token) {
      SettleKeepsInv(w, e);
      SettlesExactly(w, e);
    }
  }

  /** Claims are open. */
  ghost predicate Open(w: World) {
    w.initialized && w.root.Some? && w.now <= w.claimDeadline
  }

  /** The error that a closed airdrop gives to every claim and batch. */
  ghost function Closed(w: World): AirdropError {
    if !w.initialized then NotInitialized else if w.root == None then RootNotSet else ClaimWindowClosed
  }

  /** Why a single claim is refused, in the order of the checks. */
  lemma ClaimRefusals(env: Host, w: World, e: Entry, path: seq<Node>)
    requires Inv(w)
    ensures var r, mine := Claim(env, w, e, path), Open(w) && e.recipient != w.self;
            var valid := Climb(env.hash, env.leaf(e.recipient, e.token, e.amount), path);
            var unclaimed := mine && e.amount > 0 && (e.recipient, e.token) !in w.claimed;
            var enough := Get(w.locked, e.token) + e.amount <= Get(WalletsIn(w.balances, e.token), w.self);
            && (!Open(w) ==> r == Err(Closed(w)))
            && (r == Err(AuthTrap) <==> Open(w) && e.recipient == w.self)
            && (r == Err(InvalidAmount) <==> mine && e.amount <= 0)
            && (r == Err(AlreadyClaimed) <==> mine && e.amount > 0 && (e.recipient, e.token) in w.claimed)
            && (r == Err(InvalidProof) <==> unclaimed && valid != w.root.value)
            && (r == Err(InsufficientBalance) <==> unclaimed && valid == w.root.value && !enough)
            && (r == Err(ArithmeticOverflow) <==>
                  unclaimed && valid == w.root.value && enough && !SplitFits(w, e.amount))
            && (r == Err(TokenTrap) <==>
                  && unclaimed && valid == w.root.value && enough && SplitFits(w, e.amount)
                  && PaidAtOnce(w, e.amount) > 0 && !Accepted(w, e.token, e.recipient))
  {
    OwedNonNegative(w, e.token);
    if e.amount > 0 && e.amount <= Available(w, e.token) {
      SettleIsPayment(w, e);
      LiquidIsPaidAtOnce(w, e.amount);
      if SplitFits(w, e.amount) {
        PayMoves(Kept(w, e, e.amount - PaidAtOnce(w, e.amount)), e.recipient, e.token, PaidAtOnce(w, e.amount));
      }
    }
  }

  /** Why a batch is refused before its proof is looked at: it is closed or empty, or the first invalid entry
      decides. */
  lemma BatchRefusals(env: Host, w: World, entries: seq<Entry>, proof: seq<Node>, flags: seq<bool>, i: nat)
    requires forall k :: 0 <= k < i && k < |entries| ==> EntryError(w, entries, k) == None
    ensures var r := ClaimBatch(env, w, entries, proof, flags);
            && (!Open(w) ==> r == Err(Closed(w)))
            && (r == Err(EmptyBatch) ==> Open(w) && entries == [])
            && (Open(w) && entries == [] ==> r == Err(EmptyBatch))
            && (Open(w) && i < |entries| ==>
                  var e := entries[i];
                  var repeated := exists j :: 0 <= j < i && PairOf(entries[j]) == PairOf(e);
                  && (e.amount <= 0 ==> r == Err(InvalidAmount))
                  && (e.amount > 0 && repeated ==> r == Err(DuplicateEntry))
                  && (e.amount > 0 && !repeated && PairOf(e) in w.claimed ==> r == Err(AlreadyClaimed)))
  {
    if Open(w) {
      FirstErrorDecides(w, entries, 0, i);
      if i < |entries| {
        assert forall j :: 0 <= j < i ==> entries[..i][j] == entries[j];
      }
      if FirstEntryError(w, entries, 0).Some? {
        EntryErrorKinds(w, entries, 0);
      } else if FirstShortfall(w, entries, 0).Some? {
        ShortfallKinds(w, entries, 0);
      } else if entries != [] {
        SettleAllErrors(w, entries);
      }
    }
  }

  /** A batch succeeds exactly while claims are open, for entries with positive amounts and different unclaimed pairs
      and a valid multi-proof, if the contract holds the total of every token beyond what is locked, every split
      fits, and no part paid at once is refused. */
  lemma BatchExactly(env: Host, w: World, entries: seq<Entry>, proof: seq<Node>, flags: seq<bool>)
    requires Inv(w)
    ensures ClaimBatch(env, w, entries, proof, flags).Ok? <==>
              && Open(w) && entries != []
              && (forall e :: e in entries ==> e.amount > 0 && (e.recipient, e.token) !in w.claimed)
              && DistinctPairs(entries)
              && Accepts(env.hash, Leaves(env, entries), proof, flags, w.root.value)
              && (forall e :: e in entries ==>
                    Get(w.locked, e.token) + TotalOf(entries, e.token) <= Get(WalletsIn(w.balances, e.token), w.self))
              && (forall e :: e in entries ==>
                    && SplitFits(w, e.amount)
                    && (PaidAtOnce(w, e.amount) > 0 ==> Accepted(w, e.token, e.recipient)))
  {
    ValidationExact(w, entries);
    BatchCoveredExactly(w, entries);
    if Claimable(w, entries) && Covered(w, entries) {
      BatchSettlesExactly(w, entries);
      forall e | e in entries
        ensures Settles(w, e) <==>
                  && SplitFits(w, e.amount)
                  && (PaidAtOnce(w, e.amount) > 0 ==> Accepted(w, e.token, e.recipient))
      {
        SettlesExactly(w, e);
      }
    }
  }

  lemma BatchCoveredExactly(w: World, entries: seq<Entry>)
    requires Inv(w)
    ensures Claimable(w, entries) <==>
              && (forall e :: e in entries ==> e.amount > 0 && (e.recipient, e.token) !in w.claimed)
              && DistinctPairs(entries)
    ensures Covered(w, entries) <==>
              forall e :: e in entries ==>
                Get(w.locked, e.token) + TotalOf(entries, e.token) <= Get(WalletsIn(w.balances, e.token), w.self)
  {
    forall k | 0 <= k < |entries|
      ensures entries[k] in entries && FitsI128(Available(w, entries[k].token))
    {
      OwedNonNegative(w, entries[k].token);
    }
  }

  lemma {:induction false} FirstErrorDecides(w: World, entries: seq<Entry>, j: nat, i: nat)
    requires j <= i && j <= |entries|
    requires forall k :: j <= k < i && k < |entries| ==> EntryError(w, entries, k) == None
    ensures i < |entries| && EntryError(w, entries, i).Some? ==>
              FirstEntryError(w, entries, j) == EntryError(w, entries, i)
    decreases i - j
  {
    if j < i && j < |entries| {
      FirstErrorDecides(w, entries, j + 1, i);
    }
  }

  lemma {:induction false} EntryErrorKinds(w: World, entries: seq<Entry>, j: nat)
    requires j <= |entries|
    ensures FirstEntryError(w, entries, j) != Some(EmptyBatch)
    decreases |entries| - j
  {
    if j < |entries| {
      EntryErrorKinds(w, entries, j + 1);
    }
  }

  lemma {:induction false} ShortfallKinds(w: World, entries: seq<Entry>, j: nat)
    requires j <= |entries|
    ensures FirstShortfall(w, entries, j) != Some(EmptyBatch)
    decreases |entries| - j
  {
    if j < |entries| {
      ShortfallKinds(w, entries, j + 1);
    }
  }

  lemma {:induction false} SettleAllErrors(w: World, entries: seq<Entry>)
    ensures SettleAll(w, entries) != Err(EmptyBatch)
    decreases entries
  {
    if entries != [] && Settle(w, entries[0]).Ok? {
      SettleAllErrors(Settle(w, entries[0]).value, entries[1..]);
    }
  }

  /** The state after a claim: the pair is claimed, the part paid at once has moved from the contract to the
      recipient, and the rest, if any, is locked in a new schedule that starts now. */
  ghost predicate ClaimSplit(w: World, v: World, e: Entry) {
    var now, pair := PaidAtOnce(w, e.amount), (e.recipient, e.token);
    var rest := e.amount - now;
    && 0 <= rest
    && v == w.(claimed := w.claimed + {pair}, schedules := v.schedules, locked := v.locked, balances := v.balances)
    && (forall t, a :: Get(WalletsIn(v.balances, t), a)
                       == Get(WalletsIn(w.balances, t), a) + When(t == e.token && a == e.recipient, now)
                          - When(t == e.token && a == w.self, now))
    && (forall t :: Get(v.locked, t) == Get(w.locked, t) + When(t == e.token, rest))
    && (rest == 0 ==> v.schedules == w.schedules)
    && (rest > 0 ==>
          w.vesting.Some?
          && v.schedules == w.schedules[pair := Schedule(rest, 0, w.now, w.vesting.value.durationLedgers)])
  }

  lemma SettledIsSplit(w: World, e: Entry, v: World)
    requires Settled(w, e, v, PaidAtOnce(w, e.amount)) && 0 <= PaidAtOnce(w, e.amount) <= e.amount
    requires PaidAtOnce(w, e.amount) < e.amount ==> w.vesting.Some?
    ensures ClaimSplit(w, v, e)
  {
  }

  /** A settled entry is split exactly. */
  lemma SettleSplits(w: World, e: Entry)
    requires Inv(w) && e.amount > 0 && e.amount <= Available(w, e.token)
    ensures Settle(w, e).Ok? ==> ClaimSplit(w, Settle(w, e).value, e)
  {
    OwedNonNegative(w, e.token);
    SettleEffect(w, e);
    LiquidIsPaidAtOnce(w, e.amount);
    if Settle(w, e).Ok? {
      SettledIsSplit(w, e, Settle(w, e).value);
    }
  }

  lemma ClaimSplits(env: Host, w: World, e: Entry, path: seq<Node>)
    requires Inv(w) && Claim(env, w, e, path).Ok?
    ensures ClaimSplit(w, Claim(env, w, e, path).value, e)
  {
    SettleSplits(w, e);
  }

  // ----- vesting

  /** Before the end, the vested amount is the largest one on or below the straight line. */
  lemma VestedIsLinear(s: Schedule, now: u32)
    requires 0 <= s.total && s.startLedger <= now < s.startLedger + s.durationLedgers
    ensures Vested(s, now) * s.durationLedgers <= s.total * (now - s.startLedger)
                                              < (Vested(s, now) + 1) * s.durationLedgers
  {
    DivBounds(s.total * (now - s.startLedger), s.durationLedgers);
  }

  /** A release succeeds exactly for a recipient other than the contract, who has a schedule of which something new has
      vested, unless the product overflows or the token refuses. */
  lemma ReleaseExactly(w: World, recipient: Address, token: Address)
    requires Inv(w)
    ensures Release(w, recipient, token).Ok? <==>
              && recipient != w.self && (recipient, token) in w.schedules
              && var s := w.schedules[(recipient, token)];
                 && (w.now < s.startLedger + s.durationLedgers ==> s.total * (w.now - s.startLedger) <= I128_MAX)
                 && s.released < Vested(s, w.now)
                 && Accepted(w, token, recipient)
  {
    if (recipient, token) in w.schedules {
      var s := w.schedules[(recipient, token)];
      assert OnSchedule(s, w.now);
      ReleaseOutcome(w, (recipient, token));
      VestedAmountExact(s, w.now);
    }
  }

  /** It pays what has vested and was not released, out of the contract and out of what is locked. */
  lemma ReleasePays(w: World, recipient: Address, token: Address)
    requires Inv(w) && Release(w, recipient, token).Ok?
    ensures var (v, amount) := Release(w, recipient, token).value;
            var s := w.schedules[(recipient, token)];
            && amount == Vested(s, w.now) - s.released
            && v == w.(schedules := w.schedules[(recipient, token) := s.(released := Vested(s, w.now))],
                       locked := v.locked, balances := v.balances)
            && (forall t :: Get(v.locked, t) == Get(w.locked, t) - When(t == token, amount))
            && (forall t, a :: Get(WalletsIn(v.balances, t), a)
                               == Get(WalletsIn(w.balances, t), a) + When(t == token && a == recipient, amount)
                                  - When(t == token && a == w.self, amount))
  {
    ReleaseOutcome(w, (recipient, token));
  }
}
