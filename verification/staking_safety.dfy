/**
  Safety of the reward pool over whole runs. Three invariants are independent of each other: the reward balance covers
  what is owed, the claims are accounted for, and the stakes are held. Each is proved for all runs that can keep it.
 */
module StakingSafety {
  import opened Wrappers
  import opened Arith
  import opened Sums
  import opened Runs
  import opened Staking

  // ----- the invariants

  /** What a staker can still get, times `SCALE`: pending rewards plus the entitlement not yet accrued. */
  function EntitledOf(rewardPerToken: nat): Staker -> int {
    (s: Staker) =>
      if s.checkpoint <= rewardPerToken then
        s.pending * SCALE + s.staked * (rewardPerToken - s.checkpoint)
      else
        s.pending * SCALE
  }

  ghost predicate Solvent(p: Pool) {
    SumSeq(p.stakers, EntitledOf(p.rewardPerToken)) <= p.rewardBalance * SCALE
  }

  /** The reward balance covers all pending and all unaccrued rewards. */
  ghost predicate Covers(p: Pool) {
    CheckpointsReached(p) && Solvent(p)
  }

  /** Every deposit is either held or claimed. */
  ghost predicate Balanced(p: Pool) {
    && p.deposited == p.rewardBalance + p.totalClaimed
    && p.totalClaimed == SumSeq(p.stakers, ClaimedOf)
    && p.rewardPerToken <= p.deposited * SCALE
  }

  /** The stake balance is what is staked or unbonding. */
  ghost predicate StakesHeld(p: Pool) {
    p.stakeBalance == TotalStaked(p.stakers) + SumSeq(p.stakers, UnbondingOf)
  }

  // ----- runs

  datatype Op =
    | OpStake(who: nat, amount: u64)
    | OpUnbond(who: nat, amount: u64)
    | OpReward(amount: u64)
    | OpSlash(amount: u64)
    | OpClaim(who: nat)

  /** The operation names a staker that does not exist. */
  predicate Misses(p: Pool, op: Op) {
    (op.OpStake? || op.OpUnbond? || op.OpClaim?) && op.who >= |p.stakers|
  }

  ghost function Step(p: Pool, op: Op): Pool {
    if !CheckpointsReached(p) || Misses(p, op) then
      p
    else
      match op
      case OpStake(who, amount) => Stake(p, who, amount)
      case OpUnbond(who, amount) => Unbond(p, who, amount)
      case OpReward(amount) => Reward(p, amount)
      case OpSlash(amount) => Slash(p, amount)
      case OpClaim(who) => Claim(p, who)
  }

  /** A deposit does not saturate the reward balance. */
  ghost predicate BalanceFits(p: Pool, op: Op) {
    op.OpReward? ==> p.rewardBalance + op.amount <= U64_MAX
  }

  /** A deposit does not saturate the lifetime deposits. */
  ghost predicate DepositFits(p: Pool, op: Op) {
    op.OpReward? ==> p.deposited + op.amount <= U64_MAX
  }

  /** A stake does not saturate the stake balance. */
  ghost predicate StakeFits(p: Pool, op: Op) {
    op.OpStake? ==> p.stakeBalance + op.amount <= U64_MAX
  }

  function Genesis(n: nat): Pool {
    Pool(seq(n, _ => Staker(0, 0, 0, 0, 0)), 0, 0, 0, 0, 0)
  }

  // ----- one staker

  lemma EarnedFits(pending: u64, owed: nat, balance: u64)
    requires pending * SCALE + owed <= balance * SCALE
    ensures pending + owed / SCALE <= balance
    ensures AsU64(owed / SCALE) == owed / SCALE
    ensures (owed / SCALE) * SCALE <= owed < (owed / SCALE) * SCALE + SCALE
  {
  }

  /** A staker whose checkpoint has caught up is entitled to the pending rewards only. */
  lemma EntitledWhenAccrued(s: Staker, rewardPerToken: nat)
    requires s.checkpoint == rewardPerToken
    ensures EntitledOf(rewardPerToken)(s) == s.pending * SCALE
  {
    assert s.staked * 0 == 0;
  }

  /** Accrual turns entitlement into pending rewards, losing less than one unit, and neither truncates nor saturates. */
  lemma AccrueRounds(s: Staker, rewardPerToken: nat, balance: u64)
    requires s.checkpoint <= rewardPerToken
    requires EntitledOf(rewardPerToken)(s) <= balance * SCALE
    ensures var r, owed := Accrue(s, rewardPerToken), s.staked * (rewardPerToken - s.checkpoint);
            && owed >= 0
            && r.pending == s.pending + owed / SCALE <= balance
            && r == s.(pending := r.pending, checkpoint := rewardPerToken)
            && EntitledOf(rewardPerToken)(r) <= EntitledOf(rewardPerToken)(s) < EntitledOf(rewardPerToken)(r) + SCALE
  {
    var owed := s.staked * (rewardPerToken - s.checkpoint);
    MulMonotone(0, s.staked, rewardPerToken - s.checkpoint);
    EarnedFits(s.pending, owed, balance);
    EntitledWhenAccrued(Accrue(s, rewardPerToken), rewardPerToken);
    if s.staked == 0 {
      assert 0 * (rewardPerToken - s.checkpoint) == 0;
    }
  }

  lemma EntitledBySum(p: Pool, i: nat)
    requires CheckpointsReached(p) && Solvent(p) && i < |p.stakers|
    ensures 0 <= EntitledOf(p.rewardPerToken)(p.stakers[i]) <= p.rewardBalance * SCALE
  {
    EntitledNonNegative(p.rewardPerToken);
    SumSeqNonNegative(p.stakers, EntitledOf(p.rewardPerToken));
  }

  lemma EntitledNonNegative(rewardPerToken: nat)
    ensures forall s: Staker :: EntitledOf(rewardPerToken)(s) >= 0
  {
    forall s: Staker
      ensures EntitledOf(rewardPerToken)(s) >= 0
    {
      if s.checkpoint <= rewardPerToken {
        MulMonotone(0, s.staked, rewardPerToken - s.checkpoint);
      }
    }
  }

  // ----- accrual of the pool

  lemma UpdateSums(stakers: seq<Staker>, who: nat, s: Staker, rewardPerToken: nat)
    requires who < |stakers|
    ensures var after, before := stakers[who := s], stakers[who];
            && TotalStaked(after) == TotalStaked(stakers) - before.staked + s.staked
            && SumSeq(after, UnbondingOf) == SumSeq(stakers, UnbondingOf) - before.unbonding + s.unbonding
            && SumSeq(after, ClaimedOf) == SumSeq(stakers, ClaimedOf) - before.claimed + s.claimed
            && SumSeq(after, EntitledOf(rewardPerToken))
               == SumSeq(stakers, EntitledOf(rewardPerToken)) - EntitledOf(rewardPerToken)(before)
                  + EntitledOf(rewardPerToken)(s)
  {
    SumSeqUpdate(stakers, StakedOf, who, s);
    SumSeqUpdate(stakers, UnbondingOf, who, s);
    SumSeqUpdate(stakers, ClaimedOf, who, s);
    SumSeqUpdate(stakers, EntitledOf(rewardPerToken), who, s);
  }

  lemma AccrueOneCovers(p: Pool, who: nat)
    requires Covers(p) && who < |p.stakers|
    ensures Covers(AccrueOne(p, who))
    ensures var s := AccrueOne(p, who).stakers[who];
            && s.checkpoint == p.rewardPerToken && s.pending <= p.rewardBalance
            && s == p.stakers[who].(pending := s.pending, checkpoint := s.checkpoint)
  {
    EntitledBySum(p, who);
    AccrueRounds(p.stakers[who], p.rewardPerToken, p.rewardBalance);
    UpdateSums(p.stakers, who, Accrue(p.stakers[who], p.rewardPerToken), p.rewardPerToken);
  }

  /** Accruing everybody raises no entitlement. */
  lemma {:induction false} AccruedEntitlement(stakers: seq<Staker>, after: seq<Staker>, rewardPerToken: nat,
                                              balance: u64)
    requires |after| == |stakers|
    requires forall i :: 0 <= i < |stakers| ==> stakers[i].checkpoint <= rewardPerToken
    requires forall i :: 0 <= i < |stakers| ==> EntitledOf(rewardPerToken)(stakers[i]) <= balance * SCALE
    requires forall i :: 0 <= i < |stakers| ==> after[i] == Accrue(stakers[i], rewardPerToken)
    ensures SumSeq(after, EntitledOf(rewardPerToken)) <= SumSeq(stakers, EntitledOf(rewardPerToken))
  {
    if stakers != [] {
      AccrueRounds(stakers[0], rewardPerToken, balance);
      AccruedEntitlement(stakers[1..], after[1..], rewardPerToken, balance);
    }
  }

  ghost predicate UpToDate(p: Pool) {
    forall i :: 0 <= i < |p.stakers| ==> p.stakers[i].checkpoint == p.rewardPerToken
  }

  lemma AccrueAllCovers(p: Pool)
    requires Covers(p)
    ensures Covers(AccrueAll(p)) && UpToDate(AccrueAll(p))
  {
    forall i | 0 <= i < |p.stakers|
      ensures EntitledOf(p.rewardPerToken)(p.stakers[i]) <= p.rewardBalance * SCALE
    {
      EntitledBySum(p, i);
    }
    AccruedEntitlement(p.stakers, AccrueAll(p).stakers, p.rewardPerToken, p.rewardBalance);
  }

  // ----- solvency

  /** Once accrued, changing what a staker has staked, unbonding or claimed changes no entitlement. */
  lemma RestakeCovers(p: Pool, who: nat, r: Staker)
    requires Covers(p) && who < |p.stakers|
    requires r.checkpoint == p.stakers[who].checkpoint == p.rewardPerToken && r.pending == p.stakers[who].pending
    ensures Covers(p.(stakers := p.stakers[who := r]))
  {
    EntitledWhenAccrued(p.stakers[who], p.rewardPerToken);
    EntitledWhenAccrued(r, p.rewardPerToken);
    UpdateSums(p.stakers, who, r, p.rewardPerToken);
  }

  /** Raising the accumulator by `rise` entitles up-to-date stakers to their stake times the rise. */
  lemma {:induction false} RaiseEntitles(stakers: seq<Staker>, rewardPerToken: nat, rise: nat)
    requires forall i :: 0 <= i < |stakers| ==> stakers[i].checkpoint == rewardPerToken
    ensures SumSeq(stakers, EntitledOf(rewardPerToken + rise))
            == SumSeq(stakers, EntitledOf(rewardPerToken)) + TotalStaked(stakers) * rise
  {
    if stakers != [] {
      RaiseEntitles(stakers[1..], rewardPerToken, rise);
      MulDistributes(stakers[0].staked, TotalStaked(stakers[1..]), rise);
      EntitledWhenAccrued(stakers[0], rewardPerToken);
    }
  }

  /** A deposit keeps the pool solvent exactly when the reward balance does not saturate, or nobody has staked, or what
      was owed after accruing left room for the distribution. */
  lemma RewardCoversExactly(p: Pool, amount: u64)
    requires Covers(p)
    ensures var total := TotalStaked(p.stakers);
            Solvent(Reward(p, amount))
            <==> p.rewardBalance + amount <= U64_MAX
                 || total == 0
                 || SumSeq(AccrueAll(p).stakers, EntitledOf(p.rewardPerToken)) + total * (amount * SCALE / total)
                    <= U64_MAX * SCALE
    ensures CheckpointsReached(Reward(p, amount))
  {
    AccrueAllCovers(p);
    AccrualKeepsStakes(p);
    SumSeqNonNegative(p.stakers, StakedOf);
    var q, total := AccrueAll(p), TotalStaked(p.stakers);
    if total > 0 {
      var rise := amount * SCALE / total;
      DivBounds(amount * SCALE, total);
      RiseBounds(amount, total);
      RaiseEntitles(q.stakers, q.rewardPerToken, rise);
    }
  }

  /** The rise of the accumulator at a deposit. */
  lemma RiseBounds(amount: u64, total: nat)
    requires total > 0
    ensures 0 <= amount * SCALE / total <= amount * SCALE <= U64_MAX * SCALE
  {
    DivBounds(amount * SCALE, total);
    DivMonotone(0, amount * SCALE, total);
    DivUnique(0, total, 0);
    MulMonotone(1, total, amount * SCALE / total);
  }

  /** A slash changes only the stakes of stakers whose rewards are already accrued. */
  lemma {:induction false} SlashedSums(stakers: seq<Staker>, after: seq<Staker>, rewardPerToken: nat,
                                       amount: nat, total: nat)
    requires 0 < amount <= total && |after| == |stakers|
    requires forall i :: 0 <= i < |stakers| ==> stakers[i].checkpoint == rewardPerToken
    requires forall i :: 0 <= i < |stakers| ==> after[i] == SlashOne(stakers[i], amount, total)
    ensures TotalStaked(after) == TotalStaked(stakers) - SumSeq(stakers, CutOf(amount, total))
    ensures SumSeq(after, UnbondingOf) == SumSeq(stakers, UnbondingOf)
    ensures SumSeq(after, ClaimedOf) == SumSeq(stakers, ClaimedOf)
    ensures SumSeq(after, EntitledOf(rewardPerToken)) == SumSeq(stakers, EntitledOf(rewardPerToken))
  {
    if stakers != [] {
      SlashedSums(stakers[1..], after[1..], rewardPerToken, amount, total);
      EntitledWhenAccrued(after[0], rewardPerToken);
      EntitledWhenAccrued(stakers[0], rewardPerToken);
    }
  }

  lemma SlashCovers(p: Pool, requested: u64)
    requires Covers(p)
    ensures Covers(Slash(p, requested))
  {
    AccrueAllCovers(p);
    var q := AccrueAll(p);
    var total := TotalStaked(q.stakers);
    SumSeqNonNegative(q.stakers, StakedOf);
    var amount := Min(requested, total);
    if amount > 0 {
      SharesAtMostAmount(q.stakers, amount, total);
      SlashedSums(q.stakers, Slash(p, requested).stakers, q.rewardPerToken, amount, total);
    }
  }

  /** The reward balance covers the claim, so the cap in `claim` never binds: everything pending is paid. */
  lemma ClaimPaysInFull(p: Pool, who: nat)
    requires Covers(p) && who < |p.stakers|
    ensures var q, r := AccrueOne(p, who), Claim(p, who);
            && r.stakers[who].pending == 0
            && r.stakers[who].claimed == SatAdd64(q.stakers[who].claimed, q.stakers[who].pending)
            && r.rewardBalance == p.rewardBalance - q.stakers[who].pending
            && r.totalClaimed == SatAdd64(p.totalClaimed, q.stakers[who].pending)
            && Covers(r)
  {
    AccrueOneCovers(p, who);
    var q := AccrueOne(p, who);
    var s := q.stakers[who];
    var r := s.(pending := 0, claimed := SatAdd64(s.claimed, s.pending));
    EntitledWhenAccrued(s, q.rewardPerToken);
    EntitledWhenAccrued(r, q.rewardPerToken);
    UpdateSums(q.stakers, who, r, q.rewardPerToken);
  }

  lemma StepCovers(p: Pool, op: Op)
    requires Covers(p) && BalanceFits(p, op)
    ensures Covers(Step(p, op))
  {
    if !Misses(p, op) {
      match op
      case OpStake(who, _) =>
        AccrueOneCovers(p, who);
        RestakeCovers(AccrueOne(p, who), who, Step(p, op).stakers[who]);
      case OpUnbond(who, _) =>
        AccrueOneCovers(p, who);
        RestakeCovers(AccrueOne(p, who), who, Step(p, op).stakers[who]);
      case OpReward(amount) => RewardCoversExactly(p, amount);
      case OpSlash(amount) => SlashCovers(p, amount);
      case OpClaim(who) => ClaimPaysInFull(p, who);
    }
  }

  lemma {:induction false} ZeroSums(n: nat, rewardPerToken: nat)
    ensures var zero := seq(n, _ => Staker(0, 0, 0, 0, 0));
            && TotalStaked(zero) == SumSeq(zero, UnbondingOf) == SumSeq(zero, ClaimedOf) == 0
            && SumSeq(zero, EntitledOf(rewardPerToken)) == 0
  {
    if n > 0 {
      ZeroSums(n - 1, rewardPerToken);
      assert seq(n, _ => Staker(0, 0, 0, 0, 0))[1..] == seq(n - 1, _ => Staker(0, 0, 0, 0, 0));
    }
  }

  /** The four invariants that the harness asserts after every operation. */
  ghost predicate Checks(p: Pool) {
    && p.stakeBalance == TotalStaked(p.stakers) + SumSeq(p.stakers, UnbondingOf)
    && p.rewardBalance >= SumSeq(p.stakers, PendingOf)
    && (forall i :: 0 <= i < |p.stakers| ==> p.stakers[i].claimed <= p.deposited)
    && p.totalClaimed <= p.deposited
  }

  lemma {:induction false} PendingWithinEntitled(stakers: seq<Staker>, rewardPerToken: nat)
    ensures SumSeq(stakers, PendingOf) * SCALE <= SumSeq(stakers, EntitledOf(rewardPerToken))
  {
    if stakers != [] {
      PendingWithinEntitled(stakers[1..], rewardPerToken);
      if stakers[0].checkpoint <= rewardPerToken {
        MulMonotone(0, stakers[0].staked, rewardPerToken - stakers[0].checkpoint);
      }
    }
  }

  /** In every state reached without saturating the reward balance, the balance covers all pending and all unaccrued
      rewards, and every claim pays everything pending: whatever the lifetime deposits, claims and stakes, and even
      after these saturate. */
  lemma PoolIsAlwaysSolvent(n: nat, ops: seq<Op>, who: nat)
    requires Along(Step, BalanceFits, Genesis(n), ops)
    ensures var p := Exec(Step, Genesis(n), ops);
            && Covers(p)
            && p.rewardBalance >= SumSeq(p.stakers, PendingOf)
            && (who < |p.stakers| ==>
                  Claim(p, who).rewardBalance == p.rewardBalance - AccrueOne(p, who).stakers[who].pending)
  {
    ZeroSums(n, 0);
    forall p, op | Covers(p) && BalanceFits(p, op)
      ensures Covers(Step(p, op))
    {
      StepCovers(p, op);
    }
    Invariant(Step, BalanceFits, Covers, Genesis(n), ops);
    var p := Exec(Step, Genesis(n), ops);
    PendingWithinEntitled(p.stakers, p.rewardPerToken);
    if who < |p.stakers| {
      ClaimPaysInFull(p, who);
    }
  }

  // ----- deposits and claims

  lemma AccrualKeepsClaims(p: Pool, who: nat)
    requires CheckpointsReached(p)
    ensures SumSeq(AccrueAll(p).stakers, ClaimedOf) == SumSeq(p.stakers, ClaimedOf)
    ensures SumSeq(AccrueAll(p).stakers, UnbondingOf) == SumSeq(p.stakers, UnbondingOf)
    ensures who < |p.stakers| ==> SumSeq(AccrueOne(p, who).stakers, ClaimedOf) == SumSeq(p.stakers, ClaimedOf)
  {
    SumSeqSame(p.stakers, AccrueAll(p).stakers, ClaimedOf);
    SumSeqSame(p.stakers, AccrueAll(p).stakers, UnbondingOf);
    if who < |p.stakers| {
      SumSeqSame(p.stakers, AccrueOne(p, who).stakers, ClaimedOf);
    }
  }

  /** What the steps other than deposits and claims do to the account: nothing. */
  lemma OthersKeepAccount(p: Pool, op: Op)
    requires CheckpointsReached(p) && !op.OpReward? && !op.OpClaim?
    ensures var q := Step(p, op);
            && q.deposited == p.deposited && q.rewardBalance == p.rewardBalance && q.totalClaimed == p.totalClaimed
            && q.rewardPerToken == p.rewardPerToken && SumSeq(q.stakers, ClaimedOf) == SumSeq(p.stakers, ClaimedOf)
  {
    SumSeqSame(p.stakers, Step(p, op).stakers, ClaimedOf);
  }

  lemma ClaimKeepsBalanced(p: Pool, who: nat)
    requires CheckpointsReached(p) && Balanced(p) && who < |p.stakers|
    ensures Balanced(Claim(p, who)) && Claim(p, who).deposited == p.deposited
  {
    AccrualKeepsClaims(p, who);
    var q, r := AccrueOne(p, who), Claim(p, who);
    SumSeqNonNegative(q.stakers, ClaimedOf);
    SumSeqUpdate(q.stakers, ClaimedOf, who, r.stakers[who]);
  }

  lemma RewardKeepsBalanced(p: Pool, amount: u64)
    requires CheckpointsReached(p) && Balanced(p) && p.deposited + amount <= U64_MAX
    ensures Balanced(Reward(p, amount))
  {
    AccrualKeepsClaims(p, 0);
    SumSeqNonNegative(p.stakers, ClaimedOf);
    AccrualKeepsStakes(p);
    if TotalStaked(p.stakers) > 0 {
      RiseBounds(amount, TotalStaked(p.stakers));
    }
  }

  /** After a deposit the deposits equal the balance plus the claims exactly when the deposits do not saturate, or when
      nothing was claimed and both saturate alike. */
  lemma RewardConservesExactly(p: Pool, amount: u64)
    requires CheckpointsReached(p) && Balanced(p)
    ensures var r := Reward(p, amount);
            r.deposited == r.rewardBalance + r.totalClaimed
            <==> p.deposited + amount <= U64_MAX || p.totalClaimed == 0
  {
    SumSeqNonNegative(p.stakers, ClaimedOf);
  }

  lemma StepKeepsCheckpoints(p: Pool, op: Op)
    requires CheckpointsReached(p)
    ensures CheckpointsReached(Step(p, op))
  {
    if op.OpReward? {
      SumSeqNonNegative(p.stakers, StakedOf);
      AccrualKeepsStakes(p);
      if TotalStaked(p.stakers) > 0 {
        RiseBounds(op.amount, TotalStaked(p.stakers));
      }
    }
  }

  lemma StepKeepsBalanced(p: Pool, op: Op)
    requires CheckpointsReached(p) && Balanced(p)
    ensures CheckpointsReached(Step(p, op))
    ensures DepositFits(p, op) ==> Balanced(Step(p, op))
    ensures !DepositFits(p, op) ==> Step(p, op).deposited == U64_MAX
  {
    StepKeepsCheckpoints(p, op);
    if !Misses(p, op) {
      match op
      case OpReward(amount) =>
        if DepositFits(p, op) {
          RewardKeepsBalanced(p, amount);
        }
      case OpClaim(who) => ClaimKeepsBalanced(p, who);
      case _ => OthersKeepAccount(p, op);
    }
  }

  /** While the lifetime deposits do not saturate, they equal the balance plus the claims, in every reachable state. */
  lemma DepositsAreHeldOrClaimed(n: nat, ops: seq<Op>)
    requires Along(Step, DepositFits, Genesis(n), ops)
    ensures Balanced(Exec(Step, Genesis(n), ops))
  {
    ZeroSums(n, 0);
    var inv := (p: Pool) => CheckpointsReached(p) && Balanced(p);
    forall p, op | inv(p) && DepositFits(p, op)
      ensures inv(Step(p, op))
    {
      StepKeepsBalanced(p, op);
    }
    Invariant(Step, DepositFits, inv, Genesis(n), ops);
  }

  /** Either the deposits have saturated, or they equal the balance plus the claims. */
  ghost predicate Accounted(p: Pool) {
    CheckpointsReached(p) && (p.deposited == U64_MAX || Balanced(p))
  }

  /** In every reachable state, without any condition on the run, no staker and not all stakers together have claimed
      more than was deposited. */
  lemma ClaimsNeverExceedDeposits(n: nat, ops: seq<Op>)
    ensures var p := Exec(Step, Genesis(n), ops);
            && Accounted(p)
            && p.totalClaimed <= p.deposited
            && forall i :: 0 <= i < |p.stakers| ==> p.stakers[i].claimed <= p.deposited
  {
    ZeroSums(n, 0);
    var each, ok := (op: Op) => true, (p: Pool, op: Op) => true;
    forall p, op | Accounted(p)
      ensures Accounted(Step(p, op))
    {
      StepKeepsCheckpoints(p, op);
      if Balanced(p) {
        StepKeepsBalanced(p, op);
      }
    }
    GuardFromInvariant(Step, ok, Accounted, each, Genesis(n), ops);
    Invariant(Step, ok, Accounted, Genesis(n), ops);
    SumSeqNonNegative(Exec(Step, Genesis(n), ops).stakers, ClaimedOf);
  }

  // ----- stakes

  lemma StakesAreHeld(p: Pool, who: nat)
    requires StakesHeld(p) && who < |p.stakers|
    ensures 0 <= TotalStaked(p.stakers) <= p.stakeBalance
    ensures p.stakers[who].staked + p.stakers[who].unbonding <= p.stakeBalance
  {
    SumSeqNonNegative(p.stakers, StakedOf);
    SumSeqNonNegative(p.stakers, UnbondingOf);
  }

  lemma AccrueOneHolds(p: Pool, who: nat)
    requires CheckpointsReached(p) && who < |p.stakers|
    ensures var q := AccrueOne(p, who);
            && TotalStaked(q.stakers) == TotalStaked(p.stakers)
            && SumSeq(q.stakers, UnbondingOf) == SumSeq(p.stakers, UnbondingOf)
  {
    SumSeqSame(p.stakers, AccrueOne(p, who).stakers, StakedOf);
    SumSeqSame(p.stakers, AccrueOne(p, who).stakers, UnbondingOf);
  }

  /** The balance after a stake equals the stakes and unbonding requests exactly when the balance does not saturate, or
      the staker held all of it. */
  lemma StakeConservesExactly(p: Pool, who: nat, amount: u64)
    requires CheckpointsReached(p) && StakesHeld(p) && who < |p.stakers|
    ensures StakesHeld(Stake(p, who, amount))
            <==> p.stakeBalance + amount <= U64_MAX || p.stakers[who].staked == p.stakeBalance
  {
    AccrueOneHolds(p, who);
    var q := AccrueOne(p, who);
    StakesAreHeld(q, who);
    var s := q.stakers[who];
    UpdateSums(q.stakers, who, s.(staked := SatAdd64(s.staked, amount)), q.rewardPerToken);
  }

  lemma UnbondHolds(p: Pool, who: nat, amount: u64)
    requires CheckpointsReached(p) && StakesHeld(p) && who < |p.stakers|
    ensures StakesHeld(Unbond(p, who, amount))
  {
    AccrueOneHolds(p, who);
    var q := AccrueOne(p, who);
    StakesAreHeld(q, who);
    UpdateSums(q.stakers, who, Unbond(p, who, amount).stakers[who], q.rewardPerToken);
  }

  lemma SlashHolds(p: Pool, requested: u64)
    requires CheckpointsReached(p) && StakesHeld(p)
    ensures StakesHeld(Slash(p, requested))
  {
    var q := AccrueAll(p);
    AccrualKeepsStakes(p);
    AccrualKeepsClaims(p, 0);
    var total := TotalStaked(q.stakers);
    SumSeqNonNegative(q.stakers, StakedOf);
    SumSeqNonNegative(q.stakers, UnbondingOf);
    var amount := Min(requested, total);
    if amount > 0 {
      SharesAtMostAmount(q.stakers, amount, total);
      SlashedSums(q.stakers, Slash(p, requested).stakers, q.rewardPerToken, amount, total);
    }
  }

  lemma StepHoldsStakes(p: Pool, op: Op)
    requires CheckpointsReached(p) && StakesHeld(p) && StakeFits(p, op)
    ensures StakesHeld(Step(p, op))
  {
    if !Misses(p, op) {
      match op
      case OpStake(who, amount) => StakeConservesExactly(p, who, amount);
      case OpUnbond(who, amount) => UnbondHolds(p, who, amount);
      case OpSlash(amount) => SlashHolds(p, amount);
      case OpReward(amount) =>
        AccrualKeepsStakes(p);
        AccrualKeepsClaims(p, 0);
      case OpClaim(who) =>
        AccrueOneHolds(p, who);
        UpdateSums(AccrueOne(p, who).stakers, who, Claim(p, who).stakers[who], p.rewardPerToken);
    }
  }

  /** While the stake balance does not saturate, it equals the stakes plus the unbonding requests, in every reachable
      state. */
  lemma StakesAreConserved(n: nat, ops: seq<Op>)
    requires Along(Step, StakeFits, Genesis(n), ops)
    ensures StakesHeld(Exec(Step, Genesis(n), ops))
  {
    ZeroSums(n, 0);
    var inv := (p: Pool) => CheckpointsReached(p) && StakesHeld(p);
    forall p, op | inv(p) && StakeFits(p, op)
      ensures inv(Step(p, op))
    {
      StepKeepsCheckpoints(p, op);
      StepHoldsStakes(p, op);
    }
    Invariant(Step, StakeFits, inv, Genesis(n), ops);
  }

  /** So the four invariants that are asserted after every operation hold in every state reached without saturating the
      stake balance and the reward balance. */
  lemma ChecksHold(n: nat, ops: seq<Op>)
    requires Along(Step, StakeFits, Genesis(n), ops) && Along(Step, BalanceFits, Genesis(n), ops)
    ensures Checks(Exec(Step, Genesis(n), ops))
  {
    StakesAreConserved(n, ops);
    PoolIsAlwaysSolvent(n, ops, 0);
    ClaimsNeverExceedDeposits(n, ops);
  }

  // ----- why the reward balance must not saturate

  /** One staker with one token, who accrued all but the last rise of the accumulator. */
  ghost function Alone(pending: u64, checkpoint: nat, deposited: u64, rewardPerToken: nat): Pool {
    Pool([Staker(1, 0, 0, checkpoint, pending)], deposited, 0, rewardPerToken, 1, deposited)
  }

  lemma AloneTotals(pending: u64, checkpoint: nat, deposited: u64, rewardPerToken: nat)
    requires checkpoint <= rewardPerToken
    ensures var p := Alone(pending, checkpoint, deposited, rewardPerToken);
            && TotalStaked(p.stakers) == 1
            && SumSeq(p.stakers, EntitledOf(rewardPerToken)) == pending * SCALE + (rewardPerToken - checkpoint)
  {
    OneStaker(Staker(1, 0, 0, checkpoint, pending), StakedOf);
    OneStaker(Staker(1, 0, 0, checkpoint, pending), EntitledOf(rewardPerToken));
  }

  lemma OneStaker(s: Staker, f: Staker -> int)
    ensures SumSeq([s], f) == f(s)
  {
    assert [s][1..] == [];
  }

  lemma AloneStakes()
    ensures Step(Genesis(1), OpStake(0, 1)) == Alone(0, 0, 0, 0)
  {
    var p := Genesis(1);
    assert p.stakers == [Staker(0, 0, 0, 0, 0)];
    assert AccrueOne(p, 0) == p;
    assert Stake(p, 0, 1).stakers == [Staker(1, 0, 0, 0, 0)];
  }

  lemma AloneReward(pending: u64, checkpoint: nat, deposited: u64, earned: nat, amount: u64)
    requires pending + earned <= U64_MAX
    ensures var p := Alone(pending, checkpoint, deposited, checkpoint + earned * SCALE);
            CheckpointsReached(p) &&
            Reward(p, amount) == Alone(pending + earned, checkpoint + earned * SCALE, SatAdd64(deposited, amount),
                                       checkpoint + earned * SCALE + amount * SCALE)
  {
    var p := Alone(pending, checkpoint, deposited, checkpoint + earned * SCALE);
    DivUnique(earned * SCALE, SCALE, earned);
    AloneTotals(pending, checkpoint, deposited, p.rewardPerToken);
    AccrualKeepsStakes(p);
    assert AccrueAll(p).stakers == [Staker(1, 0, 0, p.rewardPerToken, pending + earned)];
    DivUnique(amount * SCALE, 1, amount * SCALE);
  }

  lemma SecondDepositBreaks(a: u64, b: u64)
    requires a + b > U64_MAX
    ensures var p := Alone(0, 0, 0, 0);
            !Solvent(Step(Step(p, OpReward(a)), OpReward(b)))
  {
    AloneReward(0, 0, 0, 0, a);
    AloneReward(0, 0, a, a, b);
    AloneTotals(a, a * SCALE, U64_MAX, a * SCALE + b * SCALE);
    assert Step(Alone(0, 0, 0, 0), OpReward(a)) == Alone(0, 0, a, a * SCALE);
    assert Step(Alone(0, 0, a, a * SCALE), OpReward(b)) == Alone(a, a * SCALE, U64_MAX, a * SCALE + b * SCALE);
  }

  lemma ThreeSteps(s: Pool, a: Op, b: Op, c: Op)
    ensures Exec(Step, s, [a] + ([b] + ([c] + []))) == Step(Step(Step(s, a), b), c)
  {
    ExecStep(Step, Step(Step(s, a), b), c, []);
    ExecStep(Step, Step(s, a), b, [c] + []);
    ExecStep(Step, s, a, [b] + ([c] + []));
  }

  /** To a single staker with one token, who claims nothing in between, two deposits that together exceed `u64` are both
      distributed in full, but only `u64::MAX` is held: the pool then owes more than it has. */
  lemma SaturatedDepositsBreakSolvency(a: u64, b: u64)
    requires a + b > U64_MAX
    ensures !Solvent(Exec(Step, Genesis(1), [OpStake(0, 1)] + ([OpReward(a)] + ([OpReward(b)] + []))))
  {
    AloneStakes();
    SecondDepositBreaks(a, b);
    ThreeSteps(Genesis(1), OpStake(0, 1), OpReward(a), OpReward(b));
  }

  const U128_MAX: int := 0xFFFF_FFFF_FFFF_FFFF_FFFF_FFFF_FFFF_FFFF

  /** The `u128` products never overflow. */
  lemma WideProductsFit(p: Pool, who: nat, amount: u64)
    requires Covers(p) && who < |p.stakers|
    ensures p.stakers[who].staked * (p.rewardPerToken - p.stakers[who].checkpoint) <= U128_MAX
    ensures amount * SCALE <= U128_MAX
    ensures p.stakers[who].staked * amount <= U128_MAX
  {
    EntitledBySum(p, who);
    MulMonotone(p.stakers[who].staked, U64_MAX, amount);
  }

  ghost predicate IsDeposit(p: Pool, op: Op) {
    op.OpReward?
  }

  lemma StepRaises(p: Pool, op: Op)
    ensures p.rewardPerToken <= Step(p, op).rewardPerToken
            <= p.rewardPerToken + if IsDeposit(p, op) then U64_MAX * SCALE else 0
  {
    if CheckpointsReached(p) && op.OpReward? {
      AccrualKeepsStakes(p);
      if TotalStaked(p.stakers) > 0 {
        RiseBounds(op.amount, TotalStaked(p.stakers));
      }
    }
  }

  lemma {:induction false} AccumulatorRises(p: Pool, ops: seq<Op>)
    ensures Exec(Step, p, ops).rewardPerToken
            <= p.rewardPerToken + Count(Step, IsDeposit, p, ops) * (U64_MAX * SCALE)
    decreases ops
  {
    if ops != [] {
      var q := Step(p, ops[0]);
      StepRaises(p, ops[0]);
      AccumulatorRises(q, ops[1..]);
      MulDistributes(Count(Step, IsDeposit, q, ops[1..]), 1, U64_MAX * SCALE);
    }
  }

  /** The `u128` accumulator does not overflow in a run with lifetime deposits within `u64`, nor in any run of at most
      18446744073 deposits. */
  lemma AccumulatorFits(n: nat, ops: seq<Op>)
    requires Along(Step, DepositFits, Genesis(n), ops) || Count(Step, IsDeposit, Genesis(n), ops) <= 18_446_744_073
    ensures Exec(Step, Genesis(n), ops).rewardPerToken <= U128_MAX
  {
    if Along(Step, DepositFits, Genesis(n), ops) {
      DepositsAreHeldOrClaimed(n, ops);
    } else {
      AccumulatorRises(Genesis(n), ops);
      MulMonotone(Count(Step, IsDeposit, Genesis(n), ops), 18_446_744_073, U64_MAX * SCALE);
    }
  }
}
