/** What the staking operations do to the stakes, the balances and the rewards, in terms of the amounts asked for. */
module StakingEffects {
  import opened Wrappers
  import opened Arith
  import opened Sums
  import opened Staking
  import opened StakingSafety

  /** Only `who` may differ. */
  ghost predicate OthersKept(p: Pool, q: Pool, who: nat) {
    && |q.stakers| == |p.stakers|
    && forall i :: 0 <= i < |p.stakers| && i != who ==> q.stakers[i] == p.stakers[i]
  }

  /** `s` is up to date: its rewards are those earned so far. */
  ghost predicate Earned(p: Pool, who: nat, pending: int)
    requires who < |p.stakers|
  {
    var s := p.stakers[who];
    && 0 <= s.checkpoint <= p.rewardPerToken
    && (pending - s.pending) * SCALE <= s.staked * (p.rewardPerToken - s.checkpoint)
                                     < (pending - s.pending + 1) * SCALE
  }

  lemma AccrualEarns(p: Pool, who: nat)
    requires Covers(p) && who < |p.stakers|
    ensures var s := AccrueOne(p, who).stakers[who];
            && s == p.stakers[who].(pending := s.pending, checkpoint := p.rewardPerToken)
            && Earned(p, who, s.pending)
  {
    EntitledBySum(p, who);
    var s := p.stakers[who];
    AccrueRounds(s, p.rewardPerToken, p.rewardBalance);
    DivBounds(s.staked * (p.rewardPerToken - s.checkpoint), SCALE);
  }

  /** The cast to `u64` drops whole multiples of its range: rewards of exactly `2^64` accrue as nothing. By
      `AccrualEarns` this takes a pool that is not solvent. */
  lemma CastDropsRange(s: Staker, rewardPerToken: nat)
    requires s.staked == 1 && s.checkpoint == 0 && rewardPerToken == (U64_MAX + 1) * SCALE
    ensures Accrue(s, rewardPerToken).pending == s.pending
  {
    DivUnique(rewardPerToken, SCALE, U64_MAX + 1);
  }

  /** The amounts of a staker whose rewards are up to date. */
  ghost predicate Holds(p: Pool, s: Staker, staked: int, unbonding: int, claimed: int) {
    s.staked == staked && s.unbonding == unbonding && s.claimed == claimed && s.checkpoint == p.rewardPerToken
  }

  /** A stake credits the staker and the balance with the amount, and with the rewards earned so far. */
  lemma StakeAddsAmount(p: Pool, who: nat, amount: u64)
    requires Covers(p) && StakesHeld(p) && who < |p.stakers| && p.stakeBalance + amount <= U64_MAX
    ensures var q, s := Stake(p, who, amount), p.stakers[who];
            && OthersKept(p, q, who) && Earned(p, who, q.stakers[who].pending)
            && Holds(p, q.stakers[who], s.staked + amount, s.unbonding, s.claimed)
            && q == p.(stakers := q.stakers, stakeBalance := p.stakeBalance + amount)
  {
    AccrualEarns(p, who);
    StakesAreHeld(p, who);
  }

  /** An unbonding request moves exactly the smaller of the request and the stake. */
  lemma UnbondMovesAmount(p: Pool, who: nat, amount: u64)
    requires Covers(p) && StakesHeld(p) && who < |p.stakers|
    ensures var q, s := Unbond(p, who, amount), p.stakers[who];
            var taken := if amount <= s.staked then amount else s.staked;
            && OthersKept(p, q, who) && Earned(p, who, q.stakers[who].pending)
            && Holds(p, q.stakers[who], s.staked - taken, s.unbonding + taken, s.claimed)
            && q == p.(stakers := q.stakers)
  {
    AccrualEarns(p, who);
    StakesAreHeld(p, who);
  }

  /** A claim pays everything earned, from the reward balance to the staker. */
  lemma ClaimPaysEarned(p: Pool, who: nat)
    requires Covers(p) && Balanced(p) && who < |p.stakers|
    ensures var q, s, paid := Claim(p, who), p.stakers[who], p.rewardBalance - Claim(p, who).rewardBalance;
            && OthersKept(p, q, who) && Earned(p, who, paid) && q.stakers[who].pending == 0
            && Holds(p, q.stakers[who], s.staked, s.unbonding, s.claimed + paid)
            && q.totalClaimed == p.totalClaimed + paid
            && q == p.(stakers := q.stakers, rewardBalance := q.rewardBalance, totalClaimed := q.totalClaimed)
  {
    AccrualEarns(p, who);
    ClaimPaysInFull(p, who);
    SumSeqNonNegative(p.stakers, ClaimedOf);
  }

  /** A deposit raises both balances by its amount, and the accumulator by the scaled amount per staked token, rounded
      down; it changes no stake. */
  lemma RewardDistributesAmount(p: Pool, amount: u64)
    requires Covers(p) && p.deposited + amount <= U64_MAX && p.rewardBalance + amount <= U64_MAX
    ensures var q, total := Reward(p, amount), TotalStaked(p.stakers);
            var rise := q.rewardPerToken - p.rewardPerToken;
            && q.deposited == p.deposited + amount && q.rewardBalance == p.rewardBalance + amount
            && q.totalClaimed == p.totalClaimed && q.stakeBalance == p.stakeBalance
            && 0 <= total && (total == 0 ==> rise == 0)
            && (total > 0 ==> rise * total <= amount * SCALE < (rise + 1) * total)
            && |q.stakers| == |p.stakers|
            && forall i :: 0 <= i < |p.stakers| ==>
                 && Earned(p, i, q.stakers[i].pending)
                 && q.stakers[i] == p.stakers[i].(pending := q.stakers[i].pending, checkpoint := p.rewardPerToken)
  {
    SumSeqNonNegative(p.stakers, StakedOf);
    AccrualKeepsStakes(p);
    if TotalStaked(p.stakers) > 0 {
      DivBounds(amount * SCALE, TotalStaked(p.stakers));
    }
    forall i | 0 <= i < |p.stakers|
      ensures var s := AccrueAll(p).stakers[i];
              && Earned(p, i, s.pending)
              && s == p.stakers[i].(pending := s.pending, checkpoint := p.rewardPerToken)
    {
      AccrualEarns(p, i);
    }
  }

  // ----- slashing

  /** What a slash takes off the stake of a staker: the proportional part of `take`, rounded down. */
  ghost predicate CutProportionally(before: Staker, after: Staker, take: nat, total: nat) {
    var loss := before.staked - after.staked;
    0 <= loss && loss * total <= before.staked * take < (loss + 1) * total
  }

  lemma CutIsProportional(s: Staker, take: nat, total: nat)
    requires take <= total && total > 0
    ensures CutProportionally(s, SlashOne(s, take, total), take, total)
  {
    DivBounds(s.staked * take, total);
  }

  /** The stakes after a slash of nothing. */
  lemma NoCutIsProportional(s: Staker, total: nat)
    requires total > 0
    ensures CutProportionally(s, s, 0, total)
  {
  }

  /** A slash takes from every staker the proportional part, rounded down, of the smaller of the request and all stakes.
      Nothing else of a staker changes but the rewards earned so far. */
  lemma SlashCutsEveryone(p: Pool, requested: u64, i: nat)
    requires Covers(p) && i < |p.stakers|
    ensures var q, total := Slash(p, requested), TotalStaked(p.stakers);
            var take, s := if requested <= total then requested else total, p.stakers[i];
            && |q.stakers| == |p.stakers|
            && (total > 0 ==> CutProportionally(s, q.stakers[i], take, total))
            && (requested == 0 || total == 0 ==> q.stakers[i].staked == s.staked)
            && Earned(p, i, q.stakers[i].pending)
            && Holds(p, q.stakers[i], q.stakers[i].staked, s.unbonding, s.claimed)
  {
    var accrued, total := AccrueAll(p), TotalStaked(p.stakers);
    var take := if requested <= total then requested else total;
    AccrualKeepsStakes(p);
    AccrualEarns(p, i);
    SumSeqNonNegative(p.stakers, StakedOf);
    if take > 0 {
      SharesAtMostAmount(accrued.stakers, take, total);
      CutIsProportional(accrued.stakers[i], take, total);
    } else if total > 0 {
      NoCutIsProportional(accrued.stakers[i], total);
    }
  }

  /** The stakes and the stake balance fall together, by at most the smaller of the request and all stakes, and by less
      than one unit per positive staker short of it. */
  lemma SlashTakesRequested(p: Pool, requested: u64)
    requires Covers(p) && StakesHeld(p)
    ensures var q, total := Slash(p, requested), TotalStaked(p.stakers);
            var take := if requested <= total then requested else total;
            var fall := total - TotalStaked(q.stakers);
            && 0 <= fall <= take
            && (take > 0 ==> take - SumSeq(p.stakers, PositiveOf) < fall)
            && q.stakeBalance == p.stakeBalance - fall
            && q == p.(stakers := q.stakers, stakeBalance := q.stakeBalance)
  {
    var q, accrued, total := Slash(p, requested), AccrueAll(p), TotalStaked(p.stakers);
    var take := if requested <= total then requested else total;
    AccrualKeepsStakes(p);
    SumSeqNonNegative(p.stakers, StakedOf);
    SumSeqNonNegative(p.stakers, UnbondingOf);
    SumSeqSame(p.stakers, accrued.stakers, PositiveOf);
    if take > 0 {
      SharesAtMostAmount(accrued.stakers, take, total);
      SlashShortfall(accrued.stakers, take, total);
      SlashedSums(accrued.stakers, q.stakers, p.rewardPerToken, take, total);
    }
  }
}
