/**
  The reward-per-token accumulator against exact pro-rata distribution: each deposit entitles each staker to
  `amount * staked / total`, a rational number, and the pool follows the sum of these shares from below.
 */
module StakingShare {
  import opened Wrappers
  import opened Arith
  import opened Sums
  import opened Runs
  import opened Staking
  import opened StakingSafety

  /** The pool, and for each staker: the exact share of all deposits, the number of accruals, the stakes held at the
      deposits, added up, and the sum of all payments. */
  datatype Traced = Traced(pool: Pool, share: seq<real>, accruals: seq<nat>, weight: seq<nat>, paid: seq<nat>)

  /** Everything a staker was credited, times `SCALE`: paid, pending, and not yet accrued. */
  function CreditedOf(s: Staker, paid: nat, rewardPerToken: nat): int {
    paid * SCALE + EntitledOf(rewardPerToken)(s)
  }

  /** Credited rewards never exceed the exact share. When the pool is `solvent`, they fall short of it by at most one
      unit for each accrual and `staked / SCALE` for each deposit. The claims on record are the payments, as far as
      `u64` goes. */
  ghost predicate Follows(s: Staker, paid: nat, rewardPerToken: nat, share: real, accruals: nat, weight: nat,
                          solvent: bool)
  {
    var credited := CreditedOf(s, paid, rewardPerToken);
    && s.claimed == Min(paid, U64_MAX)
    && credited as real <= share * SCALE as real
    && (solvent ==> share * SCALE as real <= (credited + accruals * SCALE + weight) as real)
  }

  function PlusOne(counts: seq<nat>): (r: seq<nat>)
    ensures |r| == |counts| && forall i :: 0 <= i < |r| ==> r[i] == counts[i] + 1
  {
    seq(|counts|, i requires 0 <= i < |counts| => counts[i] + 1)
  }

  ghost predicate Aligned(t: Traced) {
    |t.share| == |t.accruals| == |t.weight| == |t.paid| == |t.pool.stakers|
  }

  /** The deposit of `amount` among the stakers as they are. */
  ghost function Distribute(t: Traced, amount: nat): Traced
    requires Aligned(t)
  {
    var stakers, total := t.pool.stakers, TotalStaked(t.pool.stakers);
    if total <= 0 then
      t
    else
      t.(share := seq(|stakers|, i requires 0 <= i < |stakers| =>
                    t.share[i] + (stakers[i].staked * amount) as real / total as real),
         weight := seq(|stakers|, i requires 0 <= i < |stakers| => t.weight[i] + stakers[i].staked))
  }

  ghost function TracedStep(t: Traced, op: Op): Traced {
    if !Aligned(t) then
      t
    else
      var next := Step(t.pool, op);
      match op
      case OpReward(amount) =>
        Distribute(t, amount).(pool := next, accruals := PlusOne(t.accruals))
      case OpSlash(_) => t.(pool := next, accruals := PlusOne(t.accruals))
      case _ =>
        if op.who < |t.accruals| then
          t.(pool := next, accruals := t.accruals[op.who := t.accruals[op.who] + 1],
             paid := t.paid[op.who := t.paid[op.who] + Payment(t.pool, next)])
        else
          t.(pool := next)
  }

  /** What the reward balance loses in a step. */
  ghost function Payment(p: Pool, q: Pool): nat {
    if q.rewardBalance <= p.rewardBalance then p.rewardBalance - q.rewardBalance else 0
  }

  /** The condition for the bound from below: no deposit saturates the reward balance. */
  ghost predicate TracedFits(t: Traced, op: Op) {
    BalanceFits(t.pool, op)
  }

  ghost predicate FollowsAt(t: Traced, i: nat, solvent: bool)
    requires Aligned(t) && i < |t.pool.stakers|
  {
    Follows(t.pool.stakers[i], t.paid[i], t.pool.rewardPerToken, t.share[i], t.accruals[i], t.weight[i], solvent)
  }

  ghost predicate AllFollow(t: Traced, solvent: bool) {
    && Aligned(t)
    && CheckpointsReached(t.pool)
    && (solvent ==> Covers(t.pool))
    && forall i :: 0 <= i < |t.pool.stakers| ==> FollowsAt(t, i, solvent)
  }

  // ----- one staker

  /** An accrual never raises the credit, even where it truncates or saturates; in a solvent pool it loses less than one
      unit. */
  lemma AccrueFollows(s: Staker, paid: nat, rewardPerToken: nat, balance: u64, share: real, accruals: nat,
                      weight: nat, solvent: bool)
    requires s.checkpoint <= rewardPerToken
    requires solvent ==> EntitledOf(rewardPerToken)(s) <= balance * SCALE
    requires Follows(s, paid, rewardPerToken, share, accruals, weight, solvent)
    ensures Follows(Accrue(s, rewardPerToken), paid, rewardPerToken, share, accruals + 1, weight, solvent)
  {
    AccrueNeverRaises(s, rewardPerToken);
    if solvent {
      AccrueRounds(s, rewardPerToken, balance);
    }
  }

  lemma AccrueNeverRaises(s: Staker, rewardPerToken: nat)
    requires s.checkpoint <= rewardPerToken
    ensures EntitledOf(rewardPerToken)(Accrue(s, rewardPerToken)) <= EntitledOf(rewardPerToken)(s)
  {
    var owed := s.staked * (rewardPerToken - s.checkpoint);
    MulMonotone(0, s.staked, rewardPerToken - s.checkpoint);
    EntitledWhenAccrued(Accrue(s, rewardPerToken), rewardPerToken);
    DivBounds(owed, SCALE);
    assert AsU64(owed / SCALE) <= owed / SCALE;
  }

  lemma RealSwap(a: real, b: real, c: real)
    ensures a * b * c == a * c * b
  {
  }

  /** Integer bounds on a scaled fraction. */
  lemma FractionBounds(low: int, m: int, scale: int, high: int, total: int)
    requires total > 0 && low * total <= m * scale <= high * total
    ensures low as real <= m as real / total as real * scale as real <= high as real
  {
    var n := total as real;
    var exact := m as real / n;
    RealProduct(low, total);
    RealProduct(m, scale);
    RealProduct(high, total);
    assert exact * n == m as real;
    RealSwap(exact, scale as real, n);
    RealDivide(low as real, exact * scale as real, n);
    RealDivide(exact * scale as real, high as real, n);
  }

  lemma Regroup(a: int, b: int, c: int)
    ensures a * b * c == a * (b * c) == b * (a * c) == c * (a * b)
  {
  }

  /** Rounding the accumulator's rise down costs a staker at most their stake, in scaled units. */
  lemma RiseRounds(staked: nat, amount: nat, total: nat)
    requires total > 0
    ensures var rise, exact := amount * SCALE / total, (staked * amount) as real / total as real;
            (staked * rise) as real <= exact * SCALE as real <= (staked * rise + staked) as real
  {
    var rise := amount * SCALE / total;
    DivBounds(amount * SCALE, total);
    MulMonotone(rise * total, amount * SCALE, staked);
    MulMonotone(amount * SCALE, (rise + 1) * total, staked);
    Regroup(staked, rise, total);
    Regroup(staked, rise + 1, total);
    Regroup(staked, amount, SCALE);
    MulDistributes(rise, 1, staked);
    FractionBounds(staked * rise, staked * amount, SCALE, staked * rise + staked, total);
  }

  lemma RaiseFollows(s: Staker, paid: nat, rewardPerToken: nat, amount: nat, total: nat, share: real, accruals: nat,
                     weight: nat, solvent: bool)
    requires total > 0 && s.checkpoint == rewardPerToken
    requires Follows(s, paid, rewardPerToken, share, accruals, weight, solvent)
    ensures amount * SCALE / total >= 0
    ensures Follows(s, paid, rewardPerToken + amount * SCALE / total,
                    share + (s.staked * amount) as real / total as real, accruals, weight + s.staked, solvent)
  {
    DivMonotone(0, amount * SCALE, total);
    DivUnique(0, total, 0);
    var rise := amount * SCALE / total;
    RiseRounds(s.staked, amount, total);
    EntitledWhenAccrued(s, rewardPerToken);
    assert CreditedOf(s, paid, rewardPerToken + rise) == CreditedOf(s, paid, rewardPerToken) + s.staked * rise;
  }

  /** Once accrued, changing the stake changes no credit, and a claim turns pending rewards into payments. */
  lemma RestakeFollows(s: Staker, r: Staker, paid: nat, payment: nat, rewardPerToken: nat, share: real, accruals: nat,
                       weight: nat, solvent: bool)
    requires s.checkpoint == r.checkpoint == rewardPerToken
    requires r.pending == s.pending - payment && r.claimed == SatAdd64(s.claimed, payment)
    requires Follows(s, paid, rewardPerToken, share, accruals, weight, solvent)
    ensures Follows(r, paid + payment, rewardPerToken, share, accruals, weight, solvent)
  {
    EntitledWhenAccrued(s, rewardPerToken);
    EntitledWhenAccrued(r, rewardPerToken);
  }

  // ----- steps and runs

  lemma AccrueOneFollows(t: Traced, who: nat, solvent: bool)
    requires AllFollow(t, solvent) && who < |t.pool.stakers|
    ensures var s := AccrueOne(t.pool, who).stakers[who];
            Follows(s, t.paid[who], t.pool.rewardPerToken, t.share[who], t.accruals[who] + 1, t.weight[who], solvent)
  {
    if solvent {
      EntitledBySum(t.pool, who);
    }
    assert FollowsAt(t, who, solvent);
    AccrueFollows(t.pool.stakers[who], t.paid[who], t.pool.rewardPerToken, t.pool.rewardBalance,
                  t.share[who], t.accruals[who], t.weight[who], solvent);
  }

  lemma SingleStepFollows(t: Traced, op: Op, solvent: bool)
    requires AllFollow(t, solvent) && (solvent ==> TracedFits(t, op))
    requires (op.OpStake? || op.OpUnbond? || op.OpClaim?) && op.who < |t.pool.stakers|
    ensures AllFollow(TracedStep(t, op), solvent)
  {
    var p, who := t.pool, op.who;
    var next, after := Step(p, op), TracedStep(t, op);
    StepKeepsCheckpoints(p, op);
    if solvent {
      StepCovers(p, op);
    }
    AccrueOneFollows(t, who, solvent);
    RestakeFollows(AccrueOne(p, who).stakers[who], next.stakers[who], t.paid[who], Payment(p, next), p.rewardPerToken,
                   t.share[who], t.accruals[who] + 1, t.weight[who], solvent);
    forall i | 0 <= i < |next.stakers|
      ensures FollowsAt(after, i, solvent)
    {
      assert FollowsAt(t, i, solvent);
    }
  }

  lemma SlashFollows(t: Traced, amount: u64, solvent: bool)
    requires AllFollow(t, solvent)
    ensures AllFollow(TracedStep(t, OpSlash(amount)), solvent)
  {
    StepKeepsCheckpoints(t.pool, OpSlash(amount));
    if solvent {
      SlashCovers(t.pool, amount);
    }
    var q, next := AccrueAll(t.pool), TracedStep(t, OpSlash(amount));
    forall i | 0 <= i < |q.stakers|
      ensures FollowsAt(next, i, solvent)
    {
      AccrueOneFollows(t, i, solvent);
      RestakeFollows(q.stakers[i], next.pool.stakers[i], t.paid[i], 0, q.rewardPerToken, t.share[i],
                     t.accruals[i] + 1, t.weight[i], solvent);
    }
  }

  lemma RewardFollows(t: Traced, amount: u64, solvent: bool)
    requires AllFollow(t, solvent) && (solvent ==> TracedFits(t, OpReward(amount)))
    ensures AllFollow(TracedStep(t, OpReward(amount)), solvent)
  {
    StepKeepsCheckpoints(t.pool, OpReward(amount));
    if solvent {
      StepCovers(t.pool, OpReward(amount));
    }
    var next := TracedStep(t, OpReward(amount));
    forall i | 0 <= i < |t.pool.stakers|
      ensures Aligned(next) && FollowsAt(next, i, solvent)
    {
      RewardFollowsOne(t, amount, i, solvent);
    }
  }

  /** One staker at a deposit: an accrual, then the share of the deposit. */
  lemma RewardFollowsOne(t: Traced, amount: u64, i: nat, solvent: bool)
    requires AllFollow(t, solvent) && i < |t.pool.stakers|
    ensures var next := TracedStep(t, OpReward(amount));
            |next.pool.stakers| == |t.pool.stakers| && Aligned(next) && FollowsAt(next, i, solvent)
  {
    AccrueOneFollows(t, i, solvent);
    AccrualKeepsStakes(t.pool);
    SumSeqNonNegative(t.pool.stakers, StakedOf);
    var s, q, total := AccrueAll(t.pool).stakers[i], t.pool.rewardPerToken, TotalStaked(t.pool.stakers);
    assert s.staked == t.pool.stakers[i].staked;
    if total > 0 {
      RaiseFollows(s, t.paid[i], q, amount, total, t.share[i], t.accruals[i] + 1, t.weight[i], solvent);
    }
  }

  lemma TracedStepFollows(t: Traced, op: Op, solvent: bool)
    requires AllFollow(t, solvent) && (solvent ==> TracedFits(t, op))
    ensures AllFollow(TracedStep(t, op), solvent)
  {
    match op
    case OpReward(amount) => RewardFollows(t, amount, solvent);
    case OpSlash(amount) => SlashFollows(t, amount, solvent);
    case _ =>
      if op.who < |t.pool.stakers| {
        SingleStepFollows(t, op, solvent);
      }
  }

  function TracedGenesis(n: nat): Traced {
    Traced(Genesis(n), seq(n, _ => 0.0), seq(n, _ => 0), seq(n, _ => 0), seq(n, _ => 0))
  }

  lemma GenesisFollows(n: nat, solvent: bool)
    ensures AllFollow(TracedGenesis(n), solvent)
  {
    ZeroSums(n, 0);
  }

  /** In every state reached without saturating the reward balance, no staker was credited more than the exact share of
      all deposits so far, and none is behind it by more than one unit per accrual plus the summed `staked / SCALE` of
      its deposits. */
  lemma RewardsFollowExactShares(n: nat, ops: seq<Op>)
    requires Along(TracedStep, TracedFits, TracedGenesis(n), ops)
    ensures AllFollow(Exec(TracedStep, TracedGenesis(n), ops), true)
  {
    GenesisFollows(n, true);
    var inv := (t: Traced) => AllFollow(t, true);
    forall t, op | inv(t) && TracedFits(t, op)
      ensures inv(TracedStep(t, op))
    {
      TracedStepFollows(t, op, true);
    }
    Invariant(TracedStep, TracedFits, inv, TracedGenesis(n), ops);
  }

  /** In every reachable state, without any condition on the run, nobody has been paid more than the exact share of the
      deposits. */
  lemma ClaimsNeverExceedExactShare(n: nat, ops: seq<Op>)
    ensures var t := Exec(TracedStep, TracedGenesis(n), ops);
            && Aligned(t)
            && forall i :: 0 <= i < |t.share| ==>
                 t.pool.stakers[i].claimed <= t.paid[i] && t.paid[i] as real <= t.share[i]
  {
    var inv := (t: Traced) => AllFollow(t, false);
    var ok, each := (t: Traced, op: Op) => true, (op: Op) => true;
    GenesisFollows(n, false);
    forall t, op | inv(t)
      ensures inv(TracedStep(t, op))
    {
      TracedStepFollows(t, op, false);
    }
    GuardFromInvariant(TracedStep, ok, inv, each, TracedGenesis(n), ops);
    Invariant(TracedStep, ok, inv, TracedGenesis(n), ops);
    var t := Exec(TracedStep, TracedGenesis(n), ops);
    EntitledNonNegative(t.pool.rewardPerToken);
    forall i | 0 <= i < |t.share|
      ensures t.pool.stakers[i].claimed <= t.paid[i] && t.paid[i] as real <= t.share[i]
    {
      assert FollowsAt(t, i, false);
      assert EntitledOf(t.pool.rewardPerToken)(t.pool.stakers[i]) >= 0;
      assert t.paid[i] as real * SCALE as real == (t.paid[i] * SCALE) as real;
      RealDivide(t.paid[i] as real, t.share[i], SCALE as real);
    }
  }
}
