/**
  The staking reward pool: a reward-per-token accumulator with lazy accrual, unbonding, proportional slashing and
  claims. Stakers are an array of any length; `u64` and `u128` arithmetic is written out.
 */
module Staking {
  import opened Wrappers
  import opened Arith
  import opened Sums

  type u64 = x: int | 0 <= x <= U64_MAX

  const SCALE: int := 1_000_000_000

  datatype Staker = Staker(staked: u64, unbonding: u64, claimed: u64, checkpoint: nat, pending: u64)

  datatype Pool = Pool(
    stakers: seq<Staker>,
    deposited: u64,
    totalClaimed: u64,
    rewardPerToken: nat,
    stakeBalance: u64,
    rewardBalance: u64)

  /** `u64::saturating_add`. */
  function SatAdd64(a: u64, b: u64): u64 {
    Min(a + b, U64_MAX)
  }

  /** `u64::saturating_sub`. */
  function SatSub64(a: u64, b: u64): u64 {
    if a <= b then 0 else a - b
  }

  /** `as u64`, which keeps the low 64 bits. */
  function AsU64(x: nat): u64 {
    x % (U64_MAX + 1)
  }

  function StakedOf(s: Staker): int { s.staked }

  function UnbondingOf(s: Staker): int { s.unbonding }

  function ClaimedOf(s: Staker): int { s.claimed }

  function PendingOf(s: Staker): int { s.pending }

  ghost function TotalStaked(stakers: seq<Staker>): int {
    SumSeq(stakers, StakedOf)
  }

  /** No checkpoint is ahead of the accumulator: `delta` in `accrue` does not underflow. */
  ghost predicate CheckpointsReached(p: Pool) {
    forall i :: 0 <= i < |p.stakers| ==> p.stakers[i].checkpoint <= p.rewardPerToken
  }

  // ----- the operations

  function Accrue(s: Staker, rewardPerToken: nat): Staker
    requires s.checkpoint <= rewardPerToken
  {
    if s.staked == 0 then
      s.(checkpoint := rewardPerToken)
    else
      var earned := s.staked * (rewardPerToken - s.checkpoint) / SCALE;
      s.(pending := SatAdd64(s.pending, AsU64(earned)), checkpoint := rewardPerToken)
  }

  function AccrueOne(p: Pool, who: nat): Pool
    requires CheckpointsReached(p) && who < |p.stakers|
  {
    p.(stakers := p.stakers[who := Accrue(p.stakers[who], p.rewardPerToken)])
  }

  function AccrueAll(p: Pool): (q: Pool)
    requires CheckpointsReached(p)
    ensures |q.stakers| == |p.stakers|
    ensures forall i :: 0 <= i < |p.stakers| ==> q.stakers[i] == Accrue(p.stakers[i], p.rewardPerToken)
  {
    p.(stakers := seq(|p.stakers|, i requires 0 <= i < |p.stakers| => Accrue(p.stakers[i], p.rewardPerToken)))
  }

  function Stake(p: Pool, who: nat, amount: u64): Pool
    requires CheckpointsReached(p) && who < |p.stakers|
  {
    var q := AccrueOne(p, who);
    var s := q.stakers[who];
    q.(stakers := q.stakers[who := s.(staked := SatAdd64(s.staked, amount))],
       stakeBalance := SatAdd64(q.stakeBalance, amount))
  }

  function Unbond(p: Pool, who: nat, amount: u64): Pool
    requires CheckpointsReached(p) && who < |p.stakers|
  {
    var q := AccrueOne(p, who);
    var s := q.stakers[who];
    var taken: u64 := Min(amount, s.staked);
    q.(stakers := q.stakers[who := s.(staked := s.staked - taken, unbonding := SatAdd64(s.unbonding, taken))])
  }

  ghost function Reward(p: Pool, amount: u64): Pool
    requires CheckpointsReached(p)
  {
    var q := AccrueAll(p);
    var total := TotalStaked(q.stakers);
    var r := q.(deposited := SatAdd64(q.deposited, amount), rewardBalance := SatAdd64(q.rewardBalance, amount));
    if total > 0 then r.(rewardPerToken := r.rewardPerToken + amount * SCALE / total) else r
  }

  /** What a slash of `amount` out of `total` takes from a staker: never more than the stake. */
  function Share(staked: nat, amount: nat, total: nat): (share: nat)
    requires total > 0
    ensures amount <= total ==> share <= staked
  {
    QuotientWithin(staked, amount, total);
    staked * amount / total
  }

  lemma QuotientWithin(staked: nat, amount: nat, total: nat)
    requires total > 0
    ensures 0 <= staked * amount / total
    ensures amount <= total ==> staked * amount / total <= staked
  {
    MulMonotone(0, amount, staked);
    DivMonotone(0, staked * amount, total);
    DivUnique(0, total, 0);
    if amount <= total {
      MulMonotone(amount, total, staked);
      DivMonotone(staked * amount, staked * total, total);
      MulDistributes(staked, 1, total);
      DivUnique(staked * total, total, staked);
    }
  }

  function CutOf(amount: nat, total: nat): Staker -> int
    requires total > 0
  {
    (s: Staker) => Share(s.staked, amount, total)
  }

  function SlashOne(s: Staker, amount: nat, total: nat): Staker
    requires amount <= total && total > 0
  {
    s.(staked := s.staked - Share(s.staked, amount, total))
  }

  /** Every staker loses their proportional share, rounded down. */
  function SlashedStakers(stakers: seq<Staker>, amount: nat, total: nat): (r: seq<Staker>)
    requires 0 < amount <= total
    ensures |r| == |stakers|
    ensures forall i :: 0 <= i < |stakers| ==> r[i] == SlashOne(stakers[i], amount, total)
  {
    seq(|stakers|, i requires 0 <= i < |stakers| => SlashOne(stakers[i], amount, total))
  }

  ghost function Slash(p: Pool, requested: u64): Pool
    requires CheckpointsReached(p)
  {
    var q := AccrueAll(p);
    var total := TotalStaked(q.stakers);
    SumSeqNonNegative(q.stakers, StakedOf);
    var amount := Min(requested, total);
    if amount == 0 then
      q
    else
      var cuts := SumSeq(q.stakers, CutOf(amount, total));
      SharesAtMostAmount(q.stakers, amount, total);
      q.(stakers := SlashedStakers(q.stakers, amount, total),
         stakeBalance := SatSub64(q.stakeBalance, cuts))
  }

  function Claim(p: Pool, who: nat): Pool
    requires CheckpointsReached(p) && who < |p.stakers|
  {
    var q := AccrueOne(p, who);
    var s := q.stakers[who];
    var claimable: u64 := Min(s.pending, q.rewardBalance);
    q.(stakers := q.stakers[who := s.(pending := s.pending - claimable, claimed := SatAdd64(s.claimed, claimable))],
       totalClaimed := SatAdd64(q.totalClaimed, claimable), rewardBalance := q.rewardBalance - claimable)
  }

  // ----- the rounding of a slash

  function PositiveOf(s: Staker): int {
    if s.staked > 0 then 1 else 0
  }

  lemma ShareBounds(staked: nat, amount: nat, total: nat)
    requires total > 0
    ensures Share(staked, amount, total) * total <= staked * amount
    ensures staked * amount <= Share(staked, amount, total) * total + (if staked > 0 then total - 1 else 0)
  {
    DivBounds(staked * amount, total);
    MulDistributes(Share(staked, amount, total), 1, total);
  }

  /** The shares of any stakers, against their part of the stake. */
  lemma {:induction false} SharesBounds(stakers: seq<Staker>, amount: nat, total: nat)
    requires total > 0
    ensures var cuts, stake := SumSeq(stakers, CutOf(amount, total)), TotalStaked(stakers);
            var n := SumSeq(stakers, PositiveOf);
            0 <= n && cuts * total <= stake * amount <= cuts * total + n * (total - 1)
  {
    if stakers != [] {
      var s, rest := stakers[0], stakers[1..];
      SharesBounds(rest, amount, total);
      ShareBounds(s.staked, amount, total);
      MulDistributes(Share(s.staked, amount, total), SumSeq(rest, CutOf(amount, total)), total);
      MulDistributes(s.staked, TotalStaked(rest), amount);
      MulDistributes(PositiveOf(s), SumSeq(rest, PositiveOf), total - 1);
    }
  }

  lemma SharesAtMostAmount(stakers: seq<Staker>, amount: nat, total: nat)
    requires total > 0 && total == TotalStaked(stakers)
    ensures 0 <= SumSeq(stakers, CutOf(amount, total)) <= amount
  {
    var cuts := SumSeq(stakers, CutOf(amount, total));
    SharesBounds(stakers, amount, total);
    SumSeqNonNegative(stakers, CutOf(amount, total));
    if amount + 1 <= cuts {
      MulMonotone(amount + 1, cuts, total);
      MulDistributes(amount, 1, total);
    }
  }

  /** A slash falls short of its amount by less than the number of stakers it cuts. */
  lemma SlashShortfall(stakers: seq<Staker>, amount: nat, total: nat)
    requires total > 0 && total == TotalStaked(stakers)
    ensures var cuts, n := SumSeq(stakers, CutOf(amount, total)), SumSeq(stakers, PositiveOf);
            n > 0 && amount - n < cuts <= amount
  {
    var cuts, n := SumSeq(stakers, CutOf(amount, total)), SumSeq(stakers, PositiveOf);
    SharesAtMostAmount(stakers, amount, total);
    SharesBounds(stakers, amount, total);
    SomebodyStaked(stakers);
    if cuts <= amount - n {
      MulMonotone(cuts, amount - n, total);
      MulDistributes(amount, n, total);
      MulDistributes(total, 1, n);
    }
  }

  lemma {:induction false} SomebodyStaked(stakers: seq<Staker>)
    ensures TotalStaked(stakers) > 0 ==> SumSeq(stakers, PositiveOf) > 0
    ensures SumSeq(stakers, PositiveOf) >= 0
  {
    if stakers != [] {
      SomebodyStaked(stakers[1..]);
    }
  }

  // ----- the model object

  class StakingModel {
    var stakers: array<Staker>
    var deposited: u64
    var totalClaimed: u64
    var rewardPerToken: nat
    var stakeBalance: u64
    var rewardBalance: u64

    ghost function View(): Pool
      reads this, stakers
    {
      Pool(stakers[..], deposited, totalClaimed, rewardPerToken, stakeBalance, rewardBalance)
    }

    constructor (n: nat)
      ensures fresh(stakers)
      ensures View() == Pool(seq(n, _ => Staker(0, 0, 0, 0, 0)), 0, 0, 0, 0, 0)
    {
      stakers := new Staker[n](_ => Staker(0, 0, 0, 0, 0));
      deposited, totalClaimed, rewardPerToken, stakeBalance, rewardBalance := 0, 0, 0, 0, 0;
    }

    method DoAccrue(who: nat)
      requires CheckpointsReached(View()) && who < stakers.Length
      modifies stakers
      ensures View() == AccrueOne(old(View()), who)
    {
      var s := stakers[who];
      if s.staked == 0 {
        stakers[who] := s.(checkpoint := rewardPerToken);
        return;
      }
      var delta := rewardPerToken - s.checkpoint;
      var earned := s.staked * delta / SCALE;
      stakers[who] := s.(pending := SatAdd64(s.pending, AsU64(earned)), checkpoint := rewardPerToken);
    }

    method DoAccrueAll()
      requires CheckpointsReached(View())
      modifies stakers
      ensures View() == AccrueAll(old(View()))
    {
      ghost var before := stakers[..];
      for who := 0 to stakers.Length
        invariant forall j :: 0 <= j < who ==> stakers[j] == Accrue(before[j], rewardPerToken)
        invariant forall j :: who <= j < stakers.Length ==> stakers[j] == before[j]
        invariant CheckpointsReached(View())
      {
        DoAccrue(who);
      }
    }

    /** `None` when the `u64` sum overflows, at which the source panics. */
    method SumStaked() returns (sum: Option<u64>)
      ensures sum == if TotalStaked(stakers[..]) <= U64_MAX then Some(TotalStaked(stakers[..])) else None
    {
      var total: u64 := 0;
      for i := 0 to stakers.Length
        invariant total == TotalStaked(stakers[..i])
      {
        StakesUpTo(stakers[..], i);
        if total + stakers[i].staked > U64_MAX {
          return None;
        }
        total := total + stakers[i].staked;
      }
      assert stakers[..stakers.Length] == stakers[..];
      return Some(total);
    }

    method DoStake(who: nat, amount: u64)
      requires CheckpointsReached(View()) && who < stakers.Length
      modifies this, stakers
      ensures stakers == old(stakers) && View() == Stake(old(View()), who, amount)
    {
      DoAccrue(who);
      stakers[who] := stakers[who].(staked := SatAdd64(stakers[who].staked, amount));
      stakeBalance := SatAdd64(stakeBalance, amount);
    }

    method DoUnbond(who: nat, amount: u64)
      requires CheckpointsReached(View()) && who < stakers.Length
      modifies stakers
      ensures View() == Unbond(old(View()), who, amount)
    {
      DoAccrue(who);
      var s := stakers[who];
      var taken: u64 := Min(amount, s.staked);
      stakers[who] := s.(staked := s.staked - taken, unbonding := SatAdd64(s.unbonding, taken));
    }

    /** The sum of the stakes must fit a `u64`, as `total_staked` demands. */
    method DoReward(amount: u64)
      requires CheckpointsReached(View()) && TotalStaked(stakers[..]) <= U64_MAX
      modifies this, stakers
      ensures stakers == old(stakers) && View() == Reward(old(View()), amount)
    {
      DoAccrueAll();
      AccrualKeepsStakes(old(View()));
      deposited := SatAdd64(deposited, amount);
      rewardBalance := SatAdd64(rewardBalance, amount);
      var sum := SumStaked();
      var total := sum.value;
      if total > 0 {
        rewardPerToken := rewardPerToken + amount * SCALE / total;
      }
    }

    method DoSlash(requested: u64)
      requires CheckpointsReached(View()) && TotalStaked(stakers[..]) <= U64_MAX
      modifies this, stakers
      ensures stakers == old(stakers) && View() == Slash(old(View()), requested)
    {
      DoAccrueAll();
      AccrualKeepsStakes(old(View()));
      var sum := SumStaked();
      var total := sum.value;
      SumSeqNonNegative(stakers[..], StakedOf);
      var amount: nat := Min(requested, total);
      if amount == 0 {
        return;
      }
      SharesAtMostAmount(stakers[..], amount, total);
      var remaining := CutStakers(amount, total);
      stakeBalance := SatSub64(stakeBalance, amount - remaining);
    }

    /** The slashing loop with its early exit, its skipped stakers and its two caps takes exactly the rounded-down
        shares: the caps never bind, and the exit leaves out only shares of zero. */
    method CutStakers(amount: nat, total: nat) returns (remaining: nat)
      requires 0 < amount <= total == TotalStaked(stakers[..])
      modifies stakers
      ensures stakers[..] == SlashedStakers(old(stakers[..]), amount, total)
      ensures remaining == amount - SumSeq(old(stakers[..]), CutOf(amount, total))
    {
      ghost var before, cut := stakers[..], CutOf(amount, total);
      SharesAtMostAmount(before, amount, total);
      remaining := amount;
      var who := 0;
      while who < stakers.Length
        invariant 0 <= who <= stakers.Length
        invariant forall j :: 0 <= j < who ==> stakers[j] == SlashOne(before[j], amount, total)
        invariant forall j :: who <= j < stakers.Length ==> stakers[j] == before[j]
        invariant remaining == amount - SumSeq(before, cut) + SumSeq(before[who..], cut)
      {
        if remaining == 0 {
          break;
        }
        CapsDoNotBind(before, who, amount, total, remaining);
        remaining := CutOne(who, amount, total, remaining);
        who := who + 1;
      }
      NothingLeftToCut(before, who, amount, total);
    }

    /** One staker's cut, with the skip and the two caps. */
    method CutOne(who: nat, amount: nat, total: nat, remaining: nat) returns (left: nat)
      requires 0 < amount <= total && who < stakers.Length
      requires Share(stakers[who].staked, amount, total) <= remaining
      modifies stakers
      ensures stakers[..] == old(stakers[..])[who := SlashOne(old(stakers[who]), amount, total)]
      ensures left == remaining - Share(old(stakers[who].staked), amount, total)
    {
      var staked := stakers[who].staked;
      if staked == 0 {
        return remaining;
      }
      var share := Share(staked, amount, total);
      var taken: nat := Min(Min(share, staked), remaining);
      stakers[who] := stakers[who].(staked := staked - taken);
      return remaining - taken;
    }

    method DoClaim(who: nat)
      requires CheckpointsReached(View()) && who < stakers.Length
      modifies this, stakers
      ensures stakers == old(stakers) && View() == Claim(old(View()), who)
    {
      DoAccrue(who);
      var s := stakers[who];
      var claimable: u64 := Min(s.pending, rewardBalance);
      stakers[who] := s.(pending := s.pending - claimable, claimed := SatAdd64(s.claimed, claimable));
      totalClaimed := SatAdd64(totalClaimed, claimable);
      rewardBalance := rewardBalance - claimable;
    }
  }

  /** A prefix of the stakes adds up to no more than all of them. */
  lemma StakesUpTo(stakers: seq<Staker>, i: nat)
    requires i < |stakers|
    ensures TotalStaked(stakers[..i + 1]) == TotalStaked(stakers[..i]) + stakers[i].staked <= TotalStaked(stakers)
  {
    assert stakers[..i + 1] == stakers[..i] + [stakers[i]];
    SumSeqAppend(stakers[..i], [stakers[i]], StakedOf);
    assert stakers == stakers[..i + 1] + stakers[i + 1..];
    SumSeqAppend(stakers[..i + 1], stakers[i + 1..], StakedOf);
    SumSeqNonNegative(stakers[i + 1..], StakedOf);
  }

  lemma AccrualKeepsStakes(p: Pool)
    requires CheckpointsReached(p)
    ensures TotalStaked(AccrueAll(p).stakers) == TotalStaked(p.stakers)
  {
    SumSeqSame(p.stakers, AccrueAll(p).stakers, StakedOf);
  }

  /** The staker about to be cut: the share is within the stake and within what remains. */
  lemma CapsDoNotBind(stakers: seq<Staker>, who: nat, amount: nat, total: nat, remaining: nat)
    requires 0 < amount <= total && who < |stakers|
    requires remaining >= SumSeq(stakers[who..], CutOf(amount, total))
    ensures var share := Share(stakers[who].staked, amount, total);
            && 0 <= share <= stakers[who].staked && share <= remaining
            && SumSeq(stakers[who..], CutOf(amount, total)) == share + SumSeq(stakers[who + 1..], CutOf(amount, total))
  {
    assert stakers[who..][1..] == stakers[who + 1..];
    SumSeqNonNegative(stakers[who + 1..], CutOf(amount, total));
  }

  /** When nothing remains, every remaining share is zero. */
  lemma NothingLeftToCut(stakers: seq<Staker>, who: nat, amount: nat, total: nat)
    requires total > 0 && who <= |stakers|
    ensures var rest := SumSeq(stakers[who..], CutOf(amount, total));
            && rest >= 0
            && (rest == 0 ==> forall j :: who <= j < |stakers| ==> Share(stakers[j].staked, amount, total) == 0)
  {
    var rest := stakers[who..];
    SumSeqNonNegative(rest, CutOf(amount, total));
    forall j | who <= j < |stakers|
      ensures CutOf(amount, total)(stakers[j]) <= SumSeq(rest, CutOf(amount, total))
    {
      assert rest[j - who] == stakers[j];
    }
  }
}
