/**
  The airdrop over whole runs: the contract always holds what it has locked, what it has locked is what it still owes,
  no schedule is ever overwritten, and what a schedule has released does not depend on when it was released.
 */
module AirdropSafety {
  import opened Wrappers
  import opened Arith
  import opened Sums
  import opened Runs
  import opened TokenLedger
  import opened FixedMath
  import opened Merkle
  import opened Airdrop
  import opened AirdropBatch

  // ----- vesting

  /** The exact vested amount, rounded down. */
  function Vested(s: Schedule, now: u32): int {
    var elapsed := SatSub32(now, s.startLedger);
    if s.durationLedgers == 0 || elapsed >= s.durationLedgers then s.total else s.total * elapsed / s.durationLedgers
  }

  /** The computed amount is the exact one, and is missing exactly when the product overflows before the end. */
  lemma VestedAmountExact(s: Schedule, now: u32)
    requires 0 <= s.total <= I128_MAX
    ensures VestedAmount(s, now).Some? ==> VestedAmount(s, now).value == Vested(s, now)
    ensures var elapsed := SatSub32(now, s.startLedger);
            VestedAmount(s, now) == None <==> elapsed < s.durationLedgers && s.total * elapsed > I128_MAX
  {
    MulMonotone(0, s.total, SatSub32(now, s.startLedger));
  }

  /** Vesting starts at nothing, never falls, never exceeds the total, and reaches it at the end. */
  lemma VestingIsMonotone(s: Schedule, now: u32, later: u32)
    requires 0 <= s.total && s.durationLedgers > 0 && now <= later
    ensures 0 <= Vested(s, now) <= Vested(s, later) <= s.total
    ensures later <= s.startLedger ==> Vested(s, later) == 0
    ensures later >= s.startLedger + s.durationLedgers ==> Vested(s, later) == s.total
  {
    var n, a, b := s.durationLedgers, SatSub32(now, s.startLedger), SatSub32(later, s.startLedger);
    DivUnique(0, n, 0);
    DivUnique(s.total * n, n, s.total);
    MulDistributes(s.total, 1, n);
    MulMonotone(0, s.total, a);
    DivMonotone(0, s.total * a, n);
    if b < n {
      MulMonotone(a, b, s.total);
      DivMonotone(s.total * a, s.total * b, n);
      MulMonotone(b, n, s.total);
      DivMonotone(s.total * b, s.total * n, n);
    } else if a < n {
      MulMonotone(a, n, s.total);
      DivMonotone(s.total * a, s.total * n, n);
    }
  }

  // ----- the invariant

  /** What is still to be released of each schedule of a token. */
  ghost function Owed(schedules: map<Pair, Schedule>, t: Address): map<Pair, int> {
    map p | p in schedules && p.1 == t :: schedules[p].total - schedules[p].released
  }

  lemma OwedUpdate(schedules: map<Pair, Schedule>, p: Pair, s: Schedule, t: Address)
    ensures Total(Owed(schedules[p := s], t))
            == Total(Owed(schedules, t)) + When(p.1 == t, s.total - s.released - Get(Owed(schedules, t), p))
  {
    if p.1 == t {
      assert Owed(schedules[p := s], t) == Owed(schedules, t)[p := s.total - s.released];
      TotalUpdate(Owed(schedules, t), p, s.total - s.released);
    } else {
      assert Owed(schedules[p := s], t) == Owed(schedules, t);
    }
  }

  /** Started, and released no further than the line from nothing at the start to the total at the end. */
  ghost predicate OnSchedule(s: Schedule, now: u32) {
    && 0 < s.total <= I128_MAX && s.durationLedgers > 0 && s.startLedger <= now
    && 0 <= s.released <= s.total
    && (now - s.startLedger < s.durationLedgers ==> s.released * s.durationLedgers <= s.total * (now - s.startLedger))
  }

  /** Below the line means no more than what is vested. */
  lemma OnScheduleExactly(s: Schedule, now: u32)
    requires 0 < s.total <= I128_MAX && s.durationLedgers > 0 && s.startLedger <= now
    ensures OnSchedule(s, now) <==> 0 <= s.released <= Vested(s, now)
  {
    var n, x := s.durationLedgers, s.total * (now - s.startLedger);
    VestingIsMonotone(s, now, now);
    DivBounds(x, n);
    if s.released <= x / n {
      MulMonotone(s.released, x / n, n);
    } else {
      MulMonotone(x / n + 1, s.released, n);
    }
  }

  ghost predicate SoundTokens(balances: Ledger) {
    forall t :: Sound(WalletsIn(balances, t))
  }

  /** Every schedule belongs to a claim and is on schedule. */
  ghost predicate SoundSchedules(schedules: map<Pair, Schedule>, claimed: set<Pair>, now: u32) {
    schedules.Keys <= claimed && forall p :: p in schedules ==> OnSchedule(schedules[p], now)
  }

  /** The locked total of a token is what its schedules still owe. */
  ghost predicate LocksWhatItOwes(locked: map<Address, int>, schedules: map<Pair, Schedule>) {
    forall t :: Get(locked, t) == Total(Owed(schedules, t))
  }

  ghost predicate HoldsWhatItLocks(balances: Ledger, self: Address, locked: map<Address, int>) {
    forall t :: Get(locked, t) <= Get(WalletsIn(balances, t), self)
  }

  ghost predicate Inv(w: World) {
    && ValidVesting(w.vesting)
    && SoundTokens(w.balances)
    && SoundSchedules(w.schedules, w.claimed, w.now)
    && LocksWhatItOwes(w.locked, w.schedules)
    && HoldsWhatItLocks(w.balances, w.self, w.locked)
  }

  /** Every schedule owes part of what is locked. */
  lemma OwedIsLocked(w: World, p: Pair)
    requires Inv(w) && p in w.schedules
    ensures 0 <= w.schedules[p].total - w.schedules[p].released <= Get(w.locked, p.1) <= Balance(w, p.1) <= I128_MAX
  {
    OwedNonNegative(w, p.1);
    GetAtMostTotal(Owed(w.schedules, p.1), p);
    GetAtMostTotal(WalletsOf(w, p.1), w.self);
  }

  lemma OwedNonNegative(w: World, t: Address)
    requires Inv(w)
    ensures AllNonNegative(Owed(w.schedules, t)) && 0 <= Get(w.locked, t) <= Balance(w, t) <= I128_MAX
  {
    var owed := Owed(w.schedules, t);
    SumNonNegative(owed, owed.Keys);
    GetAtMostTotal(WalletsOf(w, t), w.self);
  }

  // ----- paying

  /** Every balance of every token is unchanged but for `amount` of `token`, which went from `self` to `to`. */
  ghost predicate Paid(before: Ledger, after: Ledger, self: Address, to: Address, token: Address, amount: int) {
    && SoundTokens(after)
    && forall t, a :: Get(WalletsIn(after, t), a)
                      == Get(WalletsIn(before, t), a) - When(t == token && a == self, amount)
                         + When(t == token && a == to, amount)
  }

  /** The contract can pay whatever it holds, unless the token refuses. */
  lemma PayMoves(w: World, to: Address, token: Address, amount: nat)
    requires SoundTokens(w.balances) && amount <= Balance(w, token)
    ensures Pay(w, to, token, amount).Ok? <==> CanPay(w, to, token)
    ensures Pay(w, to, token, amount).Err? ==> Pay(w, to, token, amount) == Err(TokenTrap)
    ensures Pay(w, to, token, amount).Ok? ==>
              var v := Pay(w, to, token, amount).value;
              v == w.(balances := v.balances) && Paid(w.balances, v.balances, w.self, to, token, amount)
  {
    TransferMoves(RefusedBy(w, token), WalletsIn(w.balances, token), w.self, to, amount);
    if CanPay(w, to, token) {
      PaidBalances(w, to, token, amount);
    }
  }

  lemma PaidBalances(w: World, to: Address, token: Address, amount: nat)
    requires SoundTokens(w.balances) && Pay(w, to, token, amount).Ok?
    ensures Paid(w.balances, Pay(w, to, token, amount).value.balances, w.self, to, token, amount)
  {
    TransferMoves(RefusedBy(w, token), WalletsIn(w.balances, token), w.self, to, amount);
    var before, after := w.balances, Pay(w, to, token, amount).value.balances;
    forall t
      ensures Sound(WalletsIn(after, t))
      ensures Moved(WalletsIn(before, t), WalletsIn(after, t), w.self, to, When(t == token, amount))
    {
      assert t != token ==> WalletsIn(after, t) == WalletsIn(before, t);
    }
    forall t, a
      ensures Get(WalletsIn(after, t), a)
              == Get(WalletsIn(before, t), a) - When(t == token && a == w.self, amount)
                 + When(t == token && a == to, amount)
    {
      assert Moved(WalletsIn(before, t), WalletsIn(after, t), w.self, to, When(t == token, amount));
    }
  }

  /** The contract's own balance falls by no more than it pays. */
  lemma StillHolds(before: Ledger, after: Ledger, self: Address, to: Address, token: Address, amount: nat,
                   locked: map<Address, int>)
    requires Paid(before, after, self, to, token, amount)
    requires forall t :: Get(locked, t) <= Get(WalletsIn(before, t), self) - When(t == token, amount)
    ensures HoldsWhatItLocks(after, self, locked)
  {
    forall t
      ensures Get(locked, t) <= Get(WalletsIn(after, t), self)
    {
      assert Get(WalletsIn(after, t), self) >= Get(WalletsIn(before, t), self) - When(t == token, amount);
    }
  }

  // ----- claims

  lemma {:induction false} ShortfallKind(w: World, entries: seq<Entry>, i: nat)
    requires forall t :: FitsI128(Available(w, t))
    requires i <= |entries|
    ensures FirstShortfall(w, entries, i) in {None, Some(InsufficientBalance)}
    decreases |entries| - i
  {
    if i < |entries| {
      ShortfallKind(w, entries, i + 1);
    }
  }

  /** In a state with the invariant no availability check overflows, so the order in which the totals of a batch are
      checked does not matter: whichever token falls short, the error is the same. */
  lemma ShortfallIsInsufficientBalance(w: World, entries: seq<Entry>)
    requires Inv(w)
    ensures FirstShortfall(w, entries, 0)
            == if forall k :: 0 <= k < |entries| ==>
                    TotalOf(entries, entries[k].token) <= Available(w, entries[k].token)
               then None else Some(InsufficientBalance)
  {
    forall t
      ensures FitsI128(Available(w, t))
    {
      OwedNonNegative(w, t);
    }
    ShortfallKind(w, entries, 0);
    NoShortfall(w, entries, 0);
  }

  /** Earlier schedules keep their total, start and duration, release only more, and claims stay marked. */
  ghost predicate Preserves(w: World, v: World) {
    && v.self == w.self
    && w.claimed <= v.claimed
    && forall p :: p in w.schedules ==>
         && p in v.schedules
         && v.schedules[p] == w.schedules[p].(released := v.schedules[p].released)
         && w.schedules[p].released <= v.schedules[p].released
  }

  /** What someone holds of a token and is still owed of it. */
  ghost function Worth(w: World, a: Address, t: Address): int {
    Get(WalletsOf(w, t), a) + Get(Owed(w.schedules, t), (a, t))
  }

  function SchedulesAfter(w: World, e: Entry, locked: int): map<Pair, Schedule> {
    if w.vesting.Some? && locked > 0 then
      w.schedules[PairOf(e) := Schedule(locked, 0, w.now, w.vesting.value.durationLedgers)]
    else
      w.schedules
  }

  /** `v` is `w` with the claim marked, `liquid` of it paid and the rest locked. */
  ghost predicate Settled(w: World, e: Entry, v: World, liquid: int) {
    && v == w.(claimed := w.claimed + {PairOf(e)}, schedules := SchedulesAfter(w, e, e.amount - liquid),
               locked := v.locked, balances := v.balances)
    && (forall t :: Get(v.locked, t) == Get(w.locked, t) + When(t == e.token, e.amount - liquid))
    && Paid(w.balances, v.balances, w.self, e.recipient, e.token, liquid)
  }

  /** The state after marking the claim and locking, before paying. */
  function Kept(w: World, e: Entry, locked: int): World {
    w.(claimed := w.claimed + {PairOf(e)}, schedules := SchedulesAfter(w, e, locked),
       locked := if w.vesting.Some? && locked > 0 then w.locked[e.token := Get(w.locked, e.token) + locked]
                 else w.locked)
  }

  /** With room in the locked total, a claim fails only when the part paid at once overflows or cannot be paid. */
  lemma SettleIsPayment(w: World, e: Entry)
    requires ValidVesting(w.vesting) && e.amount > 0
    requires 0 <= Get(w.locked, e.token) && Get(w.locked, e.token) + e.amount <= I128_MAX
    ensures match Liquid(w, e.amount)
            case None => Settle(w, e).Err?
            case Some(liquid) =>
              Settle(w, e) == PayKept(w, e, liquid)
  {
    if Liquid(w, e.amount).Some? {
      LiquidWithinAmount(w, e.amount);
    }
  }

  function PayKept(w: World, e: Entry, liquid: int): Result<World, AirdropError> {
    var kept := Kept(w, e, e.amount - liquid);
    if liquid > 0 then Pay(kept, e.recipient, e.token, liquid) else Ok(kept)
  }

  lemma KeptLocks(w: World, e: Entry, locked: nat)
    requires locked > 0 ==> w.vesting.Some?
    ensures forall t :: Get(Kept(w, e, locked).locked, t) == Get(w.locked, t) + When(t == e.token, locked)
  {
  }

  lemma PaymentSettles(w: World, e: Entry, liquid: nat)
    requires SoundTokens(w.balances) && liquid <= e.amount && liquid <= Balance(w, e.token)
    requires e.amount > liquid ==> w.vesting.Some?
    ensures PayKept(w, e, liquid).Ok? <==> (liquid > 0 ==> CanPay(w, e.recipient, e.token))
    ensures PayKept(w, e, liquid).Ok? ==> Settled(w, e, PayKept(w, e, liquid).value, liquid)
  {
    var kept := Kept(w, e, e.amount - liquid);
    KeptLocks(w, e, e.amount - liquid);
    if liquid > 0 {
      PayMoves(kept, e.recipient, e.token, liquid);
    } else {
      assert Paid(w.balances, kept.balances, w.self, e.recipient, e.token, 0);
    }
  }

  /** The part paid at once can be computed, and the token does not refuse to pay it. */
  ghost predicate Settles(w: World, e: Entry) {
    && Liquid(w, e.amount).Some?
    && (Liquid(w, e.amount).value > 0 ==> CanPay(w, e.recipient, e.token))
  }

  /** Nothing else can make a claim fail that the contract can cover. */
  lemma SettleEffect(w: World, e: Entry)
    requires ValidVesting(w.vesting) && SoundTokens(w.balances)
    requires 0 <= Get(w.locked, e.token) && Balance(w, e.token) <= I128_MAX
    requires 0 < e.amount <= Available(w, e.token)
    ensures Settle(w, e).Ok? <==> Settles(w, e)
    ensures Settle(w, e).Ok? ==> Settled(w, e, Settle(w, e).value, Liquid(w, e.amount).value)
  {
    SettleIsPayment(w, e);
    if Liquid(w, e.amount).Some? {
      LiquidWithinAmount(w, e.amount);
      PaymentSettles(w, e, Liquid(w, e.amount).value);
    }
  }

  /** A new schedule owes what it locks. */
  lemma NewScheduleOwes(w: World, e: Entry, locked: nat, t: Address)
    requires SoundSchedules(w.schedules, w.claimed, w.now) && PairOf(e) !in w.claimed
    requires locked > 0 ==> w.vesting.Some?
    ensures var after := SchedulesAfter(w, e, locked);
            Total(Owed(after, t)) == Total(Owed(w.schedules, t)) + When(t == e.token, locked)
  {
    if locked > 0 {
      OwedUpdate(w.schedules, PairOf(e), Schedule(locked, 0, w.now, w.vesting.value.durationLedgers), t);
    }
  }

  lemma SettleKeepsInv(w: World, e: Entry)
    requires Inv(w) && e.amount > 0 && PairOf(e) !in w.claimed && e.amount <= Available(w, e.token)
    ensures Settle(w, e).Ok? <==> Settles(w, e)
    ensures Settle(w, e).Ok? ==> Inv(Settle(w, e).value) && Preserves(w, Settle(w, e).value)
  {
    OwedNonNegative(w, e.token);
    SettleEffect(w, e);
    if Settle(w, e).Ok? {
      LiquidWithinAmount(w, e.amount);
      SettledKeepsInv(w, e, Settle(w, e).value, Liquid(w, e.amount).value);
    }
  }

  lemma SettledLocksWhatItOwes(w: World, e: Entry, v: World, liquid: nat)
    requires Inv(w) && PairOf(e) !in w.claimed && liquid <= e.amount
    requires Settled(w, e, v, liquid)
    requires e.amount > liquid ==> w.vesting.Some?
    ensures LocksWhatItOwes(v.locked, v.schedules)
  {
    forall t
      ensures Get(v.locked, t) == Total(Owed(v.schedules, t))
    {
      NewScheduleOwes(w, e, e.amount - liquid, t);
    }
  }

  lemma SettledPreserves(w: World, e: Entry, v: World, liquid: nat)
    requires PairOf(e) !in w.claimed && w.schedules.Keys <= w.claimed && Settled(w, e, v, liquid)
    ensures Preserves(w, v)
  {
  }

  lemma SettledKeepsInv(w: World, e: Entry, v: World, liquid: nat)
    requires Inv(w) && PairOf(e) !in w.claimed && liquid <= e.amount <= Available(w, e.token)
    requires Settled(w, e, v, liquid)
    requires e.amount > liquid ==> w.vesting.Some? && w.vesting.value.durationLedgers > 0
    ensures Inv(v) && Preserves(w, v)
  {
    SettledLocksWhatItOwes(w, e, v, liquid);
    SettledPreserves(w, e, v, liquid);
    assert SoundSchedules(v.schedules, v.claimed, v.now) by {
      NewScheduleSound(w, e, e.amount - liquid);
    }
    StillHolds(w.balances, v.balances, w.self, e.recipient, e.token, liquid, v.locked);
  }

  lemma NewScheduleSound(w: World, e: Entry, locked: nat)
    requires SoundSchedules(w.schedules, w.claimed, w.now) && PairOf(e) !in w.claimed && locked <= I128_MAX
    requires locked > 0 ==> w.vesting.Some? && w.vesting.value.durationLedgers > 0
    ensures forall p :: p in SchedulesAfter(w, e, locked) ==> OnSchedule(SchedulesAfter(w, e, locked)[p], w.now)
  {
  }

  /** A claim adds its amount to what the recipient holds or is owed, and changes nobody else's. */
  lemma ClaimAddsItsAmount(w: World, e: Entry, a: Address, t: Address)
    requires Inv(w) && e.amount > 0 && PairOf(e) !in w.claimed && e.amount <= Available(w, e.token)
    requires Settle(w, e).Ok? && a != w.self
    ensures Worth(Settle(w, e).value, a, t) == Worth(w, a, t) + When(a == e.recipient, AskedOf(t)(e))
  {
    OwedNonNegative(w, e.token);
    SettleEffect(w, e);
    LiquidWithinAmount(w, e.amount);
  }

  // ----- releases

  /** The state after recording the release, before paying. */
  function Unlocked(w: World, p: Pair, amount: int): World
    requires p in w.schedules
  {
    var s := w.schedules[p];
    w.(schedules := w.schedules[p := s.(released := s.released + amount)],
       locked := w.locked[p.1 := Get(w.locked, p.1) - amount])
  }

  /** `v` is `w` with `amount` more of the schedule of `p` released and paid. */
  ghost predicate Released(w: World, p: Pair, v: World, amount: int)
    requires p in w.schedules
  {
    && v == Unlocked(w, p, amount).(balances := v.balances)
    && Paid(w.balances, v.balances, w.self, p.0, p.1, amount)
  }

  lemma ReleaseIsPayment(w: World, p: Pair, amount: int)
    requires p.0 != w.self
    requires p in w.schedules && ReleasableAmount(w.schedules[p], w.now) == Some(amount) && amount > 0
    requires FitsI128(w.schedules[p].released + amount) && FitsI128(Get(w.locked, p.1) - amount)
    ensures Release(w, p.0, p.1)
            == match Pay(Unlocked(w, p, amount), p.0, p.1, amount)
               case Err(error) => Err(error)
               case Ok(v) => Ok((v, amount))
  {
    assert (p.0, p.1) == p;
  }

  lemma ReleasableExact(s: Schedule, now: u32)
    requires OnSchedule(s, now)
    ensures 0 <= s.released <= Vested(s, now) <= s.total <= I128_MAX
    ensures VestedAmount(s, now) == None ==> ReleasableAmount(s, now) == None
    ensures VestedAmount(s, now).Some? ==> ReleasableAmount(s, now) == Some(Vested(s, now) - s.released)
  {
    OnScheduleExactly(s, now);
    VestedAmountExact(s, now);
    VestingIsMonotone(s, now, now);
  }

  /** A release by its recipient pays exactly what has vested and is not yet released. It fails only when that is
      nothing, when the vested amount overflows, or when the token refuses the payment. */
  lemma ReleaseOutcome(w: World, p: Pair)
    requires Inv(w) && p in w.schedules
    ensures var s, r := w.schedules[p], Release(w, p.0, p.1);
            var some := VestedAmount(s, w.now).Some? && Vested(s, w.now) > s.released;
            && s.released <= Vested(s, w.now)
            && (r == Err(AuthTrap) <==> p.0 == w.self)
            && (r == Err(ArithmeticOverflow) <==> p.0 != w.self && VestedAmount(s, w.now) == None)
            && (r == Err(NothingToRelease) <==>
                  p.0 != w.self && VestedAmount(s, w.now).Some? && Vested(s, w.now) == s.released)
            && (r == Err(TokenTrap) <==> p.0 != w.self && some && !CanPay(w, p.0, p.1))
            && (r.Ok? <==> p.0 != w.self && some && CanPay(w, p.0, p.1))
            && (r.Ok? ==> r.value.1 == Vested(s, w.now) - s.released && Released(w, p, r.value.0, r.value.1))
  {
    var s := w.schedules[p];
    ReleasableExact(s, w.now);
    OwedIsLocked(w, p);
    assert (p.0, p.1) == p;
    var amount := Vested(s, w.now) - s.released;
    if p.0 != w.self && VestedAmount(s, w.now).Some? && amount > 0 {
      PayMoves(Unlocked(w, p, amount), p.0, p.1, amount);
      ReleaseIsPayment(w, p, amount);
    }
  }

  lemma UnlockedOwes(w: World, p: Pair, amount: int)
    requires p in w.schedules && LocksWhatItOwes(w.locked, w.schedules)
    ensures LocksWhatItOwes(Unlocked(w, p, amount).locked, Unlocked(w, p, amount).schedules)
  {
    var s, v := w.schedules[p], Unlocked(w, p, amount);
    forall t
      ensures Get(v.locked, t) == Total(Owed(v.schedules, t))
    {
      OwedUpdate(w.schedules, p, s.(released := s.released + amount), t);
    }
  }

  lemma UnlockedSound(w: World, p: Pair, amount: nat)
    requires SoundSchedules(w.schedules, w.claimed, w.now)
    requires p in w.schedules && OnSchedule(Unlocked(w, p, amount).schedules[p], w.now)
    ensures var v := Unlocked(w, p, amount);
            SoundSchedules(v.schedules, v.claimed, v.now) && Preserves(w, v)
  {
  }

  lemma ReleasedKeepsInv(w: World, p: Pair, v: World, amount: nat)
    requires Inv(w) && p in w.schedules && w.schedules[p].released + amount <= Vested(w.schedules[p], w.now)
    requires Released(w, p, v, amount)
    ensures Inv(v) && Preserves(w, v)
  {
    var s := w.schedules[p];
    var r := s.(released := s.released + amount);
    assert OnSchedule(s, w.now);
    VestedDependsOnTerms(s, r);
    OnScheduleExactly(r, w.now);
    UnlockedSound(w, p, amount);
    UnlockedOwes(w, p, amount);
    StillHolds(w.balances, v.balances, w.self, p.0, p.1, amount, v.locked);
  }

  lemma ReleasedMovesOwed(w: World, p: Pair, v: World, amount: int, a: Address, t: Address)
    requires p in w.schedules && Released(w, p, v, amount)
    ensures a != w.self ==> Worth(v, a, t) == Worth(w, a, t)
    ensures p.0 != w.self ==> Available(v, t) == Available(w, t)
  {
    assert Get(WalletsIn(v.balances, t), a)
        == Get(WalletsIn(w.balances, t), a) - When(t == p.1 && a == w.self, amount)
           + When(t == p.1 && a == p.0, amount);
  }

  /** A release moves tokens from what the recipient is owed to what they hold, and takes nothing from what is
      available for claims. */
  lemma ReleaseMovesOwed(w: World, p: Pair, a: Address, t: Address)
    requires Inv(w) && p in w.schedules && Release(w, p.0, p.1).Ok?
    ensures var v := Release(w, p.0, p.1).value.0;
            && (a != w.self ==> Worth(v, a, t) == Worth(w, a, t))
            && Available(v, t) == Available(w, t)
  {
    ReleaseOutcome(w, p);
    ReleasedMovesOwed(w, p, Release(w, p.0, p.1).value.0, Release(w, p.0, p.1).value.1, a, t);
  }

  // ----- runs

  datatype Op =
    | OpInitialize(deadline: u32, vesting: Option<VestingConfig>)
    | OpSetRoot(root: Node)
    | OpClaim(entry: Entry, path: seq<Node>)
    | OpClaimBatch(entries: seq<Entry>, proof: seq<Node>, flags: seq<bool>)
    | OpRelease(pair: Pair)
    | OpTransfer(token: Address, from: Address, to: Address, amount: int)
    | OpAdvance(ledgers: u32)
    | OpRefuse(token: Address, refused: set<Address>)

  function Apply(env: Host, w: World, op: Op): Result<World, AirdropError> {
    match op
    case OpInitialize(deadline, vesting) => Initialize(w, deadline, vesting)
    case OpSetRoot(root) => SetRoot(w, root)
    case OpClaim(entry, path) => Claim(env, w, entry, path)
    case OpClaimBatch(entries, proof, flags) => ClaimBatch(env, w, entries, proof, flags)
    case OpRelease(p) =>
      (match Release(w, p.0, p.1)
       case Err(error) => Err(error)
       case Ok(done) => Ok(done.0))
    case OpTransfer(token, from, to, amount) =>
      (match Transfer(RefusedBy(w, token), WalletsOf(w, token), from, to, amount)
       case None => Err(TokenTrap)
       case Some(v) => Ok(w.(balances := w.balances[token := v])))
    case OpAdvance(ledgers) => Ok(w.(now := SatAdd32(w.now, ledgers)))
    case OpRefuse(token, refused) => Ok(w.(refused := w.refused[token := refused]))
  }

  /** A failed operation changes nothing. */
  function Next(env: Host): (World, Op) -> World {
    (w: World, op: Op) =>
      match Apply(env, w, op)
      case Err(_) => w
      case Ok(v) => v
  }

  /** Anyone but the contract may move their own tokens, also to the contract. */
  ghost predicate Admissible(w: World, op: Op) {
    op.OpTransfer? ==> op.from != w.self
  }

  ghost predicate Genesis(w: World) {
    && !w.initialized && w.root == None && w.vesting == None
    && w.claimed == {} && w.schedules == map[] && w.locked == map[]
    && SoundTokens(w.balances)
  }

  lemma GenesisHasInv(w: World)
    requires Genesis(w)
    ensures Inv(w)
  {
    forall t
      ensures Total(Owed(w.schedules, t)) == 0 && 0 <= Balance(w, t)
    {
      TotalEmpty(Owed(w.schedules, t));
      GetAtMostTotal(WalletsOf(w, t), w.self);
    }
  }

  lemma PreservesTransitive(u: World, v: World, w: World)
    requires Preserves(u, v) && Preserves(v, w)
    ensures Preserves(u, w)
  {
  }

  lemma {:induction false} SettleAllKeepsInv(w: World, entries: seq<Entry>)
    requires Inv(w) && Claimable(w, entries) && Covered(w, entries)
    requires SettleAll(w, entries).Ok?
    ensures Inv(SettleAll(w, entries).value) && Preserves(w, SettleAll(w, entries).value)
    decreases entries
  {
    if entries != [] {
      var v := Settle(w, entries[0]).value;
      FirstIsAvailable(w, entries);
      SettleKeepsInv(w, entries[0]);
      RestCovered(w, entries);
      SettleAllKeepsInv(v, entries[1..]);
      PreservesTransitive(w, v, SettleAll(w, entries).value);
    }
  }

  lemma TransferKeepsInv(w: World, token: Address, from: Address, to: Address, amount: int)
    requires Inv(w) && from != w.self && Transfer(RefusedBy(w, token), WalletsOf(w, token), from, to, amount).Some?
    ensures var moved := Transfer(RefusedBy(w, token), WalletsOf(w, token), from, to, amount).value;
            Inv(w.(balances := w.balances[token := moved]))
  {
    var moved := Transfer(RefusedBy(w, token), WalletsOf(w, token), from, to, amount).value;
    var v := w.(balances := w.balances[token := moved]);
    TransferMoves(RefusedBy(w, token), WalletsOf(w, token), from, to, amount);
    forall t
      ensures Sound(WalletsIn(v.balances, t))
      ensures Get(WalletsIn(v.balances, t), w.self) >= Get(WalletsIn(w.balances, t), w.self)
    {
      assert WalletsIn(v.balances, t) == if t == token then moved else WalletsIn(w.balances, t);
      assert Get(moved, w.self) >= Get(WalletsIn(w.balances, token), w.self);
    }
  }

  lemma AdvanceKeepsInv(w: World, ledgers: u32)
    requires Inv(w)
    ensures Inv(w.(now := SatAdd32(w.now, ledgers)))
  {
    forall p | p in w.schedules
      ensures OnSchedule(w.schedules[p], SatAdd32(w.now, ledgers))
    {
      var s, now, later := w.schedules[p], w.now, SatAdd32(w.now, ledgers);
      MulMonotone(now - s.startLedger, later - s.startLedger, s.total);
    }
  }

  lemma StepKeepsInv(env: Host, w: World, op: Op)
    requires Inv(w) && Admissible(w, op)
    ensures Inv(Next(env)(w, op)) && Preserves(w, Next(env)(w, op))
  {
    var r := Apply(env, w, op);
    if r.Ok? {
      match op
      case OpInitialize(_, _) =>
      case OpSetRoot(_) =>
      case OpClaim(e, _) =>
        SettleKeepsInv(w, e);
      case OpClaimBatch(entries, _, _) =>
        ValidationExact(w, entries);
        SettleAllKeepsInv(w, entries);
      case OpRelease(p) =>
        ReleaseOutcome(w, p);
        ReleasedKeepsInv(w, p, r.value, Release(w, p.0, p.1).value.1);
      case OpTransfer(token, from, to, amount) =>
        TransferKeepsInv(w, token, from, to, amount);
      case OpAdvance(ledgers) =>
        AdvanceKeepsInv(w, ledgers);
      case OpRefuse(_, _) =>
    }
  }

  // ----- what holds over every run

  ghost predicate InvSince(u: World, w: World) {
    Inv(w) && Preserves(u, w)
  }

  /** From any state with the invariant, no run overwrites a schedule, takes a release back, or reopens a claim. */
  lemma SchedulesAreNeverOverwritten(env: Host, w: World, ops: seq<Op>)
    requires Inv(w) && Along(Next(env), Admissible, w, ops)
    ensures Inv(Exec(Next(env), w, ops)) && Preserves(w, Exec(Next(env), w, ops))
  {
    var inv := (v: World) => InvSince(w, v);
    forall v, op | inv(v) && Admissible(v, op)
      ensures inv(Next(env)(v, op))
    {
      StepKeepsInv(env, v, op);
      PreservesTransitive(w, v, Next(env)(v, op));
    }
    Invariant(Next(env), Admissible, inv, w, ops);
  }

  /** In every reachable state and for every token, the locked total is the sum of what all schedules still owe, and
      the contract holds at least that. */
  lemma ContractHoldsWhatItLocks(env: Host, w: World, ops: seq<Op>, t: Address)
    requires Genesis(w) && Along(Next(env), Admissible, w, ops)
    ensures var v := Exec(Next(env), w, ops);
            0 <= Get(v.locked, t) == Total(Owed(v.schedules, t)) <= Balance(v, t)
  {
    GenesisHasInv(w);
    SchedulesAreNeverOverwritten(env, w, ops);
    OwedNonNegative(Exec(Next(env), w, ops), t);
  }

  /** A pair that was claimed once, singly or in a batch, is never paid for again. */
  lemma ClaimedOnce(env: Host, w: World, ops: seq<Op>, e: Entry, path: seq<Node>)
    requires Inv(w) && Along(Next(env), Admissible, w, ops) && PairOf(e) in w.claimed
    ensures var v := Exec(Next(env), w, ops);
            && Claim(env, v, e, path).Err?
            && forall entries, proof, flags :: e in entries ==> ClaimBatch(env, v, entries, proof, flags).Err?
  {
    SchedulesAreNeverOverwritten(env, w, ops);
    var v := Exec(Next(env), w, ops);
    forall entries, proof, flags | e in entries
      ensures ClaimBatch(env, v, entries, proof, flags).Err?
    {
      ValidationExact(v, entries);
    }
  }

  // ----- releases do not depend on their path

  /** The ledger of the last successful release of `p`. */
  ghost function LastRelease(env: Host, w: World, ops: seq<Op>, p: Pair): Option<u32>
    decreases |ops|
  {
    if ops == [] then
      None
    else
      var n := |ops| - 1;
      var before := Exec(Next(env), w, ops[..n]);
      if ops[n] == OpRelease(p) && Apply(env, before, ops[n]).Ok? then Some(before.now)
      else LastRelease(env, w, ops[..n], p)
  }

  lemma {:induction false} RunsExtend(env: Host, w: World, ops: seq<Op>)
    requires ops != []
    ensures var n := |ops| - 1;
            && Exec(Next(env), w, ops) == Next(env)(Exec(Next(env), w, ops[..n]), ops[n])
            && (Along(Next(env), Admissible, w, ops) ==>
                  && Along(Next(env), Admissible, w, ops[..n])
                  && Admissible(Exec(Next(env), w, ops[..n]), ops[n]))
    decreases |ops|
  {
    var n := |ops| - 1;
    if n > 0 {
      RunsExtend(env, Next(env)(w, ops[0]), ops[1..]);
      assert ops[1..][..n - 1] == ops[..n][1..];
    }
  }

  /** What a step does to the released amount of a schedule: nothing, unless it is a successful release of it. */
  lemma StepReleases(env: Host, w: World, op: Op, p: Pair)
    requires Inv(w) && Admissible(w, op)
    ensures var v := Next(env)(w, op);
            p in v.schedules ==>
              if p !in w.schedules then v.schedules[p].released == 0
              else if op == OpRelease(p) && Apply(env, w, op).Ok? then
                v.schedules[p].released == Vested(w.schedules[p], w.now)
              else v.schedules[p].released == w.schedules[p].released
  {
    var r := Apply(env, w, op);
    if r.Ok? {
      match op
      case OpClaim(e, _) =>
        SettleKeepsOthers(w, e, p);
      case OpClaimBatch(entries, _, _) =>
        ValidationExact(w, entries);
        SettleAllSchedules(w, entries, p);
      case OpRelease(q) =>
        ReleaseOutcome(w, q);
      case _ =>
    }
  }

  /** `p` has the schedule it had before, or a new one with nothing released. */
  ghost predicate KeptOrNew(w: World, v: World, p: Pair) {
    if p in w.schedules then p in v.schedules && v.schedules[p] == w.schedules[p]
    else p in v.schedules ==> v.schedules[p].released == 0
  }

  lemma SettleSchedules(w: World, e: Entry)
    requires Settle(w, e).Ok?
    ensures Settle(w, e).value.claimed == w.claimed + {PairOf(e)}
    ensures Settle(w, e).value.schedules == SchedulesAfter(w, e, e.amount - Liquid(w, e.amount).value)
  {
    var liquid := Liquid(w, e.amount).value;
    var marked := w.(claimed := w.claimed + {PairOf(e)});
    var kept := if w.vesting.Some? && e.amount > liquid then Lock(marked, e.recipient, e.token, e.amount - liquid)
                else marked;
    assert Settle(w, e) == if liquid > 0 then Pay(kept, e.recipient, e.token, liquid) else Ok(kept);
  }

  lemma SettleKeepsOthers(w: World, e: Entry, p: Pair)
    requires Settle(w, e).Ok? && PairOf(e) !in w.schedules
    ensures KeptOrNew(w, Settle(w, e).value, p)
    ensures Settle(w, e).value.schedules.Keys <= w.schedules.Keys + {PairOf(e)}
    ensures Settle(w, e).value.claimed == w.claimed + {PairOf(e)}
  {
    SettleSchedules(w, e);
  }

  lemma {:induction false} SettleAllSchedules(w: World, entries: seq<Entry>, p: Pair)
    requires SettleAll(w, entries).Ok? && Claimable(w, entries) && w.schedules.Keys <= w.claimed
    ensures KeptOrNew(w, SettleAll(w, entries).value, p)
    decreases entries
  {
    if entries != [] {
      var v := Settle(w, entries[0]).value;
      SettleKeepsOthers(w, entries[0], p);
      assert Claimable(v, entries[1..]);
      SettleAllSchedules(v, entries[1..], p);
    }
  }

  /** After any run, what a schedule has released is what was vested at the last successful release, whatever was
      released before it and when. */
  lemma {:induction false} ReleasedIsVestedAtLastRelease(env: Host, w: World, ops: seq<Op>, p: Pair)
    requires Genesis(w) && Along(Next(env), Admissible, w, ops)
    requires p in Exec(Next(env), w, ops).schedules
    ensures var s := Exec(Next(env), w, ops).schedules[p];
            s.released == match LastRelease(env, w, ops, p)
                          case None => 0
                          case Some(ledger) => Vested(s, ledger)
    decreases |ops|
  {
    GenesisHasInv(w);
    if ops != [] {
      var n := |ops| - 1;
      var before := Exec(Next(env), w, ops[..n]);
      RunsExtend(env, w, ops);
      SchedulesAreNeverOverwritten(env, w, ops[..n]);
      StepKeepsInv(env, before, ops[n]);
      StepReleases(env, before, ops[n], p);
      if p in before.schedules {
        ReleasedIsVestedAtLastRelease(env, w, ops[..n], p);
        VestedDependsOnTerms(before.schedules[p], Exec(Next(env), w, ops).schedules[p]);
      } else {
        NotYetReleased(env, w, ops[..n], p);
      }
    }
  }

  lemma VestedDependsOnTerms(s: Schedule, r: Schedule)
    requires r == s.(released := r.released)
    ensures forall now: u32 :: Vested(s, now) == Vested(r, now) && VestedAmount(s, now) == VestedAmount(r, now)
  {
  }

  lemma {:induction false} NotYetReleased(env: Host, w: World, ops: seq<Op>, p: Pair)
    requires Genesis(w) && Along(Next(env), Admissible, w, ops)
    requires p !in Exec(Next(env), w, ops).schedules
    ensures LastRelease(env, w, ops, p) == None
    decreases |ops|
  {
    GenesisHasInv(w);
    if ops != [] {
      var n := |ops| - 1;
      var before := Exec(Next(env), w, ops[..n]);
      RunsExtend(env, w, ops);
      SchedulesAreNeverOverwritten(env, w, ops[..n]);
      StepKeepsInv(env, before, ops[n]);
      NotYetReleased(env, w, ops[..n], p);
    }
  }

  /** The schedule after a release attempt, successful or not. */
  ghost function AfterAttempt(env: Host, w: World, p: Pair): Schedule
    requires Inv(w) && p in w.schedules
  {
    StepKeepsInv(env, w, OpRelease(p));
    Next(env)(w, OpRelease(p)).schedules[p]
  }

  /** The recipient can authorise a release, and the token accepts the payment. */
  predicate CanRelease(w: World, p: Pair) {
    Authorizes(w, p.0) && CanPay(w, p.0, p.1)
  }

  lemma AttemptCatchesUp(env: Host, w: World, p: Pair)
    requires Inv(w) && p in w.schedules
    ensures AfterAttempt(env, w, p)
            == if VestedAmount(w.schedules[p], w.now).Some? && CanRelease(w, p) then
                 w.schedules[p].(released := Vested(w.schedules[p], w.now))
               else
                 w.schedules[p]
  {
    ReleaseOutcome(w, p);
  }

  /** Whatever happened in between, once a release is attempted, and neither the vested amount overflows nor the token
      refuses the payment, exactly the vested amount has been released in all. So two runs that reach the same ledger
      and then release have released, and paid, the same. */
  lemma ReleaseIsPathIndependent(env: Host, w: World, ops: seq<Op>, p: Pair)
    requires Inv(w) && p in w.schedules && Along(Next(env), Admissible, w, ops)
    ensures var s, v := w.schedules[p], Exec(Next(env), w, ops);
            && Inv(v) && p in v.schedules
            && AfterAttempt(env, v, p) == if VestedAmount(s, v.now).Some? && CanRelease(v, p) then
                                            s.(released := Vested(s, v.now))
                                          else
                                            v.schedules[p]
  {
    SchedulesAreNeverOverwritten(env, w, ops);
    var v := Exec(Next(env), w, ops);
    VestedDependsOnTerms(w.schedules[p], v.schedules[p]);
    AttemptCatchesUp(env, v, p);
  }

  /** At or after the end a release that the token does not refuse leaves the whole total released. */
  lemma ReleaseAtTheEndIsComplete(env: Host, w: World, ops: seq<Op>, p: Pair)
    requires Inv(w) && p in w.schedules && Along(Next(env), Admissible, w, ops)
    requires Exec(Next(env), w, ops).now >= w.schedules[p].startLedger + w.schedules[p].durationLedgers
    ensures var v := Exec(Next(env), w, ops);
            && Inv(v) && p in v.schedules
            && AfterAttempt(env, v, p)
               == if CanRelease(v, p) then w.schedules[p].(released := w.schedules[p].total) else v.schedules[p]
  {
    var s, now := w.schedules[p], Exec(Next(env), w, ops).now;
    assert OnSchedule(s, w.now);
    VestedAmountExact(s, now);
    VestingIsMonotone(s, now, now);
    ReleaseIsPathIndependent(env, w, ops, p);
  }
}
