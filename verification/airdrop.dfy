/**
  The Merkle airdrop: claims bound to `(recipient, token)`, batches settled under one multi-proof, and linear vesting
  of the part that a claim does not pay out at once.
 */
module Airdrop {
  import opened Wrappers
  import opened Arith
  import opened Sums
  import opened TokenLedger
  import opened FixedMath
  import opened Merkle

  datatype AirdropError =
    | AlreadyInitialized
    | InvalidVestingConfig
    | RoundActive
    | NotInitialized
    | RootNotSet
    | InvalidProof
    | AlreadyClaimed
    | InvalidAmount
    | ClaimWindowClosed
    | InsufficientBalance
    | NoVestingSchedule
    | NothingToRelease
    | DuplicateEntry
    | ArithmeticOverflow
    | EmptyBatch
    | TokenTrap
    | AuthTrap

  /** A recipient and a token. */
  type Pair = (Address, Address)

  datatype VestingConfig = VestingConfig(initialUnlockBps: u32, durationLedgers: u32)

  datatype Schedule = Schedule(total: int, released: int, startLedger: u32, durationLedgers: u32)

  /** The host functions: SHA-256, and the leaf of a recipient, token and amount. */
  datatype Host = Host(hash: Hasher, leaf: (Address, Address, int) -> Node)

  /** The balances of all tokens. */
  type Ledger = map<Address, Wallets>

  /** Contract storage, the balances of every token, the ledger sequence number, and whom each token refuses. */
  datatype World = World(
    self: Address,
    initialized: bool,
    root: Option<Node>,
    claimDeadline: u32,
    vesting: Option<VestingConfig>,
    claimed: set<Pair>,
    schedules: map<Pair, Schedule>,
    locked: map<Address, int>,
    balances: Ledger,
    now: u32,
    refused: map<Address, set<Address>>)

  datatype Entry = Entry(recipient: Address, token: Address, amount: i128)

  function WalletsIn(balances: Ledger, token: Address): Wallets {
    if token in balances then balances[token] else map[]
  }

  function WalletsOf(w: World, token: Address): Wallets {
    WalletsIn(w.balances, token)
  }

  /** The addresses that `token` refuses. */
  function RefusedBy(w: World, token: Address): set<Address> {
    if token in w.refused then w.refused[token] else {}
  }

  /** A payment by the contract is not refused. */
  predicate CanPay(w: World, to: Address, token: Address) {
    Allowed(RefusedBy(w, token), w.self, to)
  }

  function Balance(w: World, token: Address): int {
    Get(WalletsOf(w, token), w.self)
  }

  /** What the contract holds of `token` beyond what is locked. */
  function Available(w: World, token: Address): int {
    Balance(w, token) - Get(w.locked, token)
  }

  function EnsureAvailable(w: World, token: Address, amount: int): Option<AirdropError> {
    if !FitsI128(Available(w, token)) then
      Some(ArithmeticOverflow)
    else if Available(w, token) < amount then
      Some(InsufficientBalance)
    else
      None
  }

  /** Errors that close the claim window, in the order of the checks. */
  function ContextError(w: World): Option<AirdropError> {
    if !w.initialized then
      Some(NotInitialized)
    else if w.root == None then
      Some(RootNotSet)
    else if w.now > w.claimDeadline then
      Some(ClaimWindowClosed)
    else
      None
  }

  // ----- setting up

  /** At most all of a claim is paid at once, and what is locked takes time to vest. */
  predicate ValidVesting(vesting: Option<VestingConfig>) {
    vesting.Some? ==>
      && vesting.value.initialUnlockBps <= BPS_DENOMINATOR
      && (vesting.value.initialUnlockBps < BPS_DENOMINATOR ==> vesting.value.durationLedgers > 0)
  }

  function Initialize(w: World, claimDeadline: u32, vesting: Option<VestingConfig>): Result<World, AirdropError> {
    if w.initialized then
      Err(AlreadyInitialized)
    else if !ValidVesting(vesting) then
      Err(InvalidVestingConfig)
    else
      Ok(w.(initialized := true, claimDeadline := claimDeadline,
            vesting := if vesting.Some? then vesting else w.vesting))
  }

  /** The root stays fixed while claims are open. */
  function SetRoot(w: World, root: Node): Result<World, AirdropError> {
    if !w.initialized then
      Err(NotInitialized)
    else if w.root.Some? && w.now <= w.claimDeadline then
      Err(RoundActive)
    else
      Ok(w.(root := Some(root)))
  }

  // ----- settling a claim

  /** The part paid out at once. */
  function Liquid(w: World, amount: i128): Option<i128> {
    match w.vesting
    case None => Some(amount)
    case Some(cfg) => ApplyBpsFee(amount, cfg.initialUnlockBps)
  }

  /** Locks `locked` in a new schedule that starts now. */
  function Lock(w: World, recipient: Address, token: Address, locked: int): World
    requires w.vesting.Some?
  {
    w.(schedules := w.schedules[(recipient, token) := Schedule(locked, 0, w.now, w.vesting.value.durationLedgers)],
       locked := w.locked[token := Get(w.locked, token) + locked])
  }

  function Pay(w: World, recipient: Address, token: Address, amount: int): Result<World, AirdropError> {
    match Transfer(RefusedBy(w, token), WalletsOf(w, token), w.self, recipient, amount)
    case None => Err(TokenTrap)
    case Some(v) => Ok(w.(balances := w.balances[token := v]))
  }

  /** Locks what is not paid at once, if there is any. */
  function LockRest(w: World, e: Entry, rest: int): Result<World, AirdropError> {
    if w.vesting == None || rest <= 0 then
      Ok(w)
    else if !FitsI128(Get(w.locked, e.token) + rest) then
      Err(ArithmeticOverflow)
    else
      Ok(Lock(w, e.recipient, e.token, rest))
  }

  function Settle(w: World, e: Entry): Result<World, AirdropError> {
    match Liquid(w, e.amount)
    case None => Err(ArithmeticOverflow)
    case Some(liquid) =>
      if !FitsI128(e.amount - liquid) then
        Err(ArithmeticOverflow)
      else
        match LockRest(w.(claimed := w.claimed + {PairOf(e)}), e, e.amount - liquid)
        case Err(error) => Err(error)
        case Ok(kept) => if liquid > 0 then Pay(kept, e.recipient, e.token, liquid) else Ok(kept)
  }

  // ----- claiming

  /** `require_auth`: anyone may authorise calls on their own behalf, but the contract, which never calls itself, has
      no way to. */
  predicate Authorizes(w: World, a: Address) {
    a != w.self
  }

  function Claim(env: Host, w: World, e: Entry, proof: seq<Node>): Result<World, AirdropError> {
    var context := ContextError(w);
    if context.Some? then
      Err(context.value)
    else if !Authorizes(w, e.recipient) then
      Err(AuthTrap)
    else if e.amount <= 0 then
      Err(InvalidAmount)
    else if (e.recipient, e.token) in w.claimed then
      Err(AlreadyClaimed)
    else if Climb(env.hash, LeafOf(env, e), proof) != w.root.value then
      Err(InvalidProof)
    else
      var missing := EnsureAvailable(w, e.token, e.amount);
      if missing.Some? then Err(missing.value) else Settle(w, e)
  }

  function PairOf(e: Entry): Pair {
    (e.recipient, e.token)
  }

  /** `Some` of the amount asked of `token`, zero for the other tokens. */
  function AskedOf(token: Address): Entry -> int {
    (e: Entry) => if e.token == token then e.amount else 0
  }

  function TotalOf(entries: seq<Entry>, token: Address): int {
    if entries == [] then 0 else TotalOf(entries[..|entries| - 1], token) + AskedOf(token)(entries[|entries| - 1])
  }

  predicate PairSeen(entries: seq<Entry>, p: Pair) {
    exists k :: 0 <= k < |entries| && PairOf(entries[k]) == p
  }

  /** The error of an entry, given whether its pair was seen before and the total asked so far, with this entry. */
  function ErrorOf(w: World, e: Entry, seen: bool, total: int): Option<AirdropError> {
    if e.amount <= 0 then
      Some(InvalidAmount)
    else if seen then
      Some(DuplicateEntry)
    else if PairOf(e) in w.claimed then
      Some(AlreadyClaimed)
    else if !FitsI128(total) then
      Some(ArithmeticOverflow)
    else
      None
  }

  /** The error at entry `i` of a batch, given the entries before it. */
  function EntryError(w: World, entries: seq<Entry>, i: nat): Option<AirdropError>
    requires i < |entries|
  {
    var e := entries[i];
    ErrorOf(w, e, PairSeen(entries[..i], PairOf(e)), TotalOf(entries[..i + 1], e.token))
  }

  function FirstEntryError(w: World, entries: seq<Entry>, i: nat): Option<AirdropError>
    requires i <= |entries|
    decreases |entries| - i
  {
    if i == |entries| then
      None
    else
      var error := EntryError(w, entries, i);
      if error.Some? then error else FirstEntryError(w, entries, i + 1)
  }

  /** The first token, in the order of the entries, of which the contract lacks the total asked for. */
  function FirstShortfall(w: World, entries: seq<Entry>, i: nat): Option<AirdropError>
    requires i <= |entries|
    decreases |entries| - i
  {
    if i == |entries| then
      None
    else
      var missing := EnsureAvailable(w, entries[i].token, TotalOf(entries, entries[i].token));
      if missing.Some? then missing else FirstShortfall(w, entries, i + 1)
  }

  function LeafOf(env: Host, e: Entry): Node {
    env.leaf(e.recipient, e.token, e.amount)
  }

  /** The leaves of the entries, in order. */
  function Leaves(env: Host, entries: seq<Entry>): (leaves: seq<Node>)
    ensures |leaves| == |entries|
    ensures forall k :: 0 <= k < |entries| ==> leaves[k] == LeafOf(env, entries[k])
  {
    if entries == [] then
      []
    else
      Leaves(env, entries[..|entries| - 1]) + [LeafOf(env, entries[|entries| - 1])]
  }

  function SettleAll(w: World, entries: seq<Entry>): Result<World, AirdropError>
    decreases entries
  {
    if entries == [] then
      Ok(w)
    else
      match Settle(w, entries[0])
      case Err(e) => Err(e)
      case Ok(v) => SettleAll(v, entries[1..])
  }

  function ClaimBatch(env: Host, w: World, entries: seq<Entry>, proof: seq<Node>, flags: seq<bool>)
    : Result<World, AirdropError>
  {
    var context := ContextError(w);
    if context.Some? then
      Err(context.value)
    else if entries == [] then
      Err(EmptyBatch)
    else
      var invalid := FirstEntryError(w, entries, 0);
      if invalid.Some? then
        Err(invalid.value)
      else if !Accepts(env.hash, Leaves(env, entries), proof, flags, w.root.value) then
        Err(InvalidProof)
      else
        var missing := FirstShortfall(w, entries, 0);
        if missing.Some? then Err(missing.value) else SettleAll(w, entries)
  }

  // ----- vesting

  function VestedAmount(s: Schedule, now: u32): Option<int> {
    var elapsed := SatSub32(now, s.startLedger);
    if s.durationLedgers == 0 || elapsed >= s.durationLedgers then
      Some(s.total)
    else if !FitsI128(s.total * elapsed) then
      None
    else
      Some(TruncDiv(s.total * elapsed, s.durationLedgers))
  }

  function ReleasableAmount(s: Schedule, now: u32): Option<int> {
    match VestedAmount(s, now)
    case None => None
    case Some(vested) => if FitsI128(vested - s.released) then Some(vested - s.released) else None
  }

  function Release(w: World, recipient: Address, token: Address): Result<(World, int), AirdropError> {
    if !Authorizes(w, recipient) then
      Err(AuthTrap)
    else if (recipient, token) !in w.schedules then
      Err(NoVestingSchedule)
    else
      var s := w.schedules[(recipient, token)];
      match ReleasableAmount(s, w.now)
      case None => Err(ArithmeticOverflow)
      case Some(amount) =>
        if amount <= 0 then
          Err(NothingToRelease)
        else if !FitsI128(s.released + amount) || !FitsI128(Get(w.locked, token) - amount) then
          Err(ArithmeticOverflow)
        else
          var unlocked := w.(schedules := w.schedules[(recipient, token) := s.(released := s.released + amount)],
                             locked := w.locked[token := Get(w.locked, token) - amount]);
          match Pay(unlocked, recipient, token, amount)
          case Err(e) => Err(e)
          case Ok(v) => Ok((v, amount))
  }

  // ----- the contract and its storage

  /** An entry point reports success with the specified new state, or the specified error with everything unchanged. */
  ghost predicate Reports<T>(spec: Result<T, AirdropError>, r: Result<(), AirdropError>, done: T, before: World,
                             after: World)
  {
    match r
    case Ok(_) => spec == Ok(done)
    case Err(e) => spec == Err(e) && after == before
  }

  class AirdropContract {
    const self: Address
    const env: Host
    var initialized: bool
    var root: Option<Node>
    var claimDeadline: u32
    var vesting: Option<VestingConfig>
    var claimed: set<Pair>
    var schedules: map<Pair, Schedule>
    var locked: map<Address, int>
    var balances: Ledger
    var now: u32
    var refused: map<Address, set<Address>>

    function View(): World
      reads this
    {
      World(self, initialized, root, claimDeadline, vesting, claimed, schedules, locked, balances, now,
            refused)
    }

    constructor (self: Address, env: Host, balances: Ledger, now: u32, refused: map<Address, set<Address>>)
      ensures this.self == self && this.env == env
      ensures View() == World(self, false, None, 0, None, {}, map[], map[], balances, now, refused)
    {
      this.self, this.env, this.balances, this.now, this.refused := self, env, balances, now, refused;
      initialized, root, claimDeadline, vesting := false, None, 0, None;
      claimed, schedules, locked := {}, map[], map[];
    }

    /** The host's rollback of a failed invocation. */
    method Revert(v: World)
      requires v.self == self
      modifies this
      ensures View() == v
    {
      initialized, root, claimDeadline, vesting := v.initialized, v.root, v.claimDeadline, v.vesting;
      claimed, schedules, locked, balances := v.claimed, v.schedules, v.locked, v.balances;
      now, refused := v.now, v.refused;
    }

    method DoInitialize(claimDeadline: u32, vesting: Option<VestingConfig>) returns (r: Result<(), AirdropError>)
      modifies this
      ensures Reports(Initialize(old(View()), claimDeadline, vesting), r, View(), old(View()), View())
    {
      if initialized {
        return Err(AlreadyInitialized);
      }
      if vesting.Some? {
        var bps := vesting.value.initialUnlockBps;
        if bps > BPS_DENOMINATOR || (bps < BPS_DENOMINATOR && vesting.value.durationLedgers == 0) {
          return Err(InvalidVestingConfig);
        }
        this.vesting := vesting;
      }
      initialized := true;
      this.claimDeadline := claimDeadline;
      return Ok(());
    }

    method DoSetRoot(root: Node) returns (r: Result<(), AirdropError>)
      modifies this
      ensures Reports(SetRoot(old(View()), root), r, View(), old(View()), View())
    {
      if !initialized {
        return Err(NotInitialized);
      }
      if this.root.Some? && now <= claimDeadline {
        return Err(RoundActive);
      }
      this.root := Some(root);
      return Ok(());
    }

    method TransferOut(token: Address, to: Address, amount: int) returns (r: Result<(), AirdropError>)
      modifies this`balances
      ensures Reports(Pay(old(View()), to, token, amount), r, View(), old(View()), View())
    {
      var moved := Transfer(RefusedBy(View(), token), WalletsOf(View(), token), self, to, amount);
      if moved == None {
        return Err(TokenTrap);
      }
      balances := balances[token := moved.value];
      return Ok(());
    }

    method LockIfPositive(e: Entry, rest: int) returns (r: Result<(), AirdropError>)
      modifies this`schedules, this`locked
      ensures match r
              case Ok(_) => LockRest(old(View()), e, rest) == Ok(View())
              case Err(error) => LockRest(old(View()), e, rest) == Err(error)
    {
      if vesting.Some? && rest > 0 {
        schedules := schedules[(e.recipient, e.token) := Schedule(rest, 0, now, vesting.value.durationLedgers)];
        var newTotal := Get(locked, e.token) + rest;
        if !FitsI128(newTotal) {
          return Err(ArithmeticOverflow);
        }
        locked := locked[e.token := newTotal];
      }
      return Ok(());
    }

    /** The part paid at once: all of it without vesting, and a fee-like fraction with vesting. */
    method LiquidPart(amount: i128) returns (liquid: Option<i128>)
      ensures liquid == Liquid(View(), amount)
    {
      liquid := Some(amount);
      if vesting.Some? {
        liquid := ApplyBpsFee(amount, vesting.value.initialUnlockBps);
      }
    }

    /** Marks the claim before paying; the caller reverts the state after an error. */
    method SettleClaim(e: Entry) returns (r: Result<(), AirdropError>)
      modifies this
      ensures match r
              case Ok(_) => Settle(old(View()), e) == Ok(View())
              case Err(error) => Settle(old(View()), e) == Err(error)
    {
      claimed := claimed + {(e.recipient, e.token)};
      var part := LiquidPart(e.amount);
      if part == None {
        return Err(ArithmeticOverflow);
      }
      var liquid := part.value;
      var rest := e.amount - liquid;
      if !FitsI128(rest) {
        return Err(ArithmeticOverflow);
      }
      r := LockIfPositive(e, rest);
      if r.Err? {
        return;
      }
      if liquid > 0 {
        r := TransferOut(e.token, e.recipient, liquid);
        return;
      }
      return Ok(());
    }

    method DoClaim(e: Entry, proof: seq<Node>) returns (r: Result<(), AirdropError>)
      modifies this
      ensures Reports(Claim(env, old(View()), e, proof), r, View(), old(View()), View())
    {
      var before := View();
      var context := ContextError(before);
      if context.Some? {
        return Err(context.value);
      }
      if !Authorizes(before, e.recipient) {
        return Err(AuthTrap);
      }
      if e.amount <= 0 {
        return Err(InvalidAmount);
      }
      if (e.recipient, e.token) in claimed {
        return Err(AlreadyClaimed);
      }
      var valid := VerifyMerkleProof(env.hash, LeafOf(env, e), proof, root.value);
      if !valid {
        return Err(InvalidProof);
      }
      var missing := EnsureAvailable(before, e.token, e.amount);
      if missing.Some? {
        return Err(missing.value);
      }
      r := SettleClaim(e);
      if r.Err? {
        Revert(before);
      }
    }

    /** The validation loop: nothing is written; `seen`, `totals` and `leaves` accumulate. */
    method ValidateEntries(entries: seq<Entry>)
      returns (error: Option<AirdropError>, totals: map<Address, int>, leaves: seq<Node>)
      ensures error == FirstEntryError(View(), entries, 0)
      ensures error == None ==> leaves == Leaves(env, entries)
      ensures error == None ==> forall t :: Get(totals, t) == TotalOf(entries, t)
    {
      ghost var w := View();
      var seen: set<Pair> := {};
      error, totals, leaves := None, map[], [];
      for i := 0 to |entries|
        invariant FirstEntryError(w, entries, 0) == FirstEntryError(w, entries, i)
        invariant Accumulated(env, entries[..i], seen, totals, leaves)
        invariant error == None
      {
        var e := entries[i];
        var total := Get(totals, e.token) + e.amount;
        EntryChecked(env, w, entries, i, seen, totals, leaves);
        error := CheckEntry(e, seen, total);
        if error.Some? {
          return;
        }
        seen := seen + {PairOf(e)};
        totals := totals[e.token := total];
        leaves := leaves + [LeafOf(env, e)];
      }
      assert entries[..|entries|] == entries;
      assert Accumulated(env, entries, seen, totals, leaves);
    }

    /** The checks of one entry, in order. */
    method CheckEntry(e: Entry, seen: set<Pair>, total: int) returns (error: Option<AirdropError>)
      ensures error == ErrorOf(View(), e, PairOf(e) in seen, total)
    {
      if e.amount <= 0 {
        return Some(InvalidAmount);
      }
      if (e.recipient, e.token) in seen {
        return Some(DuplicateEntry);
      }
      if (e.recipient, e.token) in claimed {
        return Some(AlreadyClaimed);
      }
      if !FitsI128(total) {
        return Some(ArithmeticOverflow);
      }
      return None;
    }

    method DoClaimBatch(entries: seq<Entry>, proof: seq<Node>, proofFlags: seq<bool>)
      returns (r: Result<(), AirdropError>)
      modifies this
      ensures Reports(ClaimBatch(env, old(View()), entries, proof, proofFlags), r, View(), old(View()), View())
    {
      var before := View();
      var context := ContextError(before);
      if context.Some? {
        return Err(context.value);
      }
      if entries == [] {
        return Err(EmptyBatch);
      }
      var invalid, totals, leaves := ValidateEntries(entries);
      if invalid.Some? {
        return Err(invalid.value);
      }
      var valid := VerifyMerkleMultiProof(env.hash, leaves, proof, proofFlags, root.value);
      if !valid {
        return Err(InvalidProof);
      }
      for i := 0 to |entries|
        invariant View() == before
        invariant FirstShortfall(before, entries, 0) == FirstShortfall(before, entries, i)
      {
        var missing := EnsureAvailable(before, entries[i].token, Get(totals, entries[i].token));
        if missing.Some? {
          return Err(missing.value);
        }
      }
      r := SettleEach(entries);
      if r.Err? {
        Revert(before);
      }
    }

    /** The settling loop of a batch. */
    method SettleEach(entries: seq<Entry>) returns (r: Result<(), AirdropError>)
      modifies this
      ensures match r
              case Ok(_) => SettleAll(old(View()), entries) == Ok(View())
              case Err(error) => SettleAll(old(View()), entries) == Err(error)
    {
      ghost var before := View();
      for i := 0 to |entries|
        invariant SettleAll(before, entries) == SettleAll(View(), entries[i..])
      {
        assert entries[i..][1..] == entries[i + 1..];
        r := SettleClaim(entries[i]);
        if r.Err? {
          return;
        }
      }
      return Ok(());
    }

    method DoRelease(recipient: Address, token: Address) returns (r: Result<(), AirdropError>, amount: int)
      modifies this
      ensures Reports(Release(old(View()), recipient, token), r, (View(), amount), old(View()), View())
    {
      var before := View();
      amount := 0;
      if !Authorizes(before, recipient) {
        return Err(AuthTrap), 0;
      }
      if (recipient, token) !in schedules {
        return Err(NoVestingSchedule), 0;
      }
      var s := schedules[(recipient, token)];
      var releasable := ReleasableAmount(s, now);
      if releasable == None {
        return Err(ArithmeticOverflow), 0;
      }
      amount := releasable.value;
      if amount <= 0 {
        return Err(NothingToRelease), 0;
      }
      if !FitsI128(s.released + amount) {
        return Err(ArithmeticOverflow), 0;
      }
      schedules := schedules[(recipient, token) := s.(released := s.released + amount)];
      var remaining := Get(locked, token) - amount;
      if !FitsI128(remaining) {
        Revert(before);
        return Err(ArithmeticOverflow), 0;
      }
      locked := locked[token := remaining];
      r := TransferOut(token, recipient, amount);
      if r.Err? {
        Revert(before);
      }
    }
  }

  /** What the validation loop has gathered from the entries. */
  ghost predicate Accumulated(env: Host, entries: seq<Entry>, seen: set<Pair>, totals: map<Address, int>,
                              leaves: seq<Node>)
  {
    && (forall p :: p in seen <==> PairSeen(entries, p))
    && (forall t :: Get(totals, t) == TotalOf(entries, t))
    && leaves == Leaves(env, entries)
  }

  /** One round of the validation loop: what was gathered decides the error of the entry, and gathers it. */
  lemma EntryChecked(env: Host, w: World, entries: seq<Entry>, i: nat, seen: set<Pair>, totals: map<Address, int>,
                     leaves: seq<Node>)
    requires i < |entries| && Accumulated(env, entries[..i], seen, totals, leaves)
    ensures var e := entries[i];
            var total := Get(totals, e.token) + e.amount;
            var error := ErrorOf(w, e, PairOf(e) in seen, total);
            && FirstEntryError(w, entries, i) == (if error.Some? then error else FirstEntryError(w, entries, i + 1))
            && Accumulated(env, entries[..i + 1], seen + {PairOf(e)}, totals[e.token := total],
                           leaves + [LeafOf(env, e)])
  {
    PairSeenAppend(entries, i);
    TotalsAppend(entries, i, totals);
    assert entries[..i + 1][..i] == entries[..i];
  }

  lemma PairSeenAppend(entries: seq<Entry>, i: nat)
    requires i < |entries|
    ensures forall p :: PairSeen(entries[..i + 1], p) <==> PairSeen(entries[..i], p) || p == PairOf(entries[i])
  {
    forall p
      ensures PairSeen(entries[..i + 1], p) <==> PairSeen(entries[..i], p) || p == PairOf(entries[i])
    {
      var all := entries[..i + 1];
      assert all[i] == entries[i];
      assert forall k :: 0 <= k < i ==> all[k] == entries[..i][k];
    }
  }

  lemma TotalsAppend(entries: seq<Entry>, i: nat, totals: map<Address, int>)
    requires i < |entries| && forall t :: Get(totals, t) == TotalOf(entries[..i], t)
    ensures var e := entries[i];
            var after := totals[e.token := Get(totals, e.token) + e.amount];
            forall t :: Get(after, t) == TotalOf(entries[..i + 1], t)
  {
    assert entries[..i + 1][..i] == entries[..i];
  }
}
