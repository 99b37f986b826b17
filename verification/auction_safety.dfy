/**
  Safety of the English auction over whole runs: the contract holds exactly what it owes, settlement and withdrawals
  fail only for those whom the token refuses, and no bid by anyone changes what anybody else is worth.
 */
module AuctionSafety {
  import opened Wrappers
  import opened Sums
  import opened TokenLedger
  import opened NftLedger
  import opened Runs
  import opened Arith
  import opened Auction

  // ----- the invariant

  /** The bid held for the live top bidder. */
  function LiveEscrow(w: World): int {
    if w.highestBidder.Some? && !w.settled && !w.cancelled then w.highestBid else 0
  }

  ghost predicate Conserved(w: World) {
    Get(w.wallets, w.self) == LiveEscrow(w) + Total(w.pending) + Total(w.sellerPending)
  }

  /** The sum that counts the highest bid whether or not it is escrowed. */
  ghost predicate NaivelyConserved(w: World) {
    Get(w.wallets, w.self) == w.highestBid + Total(w.pending) + Total(w.sellerPending)
  }

  /** Every recorded debt is positive and owed to somebody else than the contract. */
  ghost predicate Debts(self: Address, owed: map<Address, int>) {
    forall a :: a in owed ==> owed[a] > 0 && a != self
  }

  ghost predicate Shape(w: World) {
    && Debts(w.self, w.pending)
    && Debts(w.self, w.sellerPending)
    && !(w.settled && w.cancelled)
    && (w.terms == None ==>
          w.highestBidder == None && !w.settled && !w.cancelled && w.pending == map[] && w.sellerPending == map[])
    && (w.terms.Some? ==>
          var t := w.terms.value;
          && t.seller != w.self
          && t.startPrice > 0 && t.minIncrement > 0 && t.cancellationFee >= 0
          && w.deadline <= t.maxDeadline)
    && (w.highestBidder.Some? ==>
          w.highestBidder.value != w.self && w.terms.value.startPrice <= w.highestBid)
    && (w.cancelled ==> w.highestBidder == None)
    && (w.terms.Some? && w.highestBidder == None && !w.cancelled ==> w.highestBid < w.terms.value.startPrice)
    && (w.settled && w.now <= w.deadline ==> w.highestBidder.Some?)
  }

  ghost predicate Inv(w: World) {
    Sound(w.wallets) && Shape(w) && Conserved(w)
  }

  /** Before `start`: nothing stored and nothing held. */
  ghost predicate Genesis(w: World) {
    && Sound(w.wallets) && Get(w.wallets, w.self) == 0
    && w.terms == None && w.highestBidder == None && !w.settled && !w.cancelled
    && w.pending == map[] && w.sellerPending == map[]
  }

  /** The naive sum is right exactly while the highest bid is escrowed. */
  lemma NaiveSumHoldsExactly(w: World)
    requires Inv(w)
    ensures NaivelyConserved(w) <==> w.highestBid == LiveEscrow(w)
  {
  }

  // ----- runs

  datatype Op =
    | OpStart(terms: Terms, deadline: u32)
    | OpBid(bidder: Address, amount: i128, useCredit: bool)
    | OpCancel(caller: Address)
    | OpEnd(royalty: Royalty)
    | OpWithdraw(who: Address)
    | OpWithdrawSeller(who: Address)
    | OpAdvance(ledgers: u32)
    | OpOutside(from: Address, to: Address, moved: int)
    | OpRefuse(refused: set<Address>)
    | OpMoveItem(item: Item, owner: Address, newOwner: Address)
    | OpRefuseItems(refused: set<Address>)

  ghost function Apply(w: World, op: Op): Result<World, AuctionError> {
    match op
    case OpStart(t, deadline) => Start(w, t, deadline)
    case OpBid(bidder, amount, useCredit) => PlaceBid(w, bidder, amount, useCredit)
    case OpCancel(caller) => Cancel(w, caller)
    case OpEnd(royalty) => End(w, royalty)
    case OpWithdraw(who) => Withdraw(w, who)
    case OpWithdrawSeller(who) => WithdrawSellerProceeds(w, who)
    case OpAdvance(ledgers) => Ok(w.(now := SatAdd32(w.now, ledgers)))
    case OpOutside(from, to, moved) =>
      (match Transfer(w.refused, w.wallets, from, to, moved)
       case None => Err(TokenTrap)
       case Some(v) => Ok(w.(wallets := v)))
    case OpRefuse(refused) => Ok(w.(refused := refused))
    case OpMoveItem(item, owner, newOwner) =>
      (match MoveItem(w.itemRefused, w.owners, item, owner, newOwner)
       case None => Err(NftTrap)
       case Some(owners) => Ok(w.(owners := owners)))
    case OpRefuseItems(refused) => Ok(w.(itemRefused := refused))
  }

  ghost function Next(w: World, op: Op): World {
    match Apply(w, op)
    case Ok(v) => v
    case Err(_) => w
  }

  /** The contract is none of the participants, and receives nothing but through its own entry points. */
  ghost predicate ByOthers(self: Address, op: Op) {
    match op
    case OpStart(t, _) => t.seller != self
    case OpBid(bidder, _, _) => bidder != self
    case OpEnd(royalty) => royalty.Some? ==> royalty.value.0 != self
    case OpOutside(from, to, _) => from != self && to != self
    case OpMoveItem(_, owner, _) => owner != self
    case _ => true
  }

  /** The contract takes no part, and no bid is placed between a buy-it-now settlement and the deadline. */
  ghost predicate Admissible(w: World, op: Op) {
    ByOthers(w.self, op) && (op.OpBid? && w.settled ==> w.now > w.deadline)
  }

  // ----- bids

  lemma SetPendingEffect(pending: map<Address, int>, a: Address, amount: int)
    ensures Total(SetPending(pending, a, amount)) == Total(pending) - Get(pending, a) + amount
    ensures forall b :: Get(SetPending(pending, a, amount), b) == if b == a then amount else Get(pending, b)
  {
    TotalRemove(pending, a);
    TotalUpdate(pending, a, amount);
  }

  /** The amount moved from escrow to refunds when the top bidder is outbid. */
  function Outbid(w: World): int {
    if w.highestBidder.Some? then w.highestBid else 0
  }

  /** The previous top bidder's refund grows by the old bid, the bidder's shrinks by the credit used. */
  ghost predicate RefundsMoved(w: World, after: map<Address, int>, bidder: Address, used: int) {
    forall a {:trigger Get(after, a)} ::
      Get(after, a) == Get(w.pending, a) + When(w.highestBidder == Some(a), w.highestBid) - When(a == bidder, used)
  }

  /** What a successful bid does to the refunds. */
  lemma RefundsAfterBid(w: World, bidder: Address, amount: i128, useCredit: bool)
    requires Shape(w) && bidder != w.self && amount > 0
    ensures var queued := QueuedPending(w);
            var used := CreditUsed(queued, bidder, amount, useCredit);
            var after := CreditedPending(queued, bidder, amount, useCredit);
            && 0 <= used <= amount
            && Debts(w.self, after)
            && Total(after) == Total(w.pending) + Outbid(w) - used
            && RefundsMoved(w, after, bidder, used)
  {
    var queued := QueuedPending(w);
    if w.highestBidder.Some? {
      SetPendingEffect(w.pending, w.highestBidder.value, QueuedAmount(w));
    }
    SetPendingEffect(queued, bidder, Get(queued, bidder) - CreditUsed(queued, bidder, amount, useCredit));
  }

  /** `bidder` paid `required` to `self`, and `self` then paid `sold` to `seller`. */
  ghost predicate PaidAndSold(w: Wallets, v: Wallets, bidder: Address, self: Address, seller: Address,
                              required: int, sold: int)
  {
    forall a {:trigger Get(v, a)} ::
      Get(v, a) == Get(w, a) - When(a == bidder, required) + When(a == self, required)
                   - When(a == self, sold) + When(a == seller, sold)
  }

  lemma TwoMoves(w: Wallets, u: Wallets, v: Wallets, bidder: Address, self: Address, seller: Address,
                 required: int, sold: int)
    requires Moved(w, u, bidder, self, required) && Moved(u, v, self, seller, sold)
    ensures PaidAndSold(w, v, bidder, self, seller, required, sold)
  {
    forall a
      ensures Get(v, a) == Get(w, a) - When(a == bidder, required) + When(a == self, required)
                           - When(a == self, sold) + When(a == seller, sold)
    {
      assert Get(u, a) == Get(w, a) - When(a == bidder, required) + When(a == self, required);
    }
  }

  lemma RefundMove(w: Wallets, u: Wallets, v: Wallets, bidder: Address, self: Address, seller: Address,
                   required: int, sold: int, rest: int)
    requires PaidAndSold(w, u, bidder, self, seller, required, sold) && Moved(u, v, self, bidder, rest)
    ensures PaidAndSold(w, v, bidder, self, seller, required - rest, sold)
  {
    forall a
      ensures Get(v, a) == Get(w, a) - When(a == bidder, required - rest) + When(a == self, required - rest)
                           - When(a == self, sold) + When(a == seller, sold)
    {
      assert Get(u, a) == Get(w, a) - When(a == bidder, required) + When(a == self, required)
                          - When(a == self, sold) + When(a == seller, sold);
    }
  }

  /** `v` is `w` after a successful bid: the debts move as in `RefundsMoved`, the bidder pays the part not covered by
      credit, and a bid at the buy-it-now price goes on to the seller. */
  ghost predicate BidTaken(w: World, v: World, bidder: Address, amount: int, used: int) {
    && w.terms.Some? && !w.cancelled && w.now <= w.deadline && 0 <= used <= amount && MinRequired(w) <= amount
    && var t := w.terms.value;
       var required, sold := amount - used, When(BuysNow(t, amount), amount);
       && v == w.(highestBidder := Some(bidder), highestBid := amount, settled := w.settled || BuysNow(t, amount),
                  deadline := if BuysNow(t, amount) then w.deadline else ExtendedDeadline(t, w.deadline, w.now),
                  pending := v.pending, wallets := v.wallets, owners := v.owners)
       && Debts(w.self, v.pending)
       && RefundsMoved(w, v.pending, bidder, used)
       && Total(v.pending) == Total(w.pending) + Outbid(w) - used
       && Sound(v.wallets)
       && PaidAndSold(w.wallets, v.wallets, bidder, w.self, t.seller, required, sold)
       && v.wallets.Keys == KeysAfter(w.wallets, bidder, w.self, t.seller, required, sold)
  }

  /** The keys after the transfers of a bid. */
  ghost function KeysAfter(w: Wallets, bidder: Address, self: Address, seller: Address, required: int, sold: int)
    : set<Address>
  {
    w.Keys + (if required > 0 then {self, bidder} else {}) + (if sold > 0 && self != seller then {self, seller} else {})
  }

  /** The transfers of a bid succeed when the bidder can pay the uncovered part and the contract the sale. */
  lemma BidTransfersMove(refused: set<Address>, w: Wallets, bidder: Address, self: Address, seller: Address,
                         required: nat, amount: int, buys: bool)
    requires Sound(w) && bidder != self && amount > 0
    ensures var r, sold := BidTransfers(refused, w, bidder, self, seller, required, amount, buys), When(buys, amount);
            && (r.Some? <==>
                  && required <= Get(w, bidder)
                  && (required > 0 ==> Allowed(refused, bidder, self))
                  && (buys ==> amount <= Get(w, self) + required && Allowed(refused, self, seller)))
            && (r.Some? ==>
                  && Sound(r.value)
                  && PaidAndSold(w, r.value, bidder, self, seller, required, sold)
                  && r.value.Keys == KeysAfter(w, bidder, self, seller, required, sold))
  {
    TransferIfPositiveMoves(refused, w, bidder, self, required);
    if TransferIfPositive(refused, w, bidder, self, required).Some? {
      var paid := TransferIfPositive(refused, w, bidder, self, required).value;
      assert Get(paid, self) == Get(w, self) + required;
      if buys {
        TransferMoves(refused, paid, self, seller, amount);
        if amount <= Get(paid, self) && Allowed(refused, self, seller) {
          var sold := Transfer(refused, paid, self, seller, amount).value;
          TwoMoves(w, paid, sold, bidder, self, seller, required, amount);
        }
      } else {
        assert Moved(paid, paid, self, seller, 0);
        TwoMoves(w, paid, paid, bidder, self, seller, required, 0);
      }
    }
  }

  lemma TakenBidOutcome(w: World, bidder: Address, amount: i128, useCredit: bool)
    requires Sound(w.wallets) && Shape(w) && bidder != w.self
    requires TakeBid(w, bidder, amount, useCredit).Ok?
    ensures var queued := QueuedPending(w);
            BidTaken(w, TakeBid(w, bidder, amount, useCredit).value, bidder, amount,
                     CreditUsed(queued, bidder, amount, useCredit))
  {
    var t, used := w.terms.value, CreditUsed(QueuedPending(w), bidder, amount, useCredit);
    RefundsAfterBid(w, bidder, amount, useCredit);
    BidTransfersMove(w.refused, w.wallets, bidder, w.self, t.seller, amount - used, amount, BuysNow(t, amount));
  }

  /** The NFT can be delivered to `to`, if there is one. */
  predicate CanDeliver(w: World, to: Address) {
    w.terms.Some? && ItemOf(w.terms.value).Some? ==>
      MoveItem(w.itemRefused, w.owners, ItemOf(w.terms.value).value, w.self, to).Some?
  }

  /** The owners after a delivery to `to`. */
  function OwnersAfter(w: World, to: Address): Owners {
    if w.terms.Some? && ItemOf(w.terms.value).Some? then w.owners[ItemOf(w.terms.value).value := to] else w.owners
  }

  /** A delivery changes nothing but the owner of the NFT. */
  lemma DeliverMoves(w: World, to: Address)
    ensures Deliver(w, to).Ok? <==> CanDeliver(w, to)
    ensures Deliver(w, to).Err? ==> Deliver(w, to) == Err(NftTrap)
    ensures Deliver(w, to).Ok? ==> Deliver(w, to).value == w.(owners := OwnersAfter(w, to))
  {
  }

  /** What a bid records besides the refunds. */
  lemma TakenBidRecords(w: World, bidder: Address, amount: i128, useCredit: bool)
    requires TakeBid(w, bidder, amount, useCredit).Ok?
    ensures var v := TakeBid(w, bidder, amount, useCredit).value;
            && w.terms.Some? && MinRequired(w) <= amount && w.now <= w.deadline
            && var t := w.terms.value;
               v == w.(highestBidder := Some(bidder), highestBid := amount, settled := w.settled || BuysNow(t, amount),
                       deadline := if BuysNow(t, amount) then w.deadline else ExtendedDeadline(t, w.deadline, w.now),
                       pending := v.pending, wallets := v.wallets)
    ensures TakeBid(w, bidder, amount, useCredit).value.pending
            == CreditedPending(QueuedPending(w), bidder, amount, useCredit)
  {
  }

  /** A bid is taken and, at the buy-it-now price, the NFT delivered. */
  lemma BidIsTakenAndDelivered(w: World, bidder: Address, amount: i128, useCredit: bool)
    ensures PlaceBid(w, bidder, amount, useCredit).Ok? <==>
              && TakeBid(w, bidder, amount, useCredit).Ok?
              && (w.terms.Some? && BuysNow(w.terms.value, amount) ==> CanDeliver(w, bidder))
    ensures PlaceBid(w, bidder, amount, useCredit).Ok? ==>
              && w.terms.Some?
              && PlaceBid(w, bidder, amount, useCredit).value
                 == TakeBid(w, bidder, amount, useCredit).value.(
                      owners := if BuysNow(w.terms.value, amount) then OwnersAfter(w, bidder) else w.owners)
    ensures PlaceBid(w, bidder, amount, useCredit).Err? ==>
              PlaceBid(w, bidder, amount, useCredit) in {TakeBid(w, bidder, amount, useCredit), Err(NftTrap)}
  {
    if TakeBid(w, bidder, amount, useCredit).Ok? {
      TakenBidRecords(w, bidder, amount, useCredit);
      DeliverMoves(TakeBid(w, bidder, amount, useCredit).value, bidder);
    }
  }

  lemma BidOutcome(w: World, bidder: Address, amount: i128, useCredit: bool)
    requires Sound(w.wallets) && Shape(w) && bidder != w.self
    requires PlaceBid(w, bidder, amount, useCredit).Ok?
    ensures var queued := QueuedPending(w);
            BidTaken(w, PlaceBid(w, bidder, amount, useCredit).value, bidder, amount,
                     CreditUsed(queued, bidder, amount, useCredit))
  {
    BidIsTakenAndDelivered(w, bidder, amount, useCredit);
    TakenBidOutcome(w, bidder, amount, useCredit);
  }

  /** A successful bid keeps the contract solvent to the unit exactly when the auction was not already settled. */
  lemma TakenBidConserves(w: World, v: World, bidder: Address, amount: int, used: int)
    requires Inv(w) && bidder != w.self && BidTaken(w, v, bidder, amount, used)
    ensures Shape(v)
    ensures Conserved(v) <==> !w.settled
  {
    assert Get(v.wallets, w.self)
        == Get(w.wallets, w.self) + amount - used - When(BuysNow(w.terms.value, amount), amount);
  }

  /** A successful bid keeps the contract solvent to the unit exactly when the auction was not already settled, which
      before the deadline means: not already sold at the buy-it-now price. */
  lemma BidConservesExactlyWhileOpen(w: World, bidder: Address, amount: i128, useCredit: bool)
    requires Inv(w) && bidder != w.self
    requires PlaceBid(w, bidder, amount, useCredit).Ok?
    ensures Conserved(PlaceBid(w, bidder, amount, useCredit).value) <==> !w.settled
    ensures Inv(PlaceBid(w, bidder, amount, useCredit).value) <==> !w.settled
  {
    var used := CreditUsed(QueuedPending(w), bidder, amount, useCredit);
    BidOutcome(w, bidder, amount, useCredit);
    TakenBidConserves(w, PlaceBid(w, bidder, amount, useCredit).value, bidder, amount, used);
  }

  lemma BidKeepsInv(w: World, bidder: Address, amount: i128, useCredit: bool)
    requires Inv(w) && bidder != w.self && (w.settled ==> w.now > w.deadline)
    requires PlaceBid(w, bidder, amount, useCredit).Ok?
    ensures Inv(PlaceBid(w, bidder, amount, useCredit).value)
  {
    BidConservesExactlyWhileOpen(w, bidder, amount, useCredit);
  }

  /** The only overflow a bidder can meet is the one in the required minimum: queueing a refund or applying a credit
      never overflows. */
  lemma RefundsNeverOverflow(w: World, bidder: Address, amount: i128, useCredit: bool)
    requires Inv(w) && bidder != w.self && !w.settled
    ensures PlaceBid(w, bidder, amount, useCredit) == Err(Overflow)
            ==> w.highestBid + w.terms.value.minIncrement > I128_MAX
  {
    BidIsTakenAndDelivered(w, bidder, amount, useCredit);
    if BidError(w, amount) == None {
      EscrowAndQueued(w, bidder);
    }
  }

  lemma BidTakenExactly(w: World, bidder: Address, amount: i128, useCredit: bool)
    requires Inv(w) && bidder != w.self && !w.settled
    ensures var used := CreditUsed(QueuedPending(w), bidder, amount, useCredit);
            TakeBid(w, bidder, amount, useCredit).Ok? <==>
              && w.terms.Some? && !w.cancelled && w.now <= w.deadline
              && MinRequired(w) <= amount
              && amount - used <= Get(w.wallets, bidder)
              && (used < amount ==> !Blocked(w, bidder))
              && (BuysNow(w.terms.value, amount) ==> !Blocked(w, w.terms.value.seller))
  {
    if w.terms.Some? && !w.cancelled && w.now <= w.deadline && MinRequired(w) <= amount {
      var t, used := w.terms.value, CreditUsed(QueuedPending(w), bidder, amount, useCredit);
      EscrowAndQueued(w, bidder);
      BidTransfersMove(w.refused, w.wallets, bidder, w.self, t.seller, amount - used, amount, BuysNow(t, amount));
    }
  }

  /** While the auction is open, a bid is accepted exactly when it is in time, reaches the required minimum, and the
      part not covered by credit can be paid, and for a purchase also the seller, and the NFT delivered. No overflow
      check of the code ever decides. */
  lemma BidAcceptedExactly(w: World, bidder: Address, amount: i128, useCredit: bool)
    requires Inv(w) && bidder != w.self && !w.settled
    ensures var used := CreditUsed(QueuedPending(w), bidder, amount, useCredit);
            PlaceBid(w, bidder, amount, useCredit).Ok? <==>
              && w.terms.Some? && !w.cancelled && w.now <= w.deadline
              && MinRequired(w) <= amount
              && amount - used <= Get(w.wallets, bidder)
              && (used < amount ==> !Blocked(w, bidder))
              && (BuysNow(w.terms.value, amount) ==> !Blocked(w, w.terms.value.seller) && CanDeliver(w, bidder))
  {
    BidIsTakenAndDelivered(w, bidder, amount, useCredit);
    BidTakenExactly(w, bidder, amount, useCredit);
  }

  // ----- the other steps

  /** The invariant does not speak of NFTs. */
  lemma InvIgnoresItems(w: World, owners: Owners)
    requires Inv(w)
    ensures Inv(w.(owners := owners))
  {
  }

  lemma CompensateKeepsInv(w: World, caller: Address)
    requires Inv(w) && Compensate(w, caller).Ok?
    ensures Inv(Compensate(w, caller).value)
  {
    if w.highestBidder.Some? {
      var t, top := w.terms.value, w.highestBidder.value;
      var credit := Get(w.pending, top) + (w.highestBid + t.cancellationFee);
      TransferIfPositiveMoves(w.refused, w.wallets, t.seller, w.self, t.cancellationFee);
      TotalUpdate(w.pending, top, credit);
    }
  }

  lemma CancelKeepsInv(w: World, caller: Address)
    requires Inv(w) && Cancel(w, caller).Ok?
    ensures Inv(Cancel(w, caller).value)
  {
    CompensateKeepsInv(w, caller);
    DeliverMoves(Compensate(w, caller).value, caller);
    InvIgnoresItems(Compensate(w, caller).value, Cancel(w, caller).value.owners);
  }

  /** The balances and proceeds after the attempted royalty. */
  lemma RoyaltySplits(w: World, royalty: Royalty)
    requires Inv(w) && ByOthers(w.self, OpEnd(royalty)) && LiveEscrow(w) > 0
    ensures var (v, proceeds) := PayRoyalty(w, royalty);
            && Sound(v) && 0 < proceeds <= w.highestBid
            && Get(v, w.self) == Get(w.wallets, w.self) - (w.highestBid - proceeds)
            && Moved(w.wallets, v, w.self, RoyaltyTo(w, royalty), w.highestBid - proceeds)
            && (proceeds < w.highestBid ==> RoyaltyDue(w, royalty).Some? && royalty == RoyaltyDue(w, royalty)
                                            && proceeds == w.highestBid - royalty.value.1
                                            && !Blocked(w, royalty.value.0))
  {
    if RoyaltyDue(w, royalty).Some? {
      TransferMoves(w.refused, w.wallets, w.self, royalty.value.0, royalty.value.1);
    }
  }

  /** Where a royalty goes: nowhere when there is none. */
  ghost function RoyaltyTo(w: World, royalty: Royalty): Address {
    if royalty.Some? then royalty.value.0 else w.self
  }

  lemma EscrowIsHeld(w: World)
    requires Inv(w)
    ensures LiveEscrow(w) <= Get(w.wallets, w.self)
    ensures forall a :: 0 <= Get(w.sellerPending, a) && 0 <= Get(w.pending, a)
    ensures forall a :: Get(w.sellerPending, a) + LiveEscrow(w) <= Get(w.wallets, w.self) <= I128_MAX
    ensures forall a :: Get(w.pending, a) + LiveEscrow(w) <= Get(w.wallets, w.self)
  {
    forall a
      ensures 0 <= Get(w.sellerPending, a) <= Total(w.sellerPending)
      ensures 0 <= Get(w.pending, a) <= Total(w.pending)
    {
      GetAtMostTotal(w.sellerPending, a);
      GetAtMostTotal(w.pending, a);
    }
    GetAtMostTotal(w.wallets, w.self);
    assert Get(w.pending, w.self) <= Total(w.pending);
    assert Get(w.sellerPending, w.self) <= Total(w.sellerPending);
  }

  /** The winner gets the bid back. */
  ghost predicate BidReturned(w: World, v: World) {
    && v.sellerPending == w.sellerPending
    && w.highestBidder.Some? && Moved(w.wallets, v.wallets, w.self, w.highestBidder.value, w.highestBid)
  }

  /** The royalty is paid, and the seller's proceeds are paid or credited. */
  ghost predicate ProceedsPaid(w: World, royalty: Royalty, v: World)
    requires w.terms.Some?
  {
    var t, (paid, proceeds) := w.terms.value, PayRoyalty(w, royalty);
    && Moved(w.wallets, paid, w.self, RoyaltyTo(w, royalty), w.highestBid - proceeds)
    && ((v.sellerPending == w.sellerPending && Moved(paid, v.wallets, w.self, t.seller, proceeds))
        || (v.sellerPending == w.sellerPending[t.seller := Get(w.sellerPending, t.seller) + proceeds]
            && v.wallets == paid))
  }

  lemma SaleEffect(w: World, royalty: Royalty)
    requires Inv(w) && ByOthers(w.self, OpEnd(royalty)) && LiveEscrow(w) > 0
    requires PaySeller(w, w.terms.value, royalty).Ok?
    ensures var v := PaySeller(w, w.terms.value, royalty).value;
            && Sound(v.wallets)
            && v == w.(wallets := v.wallets, sellerPending := v.sellerPending, settled := true)
            && ProceedsPaid(w, royalty, v)
  {
    RoyaltySplits(w, royalty);
    var (v, proceeds) := PayRoyalty(w, royalty);
    TransferMoves(w.refused, v, w.self, w.terms.value.seller, proceeds);
  }

  /** A settlement with a winning bid: either the reserve is missed and the winner gets the bid back, or the seller's
      proceeds are paid, or they are credited. */
  lemma PayoutEffect(w: World, royalty: Royalty)
    requires Inv(w) && ByOthers(w.self, OpEnd(royalty)) && LiveEscrow(w) > 0 && Settle(w, royalty).Ok?
    ensures var v := Settle(w, royalty).value;
            && Sound(v.wallets) && 0 < PayRoyalty(w, royalty).1 <= w.highestBid
            && v == w.(wallets := v.wallets, sellerPending := v.sellerPending, settled := true)
            && (if Sells(w) then ProceedsPaid(w, royalty, v) else BidReturned(w, v))
  {
    RoyaltySplits(w, royalty);
    if Sells(w) {
      SaleEffect(w, royalty);
    } else {
      TransferMoves(w.refused, w.wallets, w.self, w.highestBidder.value, w.highestBid);
    }
  }

  lemma SettleKeepsInv(w: World, royalty: Royalty)
    requires Inv(w) && ByOthers(w.self, OpEnd(royalty)) && Settle(w, royalty).Ok?
    ensures Inv(Settle(w, royalty).value)
  {
    if w.highestBidder.Some? {
      var t, v := w.terms.value, Settle(w, royalty).value;
      var (paid, proceeds) := PayRoyalty(w, royalty);
      EscrowIsHeld(w);
      PayoutEffect(w, royalty);
      TotalUpdate(w.sellerPending, t.seller, Get(w.sellerPending, t.seller) + proceeds);
      assert Get(paid, w.self) == Get(w.wallets, w.self) - (w.highestBid - proceeds) || !Sells(w);
    }
  }

  lemma SettleBidRecords(w: World, t: Terms, winner: Address, royalty: Royalty)
    ensures SettleBid(w, t, winner, royalty).Ok? ==>
              var v := SettleBid(w, t, winner, royalty).value;
              v == w.(settled := true, sellerPending := v.sellerPending, wallets := v.wallets)
  {
    var paid := PayRoyalty(w, royalty);
  }

  /** What a settlement records besides the payments. */
  lemma SettleRecords(w: World, royalty: Royalty)
    ensures Settle(w, royalty).Ok? ==>
              var v := Settle(w, royalty).value;
              && w.terms.Some? && w.now > w.deadline
              && v == w.(settled := true, sellerPending := v.sellerPending, wallets := v.wallets)
  {
    if w.terms.Some? && w.highestBidder.Some? {
      SettleBidRecords(w, w.terms.value, w.highestBidder.value, royalty);
    }
  }

  /** A settlement pays, and then releases the NFT. */
  lemma EndSettlesAndDelivers(w: World, royalty: Royalty)
    ensures End(w, royalty).Ok? <==> Settle(w, royalty).Ok? && w.terms.Some? && CanDeliver(w, Receiver(w))
    ensures End(w, royalty).Ok? ==>
              End(w, royalty).value == Settle(w, royalty).value.(owners := OwnersAfter(w, Receiver(w)))
  {
    if Settle(w, royalty).Ok? {
      SettleRecords(w, royalty);
      DeliverMoves(Settle(w, royalty).value, Receiver(w));
    }
  }

  ghost predicate Accepts(w: World, op: Op) {
    op.OpBid? && Apply(w, op).Ok?
  }

  /** What a step may change of the terms, the deadline, the highest bid and the settled flag. */
  lemma StepRecords(w: World, op: Op)
    ensures var v := Next(w, op);
            && v.self == w.self && v.now >= w.now
            && (w.terms.Some? ==> v.terms == w.terms)
            && (v.terms != w.terms ==> op.OpStart? && !v.settled && v.terms == Some(op.terms.(startLedger := w.now)))
            && (v.settled && !w.settled ==>
                  (op.OpEnd? && w.now > w.deadline)
                  || (op.OpBid? && w.terms.Some? && BuysNow(w.terms.value, op.amount)))
            && (v.deadline != w.deadline && v.terms == w.terms ==>
                  && Accepts(w, op) && w.terms.Some? && w.now <= w.deadline
                  && v.deadline == ExtendedDeadline(w.terms.value, w.deadline, w.now))
            && (w.terms.Some? ==>
                  if Accepts(w, op) then v.highestBid == op.amount >= MinRequired(w) else v.highestBid == w.highestBid)
  {
    match op
    case OpBid(bidder, amount, useCredit) =>
      BidIsTakenAndDelivered(w, bidder, amount, useCredit);
      if TakeBid(w, bidder, amount, useCredit).Ok? {
        TakenBidRecords(w, bidder, amount, useCredit);
      }
    case OpCancel(caller) => CancelRecords(w, caller);
    case OpEnd(royalty) =>
      EndSettlesAndDelivers(w, royalty);
      SettleRecords(w, royalty);
    case OpStart(t, deadline) => StartRecords(w, t, deadline);
    case _ =>
  }

  lemma StartRecords(w: World, t: Terms, deadline: u32)
    ensures Start(w, t, deadline).Ok? ==>
              && w.terms == None
              && Start(w, t, deadline).value
                 == w.(terms := Some(t.(startLedger := w.now)), deadline := deadline, highestBid := t.startPrice - 1,
                       settled := false, cancelled := false, owners := Start(w, t, deadline).value.owners)
  {
  }

  lemma CancelRecords(w: World, caller: Address)
    ensures Cancel(w, caller).Ok? ==>
              var v := Cancel(w, caller).value;
              && w.terms.Some? && caller == w.terms.value.seller
              && v == w.(wallets := v.wallets, highestBidder := None, cancelled := true, pending := v.pending,
                         owners := if w.highestBidder.Some? then OwnersAfter(w, caller) else w.owners)
  {
    if Compensate(w, caller).Ok? {
      DeliverMoves(Compensate(w, caller).value, caller);
    }
  }

  lemma EndKeepsInv(w: World, royalty: Royalty)
    requires Inv(w) && ByOthers(w.self, OpEnd(royalty)) && End(w, royalty).Ok?
    ensures Inv(End(w, royalty).value)
  {
    EndSettlesAndDelivers(w, royalty);
    SettleKeepsInv(w, royalty);
    InvIgnoresItems(Settle(w, royalty).value, End(w, royalty).value.owners);
  }

  lemma WithdrawKeepsInv(w: World, who: Address)
    requires Inv(w)
    ensures Withdraw(w, who).Ok? <==> who in w.pending && !Blocked(w, who)
    ensures Withdraw(w, who).Ok? ==> Inv(Withdraw(w, who).value)
  {
    EscrowIsHeld(w);
    TransferMoves(w.refused, w.wallets, w.self, who, Get(w.pending, who));
    TotalRemove(w.pending, who);
  }

  lemma WithdrawSellerKeepsInv(w: World, who: Address)
    requires Inv(w)
    ensures WithdrawSellerProceeds(w, who).Ok? <==> who in w.sellerPending && !Blocked(w, who)
    ensures WithdrawSellerProceeds(w, who).Ok? ==> Inv(WithdrawSellerProceeds(w, who).value)
  {
    EscrowIsHeld(w);
    TransferMoves(w.refused, w.wallets, w.self, who, Get(w.sellerPending, who));
    TotalRemove(w.sellerPending, who);
  }

  lemma StepKeepsInv(w: World, op: Op)
    requires Inv(w) && Admissible(w, op)
    ensures Inv(Next(w, op))
  {
    if Apply(w, op).Ok? {
      match op
      case OpStart(t, _) =>
      case OpBid(bidder, amount, useCredit) => BidKeepsInv(w, bidder, amount, useCredit);
      case OpCancel(caller) => CancelKeepsInv(w, caller);
      case OpEnd(royalty) => EndKeepsInv(w, royalty);
      case OpWithdraw(who) => WithdrawKeepsInv(w, who);
      case OpWithdrawSeller(who) => WithdrawSellerKeepsInv(w, who);
      case OpAdvance(_) =>
      case OpOutside(from, to, moved) => TransferMoves(w.refused, w.wallets, from, to, moved);
      case OpRefuse(_) =>
      case OpMoveItem(_, _, _) =>
        InvIgnoresItems(w, Next(w, op).owners);
      case OpRefuseItems(_) =>
    }
  }

  lemma GenesisInv(w: World)
    requires Genesis(w)
    ensures Inv(w)
  {
    TotalEmpty(w.pending);
    TotalEmpty(w.sellerPending);
  }

  /** In every state reached from before `start`, up to and including the first sale at the buy-it-now price, the
      contract holds exactly the live escrow, the refunds and the seller's pending proceeds. */
  lemma ContractHoldsWhatItOwes(w: World, ops: seq<Op>)
    requires Genesis(w) && Along(Next, Admissible, w, ops)
    ensures Inv(Exec(Next, w, ops))
  {
    GenesisInv(w);
    forall v, op | Inv(v) && Admissible(v, op)
      ensures Inv(Next(v, op))
    {
      StepKeepsInv(v, op);
    }
    Invariant(Next, Admissible, Inv, w, ops);
  }

  /** No buy-it-now price, neither offered nor set. */
  ghost predicate NoPurchasePrice(op: Op) {
    op.OpStart? ==> op.terms.buyItNowPrice == None
  }

  ghost predicate NotSoldEarly(w: World) {
    && (w.settled ==> w.now > w.deadline)
    && (w.terms.Some? ==> w.terms.value.buyItNowPrice == None)
  }

  lemma StepNotSoldEarly(w: World, op: Op)
    requires NotSoldEarly(w) && NoPurchasePrice(op)
    ensures NotSoldEarly(Next(w, op)) && Next(w, op).self == w.self
  {
    StepRecords(w, op);
  }

  /** Without a buy-it-now price nothing else is asked of the run. */
  lemma ContractHoldsWhatItOwesWithoutPurchase(w: World, ops: seq<Op>)
    requires Genesis(w)
    requires forall k :: 0 <= k < |ops| ==> ByOthers(w.self, ops[k]) && NoPurchasePrice(ops[k])
    ensures Conserved(Exec(Next, w, ops))
  {
    GenesisInv(w);
    var inv := (v: World) => Inv(v) && NotSoldEarly(v) && v.self == w.self;
    var each := (op: Op) => ByOthers(w.self, op) && NoPurchasePrice(op);
    forall v, op | inv(v) && each(op)
      ensures Admissible(v, op) && inv(Next(v, op))
    {
      StepKeepsInv(v, op);
      StepNotSoldEarly(v, op);
    }
    GuardFromInvariant(Next, Admissible, inv, each, w, ops);
    ContractHoldsWhatItOwes(w, ops);
  }

  // ----- what can get stuck

  /** The top bid misses the reserve, so that settling returns it. */
  ghost predicate MissesReserve(w: World)
    requires w.terms.Some?
  {
    && w.highestBidder.Some? && w.terms.value.reservePrice.Some?
    && w.highestBid < w.terms.value.reservePrice.value
  }

  lemma PaymentsBlockExactly(w: World, royalty: Royalty)
    requires Inv(w) && ByOthers(w.self, OpEnd(royalty))
    requires w.terms.Some? && w.now > w.deadline && !w.settled && !w.cancelled
    ensures Settle(w, royalty).Ok? <==> !(MissesReserve(w) && Blocked(w, w.highestBidder.value))
  {
    EscrowIsHeld(w);
    if w.highestBidder.Some? {
      TransferMoves(w.refused, w.wallets, w.self, w.highestBidder.value, w.highestBid);
      RoyaltySplits(w, royalty);
    }
  }

  /** After the deadline an open auction can be settled, whoever the token refuses, with two exceptions: a bid that
      misses the reserve is returned by a plain transfer, which the token may refuse, and the NFT must be delivered to
      whoever gets it. */
  lemma SettlementBlocksExactly(w: World, royalty: Royalty)
    requires Inv(w) && ByOthers(w.self, OpEnd(royalty))
    requires w.terms.Some? && w.now > w.deadline && !w.settled && !w.cancelled
    ensures End(w, royalty).Err? <==>
              (MissesReserve(w) && Blocked(w, w.highestBidder.value)) || !CanDeliver(w, Receiver(w))
  {
    EndSettlesAndDelivers(w, royalty);
    PaymentsBlockExactly(w, royalty);
  }

  ghost predicate WithdrawsUnlessBlocked(w: World, op: Op) {
    (op.OpWithdraw? || op.OpWithdrawSeller?) && (Apply(w, op).Ok? <==> !Blocked(w, op.who))
  }

  ghost predicate Outstanding(w: World, op: Op) {
    (op.OpWithdraw? && op.who in w.pending) || (op.OpWithdrawSeller? && op.who in w.sellerPending)
  }

  /** `ops` attempts every outstanding withdrawal once, in some order. */
  ghost predicate WithdrawsEverything(w: World, ops: seq<Op>) {
    && (forall i, j :: 0 <= i < j < |ops| ==> ops[i] != ops[j])
    && (forall op :: op in ops <==> Outstanding(w, op))
  }

  /** The debts to those who cannot be paid. */
  ghost function Stuck(w: World, owed: map<Address, int>): map<Address, int> {
    Unpayable(w.refused, w.self, owed)
  }

  ghost function Unpayable(refused: set<Address>, self: Address, owed: map<Address, int>): map<Address, int> {
    map a | a in owed && !Allowed(refused, self, a) :: owed[a]
  }

  lemma PaymentKeepsUnpayable(refused: set<Address>, self: Address, owed: map<Address, int>, who: Address)
    requires Allowed(refused, self, who)
    ensures Unpayable(refused, self, owed - {who}) == Unpayable(refused, self, owed)
  {
  }

  /** `v` is `u` after some of its withdrawals, and the withdrawals to come are the outstanding ones, but for those that
      were attempted in vain. */
  ghost predicate WindingUp(u: World, v: World, ops: seq<Op>) {
    && Inv(v) && (v.settled || v.cancelled)
    && v.self == u.self && v.refused == u.refused
    && Stuck(v, v.pending) == Stuck(u, u.pending) && Stuck(v, v.sellerPending) == Stuck(u, u.sellerPending)
    && (forall i, j :: 0 <= i < j < |ops| ==> ops[i] != ops[j])
    && (forall op :: op in ops ==> Outstanding(v, op))
    && (forall op :: Outstanding(v, op) && op !in ops ==> Blocked(v, op.who))
  }

  /** `v` is `w` after the attempt `op`. */
  ghost predicate Attempted(w: World, v: World, op: Op) {
    && Inv(v) && (v.settled || v.cancelled)
    && v.self == w.self && v.refused == w.refused
    && Stuck(v, v.pending) == Stuck(w, w.pending) && Stuck(v, v.sellerPending) == Stuck(w, w.sellerPending)
    && forall o :: Outstanding(v, o) <==> Outstanding(w, o) && (o != op || Blocked(w, op.who))
  }

  lemma WithdrawOne(w: World, op: Op)
    requires Inv(w) && (w.settled || w.cancelled) && Outstanding(w, op)
    ensures WithdrawsUnlessBlocked(w, op) && Attempted(w, Next(w, op), op)
  {
    if op.OpWithdraw? {
      WithdrawRefund(w, op.who);
    } else {
      WithdrawProceeds(w, op.who);
    }
  }

  lemma WithdrawRefund(w: World, who: Address)
    requires Inv(w) && (w.settled || w.cancelled) && who in w.pending
    ensures WithdrawsUnlessBlocked(w, OpWithdraw(who)) && Attempted(w, Next(w, OpWithdraw(who)), OpWithdraw(who))
  {
    var v := Next(w, OpWithdraw(who));
    WithdrawKeepsInv(w, who);
    if !Blocked(w, who) {
      assert v == w.(pending := w.pending - {who}, wallets := v.wallets);
      PaymentKeepsUnpayable(w.refused, w.self, w.pending, who);
    }
    OutstandingShrinks(w, v, OpWithdraw(who));
  }

  lemma WithdrawProceeds(w: World, who: Address)
    requires Inv(w) && (w.settled || w.cancelled) && who in w.sellerPending
    ensures WithdrawsUnlessBlocked(w, OpWithdrawSeller(who))
    ensures Attempted(w, Next(w, OpWithdrawSeller(who)), OpWithdrawSeller(who))
  {
    var v := Next(w, OpWithdrawSeller(who));
    WithdrawSellerKeepsInv(w, who);
    if !Blocked(w, who) {
      assert v == w.(sellerPending := w.sellerPending - {who}, wallets := v.wallets);
      PaymentKeepsUnpayable(w.refused, w.self, w.sellerPending, who);
    }
    OutstandingShrinks(w, v, OpWithdrawSeller(who));
  }

  lemma OutstandingShrinks(w: World, v: World, op: Op)
    requires op.OpWithdraw? || op.OpWithdrawSeller?
    requires forall a :: a in v.pending <==> a in w.pending && (op == OpWithdraw(a) ==> Blocked(w, a))
    requires forall a :: a in v.sellerPending <==> a in w.sellerPending && (op == OpWithdrawSeller(a) ==> Blocked(w, a))
    ensures forall o :: Outstanding(v, o) <==> Outstanding(w, o) && (o != op || Blocked(w, op.who))
  {
  }

  lemma TailMembers<T>(s: seq<T>)
    requires s != [] && forall i, j :: 0 <= i < j < |s| ==> s[i] != s[j]
    ensures forall x :: x in s[1..] <==> x in s && x != s[0]
  {
    forall x | x in s && x != s[0]
      ensures x in s[1..]
    {
      var k :| 0 <= k < |s| && s[k] == x;
      assert s[1..][k - 1] == x;
    }
  }

  lemma WindingUpStep(u: World, w: World, ops: seq<Op>)
    requires WindingUp(u, w, ops) && ops != []
    ensures WithdrawsUnlessBlocked(w, ops[0]) && WindingUp(u, Next(w, ops[0]), ops[1..])
  {
    assert ops[0] in ops;
    WithdrawOne(w, ops[0]);
    TailMembers(ops);
  }

  /** Once all withdrawals were attempted, only those who cannot be paid are owed anything. */
  lemma WoundUp(u: World, w: World)
    requires WindingUp(u, w, [])
    ensures w.pending == Stuck(u, u.pending) && w.sellerPending == Stuck(u, u.sellerPending)
  {
    forall a
      ensures a in w.pending ==> Blocked(w, a)
      ensures a in w.sellerPending ==> Blocked(w, a)
    {
      assert Outstanding(w, OpWithdraw(a)) ==> OpWithdraw(a) in [] || Blocked(w, a);
      assert Outstanding(w, OpWithdrawSeller(a)) ==> OpWithdrawSeller(a) in [] || Blocked(w, a);
    }
    assert w.pending == Stuck(w, w.pending);
    assert w.sellerPending == Stuck(w, w.sellerPending);
  }

  /** Once the auction is settled or cancelled, attempting all outstanding withdrawals, in any order, pays exactly
      those whom the token does not refuse. The contract is left with what it owes to the others: with nothing, when
      nobody is refused. */
  lemma WithdrawalsDrainTheContract(w: World, ops: seq<Op>)
    requires Inv(w) && (w.settled || w.cancelled) && WithdrawsEverything(w, ops)
    ensures Along(Next, WithdrawsUnlessBlocked, w, ops)
    ensures var end := Exec(Next, w, ops);
            && Inv(end)
            && end.pending == Stuck(w, w.pending) && end.sellerPending == Stuck(w, w.sellerPending)
            && Get(end.wallets, w.self) == Total(Stuck(w, w.pending)) + Total(Stuck(w, w.sellerPending))
            && ((forall op :: Outstanding(w, op) ==> !Blocked(w, op.who)) ==> Get(end.wallets, w.self) == 0)
  {
    var todo := (v: World, os: seq<Op>) => WindingUp(w, v, os);
    forall v, os | todo(v, os) && os != []
      ensures WithdrawsUnlessBlocked(v, os[0]) && todo(Next(v, os[0]), os[1..])
    {
      WindingUpStep(w, v, os);
    }
    Agenda(Next, WithdrawsUnlessBlocked, todo, w, ops);
    var end := Exec(Next, w, ops);
    WoundUp(w, end);
    if forall op :: Outstanding(w, op) ==> !Blocked(w, op.who) {
      NobodyStuck(w);
    }
  }

  lemma NobodyStuck(w: World)
    requires forall op :: Outstanding(w, op) ==> !Blocked(w, op.who)
    ensures Total(Stuck(w, w.pending)) == 0 && Total(Stuck(w, w.sellerPending)) == 0
  {
    forall a
      ensures a in w.pending ==> !Blocked(w, a)
      ensures a in w.sellerPending ==> !Blocked(w, a)
    {
      assert Outstanding(w, OpWithdraw(a)) <==> a in w.pending;
      assert Outstanding(w, OpWithdrawSeller(a)) <==> a in w.sellerPending;
    }
    TotalEmpty(Stuck(w, w.pending));
    TotalEmpty(Stuck(w, w.sellerPending));
  }

  // ----- what everybody is worth

  /** Balance, refund, pending proceeds, and the bid at stake. */
  function Worth(w: World, a: Address): int {
    Get(w.wallets, a) + Get(w.pending, a) + Get(w.sellerPending, a)
    + (if w.highestBidder == Some(a) then LiveEscrow(w) else 0)
  }

  /** What a step adds to the worth of `a`: only a sale and a compensated cancellation move value between people. */
  ghost function Gain(w: World, op: Op, a: Address): int {
    match op
    case OpBid(bidder, amount, _) =>
      if w.terms.Some? && BuysNow(w.terms.value, amount) then
        When(a == w.terms.value.seller, amount) - When(a == bidder, amount)
      else
        0
    case OpCancel(_) =>
      if w.terms.Some? && w.highestBidder.Some? then
        var t := w.terms.value;
        When(w.highestBidder == Some(a), t.cancellationFee) - When(a == t.seller, t.cancellationFee)
      else
        0
    case OpEnd(royalty) =>
      if Sells(w) then
        var proceeds := PayRoyalty(w, royalty).1;
        When(a == w.terms.value.seller, proceeds) - When(w.highestBidder == Some(a), w.highestBid)
        + When(a == RoyaltyTo(w, royalty), w.highestBid - proceeds)
      else
        0
    case OpOutside(from, to, moved) => When(a == to, moved) - When(a == from, moved)
    case _ => 0
  }

  lemma TakenBidGain(w: World, v: World, bidder: Address, amount: i128, useCredit: bool, used: int, a: Address)
    requires Inv(w) && bidder != w.self && !w.settled && a != w.self
    requires BidTaken(w, v, bidder, amount, used)
    ensures Worth(v, a) == Worth(w, a) + Gain(w, OpBid(bidder, amount, useCredit), a)
  {
    assert Get(v.pending, a) == Get(w.pending, a) + When(w.highestBidder == Some(a), w.highestBid)
                                - When(a == bidder, used);
  }

  lemma CancelGain(w: World, caller: Address, a: Address)
    requires Inv(w) && a != w.self && Cancel(w, caller).Ok?
    ensures Worth(Cancel(w, caller).value, a) == Worth(w, a) + Gain(w, OpCancel(caller), a)
  {
    DeliverMoves(Compensate(w, caller).value, caller);
    if w.highestBidder.Some? {
      TransferIfPositiveMoves(w.refused, w.wallets, w.terms.value.seller, w.self, w.terms.value.cancellationFee);
    }
  }

  lemma SaleGain(w: World, royalty: Royalty, v: World, a: Address)
    requires Sells(w) && !w.settled && !w.cancelled && a != w.self
    requires v == w.(wallets := v.wallets, sellerPending := v.sellerPending, settled := true)
    requires ProceedsPaid(w, royalty, v)
    ensures Worth(v, a) == Worth(w, a) + Gain(w, OpEnd(royalty), a)
  {
    var paid := PayRoyalty(w, royalty).0;
    assert Get(v.wallets, a) - Get(w.wallets, a) == Get(v.wallets, a) - Get(paid, a) + Get(paid, a) - Get(w.wallets, a);
  }

  lemma EndGain(w: World, royalty: Royalty, a: Address)
    requires Inv(w) && ByOthers(w.self, OpEnd(royalty)) && a != w.self && End(w, royalty).Ok?
    ensures Worth(End(w, royalty).value, a) == Worth(w, a) + Gain(w, OpEnd(royalty), a)
  {
    var v := Settle(w, royalty).value;
    EndSettlesAndDelivers(w, royalty);
    assert Worth(End(w, royalty).value, a) == Worth(v, a);
    if w.highestBidder.Some? {
      PayoutEffect(w, royalty);
      if Sells(w) {
        SaleGain(w, royalty, v, a);
      }
    }
  }

  /** Every successful step changes every participant's worth by exactly its `Gain`: bids and withdrawals by anyone
      change nobody's, a compensated cancellation moves the fee from the seller to the top bidder, and a sale moves
      the winning bid from the winner to the seller and the royalty recipient. */
  lemma WorthChangesByGain(w: World, op: Op, a: Address)
    requires Inv(w) && ByOthers(w.self, op) && (op.OpBid? ==> !w.settled) && a != w.self
    requires Apply(w, op).Ok?
    ensures Worth(Next(w, op), a) == Worth(w, a) + Gain(w, op, a)
  {
    match op
    case OpBid(bidder, amount, useCredit) =>
      BidOutcome(w, bidder, amount, useCredit);
      TakenBidGain(w, Next(w, op), bidder, amount, useCredit,
                   CreditUsed(QueuedPending(w), bidder, amount, useCredit), a);
    case OpCancel(caller) => CancelGain(w, caller, a);
    case OpEnd(royalty) => EndGain(w, royalty, a);
    case OpWithdraw(who) => WithdrawGain(w, who, a);
    case OpWithdrawSeller(who) => WithdrawProceedsGain(w, who, a);
    case OpOutside(from, to, moved) => TransferMoves(w.refused, w.wallets, from, to, moved);
    case _ =>
  }

  lemma WithdrawGain(w: World, who: Address, a: Address)
    requires Inv(w) && a != w.self
    ensures Worth(Next(w, OpWithdraw(who)), a) == Worth(w, a)
  {
    TransferMoves(w.refused, w.wallets, w.self, who, Get(w.pending, who));
  }

  lemma WithdrawProceedsGain(w: World, who: Address, a: Address)
    requires Inv(w) && a != w.self
    ensures Worth(Next(w, OpWithdrawSeller(who)), a) == Worth(w, a)
  {
    TransferMoves(w.refused, w.wallets, w.self, who, Get(w.sellerPending, who));
  }

  // ----- bidding with credit

  /** A withdrawal attempt that is not refused leaves no refund and pays what there was. */
  lemma WithdrawAttempt(v: World, bidder: Address)
    requires Inv(v) && bidder != v.self && !Blocked(v, bidder)
    ensures var after := Next(v, OpWithdraw(bidder));
            && after == v.(pending := v.pending - {bidder}, wallets := after.wallets)
            && Moved(v.wallets, after.wallets, v.self, bidder, Get(v.pending, bidder))
            && after.wallets.Keys == v.wallets.Keys + (if bidder in v.pending then {v.self, bidder} else {})
  {
    WithdrawKeepsInv(v, bidder);
    TransferMoves(v.refused, v.wallets, v.self, bidder, Get(v.pending, bidder));
    if bidder !in v.pending {
      assert v.pending - {bidder} == v.pending;
    }
  }

  /** The state after a bid and a withdrawal attempt, which does not depend on how the bid was funded. */
  ghost predicate BidAndWithdrawn(w: World, after: World, bidder: Address, amount: i128)
    requires w.terms.Some?
  {
    var t, queued := w.terms.value, QueuedPending(w);
    var sold, credit := When(BuysNow(t, amount), amount), Get(queued, bidder);
    && after == w.(highestBidder := Some(bidder), highestBid := amount, settled := BuysNow(t, amount),
                   deadline := if BuysNow(t, amount) then w.deadline else ExtendedDeadline(t, w.deadline, w.now),
                   pending := queued - {bidder}, wallets := after.wallets,
                   owners := if BuysNow(t, amount) then OwnersAfter(w, bidder) else w.owners)
    && after.wallets.Keys == KeysAfter(w.wallets, bidder, w.self, t.seller, amount, sold)
    && PaidAndSold(w.wallets, after.wallets, bidder, w.self, t.seller, amount - credit, sold)
  }

  /** A credit that covers a bid is money the contract holds. */
  lemma CoveredBidHasKeys(w: World, bidder: Address, amount: i128, useCredit: bool)
    requires Inv(w) && bidder != w.self && !w.settled && !w.cancelled && amount > 0
    requires Get(w.wallets, bidder) >= amount
    ensures bidder in w.wallets
    ensures CreditUsed(QueuedPending(w), bidder, amount, useCredit) == amount ==> w.self in w.wallets
  {
    EscrowAndQueued(w, bidder);
  }

  lemma KeysCovered(w: Wallets, bidder: Address, self: Address, seller: Address, amount: int, used: int, sold: int)
    requires 0 <= used <= amount && amount > 0 && bidder in w && (used == amount ==> self in w)
    ensures KeysAfter(w, bidder, self, seller, amount - used, sold) + {self, bidder}
            == KeysAfter(w, bidder, self, seller, amount - used, sold)
            == KeysAfter(w, bidder, self, seller, amount, sold)
  {
  }

  lemma BidThenWithdraw(w: World, v: World, after: World, bidder: Address, amount: i128, used: int)
    requires amount > 0 && !w.settled && bidder in w.wallets && (used == amount ==> w.self in w.wallets)
    requires BidTaken(w, v, bidder, amount, used)
    requires v.pending - {bidder} == QueuedPending(w) - {bidder}
    requires v.owners == if BuysNow(w.terms.value, amount) then OwnersAfter(w, bidder) else w.owners
    requires Get(v.pending, bidder) == Get(QueuedPending(w), bidder) - used
    requires after == v.(pending := v.pending - {bidder}, wallets := after.wallets)
    requires Moved(v.wallets, after.wallets, v.self, bidder, Get(v.pending, bidder))
    requires after.wallets.Keys == v.wallets.Keys + (if bidder in v.pending then {v.self, bidder} else {})
    ensures BidAndWithdrawn(w, after, bidder, amount)
  {
    var t, credit := w.terms.value, Get(QueuedPending(w), bidder);
    var sold := When(BuysNow(t, amount), amount);
    KeysCovered(w.wallets, bidder, w.self, t.seller, amount, used, sold);
    RefundMove(w.wallets, v.wallets, after.wallets, bidder, w.self, t.seller, amount - used, sold, credit - used);
    assert amount - used - (credit - used) == amount - credit;
  }

  lemma TakenThenWithdraw(w: World, bidder: Address, amount: i128, useCredit: bool)
    requires Inv(w) && bidder != w.self && !w.settled
    requires PlaceBid(w, bidder, amount, useCredit).Ok? && Get(w.wallets, bidder) >= amount && !Blocked(w, bidder)
    ensures BidAndWithdrawn(w, Next(PlaceBid(w, bidder, amount, useCredit).value, OpWithdraw(bidder)), bidder, amount)
  {
    var v := PlaceBid(w, bidder, amount, useCredit).value;
    BidKeepsInv(w, bidder, amount, useCredit);
    AcceptedBidRefunds(w, bidder, amount, useCredit);
    CoveredBidHasKeys(w, bidder, amount, useCredit);
    WithdrawAttempt(v, bidder);
    BidThenWithdraw(w, v, Next(v, OpWithdraw(bidder)), bidder, amount,
                    CreditUsed(QueuedPending(w), bidder, amount, useCredit));
  }

  lemma AcceptedBidRefunds(w: World, bidder: Address, amount: i128, useCredit: bool)
    requires Inv(w) && bidder != w.self && PlaceBid(w, bidder, amount, useCredit).Ok?
    ensures var v, used := PlaceBid(w, bidder, amount, useCredit).value,
                           CreditUsed(QueuedPending(w), bidder, amount, useCredit);
            && w.terms.Some? && !w.cancelled && amount > 0
            && BidTaken(w, v, bidder, amount, used)
            && v.pending - {bidder} == QueuedPending(w) - {bidder}
            && Get(v.pending, bidder) == Get(QueuedPending(w), bidder) - used
            && v.refused == w.refused
            && v.owners == if BuysNow(w.terms.value, amount) then OwnersAfter(w, bidder) else w.owners
  {
    BidOutcome(w, bidder, amount, useCredit);
    BidIsTakenAndDelivered(w, bidder, amount, useCredit);
    TakenBidRecords(w, bidder, amount, useCredit);
  }

  lemma SameWallets(u: Wallets, v: Wallets)
    requires u.Keys == v.Keys && forall a :: Get(u, a) == Get(v, a)
    ensures u == v
  {
    forall a | a in u
      ensures u[a] == v[a]
    {
      assert Get(u, a) == Get(v, a);
    }
  }

  /** Bidding with credit and then withdrawing reaches the same state as bidding in full and then withdrawing,
      whenever the wallet covers the bid in full. */
  lemma CreditIsBidThenWithdraw(w: World, bidder: Address, amount: i128)
    requires Inv(w) && bidder != w.self && !w.settled
    requires PlaceBid(w, bidder, amount, false).Ok?
    ensures PlaceBid(w, bidder, amount, true).Ok?
    ensures Next(PlaceBid(w, bidder, amount, false).value, OpWithdraw(bidder))
            == Next(PlaceBid(w, bidder, amount, true).value, OpWithdraw(bidder))
  {
    CreditBidSucceeds(w, bidder, amount);
    TakenThenWithdraw(w, bidder, amount, false);
    TakenThenWithdraw(w, bidder, amount, true);
    var x := Next(PlaceBid(w, bidder, amount, false).value, OpWithdraw(bidder));
    var y := Next(PlaceBid(w, bidder, amount, true).value, OpWithdraw(bidder));
    SameWallets(x.wallets, y.wallets);
  }

  lemma CreditBidSucceeds(w: World, bidder: Address, amount: i128)
    requires Inv(w) && bidder != w.self && !w.settled
    requires PlaceBid(w, bidder, amount, false).Ok?
    ensures PlaceBid(w, bidder, amount, true).Ok? && Get(w.wallets, bidder) >= amount && !Blocked(w, bidder)
  {
    BidIsTakenAndDelivered(w, bidder, amount, false);
    BidIsTakenAndDelivered(w, bidder, amount, true);
    BidTakenExactly(w, bidder, amount, false);
    BidTakenExactly(w, bidder, amount, true);
    EscrowAndQueued(w, bidder);
  }

  /** The contract holds at least the refund a bidder has after queueing. */
  lemma EscrowAndQueued(w: World, bidder: Address)
    requires Inv(w) && bidder != w.self && !w.settled && !w.cancelled
    ensures 0 <= Get(QueuedPending(w), bidder) <= Get(w.wallets, w.self) <= I128_MAX
    ensures FitsI128(QueuedAmount(w))
  {
    EscrowIsHeld(w);
    if w.highestBidder.Some? {
      SetPendingEffect(w.pending, w.highestBidder.value, QueuedAmount(w));
    }
  }

  // ----- deadlines and bids over a run

  /** The rounded-up number of windows between a deadline and its cap. */
  function WindowsLeft(t: Terms, deadline: u32): int
    requires t.extensionWindow > 0
  {
    (t.maxDeadline - deadline + t.extensionWindow - 1) / t.extensionWindow
  }

  ghost predicate Extends(w: World, op: Op) {
    Next(w, op).deadline != w.deadline
  }

  /** Once started, the terms are fixed, and the deadline moves only by an accepted bid. */
  lemma StartedStep(w: World, op: Op)
    requires w.terms.Some?
    ensures var v := Next(w, op);
            && v.terms == w.terms
            && (v.deadline == w.deadline
                || (Accepts(w, op) && v.deadline == ExtendedDeadline(w.terms.value, w.deadline, w.now)))
            && (if Accepts(w, op) then v.highestBid == op.amount >= MinRequired(w) else v.highestBid == w.highestBid)
  {
    StepRecords(w, op);
  }

  /** An extension uses up a window. */
  lemma ExtensionUsesWindow(t: Terms, deadline: u32, now: u32)
    requires t.extensionWindow > 0 && deadline <= t.maxDeadline
    ensures var d := ExtendedDeadline(t, deadline, now);
            && deadline <= d <= t.maxDeadline
            && 0 <= WindowsLeft(t, d)
            && (d != deadline ==> WindowsLeft(t, d) <= WindowsLeft(t, deadline) - 1)
  {
    var d, n := ExtendedDeadline(t, deadline, now), t.extensionWindow;
    DivMonotone(0, t.maxDeadline - d + n - 1, n);
    DivUnique(0, n, 0);
    if d != deadline {
      var left := t.maxDeadline - deadline - 1;
      DivOneMore(left, n);
      assert t.maxDeadline - deadline + n - 1 == left + n;
      DivMonotone(0, left, n);
      if d == t.maxDeadline {
        DivUnique(n - 1, n, 0);
      } else {
        assert t.maxDeadline - d + n - 1 == left;
      }
    }
  }

  /** The deadline never moves back nor beyond its cap, and the number of extensions is at most the number of
      windows, rounded up, between the first deadline and the cap. */
  lemma DeadlineBounded(w: World, ops: seq<Op>)
    requires w.terms.Some? && w.deadline <= w.terms.value.maxDeadline
    ensures var t, end := w.terms.value, Exec(Next, w, ops);
            && end.terms == w.terms
            && w.deadline <= end.deadline <= t.maxDeadline
            && (t.extensionWindow > 0 ==> Count(Next, Extends, w, ops) <= WindowsLeft(t, w.deadline))
            && (t.extensionWindow == 0 ==> end.deadline == w.deadline)
  {
    var t := w.terms.value;
    var inv := (v: World) => v.terms == w.terms && w.deadline <= v.deadline <= t.maxDeadline
                             && (t.extensionWindow == 0 ==> v.deadline == w.deadline);
    var height := (v: World) => if t.extensionWindow > 0 then -WindowsLeft(t, v.deadline) else 0;
    var rise := if t.extensionWindow > 0 then 1 else 0;
    forall v, op | inv(v)
      ensures inv(Next(v, op))
      ensures height(Next(v, op)) >= height(v) + if Extends(v, op) then rise else 0
    {
      StartedStep(v, op);
      if t.extensionWindow > 0 {
        ExtensionUsesWindow(t, v.deadline, v.now);
      }
    }
    Climbs(Next, Extends, inv, height, rise, w, ops);
    if t.extensionWindow > 0 {
      ExtensionUsesWindow(t, Exec(Next, w, ops).deadline, w.now);
    }
  }

  /** The highest bid, or one increment below the start price before the first bid. */
  function BidHeight(t: Terms, highestBid: int): int {
    if highestBid < t.startPrice then t.startPrice - t.minIncrement else highestBid
  }

  lemma BidRaises(w: World, op: Op)
    requires w.terms.Some? && w.terms.value.minIncrement > 0
    ensures var t, v := w.terms.value, Next(w, op);
            && v.terms == w.terms
            && BidHeight(t, v.highestBid) >= BidHeight(t, w.highestBid) + When(Accepts(w, op), t.minIncrement)
  {
    StartedStep(w, op);
  }

  lemma {:induction false} HeightClimbs(w: World, ops: seq<Op>)
    requires w.terms.Some? && w.terms.value.minIncrement > 0
    ensures var t, end := w.terms.value, Exec(Next, w, ops);
            BidHeight(t, end.highestBid)
            >= BidHeight(t, w.highestBid) + Count(Next, Accepts, w, ops) * t.minIncrement
    decreases ops
  {
    if ops != [] {
      var v := Next(w, ops[0]);
      BidRaises(w, ops[0]);
      HeightClimbs(v, ops[1..]);
      MulDistributes(Count(Next, Accepts, v, ops[1..]), 1, w.terms.value.minIncrement);
    }
  }

  /** After `k` accepted bids since `start`, the highest bid is at least the start price plus `k - 1` increments. */
  lemma BidsClimb(w: World, ops: seq<Op>)
    requires w.terms.Some? && w.highestBid == w.terms.value.startPrice - 1 && w.terms.value.minIncrement > 0
    ensures var t, k := w.terms.value, Count(Next, Accepts, w, ops);
            k > 0 ==> Exec(Next, w, ops).highestBid >= t.startPrice + (k - 1) * t.minIncrement
  {
    HeightClimbs(w, ops);
    AtLeastOneIncrement(w.terms.value, Exec(Next, w, ops).highestBid, Count(Next, Accepts, w, ops));
  }

  lemma AtLeastOneIncrement(t: Terms, highestBid: int, k: int)
    requires t.minIncrement > 0
    requires BidHeight(t, highestBid) >= BidHeight(t, t.startPrice - 1) + k * t.minIncrement
    ensures k > 0 ==> highestBid >= t.startPrice + (k - 1) * t.minIncrement
  {
    MulDistributes(k - 1, 1, t.minIncrement);
    if k > 0 {
      MulMonotone(0, k - 1, t.minIncrement);
    }
  }
}
