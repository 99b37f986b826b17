/**
  What the entry points of the auction require and do, in terms of the stored terms, amounts and owners alone: who pays
  how much to whom, who gets the NFT, and when the deadline moves.
 */
module AuctionEffects {
  import opened Wrappers
  import opened Sums
  import opened TokenLedger
  import opened NftLedger
  import opened Auction
  import opened AuctionSafety

  // ----- the vocabulary

  /** Neither the contract nor `a` is refused by the token. */
  ghost predicate Accepted(w: World, a: Address) {
    w.self !in w.refused && a !in w.refused
  }

  /** The auction has an NFT. */
  ghost predicate HasNft(t: Terms) {
    t.nftContract.Some? && t.tokenId.Some?
  }

  /** `a` owns the auctioned NFT. */
  ghost predicate OwnsNft(w: World, t: Terms, owners: Owners, a: Address)
    requires HasNft(t)
  {
    var item := (t.nftContract.value, t.tokenId.value);
    item in owners && owners[item] == a
  }

  /** The contract can hand over the auctioned NFT, if there is one. */
  ghost predicate CanHandOver(w: World, t: Terms, to: Address) {
    HasNft(t) ==> OwnsNft(w, t, w.owners, w.self) && w.self !in w.itemRefused && to !in w.itemRefused
  }

  /** No NFT changes hands, except that the auctioned one goes to `to` when `moves`. */
  ghost predicate HandedOver(w: World, t: Terms, owners: Owners, to: Address, moves: bool) {
    && (HasNft(t) && moves ==> OwnsNft(w, t, owners, to))
    && forall item: Item :: !(moves && HasNft(t) && item == (t.nftContract.value, t.tokenId.value)) ==>
         (item in owners <==> item in w.owners) && (item in owners ==> owners[item] == w.owners[item])
  }

  lemma HandOver(w: World, to: Address)
    requires w.terms.Some?
    ensures CanDeliver(w, to) <==> CanHandOver(w, w.terms.value, to)
    ensures CanDeliver(w, to) ==> HandedOver(w, w.terms.value, OwnersAfter(w, to), to, true)
    ensures HandedOver(w, w.terms.value, w.owners, to, false)
  {
  }

  // ----- start

  /** An auction starts exactly when none was started, its amounts are positive and its deadlines in order, and its NFT,
      if any, is completely specified and can be pulled from the seller. Then the terms are fixed, the first bid must
      reach the start price, and the contract has the NFT and no money. */
  lemma StartExactly(w: World, t: Terms, deadline: u32)
    ensures Start(w, t, deadline).Ok? <==>
              && w.terms == None
              && 0 < t.startPrice && 0 < t.minIncrement && 0 <= t.cancellationFee
              && w.now < deadline <= t.maxDeadline
              && (t.nftContract.Some? <==> t.tokenId.Some?)
              && (HasNft(t) ==>
                    OwnsNft(w, t, w.owners, t.seller) && w.self !in w.itemRefused && t.seller !in w.itemRefused)
    ensures Start(w, t, deadline).Ok? ==>
              var v := Start(w, t, deadline).value;
              && v == w.(terms := Some(t.(startLedger := w.now)), deadline := deadline, highestBid := v.highestBid,
                         settled := false, cancelled := false, owners := v.owners)
              && v.highestBid == t.startPrice - 1 && MinRequired(v) == t.startPrice
              && HandedOver(w, t, v.owners, w.self, true)
  {
  }

  /** Why a start is refused. */
  lemma StartRefusals(w: World, t: Terms, deadline: u32)
    ensures var r := Start(w, t, deadline);
            var amounts, dates := 0 < t.startPrice && 0 < t.minIncrement && 0 <= t.cancellationFee,
                                  w.now < deadline <= t.maxDeadline;
            && (r == Err(AlreadyInitialized) <==> w.terms.Some?)
            && (r == Err(InvalidAmount) <==> w.terms == None && !amounts)
            && (r == Err(InvalidDeadline) <==> w.terms == None && amounts && !dates)
            && (r == Err(InvalidNftParams) <==>
                  w.terms == None && amounts && dates && !(t.nftContract.Some? <==> t.tokenId.Some?))
            && (r.Err? ==> r.error in {AlreadyInitialized, InvalidAmount, InvalidDeadline, InvalidNftParams, NftTrap})
  {
  }

  // ----- bids

  /** The refund that `a` can draw on once the top bid is outbid. */
  ghost function Refund(w: World, a: Address): int {
    Get(w.pending, a) + When(w.highestBidder == Some(a), w.highestBid)
  }

  /** The part of a bid that is paid from the refund. */
  ghost function PaidFromRefund(w: World, bidder: Address, amount: int, useCredit: bool): int {
    if !useCredit then 0 else if Refund(w, bidder) <= amount then Refund(w, bidder) else amount
  }

  /** The bid reaches a buy-it-now price. */
  ghost predicate ReachesPrice(t: Terms, amount: int) {
    match t.buyItNowPrice
    case None => false
    case Some(price) => price <= amount
  }

  /** The start price, or the top bid plus the increment. */
  ghost function Minimum(w: World): int
    requires w.terms.Some?
  {
    if w.highestBidder == None then w.terms.value.startPrice else w.highestBid + w.terms.value.minIncrement
  }

  lemma RefundIsQueued(w: World, bidder: Address, amount: int, useCredit: bool)
    ensures Get(QueuedPending(w), bidder) == Refund(w, bidder)
    ensures CreditUsed(QueuedPending(w), bidder, amount, useCredit) == PaidFromRefund(w, bidder, amount, useCredit)
  {
    if w.highestBidder.Some? {
      SetPendingEffect(w.pending, w.highestBidder.value, QueuedAmount(w));
    }
  }

  /** While the auction is open, a bid succeeds exactly when it is in time and reaches the minimum, the bidder can pay
      what the refund does not cover, and for a purchase the seller can be paid and the NFT handed over. */
  lemma BidExactly(w: World, bidder: Address, amount: i128, useCredit: bool)
    requires Inv(w) && bidder != w.self && !w.settled
    ensures PlaceBid(w, bidder, amount, useCredit).Ok? <==>
              && w.terms.Some? && !w.cancelled && w.now <= w.deadline
              && Minimum(w) <= amount
              && amount - PaidFromRefund(w, bidder, amount, useCredit) <= Get(w.wallets, bidder)
              && (PaidFromRefund(w, bidder, amount, useCredit) < amount ==> Accepted(w, bidder))
              && (ReachesPrice(w.terms.value, amount) ==>
                    Accepted(w, w.terms.value.seller) && CanHandOver(w, w.terms.value, bidder))
  {
    BidAcceptedExactly(w, bidder, amount, useCredit);
    RefundIsQueued(w, bidder, amount, useCredit);
    if w.terms.Some? {
      HandOver(w, bidder);
    }
  }

  /** Why a bid is refused; a trap of the token or of the NFT contract is the only other reason. */
  lemma BidRefusals(w: World, bidder: Address, amount: i128, useCredit: bool)
    requires Inv(w) && bidder != w.self && !w.settled
    ensures var r := PlaceBid(w, bidder, amount, useCredit);
            var open := amount > 0 && !w.cancelled && w.terms.Some? && w.now <= w.deadline;
            && (r == Err(InvalidAmount) <==> amount <= 0)
            && (r == Err(AuctionEnded) <==> amount > 0 && (w.cancelled || (w.terms.Some? && w.deadline < w.now)))
            && (r == Err(NotInitialized) <==> amount > 0 && !w.cancelled && w.terms == None)
            && (r == Err(Overflow) <==> open && Minimum(w) > I128_MAX)
            && (r == Err(BidTooLow) <==> open && amount < Minimum(w) <= I128_MAX)
            && (r.Err? ==>
                  r.error in {InvalidAmount, AuctionEnded, NotInitialized, Overflow, BidTooLow, TokenTrap, NftTrap})
  {
    BidIsTakenAndDelivered(w, bidder, amount, useCredit);
    RefundsNeverOverflow(w, bidder, amount, useCredit);
    if w.terms.Some? && !w.cancelled {
      EscrowAndQueued(w, bidder);
    }
  }

  /** What a bid pays: the bidder pays what the refund does not cover to the contract, and the whole amount of a
      purchase goes on to the seller. The old top bid becomes a refund, and the bidder's refund falls by what was
      used of it. */
  lemma BidPays(w: World, bidder: Address, amount: i128, useCredit: bool)
    requires Inv(w) && bidder != w.self && !w.settled && PlaceBid(w, bidder, amount, useCredit).Ok?
    ensures var v, t := PlaceBid(w, bidder, amount, useCredit).value, w.terms.value;
            var used, sold := PaidFromRefund(w, bidder, amount, useCredit), When(ReachesPrice(t, amount), amount);
            && (forall a :: Get(v.wallets, a) == Get(w.wallets, a) - When(a == bidder, amount - used)
                                                 + When(a == w.self, amount - used - sold) + When(a == t.seller, sold))
            && (forall a :: Get(v.pending, a) == Refund(w, a) - When(a == bidder, used))
            && v.sellerPending == w.sellerPending
  {
    AcceptedBidRefunds(w, bidder, amount, useCredit);
    BidIsTakenAndDelivered(w, bidder, amount, useCredit);
    RefundIsQueued(w, bidder, amount, useCredit);
    var v := PlaceBid(w, bidder, amount, useCredit).value;
    forall a
      ensures Get(v.pending, a) == Refund(w, a) - When(a == bidder, PaidFromRefund(w, bidder, amount, useCredit))
    {
      assert RefundsMoved(w, v.pending, bidder, PaidFromRefund(w, bidder, amount, useCredit));
    }
  }

  /** The deadline after a bid that is no purchase: within the extension window of the deadline it moves by the window,
      up to the cap; before that it stays. */
  ghost function DeadlineAfterBid(w: World): int
    requires w.terms.Some?
  {
    var t := w.terms.value;
    if w.deadline - w.now > t.extensionWindow then w.deadline
    else if w.deadline + t.extensionWindow <= t.maxDeadline then w.deadline + t.extensionWindow
    else t.maxDeadline
  }

  /** What a bid records. The auction is settled and the NFT handed over exactly when the bid reaches a buy-it-now
      price; otherwise the bid is held in escrow, and the deadline may move. */
  lemma BidRecords(w: World, bidder: Address, amount: i128, useCredit: bool)
    requires Inv(w) && bidder != w.self && !w.settled && PlaceBid(w, bidder, amount, useCredit).Ok?
    ensures var v, t := PlaceBid(w, bidder, amount, useCredit).value, w.terms.value;
            var buys := ReachesPrice(t, amount);
            && v == w.(highestBidder := Some(bidder), highestBid := amount, settled := buys, deadline := v.deadline,
                       pending := v.pending, wallets := v.wallets, owners := v.owners)
            && v.deadline == (if buys then w.deadline else DeadlineAfterBid(w))
            && LiveEscrow(v) == (if buys then 0 else amount)
            && HandedOver(w, t, v.owners, bidder, buys)
  {
    BidIsTakenAndDelivered(w, bidder, amount, useCredit);
    TakenBidRecords(w, bidder, amount, useCredit);
    HandOver(w, bidder);
  }

  /** In particular a bid below the buy-it-now price buys nothing: the auction stays open, with the amount in escrow,
      and neither the seller's wallet nor any NFT changes. */
  lemma SmallBidBuysNothing(w: World, bidder: Address, amount: i128, useCredit: bool)
    requires Inv(w) && bidder != w.self && !w.settled && PlaceBid(w, bidder, amount, useCredit).Ok?
    ensures var v, t := PlaceBid(w, bidder, amount, useCredit).value, w.terms.value;
            && (v.settled <==> t.buyItNowPrice.Some? && t.buyItNowPrice.value <= amount)
            && (!v.settled ==>
                  && LiveEscrow(v) == amount
                  && (t.seller != bidder ==> Get(v.wallets, t.seller) == Get(w.wallets, t.seller))
                  && HandedOver(w, t, v.owners, bidder, false))
  {
    BidRecords(w, bidder, amount, useCredit);
    BidPays(w, bidder, amount, useCredit);
  }

  // ----- cancellation

  /** The seller may cancel an open auction before the first bid, and within the grace window after it, if the fee
      can be paid and the NFT handed back. No overflow check of the code ever decides. */
  lemma CancelExactly(w: World, caller: Address)
    requires Inv(w)
    ensures Cancel(w, caller).Ok? <==>
              && w.terms.Some? && caller == w.terms.value.seller && !w.settled && !w.cancelled
              && (w.highestBidder.Some? ==>
                    var t := w.terms.value;
                    && 0 < t.graceLedgers
                    && (w.now <= t.startLedger + t.graceLedgers || t.startLedger + t.graceLedgers > U32_MAX)
                    && t.cancellationFee <= Get(w.wallets, caller)
                    && (t.cancellationFee > 0 ==> Accepted(w, caller))
                    && CanHandOver(w, t, caller))
  {
    if w.terms.Some? && w.highestBidder.Some? {
      var t, top := w.terms.value, w.highestBidder.value;
      EscrowIsHeld(w);
      TransferIfPositiveMoves(w.refused, w.wallets, t.seller, w.self, t.cancellationFee);
      TwoAtMostTotal(w.wallets, t.seller, w.self);
      HandOver(w, caller);
      if Compensate(w, caller).Ok? {
        DeliverMoves(Compensate(w, caller).value, caller);
      }
    }
  }

  /** Why a cancellation is refused. */
  lemma CancelRefusals(w: World, caller: Address)
    requires Inv(w)
    ensures var r := Cancel(w, caller);
            var open := w.terms.Some? && caller == w.terms.value.seller && !w.settled && !w.cancelled;
            var late := open && w.highestBidder.Some?
                        && (w.terms.value.graceLedgers == 0
                            || w.now > Min(w.terms.value.startLedger + w.terms.value.graceLedgers, U32_MAX));
            && (r == Err(NotInitialized) <==> w.terms == None)
            && (r == Err(NotAuthorized) <==> w.terms.Some? && caller != w.terms.value.seller)
            && (r == Err(AlreadyEnded) <==>
                  w.terms.Some? && caller == w.terms.value.seller && (w.settled || w.cancelled))
            && (r == Err(BidAlreadyPlaced) <==> late)
            && (r == Err(InvalidAmount) <==>
                  open && w.highestBidder.Some? && !late
                  && Refund(w, w.highestBidder.value) + w.terms.value.cancellationFee > I128_MAX)
            && (r.Err? ==>
                  r.error in {NotInitialized, NotAuthorized, AlreadyEnded, BidAlreadyPlaced, InvalidAmount, TokenTrap,
                              NftTrap})
  {
    if w.highestBidder.Some? {
      EscrowIsHeld(w);
    }
    if Compensate(w, caller).Ok? {
      DeliverMoves(Compensate(w, caller).value, caller);
    }
  }

  /** What a cancellation does: with a bid, the fee goes from the seller to the contract, the top bidder is owed the bid
      and the fee on top of earlier refunds, and the NFT goes back to the seller; without a bid nothing moves. */
  lemma CancelPays(w: World, caller: Address)
    requires Inv(w) && Cancel(w, caller).Ok?
    ensures var v, t := Cancel(w, caller).value, w.terms.value;
            var fee := When(w.highestBidder.Some?, t.cancellationFee);
            && v == w.(wallets := v.wallets, highestBidder := None, cancelled := true, pending := v.pending,
                       owners := v.owners)
            && (forall a :: Get(v.wallets, a) == Get(w.wallets, a) - When(a == caller, fee) + When(a == w.self, fee))
            && (forall a :: Get(v.pending, a) == Refund(w, a) + When(w.highestBidder == Some(a), fee))
            && HandedOver(w, t, v.owners, caller, w.highestBidder.Some?)
  {
    CancelRecords(w, caller);
    HandOver(w, caller);
    DeliverMoves(Compensate(w, caller).value, caller);
    if w.highestBidder.Some? {
      TransferIfPositiveMoves(w.refused, w.wallets, w.terms.value.seller, w.self, w.terms.value.cancellationFee);
    }
  }

  // ----- settlement

  /** There is a top bid that reaches the reserve, if one is set. */
  ghost predicate Won(w: World) {
    && w.terms.Some? && w.highestBidder.Some?
    && match w.terms.value.reservePrice
       case None => true
       case Some(reserve) => reserve <= w.highestBid
  }

  /** Who gets the NFT. */
  ghost function NftGoesTo(w: World): Address
    requires w.terms.Some?
  {
    if Won(w) then w.highestBidder.value else w.terms.value.seller
  }

  lemma ReceiverIsWinnerOrSeller(w: World)
    requires Inv(w) && w.terms.Some?
    ensures (Sells(w) <==> Won(w)) && Receiver(w) == NftGoesTo(w)
  {
  }

  /** A settlement succeeds exactly once, after the deadline of an auction that is neither settled nor cancelled, if a
      bid that misses the reserve can be paid back and the NFT handed over. */
  lemma EndExactly(w: World, royalty: Royalty)
    requires Inv(w) && ByOthers(w.self, OpEnd(royalty))
    ensures End(w, royalty).Ok? <==>
              && w.terms.Some? && w.deadline < w.now && !w.settled && !w.cancelled
              && (w.highestBidder.Some? && !Won(w) ==> Accepted(w, w.highestBidder.value))
              && CanHandOver(w, w.terms.value, NftGoesTo(w))
  {
    EndSettlesAndDelivers(w, royalty);
    if w.terms.Some? {
      ReceiverIsWinnerOrSeller(w);
      HandOver(w, NftGoesTo(w));
      if w.now > w.deadline && !w.settled && !w.cancelled {
        SettlementBlocksExactly(w, royalty);
      }
    }
  }

  /** Why a settlement is refused. */
  lemma EndRefusals(w: World, royalty: Royalty)
    requires Inv(w) && ByOthers(w.self, OpEnd(royalty))
    ensures var r := End(w, royalty);
            && (r == Err(NotInitialized) <==> w.terms == None)
            && (r == Err(AuctionNotEnded) <==> w.terms.Some? && !w.cancelled && w.now <= w.deadline)
            && (r == Err(AlreadyEnded) <==> w.terms.Some? && (w.cancelled || (w.deadline < w.now && w.settled)))
            && (r.Err? ==> r.error in {NotInitialized, AuctionNotEnded, AlreadyEnded, TokenTrap, NftTrap})
  {
    if EndError(w) == None {
      EscrowIsHeld(w);
      PaymentsBlockExactly(w, royalty);
      if w.highestBidder.Some? {
        RoyaltySplits(w, royalty);
      }
      if Settle(w, royalty).Ok? {
        SettleRecords(w, royalty);
        DeliverMoves(Settle(w, royalty).value, Receiver(w));
      }
    }
  }

  /** The NFT of a settled auction goes to the top bidder, if there is one whose bid reaches the reserve, and to the
      seller otherwise. Apart from that a settlement changes only wallets, the seller's credit and the settled flag. */
  lemma EndHandsOver(w: World, royalty: Royalty)
    requires Inv(w) && End(w, royalty).Ok?
    ensures var v, t := End(w, royalty).value, w.terms.value;
            && v == w.(settled := true, sellerPending := v.sellerPending, wallets := v.wallets, owners := v.owners)
            && HandedOver(w, t, v.owners, NftGoesTo(w), true)
            && (HasNft(t) ==>
                  OwnsNft(v, t, v.owners,
                          if w.highestBidder.Some? && (t.reservePrice.Some? ==> t.reservePrice.value <= w.highestBid)
                          then w.highestBidder.value else t.seller))
  {
    EndSettlesAndDelivers(w, royalty);
    SettleRecords(w, royalty);
    ReceiverIsWinnerOrSeller(w);
    HandOver(w, NftGoesTo(w));
  }

  /** The royalty that is paid: what the NFT contract asks for, if that leaves something and is not refused. */
  ghost function RoyaltyPaid(w: World, royalty: Royalty): int
    requires w.terms.Some?
  {
    match royalty
    case None => 0
    case Some((recipient, amount)) =>
      if HasNft(w.terms.value) && 0 < amount < w.highestBid && Accepted(w, recipient) then amount else 0
  }

  lemma RoyaltyIsPaid(w: World, royalty: Royalty)
    requires Inv(w) && ByOthers(w.self, OpEnd(royalty)) && LiveEscrow(w) > 0
    ensures PayRoyalty(w, royalty).1 == w.highestBid - RoyaltyPaid(w, royalty)
  {
    RoyaltySplits(w, royalty);
    EscrowIsHeld(w);
    if RoyaltyDue(w, royalty).Some? {
      TransferMoves(w.refused, w.wallets, w.self, royalty.value.0, royalty.value.1);
    }
  }

  /** What a settlement pays. A bid that wins goes to the seller, less the royalty, which goes to its recipient; a
      seller who is refused is credited instead. A bid that misses the reserve goes back. */
  lemma EndPays(w: World, royalty: Royalty)
    requires Inv(w) && ByOthers(w.self, OpEnd(royalty)) && End(w, royalty).Ok?
    ensures var v, t := End(w, royalty).value, w.terms.value;
            var rest := w.highestBid - RoyaltyPaid(w, royalty);
            var paid, credited := When(Won(w) && Accepted(w, t.seller), rest),
                                  When(Won(w) && !Accepted(w, t.seller), rest);
            var fee := When(Won(w), RoyaltyPaid(w, royalty));
            var back := When(!Won(w) && w.highestBidder.Some?, w.highestBid);
            && (forall a :: Get(v.wallets, a) == Get(w.wallets, a) + When(a == t.seller, paid)
                                                 + When(a == RoyaltyTo(w, royalty), fee)
                                                 + When(w.highestBidder == Some(a), back)
                                                 - When(a == w.self, paid + fee + back))
            && (forall a :: Get(v.sellerPending, a) == Get(w.sellerPending, a) + When(a == t.seller, credited))
  {
    EndSettlesAndDelivers(w, royalty);
    ReceiverIsWinnerOrSeller(w);
    if w.highestBidder.Some? {
      PayoutEffect(w, royalty);
      RoyaltyIsPaid(w, royalty);
      if Won(w) {
        SalePays(w, royalty);
      }
    }
  }

  lemma SalePays(w: World, royalty: Royalty)
    requires Inv(w) && ByOthers(w.self, OpEnd(royalty)) && LiveEscrow(w) > 0 && Won(w) && Settle(w, royalty).Ok?
    ensures var v, t := Settle(w, royalty).value, w.terms.value;
            var fee, rest := RoyaltyPaid(w, royalty), w.highestBid - RoyaltyPaid(w, royalty);
            var paid, credited := When(Accepted(w, t.seller), rest), When(!Accepted(w, t.seller), rest);
            && (forall a :: Get(v.wallets, a) == Get(w.wallets, a) + When(a == t.seller, paid)
                                                 + When(a == RoyaltyTo(w, royalty), fee)
                                                 - When(a == w.self, paid + fee))
            && (forall a :: Get(v.sellerPending, a) == Get(w.sellerPending, a) + When(a == t.seller, credited))
  {
    var t := w.terms.value;
    var (after, proceeds) := PayRoyalty(w, royalty);
    RoyaltySplits(w, royalty);
    RoyaltyIsPaid(w, royalty);
    EscrowIsHeld(w);
    TransferMoves(w.refused, after, w.self, t.seller, proceeds);
    var v := Settle(w, royalty).value;
    forall a
      ensures Get(v.wallets, a) == Get(w.wallets, a) + When(a == t.seller, When(Accepted(w, t.seller), proceeds))
                                   + When(a == RoyaltyTo(w, royalty), w.highestBid - proceeds)
                                   - When(a == w.self, When(Accepted(w, t.seller), proceeds) + w.highestBid - proceeds)
    {
      assert Get(after, a) == Get(w.wallets, a) - When(a == w.self, w.highestBid - proceeds)
                              + When(a == RoyaltyTo(w, royalty), w.highestBid - proceeds);
    }
  }

  // ----- withdrawals

  /** A withdrawal pays exactly the refund, to whom it is owed and once, and fails only when there is none or the token
      refuses. */
  lemma WithdrawPays(w: World, who: Address)
    requires Inv(w)
    ensures Withdraw(w, who).Ok? <==> Get(w.pending, who) > 0 && Accepted(w, who)
    ensures Withdraw(w, who) == Err(NothingToWithdraw) <==> Get(w.pending, who) == 0
    ensures Withdraw(w, who).Ok? ==>
              var v := Withdraw(w, who).value;
              && v == w.(pending := v.pending, wallets := v.wallets)
              && (forall a :: Get(v.pending, a) == if a == who then 0 else Get(w.pending, a))
              && (forall a :: Get(v.wallets, a) == Get(w.wallets, a) + When(a == who, Get(w.pending, who))
                                                   - When(a == w.self, Get(w.pending, who)))
  {
    WithdrawKeepsInv(w, who);
    TransferMoves(w.refused, w.wallets, w.self, who, Get(w.pending, who));
  }

  /** The same for the proceeds credited to a seller. */
  lemma WithdrawProceedsPays(w: World, who: Address)
    requires Inv(w)
    ensures WithdrawSellerProceeds(w, who).Ok? <==> Get(w.sellerPending, who) > 0 && Accepted(w, who)
    ensures WithdrawSellerProceeds(w, who) == Err(NothingToWithdraw) <==> Get(w.sellerPending, who) == 0
    ensures WithdrawSellerProceeds(w, who).Ok? ==>
              var v := WithdrawSellerProceeds(w, who).value;
              && v == w.(sellerPending := v.sellerPending, wallets := v.wallets)
              && (forall a :: Get(v.sellerPending, a) == if a == who then 0 else Get(w.sellerPending, a))
              && (forall a :: Get(v.wallets, a) == Get(w.wallets, a) + When(a == who, Get(w.sellerPending, who))
                                                   - When(a == w.self, Get(w.sellerPending, who)))
  {
    WithdrawSellerKeepsInv(w, who);
    TransferMoves(w.refused, w.wallets, w.self, who, Get(w.sellerPending, who));
  }
}
