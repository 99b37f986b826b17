/**
  The English auction contract: storage, entry points, the token and the NFT it escrows.

  An entry point that returns an error, or whose token transfer traps, is reverted by the host: it changes nothing.
 */
module Auction {
  import opened Wrappers
  import opened Sums
  import opened TokenLedger
  import opened NftLedger

  datatype AuctionError =
    | AlreadyInitialized
    | NotInitialized
    | AuctionEnded
    | AuctionNotEnded
    | BidTooLow
    | AlreadyEnded
    | NotAuthorized
    | InvalidAmount
    | InvalidDeadline
    | InvalidNftParams
    | NothingToWithdraw
    | BidAlreadyPlaced
    | Overflow
    | TokenTrap
    | NftTrap

  /** What `start` fixes for the life of the auction. */
  datatype Terms = Terms(
    seller: Address,
    startPrice: i128,
    minIncrement: i128,
    reservePrice: Option<i128>,
    extensionWindow: u32,
    maxDeadline: u32,
    startLedger: u32,
    graceLedgers: u32,
    cancellationFee: i128,
    buyItNowPrice: Option<i128>,
    nftContract: Option<Address>,
    tokenId: Option<u32>)

  /** Contract storage, the token's balances, the ledger sequence number, the owners of NFTs, and the addresses that the
      token and the NFT contracts refuse. */
  datatype World = World(
    self: Address,
    terms: Option<Terms>,
    deadline: u32,
    highestBidder: Option<Address>,
    highestBid: int,
    settled: bool,
    cancelled: bool,
    pending: map<Address, int>,
    sellerPending: map<Address, int>,
    wallets: Wallets,
    now: u32,
    refused: set<Address>,
    owners: Owners,
    itemRefused: set<Address>)

  /** The NFT that `t` auctions. */
  function ItemOf(t: Terms): Option<Item> {
    if t.nftContract.Some? && t.tokenId.Some? then Some((t.nftContract.value, t.tokenId.value)) else None
  }

  /** `release_nft`: delivers the escrowed NFT, if any. */
  function Deliver(w: World, to: Address): Result<World, AuctionError> {
    if w.terms == None || ItemOf(w.terms.value) == None then
      Ok(w)
    else
      match MoveItem(w.itemRefused, w.owners, ItemOf(w.terms.value).value, w.self, to)
      case None => Err(NftTrap)
      case Some(owners) => Ok(w.(owners := owners))
  }

  /** The token does not move anything between the contract and `a`. */
  predicate Blocked(w: World, a: Address) {
    !Allowed(w.refused, w.self, a)
  }

  /** A zero refund removes the entry. */
  function SetPending(pending: map<Address, int>, bidder: Address, amount: int): map<Address, int> {
    if amount == 0 then pending - {bidder} else pending[bidder := amount]
  }

  // ----- start

  function Start(w: World, terms: Terms, deadline: u32): Result<World, AuctionError> {
    if w.terms.Some? then
      Err(AlreadyInitialized)
    else if terms.startPrice <= 0 || terms.minIncrement <= 0 || terms.cancellationFee < 0 then
      Err(InvalidAmount)
    else if deadline <= w.now || terms.maxDeadline < deadline then
      Err(InvalidDeadline)
    else if terms.nftContract.Some? != terms.tokenId.Some? then
      Err(InvalidNftParams)
    else
      Escrow(w.(terms := Some(terms.(startLedger := w.now)), deadline := deadline, highestBid := terms.startPrice - 1,
                settled := false, cancelled := false), terms)
  }

  /** `escrow_nft`: pulls the NFT, if any, from the seller. */
  function Escrow(w: World, t: Terms): Result<World, AuctionError> {
    match ItemOf(t)
    case None => Ok(w)
    case Some(item) =>
      match MoveItem(w.itemRefused, w.owners, item, t.seller, w.self)
      case None => Err(NftTrap)
      case Some(owners) => Ok(w.(owners := owners))
  }

  // ----- bidding

  /** The checks made before anything is written. */
  function BidError(w: World, amount: int): Option<AuctionError> {
    if amount <= 0 then
      Some(InvalidAmount)
    else if w.cancelled then
      Some(AuctionEnded)
    else if w.terms == None then
      Some(NotInitialized)
    else if w.now > w.deadline then
      Some(AuctionEnded)
    else if w.highestBid >= w.terms.value.startPrice && !FitsI128(w.highestBid + w.terms.value.minIncrement) then
      Some(Overflow)
    else if amount < MinRequired(w) then
      Some(BidTooLow)
    else
      None
  }

  function MinRequired(w: World): int
    requires w.terms.Some?
  {
    var t := w.terms.value;
    if w.highestBid < t.startPrice then t.startPrice else w.highestBid + t.minIncrement
  }

  /** The refund that the previous top bidder is owed once outbid. */
  function QueuedAmount(w: World): int {
    match w.highestBidder
    case None => 0
    case Some(prev) => Get(w.pending, prev) + w.highestBid
  }

  function QueuedPending(w: World): map<Address, int> {
    match w.highestBidder
    case None => w.pending
    case Some(prev) => SetPending(w.pending, prev, QueuedAmount(w))
  }

  function CreditUsed(pending: map<Address, int>, bidder: Address, amount: int, useCredit: bool): int {
    if useCredit then Min(Get(pending, bidder), amount) else 0
  }

  function CreditedPending(pending: map<Address, int>, bidder: Address, amount: int, useCredit: bool)
    : map<Address, int>
  {
    if useCredit then
      SetPending(pending, bidder, Get(pending, bidder) - CreditUsed(pending, bidder, amount, useCredit))
    else
      pending
  }

  function ExtendedDeadline(t: Terms, deadline: u32, now: u32): u32 {
    var extended: u32 := Min(SatAdd32(deadline, t.extensionWindow), t.maxDeadline);
    if t.extensionWindow > 0 && SatSub32(deadline, now) <= t.extensionWindow && extended > deadline then
      extended
    else
      deadline
  }

  predicate BuysNow(t: Terms, amount: int) {
    t.buyItNowPrice.Some? && amount >= t.buyItNowPrice.value
  }

  /** The bidder pays what the credit does not cover; a bid at the buy-it-now price goes on to the seller. */
  function BidTransfers(refused: set<Address>, w: Wallets, bidder: Address, self: Address, seller: Address,
                        required: int, amount: int, buys: bool): Option<Wallets>
  {
    match TransferIfPositive(refused, w, bidder, self, required)
    case None => None
    case Some(paid) => if buys then Transfer(refused, paid, self, seller, amount) else Some(paid)
  }

  /** A bid up to the delivery of the NFT. */
  function TakeBid(w: World, bidder: Address, amount: i128, useCredit: bool): Result<World, AuctionError> {
    var error := BidError(w, amount);
    if error.Some? then
      Err(error.value)
    else if !FitsI128(QueuedAmount(w)) then
      Err(Overflow)
    else
      var t, queued := w.terms.value, QueuedPending(w);
      var used := CreditUsed(queued, bidder, amount, useCredit);
      var required := amount - used;
      if useCredit && (!FitsI128(required) || !FitsI128(Get(queued, bidder) - used)) then
        Err(Overflow)
      else
        match BidTransfers(w.refused, w.wallets, bidder, w.self, t.seller, required, amount, BuysNow(t, amount))
        case None => Err(TokenTrap)
        case Some(v) =>
          Ok(w.(pending := CreditedPending(queued, bidder, amount, useCredit),
                highestBidder := Some(bidder), highestBid := amount,
                settled := w.settled || BuysNow(t, amount),
                deadline := if BuysNow(t, amount) then w.deadline else ExtendedDeadline(t, w.deadline, w.now),
                wallets := v))
  }

  function PlaceBid(w: World, bidder: Address, amount: i128, useCredit: bool): Result<World, AuctionError> {
    match TakeBid(w, bidder, amount, useCredit)
    case Err(error) => Err(error)
    case Ok(v) => if w.terms.Some? && BuysNow(w.terms.value, amount) then Deliver(v, bidder) else Ok(v)
  }

  // ----- cancellation

  /** A cancellation up to the return of the NFT. */
  function Compensate(w: World, caller: Address): Result<World, AuctionError> {
    if w.terms == None then
      Err(NotInitialized)
    else
      var t := w.terms.value;
      if caller != t.seller then
        Err(NotAuthorized)
      else if w.settled || w.cancelled then
        Err(AlreadyEnded)
      else
        match w.highestBidder
        case None => Ok(w.(cancelled := true))
        case Some(top) =>
          if t.graceLedgers == 0 || w.now > SatAdd32(t.startLedger, t.graceLedgers) then
            Err(BidAlreadyPlaced)
          else if !FitsI128(w.highestBid + t.cancellationFee)
                  || !FitsI128(Get(w.pending, top) + (w.highestBid + t.cancellationFee)) then
            Err(InvalidAmount)
          else
            match TransferIfPositive(w.refused, w.wallets, t.seller, w.self, t.cancellationFee)
            case None => Err(TokenTrap)
            case Some(v) =>
              Ok(w.(wallets := v, highestBidder := None, cancelled := true,
                    pending := w.pending[top := Get(w.pending, top) + (w.highestBid + t.cancellationFee)]))
  }

  /** Only a compensated cancellation returns the NFT. */
  function Cancel(w: World, caller: Address): Result<World, AuctionError> {
    match Compensate(w, caller)
    case Err(error) => Err(error)
    case Ok(v) => if w.highestBidder.Some? then Deliver(v, caller) else Ok(v)
  }

  // ----- settlement

  /** What the NFT contract answers to the royalty query: nothing, or a recipient and an amount. */
  type Royalty = Option<(Address, i128)>

  /** The royalty that is due: the query is made only for an auctioned NFT, and the amount must leave something. */
  function RoyaltyDue(w: World, royalty: Royalty): Royalty {
    if w.terms.Some? && w.terms.value.nftContract.Some? && w.terms.value.tokenId.Some?
       && royalty.Some? && 0 < royalty.value.1 < w.highestBid
    then
      royalty
    else
      None
  }

  /** The balances after the attempted royalty payment, and what is left for the seller; a failed attempt changes
      nothing. */
  function PayRoyalty(w: World, royalty: Royalty): (Wallets, int) {
    match RoyaltyDue(w, royalty)
    case None => (w.wallets, w.highestBid)
    case Some((recipient, amount)) =>
      match Transfer(w.refused, w.wallets, w.self, recipient, amount)
      case None => (w.wallets, w.highestBid)
      case Some(v) => (v, w.highestBid - amount)
  }

  function PaySeller(w: World, t: Terms, royalty: Royalty): Result<World, AuctionError> {
    var (wallets, proceeds) := PayRoyalty(w, royalty);
    match Transfer(w.refused, wallets, w.self, t.seller, proceeds)
    case Some(v) => Ok(w.(wallets := v, settled := true))
    case None =>
      var total := Get(w.sellerPending, t.seller) + proceeds;
      if !FitsI128(total) then
        Err(Overflow)
      else
        Ok(w.(wallets := wallets, settled := true, sellerPending := w.sellerPending[t.seller := total]))
  }

  /** The bid goes back when it misses the reserve, and to the seller otherwise. */
  function SettleBid(w: World, t: Terms, winner: Address, royalty: Royalty): Result<World, AuctionError> {
    if t.reservePrice.Some? && w.highestBid < t.reservePrice.value then
      match Transfer(w.refused, w.wallets, w.self, winner, w.highestBid)
      case None => Err(TokenTrap)
      case Some(v) => Ok(w.(wallets := v, settled := true))
    else
      PaySeller(w, t, royalty)
  }

  /** The checks made before anything is written. */
  function EndError(w: World): Option<AuctionError> {
    if w.terms == None then
      Some(NotInitialized)
    else if w.cancelled then
      Some(AlreadyEnded)
    else if w.now <= w.deadline then
      Some(AuctionNotEnded)
    else if w.settled then
      Some(AlreadyEnded)
    else
      None
  }

  /** A settlement up to the release of the NFT. */
  function Settle(w: World, royalty: Royalty): Result<World, AuctionError> {
    var error := EndError(w);
    if error.Some? then
      Err(error.value)
    else if w.highestBidder == None || w.highestBid < w.terms.value.startPrice then
      Ok(w.(settled := true))
    else
      SettleBid(w, w.terms.value, w.highestBidder.value, royalty)
  }

  /** The top bid wins unless there is none or it misses the reserve. */
  predicate Sells(w: World) {
    && w.terms.Some? && w.highestBidder.Some? && w.highestBid >= w.terms.value.startPrice
    && (w.terms.value.reservePrice.Some? ==> w.highestBid >= w.terms.value.reservePrice.value)
  }

  /** Who gets the NFT at settlement. */
  function Receiver(w: World): Address
    requires w.terms.Some?
  {
    if Sells(w) then w.highestBidder.value else w.terms.value.seller
  }

  function End(w: World, royalty: Royalty): Result<World, AuctionError> {
    match Settle(w, royalty)
    case Err(error) => Err(error)
    case Ok(v) => if w.terms.Some? then Deliver(v, Receiver(w)) else Ok(v)
  }

  lemma SettledFlagIgnored(w: World, royalty: Royalty)
    requires w.terms.Some? && w.highestBidder.Some?
    ensures SettleBid(w.(settled := true), w.terms.value, w.highestBidder.value, royalty)
            == SettleBid(w, w.terms.value, w.highestBidder.value, royalty)
  {
    var v := w.(settled := true);
    assert RoyaltyDue(v, royalty) == RoyaltyDue(w, royalty);
    assert PayRoyalty(v, royalty) == PayRoyalty(w, royalty);
    assert PaySeller(v, w.terms.value, royalty) == PaySeller(w, w.terms.value, royalty);
  }

  // ----- withdrawals

  function Withdraw(w: World, bidder: Address): Result<World, AuctionError> {
    if Get(w.pending, bidder) <= 0 then
      Err(NothingToWithdraw)
    else if w.terms == None then
      Err(NotInitialized)
    else
      match Transfer(w.refused, w.wallets, w.self, bidder, Get(w.pending, bidder))
      case None => Err(TokenTrap)
      case Some(v) => Ok(w.(pending := w.pending - {bidder}, wallets := v))
  }

  function WithdrawSellerProceeds(w: World, seller: Address): Result<World, AuctionError> {
    if Get(w.sellerPending, seller) <= 0 then
      Err(NothingToWithdraw)
    else if w.terms == None then
      Err(NotInitialized)
    else
      match Transfer(w.refused, w.wallets, w.self, seller, Get(w.sellerPending, seller))
      case None => Err(TokenTrap)
      case Some(v) => Ok(w.(sellerPending := w.sellerPending - {seller}, wallets := v))
  }

  // ----- the contract and its storage

  /** An entry point reports success with the specified new state, or the specified error with everything unchanged. */
  ghost predicate Reports(spec: Result<World, AuctionError>, r: Result<(), AuctionError>, before: World, after: World) {
    match r
    case Ok(_) => spec == Ok(after)
    case Err(e) => spec == Err(e) && after == before
  }

  class AuctionContract {
    const self: Address
    const token: Token
    const nfts: Nfts
    var terms: Option<Terms>
    var deadline: u32
    var highestBidder: Option<Address>
    var highestBid: int
    var settled: bool
    var cancelled: bool
    var pending: map<Address, int>
    var sellerPending: map<Address, int>
    var now: u32

    function View(): World
      reads this, token, nfts
    {
      World(self, terms, deadline, highestBidder, highestBid, settled, cancelled, pending, sellerPending,
            token.balances, now, token.refused, nfts.owners, nfts.refused)
    }

    constructor (self: Address, token: Token, nfts: Nfts, now: u32)
      ensures this.self == self && this.token == token && this.nfts == nfts
      ensures View() == World(self, None, 0, None, 0, false, false, map[], map[], token.balances, now,
                              token.refused, nfts.owners, nfts.refused)
    {
      this.self, this.token, this.nfts, this.now := self, token, nfts, now;
      terms, deadline, highestBidder, highestBid := None, 0, None, 0;
      settled, cancelled, pending, sellerPending := false, false, map[], map[];
    }

    /** The host's rollback of a failed invocation. */
    method Revert(v: World)
      requires v.self == self && v.refused == token.refused && v.itemRefused == nfts.refused
      modifies this, token`balances, nfts`owners
      ensures View() == v
    {
      terms, deadline, highestBidder, highestBid := v.terms, v.deadline, v.highestBidder, v.highestBid;
      settled, cancelled, pending, sellerPending := v.settled, v.cancelled, v.pending, v.sellerPending;
      now, token.balances, nfts.owners := v.now, v.wallets, v.owners;
    }

    /** `release_nft`. */
    method ReleaseItem(to: Address) returns (ok: bool)
      modifies nfts`owners
      ensures match Deliver(old(View()), to)
              case Ok(v) => ok && View() == v
              case Err(_) => !ok && View() == old(View())
    {
      if terms.Some? && terms.value.nftContract.Some? && terms.value.tokenId.Some? {
        ok := nfts.TransferItem((terms.value.nftContract.value, terms.value.tokenId.value), self, to);
        return;
      }
      return true;
    }

    method DoStart(newTerms: Terms, newDeadline: u32) returns (r: Result<(), AuctionError>)
      modifies this, nfts`owners
      ensures Reports(Start(old(View()), newTerms, newDeadline), r, old(View()), View())
    {
      if terms.Some? {
        return Err(AlreadyInitialized);
      }
      if newTerms.startPrice <= 0 || newTerms.minIncrement <= 0 || newTerms.cancellationFee < 0 {
        return Err(InvalidAmount);
      }
      if newDeadline <= now || newTerms.maxDeadline < newDeadline {
        return Err(InvalidDeadline);
      }
      if newTerms.nftContract.Some? != newTerms.tokenId.Some? {
        return Err(InvalidNftParams);
      }
      if newTerms.nftContract.Some? && newTerms.tokenId.Some? {
        var ok := nfts.TransferItem((newTerms.nftContract.value, newTerms.tokenId.value), newTerms.seller, self);
        if !ok {
          return Err(NftTrap);
        }
      }
      terms := Some(newTerms.(startLedger := now));
      deadline := newDeadline;
      highestBid := newTerms.startPrice - 1;
      settled, cancelled := false, false;
      return Ok(());
    }

    /** The checks of `place_bid`, in order. */
    method CheckBid(amount: i128) returns (error: Option<AuctionError>)
      ensures error == BidError(View(), amount)
    {
      if amount <= 0 {
        return Some(InvalidAmount);
      }
      if cancelled {
        return Some(AuctionEnded);
      }
      if terms == None {
        return Some(NotInitialized);
      }
      if now > deadline {
        return Some(AuctionEnded);
      }
      var t := terms.value;
      var minRequired: int := t.startPrice;
      if highestBid >= t.startPrice {
        minRequired := highestBid + t.minIncrement;
        if !FitsI128(minRequired) {
          return Some(Overflow);
        }
      }
      if amount < minRequired {
        return Some(BidTooLow);
      }
      return None;
    }

    /** Queues the previous top bidder's refund and then applies the bidder's credit, which is read after queueing so
        that a bidder raising their own bid can use it. */
    method QueueAndCredit(bidder: Address, amount: i128, useCredit: bool) returns (required: int, ok: bool)
      modifies this`pending
      ensures var queued := QueuedPending(old(View()));
              var used := CreditUsed(queued, bidder, amount, useCredit);
              && (ok ==> required == amount - used)
              && (ok ==> pending == CreditedPending(queued, bidder, amount, useCredit))
              && (ok <==> FitsI128(QueuedAmount(old(View())))
                          && (useCredit ==> FitsI128(amount - used) && FitsI128(Get(queued, bidder) - used)))
    {
      if highestBidder.Some? {
        var newPending := Get(pending, highestBidder.value) + highestBid;
        if !FitsI128(newPending) {
          return 0, false;
        }
        pending := SetPending(pending, highestBidder.value, newPending);
      }
      required := amount;
      if useCredit {
        var credit := Get(pending, bidder);
        var used := Min(credit, amount);
        required := amount - used;
        if !FitsI128(required) || !FitsI128(credit - used) {
          return required, false;
        }
        pending := SetPending(pending, bidder, credit - used);
      }
      return required, true;
    }

    /** Anti-sniping: a bid inside the extension window moves the deadline. */
    method ExtendDeadline(t: Terms)
      modifies this`deadline
      ensures deadline == ExtendedDeadline(t, old(deadline), now)
    {
      if t.extensionWindow > 0 && SatSub32(deadline, now) <= t.extensionWindow {
        var extended: u32 := Min(SatAdd32(deadline, t.extensionWindow), t.maxDeadline);
        if extended > deadline {
          deadline := extended;
        }
      }
    }

    method TransferPositive(from: Address, to: Address, amount: int) returns (ok: bool)
      modifies token`balances
      ensures var r := TransferIfPositive(token.refused, old(token.balances), from, to, amount);
              (ok <==> r.Some?) && token.balances == if ok then r.value else old(token.balances)
    {
      ok := true;
      if amount > 0 {
        ok := token.TransferFrom(from, to, amount);
      }
    }

    method PayForBid(bidder: Address, seller: Address, required: int, amount: int, buys: bool) returns (ok: bool)
      modifies token`balances
      ensures var r := BidTransfers(token.refused, old(token.balances), bidder, self, seller, required, amount, buys);
              (ok <==> r.Some?) && (ok ==> token.balances == r.value)
    {
      ok := TransferPositive(bidder, self, required);
      if ok && buys {
        ok := token.TransferFrom(self, seller, amount);
      }
    }

    /** The new top bid, which settles the auction at the buy-it-now price and may extend the deadline below it. */
    method RecordBid(t: Terms, bidder: Address, amount: i128)
      modifies this`highestBidder, this`highestBid, this`settled, this`deadline
      ensures highestBidder == Some(bidder) && highestBid == amount
      ensures settled == (old(settled) || BuysNow(t, amount))
      ensures deadline == if BuysNow(t, amount) then old(deadline) else ExtendedDeadline(t, old(deadline), now)
    {
      highestBidder, highestBid := Some(bidder), amount;
      if BuysNow(t, amount) {
        settled := true;
      } else {
        ExtendDeadline(t);
      }
    }

    method DoPlaceBid(bidder: Address, amount: i128, useCredit: bool) returns (r: Result<(), AuctionError>)
      modifies this, token`balances, nfts`owners
      ensures Reports(PlaceBid(old(View()), bidder, amount, useCredit), r, old(View()), View())
    {
      var before := View();
      r := AcceptBid(bidder, amount, useCredit);
      if r.Ok? && BuysNow(terms.value, amount) {
        var ok := ReleaseItem(bidder);
        if !ok {
          Revert(before);
          return Err(NftTrap);
        }
      }
    }

    /** A bid up to the delivery of the NFT. */
    method AcceptBid(bidder: Address, amount: i128, useCredit: bool) returns (r: Result<(), AuctionError>)
      modifies this, token`balances, nfts`owners
      ensures Reports(TakeBid(old(View()), bidder, amount, useCredit), r, old(View()), View())
      ensures terms == old(terms) && (r.Ok? ==> terms.Some?)
    {
      var before := View();
      var error := CheckBid(amount);
      if error.Some? {
        return Err(error.value);
      }
      var t := terms.value;
      var required, fits := QueueAndCredit(bidder, amount, useCredit);
      if !fits {
        Revert(before);
        return Err(Overflow);
      }
      RecordBid(t, bidder, amount);
      assert View() == before.(pending := pending, highestBidder := Some(bidder), highestBid := amount,
                               settled := before.settled || BuysNow(t, amount), deadline := deadline);
      var ok := PayForBid(bidder, t.seller, required, amount, BuysNow(t, amount));
      if !ok {
        Revert(before);
        return Err(TokenTrap);
      }
      return Ok(());
    }

    method DoCancel(caller: Address) returns (r: Result<(), AuctionError>)
      modifies this, token`balances, nfts`owners
      ensures Reports(Cancel(old(View()), caller), r, old(View()), View())
    {
      var before := View();
      r := CompensateTopBidder(caller);
      if r.Ok? && before.highestBidder.Some? {
        var ok := ReleaseItem(caller);
        if !ok {
          Revert(before);
          return Err(NftTrap);
        }
      }
    }

    /** A cancellation up to the return of the NFT. */
    method CompensateTopBidder(caller: Address) returns (r: Result<(), AuctionError>)
      modifies this, token`balances
      ensures Reports(Compensate(old(View()), caller), r, old(View()), View())
    {
      if terms == None {
        return Err(NotInitialized);
      }
      var t := terms.value;
      if caller != t.seller {
        return Err(NotAuthorized);
      }
      if settled || cancelled {
        return Err(AlreadyEnded);
      }
      if highestBidder == None {
        cancelled := true;
        return Ok(());
      }
      var top := highestBidder.value;
      if t.graceLedgers == 0 || now > SatAdd32(t.startLedger, t.graceLedgers) {
        return Err(BidAlreadyPlaced);
      }
      var credit := highestBid + t.cancellationFee;
      if !FitsI128(credit) || !FitsI128(Get(pending, top) + credit) {
        return Err(InvalidAmount);
      }
      if t.cancellationFee > 0 {
        var ok := token.TransferFrom(t.seller, self, t.cancellationFee);
        if !ok {
          return Err(TokenTrap);
        }
      }
      pending := pending[top := Get(pending, top) + credit];
      highestBidder := None;
      cancelled := true;
      return Ok(());
    }

    /** The checks of `end`, in order. */
    method CheckEnd() returns (error: Option<AuctionError>)
      ensures error == EndError(View())
    {
      if terms == None {
        return Some(NotInitialized);
      }
      if cancelled {
        return Some(AlreadyEnded);
      }
      if now <= deadline {
        return Some(AuctionNotEnded);
      }
      if settled {
        return Some(AlreadyEnded);
      }
      return None;
    }

    method DoEnd(royalty: Royalty) returns (r: Result<(), AuctionError>)
      modifies this, token`balances, nfts`owners
      ensures Reports(End(old(View()), royalty), r, old(View()), View())
    {
      var before := View();
      r := SettlePayments(royalty);
      if r.Ok? && before.terms.Some? {
        var ok := ReleaseItem(Receiver(before));
        if !ok {
          Revert(before);
          return Err(NftTrap);
        }
      }
    }

    /** A settlement up to the release of the NFT. */
    method SettlePayments(royalty: Royalty) returns (r: Result<(), AuctionError>)
      modifies this, token`balances, nfts`owners
      ensures Reports(Settle(old(View()), royalty), r, old(View()), View())
    {
      var before := View();
      var error := CheckEnd();
      if error.Some? {
        return Err(error.value);
      }
      settled := true;
      if highestBidder == None || highestBid < terms.value.startPrice {
        return Ok(());
      }
      SettledFlagIgnored(before, royalty);
      r := SettleTopBid(royalty);
      if r.Err? {
        Revert(before);
      }
    }

    /** The reserve check and the payout; the caller reverts the state after an error. */
    method SettleTopBid(royalty: Royalty) returns (r: Result<(), AuctionError>)
      requires terms.Some? && settled && highestBidder.Some?
      modifies this, token`balances
      ensures match r
              case Ok(_) => SettleBid(old(View()), old(terms).value, old(highestBidder).value, royalty) == Ok(View())
              case Err(e) => SettleBid(old(View()), old(terms).value, old(highestBidder).value, royalty) == Err(e)
    {
      var t := terms.value;
      if t.reservePrice.Some? && highestBid < t.reservePrice.value {
        var ok := token.TransferFrom(self, highestBidder.value, highestBid);
        return if ok then Ok(()) else Err(TokenTrap);
      }
      r := PayOut(royalty);
    }

    /** The royalty first, then the rest to the seller, who is credited when the payment fails; the caller reverts the
        state after an error. */
    method PayOut(royalty: Royalty) returns (r: Result<(), AuctionError>)
      requires terms.Some? && settled
      modifies this, token`balances
      ensures match r
              case Ok(_) => PaySeller(old(View()), old(terms).value, royalty) == Ok(View())
              case Err(e) => PaySeller(old(View()), old(terms).value, royalty) == Err(e)
    {
      var seller := terms.value.seller;
      var sellerProceeds := highestBid;
      if terms.value.nftContract.Some? && terms.value.tokenId.Some? && royalty.Some? {
        var (recipient, amount) := royalty.value;
        if amount > 0 && amount < highestBid {
          var royaltyPaid := token.TransferFrom(self, recipient, amount);
          if royaltyPaid {
            sellerProceeds := highestBid - amount;
          }
        }
      }
      var paid := token.TransferFrom(self, seller, sellerProceeds);
      if !paid {
        var newTotal := Get(sellerPending, seller) + sellerProceeds;
        if !FitsI128(newTotal) {
          return Err(Overflow);
        }
        sellerPending := sellerPending[seller := newTotal];
      }
      return Ok(());
    }

    method DoWithdraw(bidder: Address) returns (r: Result<(), AuctionError>)
      modifies this, token`balances, nfts`owners
      ensures Reports(Withdraw(old(View()), bidder), r, old(View()), View())
    {
      var before := View();
      var amount := Get(pending, bidder);
      if amount <= 0 {
        return Err(NothingToWithdraw);
      }
      pending := pending - {bidder};
      if terms == None {
        Revert(before);
        return Err(NotInitialized);
      }
      var ok := token.TransferFrom(self, bidder, amount);
      if !ok {
        Revert(before);
        return Err(TokenTrap);
      }
      return Ok(());
    }

    method DoWithdrawSellerProceeds(seller: Address) returns (r: Result<(), AuctionError>)
      modifies this, token`balances, nfts`owners
      ensures Reports(WithdrawSellerProceeds(old(View()), seller), r, old(View()), View())
    {
      var before := View();
      var amount := Get(sellerPending, seller);
      if amount <= 0 {
        return Err(NothingToWithdraw);
      }
      sellerPending := sellerPending - {seller};
      if terms == None {
        Revert(before);
        return Err(NotInitialized);
      }
      var ok := token.TransferFrom(self, seller, amount);
      if !ok {
        Revert(before);
        return Err(TokenTrap);
      }
      return Ok(());
    }
  }
}
