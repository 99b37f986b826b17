/**
  The auctioned NFT: the contract owns it while the auction is open, and a settlement, a purchase or a compensated
  cancellation delivers it to the right owner. A cancellation without bids does not, and strands it.
 */
module AuctionCustody {
  import opened Wrappers
  import opened TokenLedger
  import opened NftLedger
  import opened Runs
  import opened Auction
  import opened AuctionSafety

  ghost predicate HasItem(w: World) {
    w.terms.Some? && ItemOf(w.terms.value).Some?
  }

  /** `a` owns the auctioned NFT. */
  ghost predicate Owns(w: World, a: Address)
    requires HasItem(w)
  {
    var item := ItemOf(w.terms.value).value;
    item in w.owners && w.owners[item] == a
  }

  /** While the auction is open, the contract owns the NFT. */
  ghost predicate Custody(w: World) {
    HasItem(w) && !w.settled && !w.cancelled ==> Owns(w, w.self)
  }

  /** With the NFT in custody, only a refusal can prevent its delivery. */
  lemma CustodyDelivers(w: World, to: Address)
    requires Custody(w) && HasItem(w) && !w.settled && !w.cancelled
    ensures CanDeliver(w, to) <==> Allowed(w.itemRefused, w.self, to)
  {
  }

  // ----- one step

  /** The owner of the NFT after a step that ends the auction. */
  ghost function Destination(w: World, op: Op): Address
    requires w.terms.Some?
  {
    match op
    case OpBid(bidder, _, _) => bidder
    case OpEnd(_) => Receiver(w)
    case OpCancel(_) => if w.highestBidder.Some? then w.terms.value.seller else w.self
    case _ => w.self
  }

  /** The step ends the auction. */
  ghost predicate Ends(w: World, op: Op) {
    && w.terms.Some? && !w.settled && !w.cancelled
    && (Next(w, op).settled || Next(w, op).cancelled)
  }

  lemma StepOwners(w: World, op: Op)
    requires w.terms.Some? && !(op.OpMoveItem?) && Apply(w, op).Ok?
    ensures var v := Next(w, op);
            && v.self == w.self && v.terms == w.terms
            && v.owners == match op
                           case OpBid(bidder, amount, _) =>
                             if BuysNow(w.terms.value, amount) then OwnersAfter(w, bidder) else w.owners
                           case OpCancel(_) =>
                             if w.highestBidder.Some? then OwnersAfter(w, w.terms.value.seller) else w.owners
                           case OpEnd(_) => OwnersAfter(w, Receiver(w))
                           case _ => w.owners
    ensures op.OpBid? && BuysNow(w.terms.value, op.amount) ==> CanDeliver(w, op.bidder)
    ensures op.OpBid? ==> Next(w, op).settled == (w.settled || BuysNow(w.terms.value, op.amount))
                          && Next(w, op).cancelled == w.cancelled
  {
    match op
    case OpBid(bidder, amount, useCredit) =>
      BidIsTakenAndDelivered(w, bidder, amount, useCredit);
      TakenBidRecords(w, bidder, amount, useCredit);
    case OpCancel(caller) => CancelRecords(w, caller);
    case OpEnd(royalty) =>
      EndSettlesAndDelivers(w, royalty);
      SettleRecords(w, royalty);
    case OpStart(t, deadline) => StartRecords(w, t, deadline);
    case _ =>
  }

  /** A step keeps the NFT in custody or, when it ends the auction, delivers it to its destination: the buyer, the
      winner of a sale, the seller of an unsold item or of a compensated cancellation. After a cancellation without
      bids it stays with the contract. */
  lemma StepDelivers(w: World, op: Op)
    requires Custody(w) && ByOthers(w.self, op)
    ensures Custody(Next(w, op))
    ensures HasItem(w) && Ends(w, op) ==>
              HasItem(Next(w, op)) && Owns(Next(w, op), Destination(w, op))
  {
    if Apply(w, op).Ok? {
      if w.terms.Some? && !op.OpMoveItem? {
        StepOwners(w, op);
        if op.OpEnd? {
          SettleRecords(w, op.royalty);
          EndSettlesAndDelivers(w, op.royalty);
        }
        if op.OpCancel? {
          CancelRecords(w, op.caller);
        }
      } else if op.OpStart? {
        StartTakesCustody(w, op.terms, op.deadline);
      } else if w.terms == None {
        StepRecords(w, op);
      }
    }
  }

  lemma StartTakesCustody(w: World, t: Terms, deadline: u32)
    requires Start(w, t, deadline).Ok?
    ensures var v := Start(w, t, deadline).value;
            HasItem(v) ==> Owns(v, w.self) && v.self == w.self
  {
    StartRecords(w, t, deadline);
  }

  // ----- runs

  /** In every state reached from before `start`, the contract owns the NFT of an open auction. */
  lemma ItemIsHeldWhileOpen(w: World, ops: seq<Op>)
    requires Genesis(w)
    requires forall k :: 0 <= k < |ops| ==> ByOthers(w.self, ops[k])
    ensures Custody(Exec(Next, w, ops))
  {
    var inv := (v: World) => Custody(v) && v.self == w.self;
    var each := (op: Op) => ByOthers(w.self, op);
    var ok := (v: World, op: Op) => ByOthers(w.self, op);
    forall v, op | inv(v) && each(op)
      ensures inv(Next(v, op))
    {
      StepDelivers(v, op);
      StepRecords(v, op);
    }
    GuardFromInvariant(Next, ok, inv, each, w, ops);
    Invariant(Next, ok, inv, w, ops);
  }

  /** So after the deadline, settlement fails exactly when the token refuses the return of a bid that misses the
      reserve, or the NFT contract refuses the delivery. */
  lemma SettlementOfHeldItemBlocksExactly(w: World, royalty: Royalty)
    requires Inv(w) && Custody(w) && HasItem(w) && ByOthers(w.self, OpEnd(royalty))
    requires w.now > w.deadline && !w.settled && !w.cancelled
    ensures End(w, royalty).Err? <==>
              || (MissesReserve(w) && Blocked(w, w.highestBidder.value))
              || !Allowed(w.itemRefused, w.self, Receiver(w))
  {
    SettlementBlocksExactly(w, royalty);
    CustodyDelivers(w, Receiver(w));
  }

  /** The auction was cancelled without a bid, and its NFT is with the contract. */
  ghost predicate Stranded(w: World) {
    HasItem(w) && w.cancelled && !w.settled && Owns(w, w.self)
  }

  lemma CancelWithoutBidStrands(w: World, caller: Address)
    requires Custody(w) && HasItem(w) && w.highestBidder == None && Cancel(w, caller).Ok?
    ensures Stranded(Cancel(w, caller).value)
  {
    CancelRecords(w, caller);
  }

  lemma StrandedStep(w: World, op: Op)
    requires Stranded(w) && ByOthers(w.self, op)
    ensures Stranded(Next(w, op)) && Next(w, op).self == w.self
  {
    if Apply(w, op).Ok? && !op.OpMoveItem? {
      StepOwners(w, op);
    }
  }

  /** An NFT stranded by a cancellation without bids never leaves the contract, whatever anybody does. */
  lemma StrandedForever(w: World, ops: seq<Op>)
    requires Stranded(w)
    requires forall k :: 0 <= k < |ops| ==> ByOthers(w.self, ops[k])
    ensures Stranded(Exec(Next, w, ops)) && Exec(Next, w, ops).self == w.self
  {
    var inv := (v: World) => Stranded(v) && v.self == w.self;
    var each := (op: Op) => ByOthers(w.self, op);
    var ok := (v: World, op: Op) => ByOthers(w.self, op);
    forall v, op | inv(v) && each(op)
      ensures inv(Next(v, op))
    {
      StrandedStep(v, op);
    }
    GuardFromInvariant(Next, ok, inv, each, w, ops);
    Invariant(Next, ok, inv, w, ops);
  }

  // ----- the NFT guards the settled auction

  /** Every auction has an NFT, and nobody sends it to the contract. */
  ghost predicate WithItem(self: Address, op: Op) {
    && ByOthers(self, op)
    && (op.OpStart? ==> ItemOf(op.terms).Some?)
    && (op.OpMoveItem? ==> op.newOwner != self)
  }

  /** After a settlement the NFT is gone, and until the deadline any bid would be another purchase. */
  ghost predicate Guarded(w: World) {
    && Inv(w) && Custody(w)
    && (w.terms.Some? ==> HasItem(w))
    && (w.settled ==> w.terms.Some? && !Owns(w, w.self))
    && (w.settled && w.now <= w.deadline ==> BuysNow(w.terms.value, w.highestBid))
  }

  /** A second purchase would have to deliver an NFT that the contract no longer owns. */
  lemma NoBidAfterSale(w: World, bidder: Address, amount: i128, useCredit: bool)
    requires Guarded(w) && w.settled
    ensures PlaceBid(w, bidder, amount, useCredit).Err?
  {
    BidIsTakenAndDelivered(w, bidder, amount, useCredit);
    if TakeBid(w, bidder, amount, useCredit).Ok? {
      TakenBidRecords(w, bidder, amount, useCredit);
    }
  }

  lemma GuardedStep(w: World, op: Op)
    requires Guarded(w) && WithItem(w.self, op)
    ensures Guarded(Next(w, op)) && Next(w, op).self == w.self
  {
    StepRecords(w, op);
    if op.OpBid? && w.settled {
      NoBidAfterSale(w, op.bidder, op.amount, op.useCredit);
    } else {
      StepKeepsInv(w, op);
      StepDelivers(w, op);
      if Apply(w, op).Ok? {
        if op.OpStart? {
          StartRecords(w, op.terms, op.deadline);
        } else if w.terms.Some? && !op.OpMoveItem? {
          StepOwners(w, op);
        }
      }
    }
  }

  /** For an auction with an NFT the contract holds exactly what it owes over every run, with or without a buy-it-now
      price, unless somebody sends the NFT back to the contract after the sale. */
  lemma ContractWithItemHoldsWhatItOwes(w: World, ops: seq<Op>)
    requires Genesis(w)
    requires forall k :: 0 <= k < |ops| ==> WithItem(w.self, ops[k])
    ensures Conserved(Exec(Next, w, ops))
  {
    GenesisInv(w);
    var inv := (v: World) => Guarded(v) && v.self == w.self;
    var each := (op: Op) => WithItem(w.self, op);
    var ok := (v: World, op: Op) => WithItem(w.self, op);
    forall v, op | inv(v) && each(op)
      ensures inv(Next(v, op))
    {
      GuardedStep(v, op);
    }
    GuardFromInvariant(Next, ok, inv, each, w, ops);
    Invariant(Next, ok, inv, w, ops);
  }
}
