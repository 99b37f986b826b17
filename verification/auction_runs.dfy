/**
  The English auction from start to end: what a participant gains over a whole run, and two runs that show where the
  guarantees stop.
 */
module AuctionRuns {
  import opened Wrappers
  import opened Sums
  import opened TokenLedger
  import opened NftLedger
  import opened Runs
  import opened Auction
  import opened AuctionSafety

  ghost predicate Succeeds(w: World, op: Op) {
    Apply(w, op).Ok?
  }

  // ----- gains over a run

  /** The gains of all successful steps. */
  ghost function TotalGain(w: World, ops: seq<Op>, a: Address): int
    decreases ops
  {
    if ops == [] then
      0
    else
      (if Succeeds(w, ops[0]) then Gain(w, ops[0], a) else 0) + TotalGain(Next(w, ops[0]), ops[1..], a)
  }

  lemma AdmissibleStepGain(w: World, op: Op, a: Address)
    requires Inv(w) && Admissible(w, op) && a != w.self
    ensures Worth(Next(w, op), a) == Worth(w, a) + if Succeeds(w, op) then Gain(w, op, a) else 0
    ensures Inv(Next(w, op)) && Next(w, op).self == w.self
  {
    StepKeepsInv(w, op);
    StepRecords(w, op);
    if Succeeds(w, op) {
      WorthChangesByGain(w, op, a);
    }
  }

  /** Over any run a participant's worth changes by the gains of its steps, and by nothing else. */
  lemma {:induction false} WorthOverRuns(w: World, ops: seq<Op>, a: Address)
    requires Inv(w) && Along(Next, Admissible, w, ops) && a != w.self
    ensures Worth(Exec(Next, w, ops), a) == Worth(w, a) + TotalGain(w, ops, a)
    decreases ops
  {
    if ops != [] {
      AdmissibleStepGain(w, ops[0], a);
      WorthOverRuns(Next(w, ops[0]), ops[1..], a);
    }
  }

  /** The steps in which `a` pays for something: buying, winning, compensating as the seller, or moving own tokens. */
  ghost predicate Pays(w: World, op: Op, a: Address) {
    match op
    case OpBid(bidder, amount, _) => bidder == a && w.terms.Some? && BuysNow(w.terms.value, amount)
    case OpCancel(caller) => caller == a && w.highestBidder.Some?
    case OpEnd(_) => w.highestBidder == Some(a) && Sells(w)
    case OpOutside(from, _, _) => from == a
    case _ => false
  }

  lemma NoLossWithoutPaying(w: World, op: Op, a: Address)
    requires Inv(w) && Admissible(w, op) && !Pays(w, op, a) && a != w.self
    ensures Succeeds(w, op) ==> Gain(w, op, a) >= 0
  {
    if Succeeds(w, op) && op.OpEnd? && w.highestBidder.Some? {
      RoyaltySplits(w, op.royalty);
    }
  }

  /** However often they bid and are outbid, with or without credit, those who neither win nor buy lose nothing. */
  lemma {:induction false} LosersLoseNothing(w: World, ops: seq<Op>, a: Address)
    requires Inv(w) && a != w.self && Along(Next, Admissible, w, ops)
    requires Along(Next, (v: World, op: Op) => !Pays(v, op, a), w, ops)
    ensures Worth(Exec(Next, w, ops), a) >= Worth(w, a)
    decreases ops
  {
    if ops != [] {
      AdmissibleStepGain(w, ops[0], a);
      NoLossWithoutPaying(w, ops[0], a);
      LosersLoseNothing(Next(w, ops[0]), ops[1..], a);
    }
  }

  // ----- the first steps of a run

  /** Terms that `start` accepts, of an auction without a grace window, extensions or an NFT. */
  ghost predicate Simple(w: World, t: Terms, deadline: u32) {
    && t.seller != w.self && t.startPrice > 0 && t.minIncrement > 0 && t.cancellationFee == 0
    && t.startLedger == w.now < deadline <= t.maxDeadline && t.extensionWindow == 0
    && t.nftContract == None && t.tokenId == None
  }

  ghost predicate JustStarted(w: World, t: Terms, deadline: u32, u: World) {
    u == w.(terms := Some(t), deadline := deadline, highestBid := t.startPrice - 1)
  }

  lemma StartSucceeds(w: World, t: Terms, deadline: u32)
    requires Genesis(w) && Simple(w, t, deadline)
    ensures var op, u := OpStart(t, deadline), Next(w, OpStart(t, deadline));
            Admissible(w, op) && Succeeds(w, op) && JustStarted(w, t, deadline, u) && Inv(u)
  {
    GenesisInv(w);
    StepKeepsInv(w, OpStart(t, deadline));
  }

  /** What the first bid changes. */
  lemma FirstBidSucceeds(w: World, t: Terms, deadline: u32, u: World, bidder: Address, amount: i128)
    requires Genesis(w) && Simple(w, t, deadline) && JustStarted(w, t, deadline, u) && Inv(u)
    requires bidder != w.self && w.refused == {} && t.startPrice <= amount <= Get(w.wallets, bidder)
    ensures var op, v := OpBid(bidder, amount, false), Next(u, OpBid(bidder, amount, false));
            && Admissible(u, op) && Succeeds(u, op) && Inv(v)
            && v == u.(highestBidder := Some(bidder), highestBid := amount, settled := BuysNow(t, amount),
                       pending := v.pending, wallets := v.wallets)
            && Get(v.wallets, w.self) == amount - When(BuysNow(t, amount), amount)
            && forall a :: a != bidder ==> Get(v.wallets, a) >= Get(w.wallets, a)
  {
    BidAcceptedExactly(u, bidder, amount, false);
    BidOutcome(u, bidder, amount, false);
    BidConservesExactlyWhileOpen(u, bidder, amount, false);
  }

  /** Unrolls a run by one step. */
  lemma RunStep(w: World, op: Op, rest: seq<Op>)
    ensures Exec(Next, w, [op] + rest) == Exec(Next, Next(w, op), rest)
    ensures Along(Next, Succeeds, w, [op] + rest) <==> Succeeds(w, op) && Along(Next, Succeeds, Next(w, op), rest)
    ensures Along(Next, Admissible, w, [op] + rest) <==> Admissible(w, op) && Along(Next, Admissible, Next(w, op), rest)
  {
    ExecStep(Next, w, op, rest);
    assert ([op] + rest)[1..] == rest;
  }

  /** Right after the start of an auction with a start price above one, nothing is escrowed but the highest bid is
      positive, so the naive sum is wrong. */
  lemma NaiveSumFailsAtStart(w: World, t: Terms, deadline: u32)
    requires Genesis(w) && Simple(w, t, deadline)
    ensures NaivelyConserved(Next(w, OpStart(t, deadline))) <==> t.startPrice == 1
  {
    StartSucceeds(w, t, deadline);
    NaiveSumHoldsExactly(Next(w, OpStart(t, deadline)));
  }

  // ----- a bid after a purchase

  /** The contract holds less than it owes. */
  ghost predicate Underfunded(w: World) {
    Get(w.wallets, w.self) < LiveEscrow(w) + Total(w.pending) + Total(w.sellerPending)
  }

  lemma LateBidSucceeds(v: World, late: Address, amount: i128)
    requires Inv(v) && v.settled && v.highestBidder.Some? && !v.cancelled && v.now <= v.deadline
    requires v.refused == {} && late != v.self
    requires v.terms.Some? && BuysNow(v.terms.value, amount) && MinRequired(v) <= amount <= Get(v.wallets, late)
    requires FitsI128(QueuedAmount(v)) && ItemOf(v.terms.value) == None
    ensures var op := OpBid(late, amount, false);
            Succeeds(v, op) && Underfunded(Next(v, op))
  {
    GetAtMostTotal(v.wallets, v.self);
    BidTransfersMove(v.refused, v.wallets, late, v.self, v.terms.value.seller, amount, amount, true);
    BidIsTakenAndDelivered(v, late, amount, false);
    BidOutcome(v, late, amount, false);
    var after := Next(v, OpBid(late, amount, false));
    assert Get(after.wallets, v.self) == Get(v.wallets, v.self) + amount - amount;
  }

  /** In every simple auction with a buy-it-now price: a sale at that price, before the deadline, and one more bid,
      which owes the buyer a refund that nobody paid in. */
  lemma BidAfterPurchaseBreaksConservation(w: World, t: Terms, deadline: u32, buyer: Address, price: i128,
                                           late: Address, amount: i128)
    requires Genesis(w) && Simple(w, t, deadline) && w.refused == {}
    requires buyer != w.self && late != w.self && buyer != late
    requires t.startPrice <= price && t.buyItNowPrice == Some(price) && price + t.minIncrement <= amount
    requires price <= Get(w.wallets, buyer) && amount <= Get(w.wallets, late)
    ensures var ops := [OpStart(t, deadline)] + ([OpBid(buyer, price, false)] + ([OpBid(late, amount, false)] + []));
            && (forall op :: op in ops ==> ByOthers(w.self, op))
            && Along(Next, Succeeds, w, ops) && Underfunded(Exec(Next, w, ops))
  {
    var start, buy, bid := OpStart(t, deadline), OpBid(buyer, price, false), OpBid(late, amount, false);
    StartSucceeds(w, t, deadline);
    var u := Next(w, start);
    FirstBidSucceeds(w, t, deadline, u, buyer, price);
    var v := Next(u, buy);
    PurchaseOwesNothing(v);
    LateBidSucceeds(v, late, amount);
    RunStep(v, bid, []);
    RunStep(u, buy, [bid] + []);
    RunStep(w, start, [buy] + ([bid] + []));
  }

  /** For instance: a buyer with 10 tokens, a buy-it-now price of 10, and a late bidder with 20. */
  lemma LateBidExample()
    ensures exists w: World, ops: seq<Op> ::
              && Genesis(w) && (forall op :: op in ops ==> ByOthers(w.self, op))
              && Along(Next, Succeeds, w, ops) && Underfunded(Exec(Next, w, ops))
  {
    var self, seller, buyer, late := Address(0), Address(1), Address(2), Address(3);
    var w := World(self, None, 0, None, 0, false, false, map[], map[], map[buyer := 10, late := 20], 0, {}, map[], {});
    TotalEmpty<Address>(map[]);
    TotalUpdate(map[], buyer, 10);
    TotalUpdate(map[][buyer := 10], late, 20);
    assert map[][buyer := 10][late := 20] == w.wallets;
    var t := Terms(seller, 1, 1, None, 0, 100, 0, 0, 0, Some(10), None, None);
    BidAfterPurchaseBreaksConservation(w, t, 100, buyer, 10, late, 20);
  }

  /** A refund on top of what is owed fits when the contract holds nothing. */
  lemma PurchaseOwesNothing(v: World)
    requires Inv(v) && v.highestBidder.Some? && Get(v.wallets, v.self) == 0 && FitsI128(v.highestBid)
    ensures FitsI128(QueuedAmount(v))
  {
    EscrowIsHeld(v);
  }

  // ----- a settlement that the token refuses

  /** After the deadline, while the token refuses the top bidder, nothing settles; once it accepts the bidder, it
      does. */
  lemma RefusedBidderBlocks(v: World, ledgers: u32, bidder: Address, royalty: Royalty)
    requires Inv(v) && v.now + ledgers > v.deadline && v.now + ledgers <= U32_MAX
    requires v.terms.Some? && MissesReserve(v) && v.highestBidder == Some(bidder) && ItemOf(v.terms.value) == None
    requires !v.settled && !v.cancelled && ByOthers(v.self, OpEnd(royalty))
    ensures var x := Next(Next(v, OpAdvance(ledgers)), OpRefuse({bidder}));
            && x == v.(now := v.now + ledgers, refused := {bidder})
            && End(x, royalty).Err? && End(Next(x, OpRefuse({})), royalty).Ok?
  {
    StepKeepsInv(v, OpAdvance(ledgers));
    var late := Next(v, OpAdvance(ledgers));
    StepKeepsInv(late, OpRefuse({bidder}));
    var x := Next(late, OpRefuse({bidder}));
    SettlementBlocksExactly(x, royalty);
    StepKeepsInv(x, OpRefuse({}));
    SettlementBlocksExactly(Next(x, OpRefuse({})), royalty);
  }

  /** In every simple auction with a reserve: a bid below the reserve, by a bidder whom the token then refuses. After
      the deadline no settlement is possible and the bid stays in the contract, until the token accepts the bidder
      again. */
  lemma RefusedBidderBlocksSettlement(w: World, t: Terms, deadline: u32, bidder: Address, amount: i128, ledgers: u32,
                                      royalty: Royalty)
    requires Genesis(w) && Simple(w, t, deadline) && w.refused == {} && t.buyItNowPrice == None
    requires bidder != w.self && t.startPrice <= amount <= Get(w.wallets, bidder)
    requires t.reservePrice.Some? && amount < t.reservePrice.value
    requires deadline < w.now + ledgers <= U32_MAX && ByOthers(w.self, OpEnd(royalty))
    ensures var ops := [OpStart(t, deadline)]
                       + ([OpBid(bidder, amount, false)] + ([OpAdvance(ledgers)] + ([OpRefuse({bidder})] + [])));
            var x := Exec(Next, w, ops);
            && Along(Next, Admissible, w, ops) && Along(Next, Succeeds, w, ops)
            && Get(x.wallets, x.self) == amount && !x.settled
            && End(x, royalty).Err?
            && End(Next(x, OpRefuse({})), royalty).Ok?
  {
    var start, bid := OpStart(t, deadline), OpBid(bidder, amount, false);
    var advance, refuse := OpAdvance(ledgers), OpRefuse({bidder});
    StartSucceeds(w, t, deadline);
    var u := Next(w, start);
    FirstBidSucceeds(w, t, deadline, u, bidder, amount);
    var v := Next(u, bid);
    RefusedBidderBlocks(v, ledgers, bidder, royalty);
    RunStep(Next(v, advance), refuse, []);
    RunStep(v, advance, [refuse] + []);
    RunStep(u, bid, [advance] + ([refuse] + []));
    RunStep(w, start, [bid] + ([advance] + ([refuse] + [])));
  }
}
