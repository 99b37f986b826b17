# Verified model of the contract library

A Dafny model of the parts of the contract library where a mistake loses funds, with proofs about them. Each stateful
component is a class whose methods follow the contract's own control flow; every method is proved to compute a
specification function over immutable states, and the safety theorems are lemmas about those functions and about
arbitrary runs of them.

- `merkle.dfy`, `merkle_tree.dfy`, `merkle_soundness.dfy`: the two on-chain Merkle verifiers, the off-chain tree and
  multi-proof generator, completeness of the generator for the verifier, soundness of both verifiers against a tree.
  SHA-256 is an arbitrary function from byte strings to 32 bytes; what is needed of it is a hypothesis of the
  soundness lemmas, about the finitely many preimages that are actually hashed.
- `staking.dfy`, `staking_safety.dfy`, `staking_share.dfy`: the reward-per-token pool for any number of stakers, its
  solvency in every reachable state, and how closely it follows exact pro-rata distribution.
- `auction.dfy`, `auction_safety.dfy`, `auction_runs.dfy`, `auction_custody.dfy`: the English auction with credit bids,
  buy-it-now, anti-sniping, compensated cancellation, royalties, refunds, pending seller proceeds and the custody of the
  auctioned NFT, over a token ledger (`token.dfy`) and NFT contracts (`nft.dfy`) that may refuse any address at any time.
- `airdrop.dfy`, `airdrop_batch.dfy`, `airdrop_safety.dfy`, `airdrop_distribution.dfy`, `airdrop_funded.dfy`: claims
  bound to `(recipient, token)`, batches under one multi-proof, linear vesting, the bound that the tree behind the root
  puts on everything that is ever claimed, and the batches that a funded contract honours.
- `staking_effects.dfy`, `auction_effects.dfy`, `airdrop_effects.dfy`: what every entry point requires, which error it
  reports and what it changes, stated from the stored amounts alone and proved of the functions that the code follows.
- `fixed_math.dfy`, `sqrt.dfy`: checked `i128` arithmetic, its three roundings, the Dutch auction price, and the two
  integer square roots.
- `paging.dfy`, `rate_limit.dfy`: cursor pagination and the call limiter.
- `runs.dfy`, `sums.dfy`, `arith.dfy`, `wrappers.dfy`: runs of state machines, sums over maps and sequences, division
  facts, results and integer ranges.

An error return or a trap reverts the invocation, so it leaves the state unchanged; methods say this with `Reports`.
A token may refuse addresses, as an issuer does by withdrawing an account's authorisation
(`contracts/auction/src/test.rs:1678-1715`): while an address is refused, every `transfer` from or to it traps and every
`try_transfer` fails without effect. NFT contracts may refuse addresses in the same way, and trap when the sender does
not own the item. Both sets of refused addresses are part of the state and change between any two calls. Ledger sequence
numbers, the royalty reply of the NFT contract, the hash and the leaf encoding are parameters.

Two different functions are called `fixed_sqrt`; they are `SqrtSearch` and `SqrtNewton` here. Where the source text
is ambiguous, or differs from what is said about it elsewhere, the code is followed:

- `contracts/auction/src/lib.rs:742` leads to the `BidAlreadyPlaced` return at line 750, as the state machine at lines
  28-43 says; the stray block at lines 565-584 belongs to no English-auction step.
- `contracts/airdrop/src/lib.rs` interleaves two designs. The one modelled is keyed by `(recipient, token)`; its single
  claim starts at line 353, checks `amount <= 0` as line 345 documents, and continues at lines 439-463.
- The deadline is extended from the current deadline (`contracts/auction/src/lib.rs:300`), as
  `contracts/auction/src/test.rs:495-499` says; line 1881 of that file says otherwise.
- `contracts/auction/src/dutch.rs:22-24` calls overflow unreachable; `AcceptedScheduleCanOverflow` shows an accepted
  schedule that overflows and `PriceExistsExactly` says which ones do not.
- The comment at `contracts/common/src/math.rs:229` on the upper end of the search is replaced by the invariant
  `value < (high + 1)^2`; the value expected at line 519 is not the floor square root that the code computes, which
  `RootOfOneBillion` gives.
- `contracts/common/src/math.rs:394-399` orders truncation below rounding to nearest for all signs;
  `TruncationAboveNearest` is a counterexample and `RoundingOrder` the exact condition.
- The conservation formula at `fuzz/fuzz_targets/auction_fuzz.rs:210-223` counts the highest bid even when nothing is
  escrowed; the invariant here counts it only while a top bidder leads an auction that is neither settled nor cancelled.
  `NaiveSumHoldsExactly` says when the formula is right and `NaiveSumFailsAtStart` that it is wrong right after the start
  of every auction with a start price above one.
- `place_bid` does not look at the settled flag, so a bid after a buy-it-now sale is accepted and breaks conservation;
  `BidConservesExactlyWhileOpen` says that this is the only way to break it. With an NFT the bid fails, because a second
  purchase would have to deliver it again: `ContractWithItemHoldsWhatItOwes`.
- `contracts/auction/src/lib.rs:907-909` says that settlement never blocks. It is true of the seller's payout, but a bid
  that misses the reserve is returned by a plain transfer (lines 866-870), and the NFT is released on every path (lines
  854, 871 and 927); either transfer may be refused. `SettlementBlocksExactly` says that these are the only two cases and
  `RefusedBidderBlocksSettlement` reaches the first.
- `contracts/auction/src/lib.rs:696-698` and `contracts/auction/src/test.rs:1339` say that a cancellation returns the NFT.
  The branch without bids (lines 722-729) does not, and `StrandedForever` shows that no later step can; `cancel_auctions_batch`, not modelled, refuses a
  cancelled auction (lines 1092-1095).

## Model

| member | source | states |
|---|---|---|
| `Merkle.LessEqTotalOrder` | contracts/common/src/merkle.rs:27-34 | the byte order that sorts a pair is a total order on 32-byte nodes |
| `Merkle.SmallerNodeFirst` | contracts/common/src/merkle.rs:27-34 | the node with the smaller byte at the first difference is hashed first, whichever operand it is |
| `Merkle.EqualNodesHash` | contracts/common/src/merkle.rs:27-34 | equal nodes are hashed one after the other |
| `Merkle.PreimageIsUnorderedPair` | contracts/common/src/merkle.rs:27-34 | two hashed preimages are equal exactly when the unordered pairs are |
| `Merkle.HashPairCommutes` | contracts/common/src/merkle.rs:27-34 | the pair hash is commutative, for every hash function |
| `Merkle.VerifyMerkleProof` | contracts/common/src/merkle.rs:41-52 | the loop accepts exactly when hashing the leaf with each sibling in turn reaches the root |
| `Merkle.VerifyMerkleMultiProof` | contracts/common/src/merkle.rs:74-146 | the verifier with its separate leaf, hash and proof positions accepts exactly the runs of a one-queue machine that use every proof item, end at the root and pass the length checks |
| `Merkle.HashAll` | contracts/common/src/merkle.rs:103-139 | the flag loop computes the queue machine's run, and stops exactly when that run reads a missing operand |
| `Merkle.NextNode` | contracts/common/src/merkle.rs:108-120 | the closure reads the queue of leaves followed by computed hashes |
| `Merkle.RunCounts` | contracts/common/src/merkle.rs:103-139 | queue reads plus proof reads equal twice the number of flags, and the queue grows by one per flag |
| `Merkle.AcceptedRunReadsAllButRoot` | contracts/common/src/merkle.rs:141-145 | acceptance forces every queue item but the last to be read exactly once, and the last is the root |
| `Merkle.PathReachesLast` | contracts/common/src/merkle.rs:103-145 | in such a run every unread queue item climbs, by the siblings it meets, to the last item |
| `Merkle.MultiProofImpliesSingleProofs` | contracts/common/src/merkle.rs:74-146 | whatever the hash, an accepted multi-proof contains for each of its leaves a sibling list accepted by the single-proof verifier against the same root, shorter than leaves plus proof |
| `MerkleTree.Tree.Build` | benches/benches/merkle_ops.rs:34-46 | the two loops build a tree in array layout over the leaves, for every power-of-two leaf count |
| `MerkleTree.Tree.Proof` | benches/benches/merkle_ops.rs:60-68 | the generated sibling list climbs from the leaf to the root |
| `MerkleTree.TreeProofClimbs` | benches/benches/merkle_ops.rs:60-68 | for every node of a tree, its sibling list leads to the root |
| `MerkleTree.Tree.EmitProof` | benches/benches/merkle_ops.rs:81-100 | the deque loop terminates and emits the specified proof and flags |
| `MerkleTree.Tree.MultiProof` | benches/benches/merkle_ops.rs:72-105 | what the generator returns is accepted by the verifier exactly for a non-empty selection without repetition |
| `MerkleTree.Simulates` | benches/benches/merkle_ops.rs:81-100 | verifier and generator simulate each other: the unread queue of the verifier always holds the nodes of the generator's deque, and the run ends with those of the last deque |
| `MerkleTree.OrderedAdvances` | benches/benches/merkle_ops.rs:81-100 | a strictly decreasing deque whose front's parent lies below its back stays so |
| `MerkleTree.OrderedEndsAtRoot` | benches/benches/merkle_ops.rs:81-100 | without repetition the deque ends as the root alone, and no internal node is pushed twice |
| `MerkleTree.RepeatingEndsTwice` | benches/benches/merkle_ops.rs:81-100 | with a repeated leaf at least two entries are left at the end |
| `MerkleTree.GeneratedMultiProofAccepted` | benches/benches/merkle_ops.rs:72-105 | completeness, both ways: the generated leaves, proof and flags are accepted against the tree's root if and only if the selection is non-empty and repeats no leaf |
| `MerkleTree.PushedAreAncestors` | benches/benches/merkle_ops.rs:81-100 | the pushed nodes are exactly the proper ancestors of the selected leaves |
| `MerkleTree.HashCount` | contracts/common/src/merkle.rs:4-7 | the number of hashes is the number of different internal nodes above the selected leaves, so shared nodes are hashed once |
| `MerkleTree.BatchCostsNoMoreThanSingles` | contracts/common/src/merkle.rs:4-7 | `k` leaves in a tree of depth `d` never cost more than `k * d` hashes |
| `MerkleSoundness.Descend` | contracts/common/src/merkle.rs:16-21 | going down from the root, an accepted path is the path of a leaf of the tree |
| `MerkleSoundness.SingleProofSound` | contracts/common/src/merkle.rs:16-52 | with collision-free preimages and leaves apart from node hashes, a single proof is accepted against a tree's root if and only if the value is a leaf and the proof is that leaf's sibling list |
| `MerkleSoundness.PathPreimagesInRun` | contracts/common/src/merkle.rs:103-139 | a leaf's path through a multi-proof hashes only what the run hashes |
| `MerkleSoundness.MultiProofSound` | contracts/common/src/merkle.rs:16-21 | under the same hypotheses every leaf of an accepted multi-proof is a leaf of the tree |
| `Staking.StakingModel.DoAccrue` | fuzz/fuzz_targets/staking_state_machine.rs:102-112 | lazy accrual with its `u128` product, truncating cast and saturating add |
| `Staking.StakingModel.DoAccrueAll` | fuzz/fuzz_targets/staking_state_machine.rs:114-118 | accrual of every staker |
| `Staking.StakingModel.SumStaked` | fuzz/fuzz_targets/staking_state_machine.rs:89-91 | the `u64` sum of all stakes, or the overflow at which the source panics |
| `Staking.StakingModel.DoStake` | fuzz/fuzz_targets/staking_state_machine.rs:120-124 | the whole new state of a stake, with saturation |
| `Staking.StakingModel.DoUnbond` | fuzz/fuzz_targets/staking_state_machine.rs:126-133 | the whole new state of an unbonding request |
| `Staking.StakingModel.DoReward` | fuzz/fuzz_targets/staking_state_machine.rs:135-144 | the whole new state of a deposit |
| `Staking.StakingModel.DoSlash` | fuzz/fuzz_targets/staking_state_machine.rs:146-169 | the whole new state of a slash |
| `Staking.StakingModel.CutStakers` | fuzz/fuzz_targets/staking_state_machine.rs:153-168 | the slashing loop, with its early exit, skips and two caps, takes exactly every staker's rounded-down share: the caps never bind |
| `Staking.StakingModel.CutOne` | fuzz/fuzz_targets/staking_state_machine.rs:157-167 | one staker loses the rounded-down share and nobody else anything |
| `Staking.StakingModel.DoClaim` | fuzz/fuzz_targets/staking_state_machine.rs:171-179 | the whole new state of a claim |
| `Staking.SharesBounds` | fuzz/fuzz_targets/staking_state_machine.rs:154-168 | the rounded shares of any group of stakers, against their exact part of the slash |
| `Staking.SlashShortfall` | fuzz/fuzz_targets/staking_state_machine.rs:154-168 | a slash takes at most its amount and falls short of it by less than the number of positive stakers |
| `StakingSafety.AccrueRounds` | fuzz/fuzz_targets/staking_state_machine.rs:102-112 | the cast and the saturating add lose nothing; an accrual loses less than one unit of entitlement |
| `StakingSafety.StakeConservesExactly` | fuzz/fuzz_targets/staking_state_machine.rs:120-124 | stakes plus unbonding equal the stake balance after a stake exactly when the balance does not saturate or one staker holds it all |
| `StakingSafety.StakesAreConserved` | fuzz/fuzz_targets/staking_state_machine.rs:184-190 | in every state reached without saturating the stake balance, it equals what is staked or unbonding |
| `StakingSafety.RewardConservesExactly` | fuzz/fuzz_targets/staking_state_machine.rs:135-144 | deposits equal balance plus claims after a deposit exactly when the deposits do not saturate or nothing was claimed yet |
| `StakingSafety.DepositsAreHeldOrClaimed` | fuzz/fuzz_targets/staking_state_machine.rs:102-179 | in every state reached without saturating the lifetime deposits, they equal the reward balance plus all claims |
| `StakingSafety.ClaimsNeverExceedDeposits` | fuzz/fuzz_targets/staking_state_machine.rs:198-208 | in every reachable state, without any condition, neither a staker nor all stakers together have claimed more than was deposited |
| `StakingSafety.SaturatedDepositsBreakSolvency` | fuzz/fuzz_targets/staking_state_machine.rs:135-144 | a single staker with one token who claims nothing in between: two deposits that together exceed `u64` make the pool owe more than it holds |
| `StakingSafety.RaiseEntitles` | fuzz/fuzz_targets/staking_state_machine.rs:135-144 | a rise of the accumulator entitles stakers to their total stake times the rise |
| `StakingSafety.RewardCoversExactly` | fuzz/fuzz_targets/staking_state_machine.rs:135-144 | a deposit keeps the pool solvent exactly when the reward balance does not saturate, nobody has staked, or what is owed leaves room for the distribution |
| `StakingSafety.SlashCovers` | fuzz/fuzz_targets/staking_state_machine.rs:146-169 | a slash keeps the pool solvent |
| `StakingSafety.SlashHolds` | fuzz/fuzz_targets/staking_state_machine.rs:146-169 | a slash keeps the stake balance exact |
| `StakingSafety.ClaimPaysInFull` | fuzz/fuzz_targets/staking_state_machine.rs:171-179 | in a solvent pool the cap in `claim` never binds: everything pending is paid |
| `StakingSafety.StepCovers` | fuzz/fuzz_targets/staking_state_machine.rs:102-179 | every operation that does not saturate the reward balance keeps the pool solvent |
| `StakingSafety.PoolIsAlwaysSolvent` | fuzz/fuzz_targets/staking_state_machine.rs:192-196 | in every state reached without saturating the reward balance, it covers all pending and all unaccrued rewards and every claim pays in full, whatever the lifetime deposits, claims and stakes |
| `StakingSafety.ChecksHold` | fuzz/fuzz_targets/staking_state_machine.rs:182-209 | the four asserted invariants hold in every state reached without saturating the stake balance and the reward balance |
| `StakingSafety.WideProductsFit` | fuzz/fuzz_targets/staking_state_machine.rs:102-169 | the `u128` products never overflow in a solvent pool |
| `StakingSafety.AccumulatorFits` | fuzz/fuzz_targets/staking_state_machine.rs:135-144 | the `u128` accumulator does not overflow in a run with lifetime deposits within `u64`, nor in any run of at most 18446744073 deposits |
| `StakingShare.RiseRounds` | fuzz/fuzz_targets/staking_state_machine.rs:135-144 | rounding the rise costs a staker at most their stake, in scaled units |
| `StakingShare.RewardsFollowExactShares` | fuzz/fuzz_targets/staking_state_machine.rs:102-179 | in every state reached without saturating the reward balance, payments plus pending plus unaccrued never exceed the exact rational share of the deposits, and fall short by at most one unit per accrual plus the summed `staked / SCALE` of the deposits |
| `StakingShare.AccrueNeverRaises` | fuzz/fuzz_targets/staking_state_machine.rs:102-112 | an accrual never raises an entitlement, even where the cast truncates or the add saturates |
| `StakingShare.ClaimsNeverExceedExactShare` | fuzz/fuzz_targets/staking_state_machine.rs:171-179 | in every reachable state, without any condition, nobody has been paid more than the exact pro-rata share |
| `StakingEffects.AccrualEarns` | fuzz/fuzz_targets/staking_state_machine.rs:102-112 | in a solvent pool an accrual adds exactly the rounded-down rewards earned since the checkpoint |
| `StakingEffects.CastDropsRange` | fuzz/fuzz_targets/staking_state_machine.rs:109-110 | rewards of exactly `2^64` would accrue as nothing, so the cast matters outside solvent pools |
| `StakingEffects.StakeAddsAmount` | fuzz/fuzz_targets/staking_state_machine.rs:120-124 | a stake adds its amount to the staker and the balance and changes nobody else |
| `StakingEffects.UnbondMovesAmount` | fuzz/fuzz_targets/staking_state_machine.rs:126-133 | an unbonding request moves exactly the smaller of the request and the stake |
| `StakingEffects.RewardDistributesAmount` | fuzz/fuzz_targets/staking_state_machine.rs:135-144 | a deposit raises both balances by its amount and the accumulator by the scaled amount per staked token, rounded down |
| `StakingEffects.SlashCutsEveryone` | fuzz/fuzz_targets/staking_state_machine.rs:146-169 | a slash takes from every staker the proportional part, rounded down, of the smaller of the request and all stakes, and changes nothing else |
| `StakingEffects.SlashTakesRequested` | fuzz/fuzz_targets/staking_state_machine.rs:146-169 | stakes and stake balance fall together, by at most that amount and by less than one unit per positive staker short of it |
| `StakingEffects.ClaimPaysEarned` | fuzz/fuzz_targets/staking_state_machine.rs:171-179 | a claim pays exactly what was earned, from the balance to the staker |
| `TokenLedger.TransferMoves` | contracts/auction/src/lib.rs:317-324 | in a sound ledger a transfer succeeds exactly when neither side is refused and the sender can pay; it moves the amount, conserves the supply and touches nobody else |
| `TokenLedger.Token.TransferFrom` | contracts/auction/src/lib.rs:317-324 | a transfer is all or nothing, and fails for refused addresses |
| `NftLedger.Nfts.TransferItem` | contracts/auction/src/lib.rs:150-182 | an NFT transfer succeeds exactly when the sender owns the item and neither side is refused, and moves only that item |
| `Auction.AuctionContract.DoStart` | contracts/auction/src/lib.rs:408-481 | the checks, the NFT pulled from the seller, the fixed terms and the initial highest bid one below the start price |
| `Auction.AuctionContract.ReleaseItem` | contracts/auction/src/lib.rs:169-182 | the escrowed NFT, if any, goes to the given address, or the transfer traps and nothing changes |
| `Auction.AuctionContract.QueueAndCredit` | contracts/auction/src/lib.rs:226-245 | the queued refund and the credit read after queueing, with every overflow check |
| `Auction.AuctionContract.ExtendDeadline` | contracts/auction/src/lib.rs:286-313 | the anti-sniping extension with its saturating add and its cap |
| `Auction.AuctionContract.DoPlaceBid` | contracts/auction/src/lib.rs:186-328 | the whole new state of `bid` and `bid_with_credit`, with the delivery of a purchased NFT, or an error or trap and no change |
| `Auction.AuctionContract.AcceptBid` | contracts/auction/src/lib.rs:192-324 | the records and payments of a bid, before any delivery |
| `Auction.AuctionContract.RecordBid` | contracts/auction/src/lib.rs:247-313 | the new top bid, the settled flag of a purchase, and otherwise the deadline |
| `Auction.AuctionContract.DoCancel` | contracts/auction/src/lib.rs:708-801 | plain cancellation, or compensated cancellation with the return of the NFT, or an error or trap and no change |
| `Auction.AuctionContract.CompensateTopBidder` | contracts/auction/src/lib.rs:708-794 | the records and the fee of a cancellation |
| `Auction.AuctionContract.DoEnd` | contracts/auction/src/lib.rs:819-931 | settlement with the release of the NFT on every path: no bids, reserve missed, or sale; or an error or trap and no change |
| `Auction.AuctionContract.SettlePayments` | contracts/auction/src/lib.rs:819-926 | the records and payments of a settlement |
| `Auction.AuctionContract.SettleTopBid` | contracts/auction/src/lib.rs:861-926 | the payments for a top bid: back to the bidder when it misses the reserve, which traps if the bidder is refused, and to the seller otherwise |
| `Auction.AuctionContract.PayOut` | contracts/auction/src/lib.rs:877-926 | royalty attempt, seller payout attempt, and the credit when the payout fails |
| `Auction.AuctionContract.DoWithdraw` | contracts/auction/src/lib.rs:938-959 | the refund is cleared and paid, or an error and no change |
| `Auction.AuctionContract.DoWithdrawSellerProceeds` | contracts/auction/src/lib.rs:967-987 | the pending proceeds are cleared and paid, or an error and no change |
| `AuctionSafety.RefundsAfterBid` | contracts/auction/src/lib.rs:226-245 | a bid moves the old escrow to the previous bidder's refund and takes the credit from the bidder's, also when they are the same |
| `AuctionSafety.BidOutcome` | contracts/auction/src/lib.rs:186-328 | everything a successful bid changes, in terms of amounts and not of steps |
| `AuctionSafety.BidConservesExactlyWhileOpen` | contracts/auction/src/lib.rs:186-328 | a successful bid keeps the contract's balance equal to what it owes if and only if the auction was not already settled |
| `AuctionRuns.BidAfterPurchaseBreaksConservation` | contracts/auction/src/lib.rs:252-284 | in every simple auction without an NFT and with a buy-it-now price: the run start, purchase, later bid, in which every step succeeds and after which the contract holds less than it owes |
| `AuctionRuns.LateBidExample` | contracts/auction/src/lib.rs:252-284 | such a run from a state before `start`, with a buyer holding 10 and a late bidder holding 20 |
| `AuctionSafety.RefundsNeverOverflow` | contracts/auction/src/lib.rs:226-245 | the only overflow a bidder can meet is the one in the required minimum |
| `AuctionSafety.BidAcceptedExactly` | contracts/auction/src/lib.rs:192-284 | while the auction is open a bid is accepted exactly when it is in time, reaches the required minimum, the bidder can pay the part not covered by credit, and nothing needed is refused: that payment, and for a purchase the one to the seller and the NFT delivery |
| `AuctionSafety.CancelKeepsInv` | contracts/auction/src/lib.rs:708-801 | a cancellation keeps the invariant |
| `AuctionSafety.RoyaltySplits` | contracts/auction/src/lib.rs:881-903 | royalty and proceeds add up to the winning bid, whether or not the token refuses the royalty |
| `AuctionSafety.EndKeepsInv` | contracts/auction/src/lib.rs:819-931 | a settlement keeps the invariant whoever is refused |
| `AuctionSafety.StepKeepsInv` | contracts/auction/src/lib.rs:186-987 | every step keeps the invariant |
| `AuctionSafety.ContractHoldsWhatItOwes` | contracts/auction/src/lib.rs:186-987 | in every reachable state, up to and including a buy-it-now sale, the contract's balance is the live escrow plus all refunds plus pending seller proceeds |
| `AuctionSafety.NaiveSumHoldsExactly` | fuzz/fuzz_targets/auction_fuzz.rs:210-223 | the formula with the bare highest bid holds exactly while that bid is escrowed |
| `AuctionRuns.NaiveSumFailsAtStart` | fuzz/fuzz_targets/auction_fuzz.rs:210-223 | right after the start it holds exactly for a start price of one |
| `AuctionSafety.ContractHoldsWhatItOwesWithoutPurchase` | contracts/auction/src/lib.rs:186-987 | without a buy-it-now price this holds over every run |
| `AuctionSafety.SettlementBlocksExactly` | contracts/auction/src/lib.rs:819-931 | after the deadline an open auction fails to settle if and only if the top bid misses the reserve and the token refuses its return, or the NFT cannot be delivered to whoever gets it |
| `AuctionRuns.RefusedBidderBlocksSettlement` | contracts/auction/src/lib.rs:861-873 | in every simple auction with a reserve: a run of successful steps after which no settlement is possible and the bid stays in the contract, until the token accepts the bidder again |
| `AuctionCustody.StepDelivers` | contracts/auction/src/lib.rs:169-182 | a step keeps the NFT in custody or, when it ends the auction, delivers it to the buyer, the winner, or the seller; only a cancellation without bids leaves it with the contract |
| `AuctionCustody.ItemIsHeldWhileOpen` | contracts/auction/src/lib.rs:150-182 | in every reachable state the contract owns the NFT of an open auction |
| `AuctionCustody.SettlementOfHeldItemBlocksExactly` | contracts/auction/src/lib.rs:819-931 | so with an NFT settlement fails exactly when the return of a bid that misses the reserve or the delivery is refused |
| `AuctionCustody.CancelWithoutBidStrands` | contracts/auction/src/lib.rs:722-729 | a cancellation without bids leaves the NFT with the contract |
| `AuctionCustody.StrandedForever` | contracts/auction/src/lib.rs:708-729 | and over every run after it, whatever anybody does, it stays there |
| `AuctionCustody.NoBidAfterSale` | contracts/auction/src/lib.rs:252-284 | once an NFT has been sold no further bid succeeds before the deadline |
| `AuctionCustody.ContractWithItemHoldsWhatItOwes` | contracts/auction/src/lib.rs:186-987 | for an auction with an NFT the contract holds exactly what it owes over every run, also with a buy-it-now price and bids after the sale, unless the NFT is sent back to it |
| `AuctionSafety.WithdrawalsDrainTheContract` | contracts/auction/src/lib.rs:938-987 | once settled or cancelled, attempting all outstanding withdrawals in any order pays exactly those not refused, and leaves the contract with what the refused are owed: nothing, when nobody is refused |
| `AuctionSafety.WorthChangesByGain` | contracts/auction/src/lib.rs:186-987 | wallet plus refund plus proceeds plus escrow is unchanged for everyone by bids, credit bids and withdrawals of anyone; a grace cancel moves exactly the fee from seller to top bidder, and a sale the winning bid |
| `AuctionRuns.WorthOverRuns` | contracts/auction/src/lib.rs:186-987 | over every run a participant's worth changes by the sum of those gains |
| `AuctionRuns.LosersLoseNothing` | contracts/auction/src/lib.rs:226-245 | over every run those who neither win nor buy, nor pay a fee, nor give tokens away, lose nothing |
| `AuctionSafety.CreditIsBidThenWithdraw` | contracts/auction/src/lib.rs:664-685 | a credit bid and then a withdrawal reach the same state as a plain bid and then a withdrawal, whenever the plain bid succeeds, also for a top bidder raising their own bid |
| `AuctionSafety.ExtensionUsesWindow` | contracts/auction/src/lib.rs:286-313 | an extension never moves the deadline back or past the cap and uses up one window |
| `AuctionSafety.DeadlineBounded` | contracts/auction/src/lib.rs:286-313 | over every run the deadline stays within the cap, and the extensions number at most the windows, rounded up, between first deadline and cap |
| `AuctionSafety.BidsClimb` | contracts/auction/src/lib.rs:202-222 | after `k` accepted bids the highest bid is at least the start price plus `k - 1` increments |
| `AuctionEffects.StartExactly` | contracts/auction/src/lib.rs:408-481 | when a start succeeds, and that the first bid must then reach the start price while the contract has the NFT and no money |
| `AuctionEffects.StartRefusals` | contracts/auction/src/lib.rs:400-407 | which error every refused start reports |
| `AuctionEffects.BidExactly` | contracts/auction/src/lib.rs:186-328 | when a bid on an open auction succeeds, from the stored amounts, refunds and refusals alone |
| `AuctionEffects.BidRefusals` | contracts/auction/src/lib.rs:192-222 | which error every refused bid reports |
| `AuctionEffects.BidPays` | contracts/auction/src/lib.rs:226-284 | who pays how much to whom: the bidder the bid less the refund used, a purchase goes on to the seller, and the old top bid becomes a refund |
| `AuctionEffects.BidRecords` | contracts/auction/src/lib.rs:247-313 | the auction is settled and the NFT handed over exactly when the bid reaches a buy-it-now price; otherwise the bid is escrowed and the deadline moves by the window up to the cap if it is within the window |
| `AuctionEffects.SmallBidBuysNothing` | contracts/auction/src/lib.rs:252-256 | a bid below the buy-it-now price settles nothing, pays the seller nothing and moves no NFT |
| `AuctionEffects.CancelExactly` | contracts/auction/src/lib.rs:708-801 | when a cancellation succeeds: before the first bid, or within the grace window if fee and NFT can move |
| `AuctionEffects.CancelRefusals` | contracts/auction/src/lib.rs:700-707 | which error every refused cancellation reports |
| `AuctionEffects.CancelPays` | contracts/auction/src/lib.rs:755-798 | with a bid the fee goes to the contract, the top bidder is owed bid and fee, and the NFT goes back; without one nothing moves |
| `AuctionEffects.EndExactly` | contracts/auction/src/lib.rs:819-931 | when a settlement succeeds |
| `AuctionEffects.EndRefusals` | contracts/auction/src/lib.rs:813-840 | which error every refused settlement reports |
| `AuctionEffects.EndHandsOver` | contracts/auction/src/lib.rs:850-927 | the NFT goes to the top bidder if there is one whose bid reaches the reserve, and to the seller otherwise |
| `AuctionEffects.EndPays` | contracts/auction/src/lib.rs:861-926 | a due royalty is paid unless it is refused, the rest is paid or credited to the seller, and a bid that misses the reserve goes back |
| `AuctionEffects.WithdrawPays` | contracts/auction/src/lib.rs:938-959 | a withdrawal pays exactly the refund, once, and fails exactly when there is none or the token refuses |
| `AuctionEffects.WithdrawProceedsPays` | contracts/auction/src/lib.rs:967-987 | the same for a seller's credited proceeds |
| `Airdrop.AirdropContract.DoInitialize` | contracts/airdrop/src/lib.rs:250-278 | the configuration checks and the stored configuration |
| `Airdrop.AirdropContract.DoSetRoot` | contracts/airdrop/src/lib.rs:291-328 | the root can be set, and replaced only after the claim window has closed |
| `Airdrop.AirdropContract.SettleClaim` | contracts/airdrop/src/lib.rs:142-190 | mark, split, lock and pay, or the error at which it stops |
| `Airdrop.AirdropContract.LockIfPositive` | contracts/airdrop/src/lib.rs:163-182 | the schedule and the locked total of the part not paid at once |
| `Airdrop.AirdropContract.LiquidPart` | contracts/airdrop/src/lib.rs:153-158 | the part paid at once, or its overflow |
| `Airdrop.AirdropContract.DoClaim` | contracts/airdrop/src/lib.rs:353-463 | a single claim with its authorisation and its checks in order, or an error and no change |
| `Airdrop.AirdropContract.ValidateEntries` | contracts/airdrop/src/lib.rs:501-527 | the validation loop finds the first error; otherwise its totals and leaves are those of all entries |
| `Airdrop.AirdropContract.DoClaimBatch` | contracts/airdrop/src/lib.rs:489-545 | a batch claim, all or nothing |
| `Airdrop.AirdropContract.SettleEach` | contracts/airdrop/src/lib.rs:538-541 | the settling loop settles the entries in order |
| `Airdrop.AirdropContract.DoRelease` | contracts/airdrop/src/lib.rs:556-591 | a release, or an error and no change |
| `AirdropBatch.SettleTakesAmount` | contracts/airdrop/src/lib.rs:142-190 | a claim takes exactly its amount out of what the contract holds beyond its locks, and from no other token |
| `AirdropBatch.ValidationExact` | contracts/airdrop/src/lib.rs:501-536 | validation and the totals check pass exactly when amounts are positive, pairs are new and distinct, and every token's total is available |
| `AirdropBatch.CoveredBatchClaims` | contracts/airdrop/src/lib.rs:439-545 | for a validated batch that does not pay the contract itself, claiming one by one gives the result of settling in one go |
| `AirdropBatch.ClaimsAreCovered` | contracts/airdrop/src/lib.rs:439-545 | single claims that all succeed pass the validation and the totals check of the batch |
| `AirdropBatch.BatchIsSequenceOfClaims` | contracts/airdrop/src/lib.rs:489-545 | the single claims, with the sibling lists taken from the multi-proof, reach a state if and only if the batch reaches it and no recipient is the contract, which cannot authorise a single claim |
| `AirdropSafety.ShortfallIsInsufficientBalance` | contracts/airdrop/src/lib.rs:102-111 | in every reachable state a totals check fails only for lack of balance, so the order of the checks does not matter |
| `AirdropSafety.VestedAmountExact` | contracts/airdrop/src/lib.rs:193-203 | the computed amount is the exact rounded-down one, and is missing exactly when the product overflows before the end |
| `AirdropSafety.VestingIsMonotone` | contracts/airdrop/src/lib.rs:193-203 | vesting never falls, lies between zero and the total, and is the total from the end on |
| `AirdropSafety.OnScheduleExactly` | contracts/airdrop/src/lib.rs:193-209 | staying below the straight vesting line is the same as having released no more than the rounded-down vested amount |
| `AirdropSafety.SettleKeepsInv` | contracts/airdrop/src/lib.rs:142-190 | a covered claim fails exactly when the split overflows or the token refuses the part paid at once; it keeps the invariant and all earlier schedules |
| `AirdropSafety.ClaimAddsItsAmount` | contracts/airdrop/src/lib.rs:142-190 | a claim adds its amount to what the recipient holds or is owed and changes nobody else's |
| `AirdropSafety.ReleaseOutcome` | contracts/airdrop/src/lib.rs:556-591 | a release pays exactly what has vested and is not yet released, and each of its errors occurs exactly when the contract is the recipient, the vested amount overflows, nothing new has vested, or the token refuses |
| `AirdropSafety.ReleaseMovesOwed` | contracts/airdrop/src/lib.rs:556-591 | a release turns owed tokens into held ones and takes nothing from what is available for claims |
| `AirdropSafety.StepKeepsInv` | contracts/airdrop/src/lib.rs:102-591 | every operation keeps the invariant, the earlier schedules' terms, and the claimed flags |
| `AirdropSafety.SchedulesAreNeverOverwritten` | contracts/airdrop/src/lib.rs:142-190 | over every run, schedules keep total, start and duration, and released amounts never fall |
| `AirdropSafety.ContractHoldsWhatItLocks` | contracts/airdrop/src/lib.rs:87-111 | in every reachable state, for each token, the locked total is the sum of what all schedules owe and the contract holds at least that |
| `AirdropSafety.ClaimedOnce` | contracts/airdrop/src/lib.rs:439-545 | a claimed pair is never paid again, singly or in a batch |
| `AirdropSafety.StepReleases` | contracts/airdrop/src/lib.rs:556-591 | only a successful release of a schedule changes what it has released, to the vested amount |
| `AirdropSafety.ReleasedIsVestedAtLastRelease` | contracts/airdrop/src/lib.rs:556-591 | after every run, released is the amount vested at the last successful release, or zero |
| `AirdropSafety.ReleaseIsPathIndependent` | contracts/airdrop/src/lib.rs:556-591 | after any run, a release attempt brings released to the amount vested now, whatever came before, unless that overflows or the token refuses |
| `AirdropSafety.ReleaseAtTheEndIsComplete` | contracts/airdrop/src/lib.rs:193-203 | at or after the end a release that the token does not refuse brings released to exactly the total |
| `AirdropEffects.InitializeExactly` | contracts/airdrop/src/lib.rs:250-278 | when the configuration is accepted, and what it stores |
| `AirdropEffects.SetRootExactly` | contracts/airdrop/src/lib.rs:291-328 | when a root is accepted |
| `AirdropEffects.SetupRefusals` | contracts/airdrop/src/lib.rs:247-328 | which error a refused configuration or root reports |
| `AirdropEffects.ClaimExactly` | contracts/airdrop/src/lib.rs:353-463 | when a single claim succeeds, from the stored configuration, amounts and refusals alone |
| `AirdropEffects.ClaimRefusals` | contracts/airdrop/src/lib.rs:340-351 | which error every refused claim reports |
| `AirdropEffects.ClaimSplits` | contracts/airdrop/src/lib.rs:142-190 | a claim pays `amount * bps / 10000`, rounded down, at once, and locks exactly the rest in a new schedule that starts now |
| `AirdropEffects.SettleSplits` | contracts/airdrop/src/lib.rs:142-190 | the same for every settled entry of a batch |
| `AirdropEffects.BatchExactly` | contracts/airdrop/src/lib.rs:489-545 | when a batch succeeds: open, valid different entries, a valid multi-proof, covered totals, and nothing overflows or is refused |
| `AirdropEffects.BatchRefusals` | contracts/airdrop/src/lib.rs:479-488 | a closed or empty batch, and the first invalid entry, decide the error |
| `AirdropEffects.VestedIsLinear` | contracts/airdrop/src/lib.rs:193-203 | before the end the vested amount is the largest on or below the straight line |
| `AirdropEffects.ReleaseExactly` | contracts/airdrop/src/lib.rs:556-591 | when a release succeeds |
| `AirdropEffects.ReleasePays` | contracts/airdrop/src/lib.rs:556-591 | a release pays what has vested and was not released, out of the contract and out of what is locked |
| `AirdropDistribution.SelectionWithinBudget` | contracts/airdrop/src/lib.rs:489-545 | entries of the tree for different pairs never add up to more than the tree allots |
| `AirdropDistribution.GovernedStep` | contracts/airdrop/src/lib.rs:291-328 | while claims are open the root cannot be replaced, so one root governs all claims |
| `AirdropDistribution.GrantedIsAllotted` | contracts/airdrop/src/lib.rs:353-545 | whatever a single or batch claim grants is an entry of the tree, was unclaimed before and is claimed afterwards |
| `AirdropDistribution.StepTakesGranted` | contracts/airdrop/src/lib.rs:142-190 | nothing but granted claims reduces what is available, by no more than their amounts |
| `AirdropDistribution.RunGrantsAllotted` | contracts/airdrop/src/lib.rs:353-591 | over every run the granted claims are entries of the tree for different pairs |
| `AirdropDistribution.NeverMoreThanAllotted` | contracts/airdrop/src/lib.rs:353-591 | over every run under a tree's root, what is paid or locked of a token never exceeds what the tree allots of it |
| `AirdropDistribution.FundedClaimsSucceed` | contracts/airdrop/src/lib.rs:102-190 | a contract funded with what the tree allots honours every unclaimed entry after every run, with the tree's proof, exactly unless the split overflows or the token refuses |
| `AirdropFunded.BatchEntriesMatch` | benches/benches/merkle_ops.rs:72-105 | the leaves that the generator emits for a selection are those of the selected entries in its order |
| `AirdropFunded.BatchSettlesExactly` | contracts/airdrop/src/lib.rs:538-541 | a validated batch settles exactly when every entry's split fits and no token refuses |
| `AirdropFunded.FundedBatchSucceeds` | contracts/airdrop/src/lib.rs:489-545 | a contract funded with what the tree allots honours, after every run, every batch of unclaimed entries for different pairs bundled by the generator, exactly unless a split overflows or a token refuses |
| `FixedMath.RoundingsAreExact` | contracts/common/src/math.rs:66-146 | truncation, ceiling and nearest with ties away from zero, for all signs, and exactly when each fails |
| `FixedMath.RoundingOrder` | contracts/common/src/math.rs:66-146 | both are at most the ceiling, and truncation is at most nearest exactly when the quotient is non-negative or rounds toward zero |
| `FixedMath.TruncationAboveNearest` | contracts/common/src/math.rs:394-399 | -2 * 1 / 3 truncates to 0 and rounds to -1 |
| `FixedMath.ScaleRoundTrip` | contracts/common/src/math.rs:155-174 | scaling up and down again is the identity, for every scale and sign |
| `FixedMath.ScaledOperationsAreExact` | contracts/common/src/math.rs:155-208 | the scaled operations give the exact product or the truncated exact quotient, and when they fail |
| `FixedMath.ScalesMustAgree` | contracts/common/src/math.rs:345-372 | values of different scales are never combined, and results are truncated exact values of the common scale |
| `FixedMath.ArithmeticRefusals` | contracts/common/src/math.rs:66-208 | which error each operation reports |
| `FixedMath.MulThenDivLoss` | contracts/common/src/math.rs:345-372 | multiplying and dividing by the same positive value never gains and loses at most `ceil((s - 1) / b)` |
| `FixedMath.BpsFeeWithinAmount` | contracts/common/src/lib.rs:303-305 | up to 10000 basis points of a non-negative amount is between zero and the amount, and 10000 is all of it |
| `FixedMath.BpsFeeIsExact` | contracts/common/src/lib.rs:303-305 | the fee is the exact part rounded down, and exists exactly when the product fits |
| `FixedMath.PriceFormula` | contracts/auction/src/dutch.rs:25-45 | the price before the end is the start price less the rounded-down decay, or overflow |
| `FixedMath.PriceExistsExactly` | contracts/auction/src/dutch.rs:25-45 | an accepted schedule has a price at every ledger exactly when the spread times one less than the duration fits |
| `FixedMath.AcceptedScheduleCanOverflow` | contracts/auction/src/dutch.rs:22-24 | an accepted schedule whose price overflows |
| `FixedMath.PriceFalls` | contracts/auction/src/dutch.rs:25-45 | the price never rises, stays between floor and start price, and is less than one unit above the exact line and never below |
| `FixedMath.PriceNeverBelowFloor` | contracts/auction/src/dutch.rs:25-45 | for every configuration, also a refused one, the price is never below the floor |
| `Sqrt.SqrtSearch` | contracts/common/src/math.rs:220-242 | binary search returns the floor square root of every non-negative `i128` without overflow |
| `Sqrt.SqrtNewton` | contracts/common/src/math.rs:262-291 | returns the floor square root of `val * scale`, and an error exactly for bad arguments and for an overflowing product |
| `Sqrt.NewtonRoot` | contracts/common/src/math.rs:272-291 | the iteration from the power-of-two start terminates at the floor square root, within `i128` |
| `Sqrt.InitialGuess` | contracts/common/src/math.rs:272-276 | the start lies above the root and at most `2^64` |
| `Sqrt.NewtonStep` | contracts/common/src/math.rs:281-288 | a step never passes below the root, and when it does not descend the estimate is the root |
| `Sqrt.SqrtUnique` | contracts/common/src/math.rs:220-291 | there is only one floor square root, so the two functions agree on the same radicand |
| `Sqrt.RootOfOneBillion` | contracts/common/src/math.rs:519 | the only floor square root of one billion is 31622, not 0 |
| `Paging.Paginate` | contracts/common/src/lib.rs:580-623 | the loop returns the page of the items found and the first cursor not visited |
| `Paging.PageSize` | contracts/common/src/lib.rs:580-623 | a page holds at most the clamped limit, and exactly that many when there is a next cursor |
| `Paging.PageHoldsExactly` | contracts/common/src/lib.rs:580-623 | a page holds as many items as there are, up to the cap, and they are the first ones |
| `Paging.PageForLimit` | contracts/common/src/lib.rs:598 | the cap is the limit asked for, but at least one and at most the page size |
| `Paging.NextPageContinues` | contracts/common/src/lib.rs:580-623 | the next cursor is the head of the rest of the chain: nothing is skipped or visited twice |
| `Paging.PagesAreTheScan` | contracts/common/src/lib.rs:580-623 | following the cursors to the end, the pages concatenate to the filtered scan in order, and all but the last are full |
| `RateLimit.Limiter.CheckAndRecord` | contracts/common/src/lib.rs:453-494 | the decision and the stored window, for every ledger and stored entry |
| `RateLimit.CallKeeps` | contracts/common/src/lib.rs:453-494 | one call keeps the limits on all windows |
| `RateLimit.CallsAreLimited` | contracts/common/src/lib.rs:453-494 | over every run at most `max_calls` are allowed in the stored window and at most `2 * max_calls - 1` in any `window` consecutive ledgers |
| `RateLimit.RefusedExactlyWhenFull` | contracts/common/src/lib.rs:453-494 | a call is refused exactly when none is allowed or the running window already holds `max_calls` allowed calls |
| `RateLimit.WindowsAreApart` | contracts/common/src/lib.rs:470-481 | a stored window is kept, or is over when the next one starts |
| `RateLimit.EveryWindowIsLimited` | contracts/common/src/lib.rs:453-494 | every window anchored during a run holds at most `max_calls` of all the calls that the run allows |
| `RateLimit.BoundIsReached` | contracts/common/src/lib.rs:453-494 | a run that reaches the second bound |
| `RateLimit.EmptyWindowIsUnlimited` | contracts/common/src/lib.rs:453-494 | with a window of zero ledgers every call is allowed |
| `RateLimit.LastLedgerIsUnlimited` | contracts/common/src/lib.rs:470-476 | at ledger `u32::MAX` the window end saturates and every call is allowed |

## Left out

- SHA-256, ed25519 and XDR encoding: host functions; the hash and the leaf encoding are arbitrary functions.
- Storage lifetimes and events: they change no balance, flag or error that the theorems speak of.
- Authorisation: callers are assumed to be authorised for themselves, and it enters only in that the contracts, which never call themselves, cannot act as bidder, seller or claimant.
- `cancel_auctions_batch`, `start_dutch` and `buy`: of the Dutch auction only the price is modelled.
- Airdrop rounds, `claim_for`, `claim_batch_lenient` and `sweep_unclaimed`: they belong to another design interleaved in the same file.
- Ballot, bonding curve, DAO, crowdfund, escrow, swap, marketplace, oracle and lottery contracts: not modelled.
- Pausing, ownership, safe casts, time helpers and the reentrancy guard: single flags and conversions that hold no funds and keep no history.
- Airdrop.AirdropContract.DoClaimBatch: checks the token totals in the order of the entries, where the source iterates a sorted map; by `ShortfallIsInsufficientBalance` the reported error is the same in every reachable state.
- StakingSafety.PoolIsAlwaysSolvent: runs in which no deposit saturates the reward balance; `RewardCoversExactly` says exactly which saturating deposits keep it solvent. The accumulator is unbounded in the model, and `AccumulatorFits` says how long a run must be before the `u128` of the source could overflow.
- StakingSafety.ChecksHold: runs in which no stake saturates the stake balance and no deposit the reward balance; `StakeConservesExactly` says which saturating stakes are still exact.
- StakingShare.RewardsFollowExactShares: the bound from below needs a reward balance that does not saturate; the bound from above, in `ClaimsNeverExceedExactShare`, needs nothing.
- Staking.StakingModel.DoReward: requires that the sum of the stakes fits `u64`, as does `DoSlash`, since `total_staked` panics otherwise.
- AuctionSafety.ContractHoldsWhatItOwes: bids between a buy-it-now sale and the deadline are excluded, because without an NFT the code breaks conservation there, and nobody, nor a royalty, pays tokens to the contract except through its entry points.
- AuctionSafety.CreditIsBidThenWithdraw: bids after a buy-it-now sale are excluded for the same reason.
- AirdropDistribution.NeverMoreThanAllotted: assumes, like `FundedClaimsSucceed` and `FundedBatchSucceeds`, of the hash and the leaf encoding what `MultiProofSound` assumes, for the proofs presented in the run, and that no presented entry has the leaf of another allotted one.
- MerkleTree.GeneratedMultiProofAccepted: trees of at most `u32::MAX` leaves, as for `FundedBatchSucceeds`, since the verifier counts in `u32`.
- RateLimit.CallsAreLimited: windows of at least one ledger and ledgers below `u32::MAX`; the two excluded cases are unlimited, as shown.
- Paging.Paginate: the cursors that `advance` yields form a finite chain, without which the loop does not end, and the page size is at least one, without which `clamp` panics.
- MerkleTree.Tree.Build: leaf values are given instead of being hashed from a counter.
- Sqrt.SqrtNewton: the bit length is computed by halving instead of a leading-zeros instruction.
