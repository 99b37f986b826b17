/**
  The token contract that holds the balances: a ledger of addresses, with all-or-nothing transfers. The token may
  refuse an address, as a frozen account, for as long as its issuer wants: it then neither pays nor receives.
 */
module TokenLedger {
  import opened Wrappers
  import opened Sums

  datatype Address = Address(id: nat)

  type Wallets = map<Address, int>

  predicate Allowed(refused: set<Address>, from: Address, to: Address) {
    from !in refused && to !in refused
  }

  /** `transfer`: `None` when the token contract rejects it, which reverts the calling invocation. */
  function Transfer(refused: set<Address>, w: Wallets, from: Address, to: Address, amount: int): Option<Wallets> {
    if amount < 0 || !Allowed(refused, from, to) || Get(w, from) < amount then
      None
    else if from == to then
      Some(w)
    else if Get(w, to) + amount > I128_MAX then
      None
    else
      Some(w[from := Get(w, from) - amount][to := Get(w, to) + amount])
  }

  /** No balance is negative and the whole supply fits the balance type. */
  ghost predicate Sound(w: Wallets) {
    AllNonNegative(w) && Total(w) <= I128_MAX
  }

  lemma TwoAtMostTotal(w: Wallets, a: Address, b: Address)
    requires AllNonNegative(w) && a != b
    ensures Get(w, a) + Get(w, b) <= Total(w)
  {
    TotalRemove(w, a);
    GetAtMostTotal(w - {a}, b);
  }

  /** `w` is `v` with `amount` moved from one address to another. */
  ghost predicate Moved(w: Wallets, v: Wallets, from: Address, to: Address, amount: int) {
    forall a {:trigger Get(v, a)} :: Get(v, a) == Get(w, a) - When(a == from, amount) + When(a == to, amount)
  }

  /** In a sound ledger a transfer succeeds exactly when neither side is refused and the sender can pay; it moves the
      amount, conserves the supply, and touches nobody else. */
  lemma TransferMoves(refused: set<Address>, w: Wallets, from: Address, to: Address, amount: int)
    requires Sound(w)
    ensures Transfer(refused, w, from, to, amount).Some? <==> 0 <= amount <= Get(w, from) && Allowed(refused, from, to)
    ensures Transfer(refused, w, from, to, amount).Some? ==>
              var v := Transfer(refused, w, from, to, amount).value;
              && Sound(v) && Total(v) == Total(w)
              && Moved(w, v, from, to, amount)
              && v.Keys == w.Keys + (if from == to then {} else {from, to})
  {
    if from != to && 0 <= amount <= Get(w, from) {
      TwoAtMostTotal(w, from, to);
      var u := w[from := Get(w, from) - amount];
      TotalUpdate(w, from, Get(w, from) - amount);
      TotalUpdate(u, to, Get(w, to) + amount);
    }
  }

  /** A transfer that is skipped when there is nothing to move. */
  function TransferIfPositive(refused: set<Address>, w: Wallets, from: Address, to: Address, amount: int)
    : Option<Wallets>
  {
    if amount > 0 then Transfer(refused, w, from, to, amount) else Some(w)
  }

  lemma TransferIfPositiveMoves(refused: set<Address>, w: Wallets, from: Address, to: Address, amount: nat)
    requires Sound(w)
    ensures TransferIfPositive(refused, w, from, to, amount).Some?
            <==> amount <= Get(w, from) && (amount > 0 ==> Allowed(refused, from, to))
    ensures TransferIfPositive(refused, w, from, to, amount).Some? ==>
              var v := TransferIfPositive(refused, w, from, to, amount).value;
              && Sound(v) && Total(v) == Total(w)
              && Moved(w, v, from, to, amount)
              && v.Keys == w.Keys + (if from == to || amount == 0 then {} else {from, to})
  {
    GetAtMostTotal(w, from);
    TransferMoves(refused, w, from, to, amount);
  }

  class Token {
    var balances: Wallets
    var refused: set<Address>

    method TransferFrom(from: Address, to: Address, amount: int) returns (ok: bool)
      modifies this`balances
      ensures ok <==> Transfer(refused, old(balances), from, to, amount).Some?
      ensures balances == if ok then Transfer(refused, old(balances), from, to, amount).value else old(balances)
    {
      if amount < 0 || from in refused || to in refused || Get(balances, from) < amount {
        return false;
      }
      if from != to {
        if Get(balances, to) + amount > I128_MAX {
          return false;
        }
        balances := balances[from := Get(balances, from) - amount];
        balances := balances[to := Get(balances, to) + amount];
      }
      return true;
    }
  }
}
