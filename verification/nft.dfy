/**
  The NFT contracts: who owns which item. Like a token, they may refuse an address; a refused transfer, or one by
  somebody who does not own the item, traps.
 */
module NftLedger {
  import opened Wrappers
  import opened TokenLedger

  /** An NFT contract and a token id. */
  type Item = (Address, u32)

  type Owners = map<Item, Address>

  function MoveItem(refused: set<Address>, owners: Owners, item: Item, from: Address, to: Address): Option<Owners> {
    if item in owners && owners[item] == from && Allowed(refused, from, to) then Some(owners[item := to]) else None
  }

  class Nfts {
    var owners: Owners
    var refused: set<Address>

    method TransferItem(item: Item, from: Address, to: Address) returns (ok: bool)
      modifies this`owners
      ensures ok <==> MoveItem(refused, old(owners), item, from, to).Some?
      ensures owners == if ok then MoveItem(refused, old(owners), item, from, to).value else old(owners)
    {
      if item !in owners || owners[item] != from || from in refused || to in refused {
        return false;
      }
      owners := owners[item := to];
      return true;
    }
  }
}
