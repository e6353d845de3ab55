/** The pay-per-interval manager at work on a store. */
module PayPerInterval {
  import opened Wrappers
  import opened StoreTypes
  import opened Billing
  import M = MemorySpec
  import MemoryStore

  class Manager {
    const store: MemoryStore.Store
    const terms: Terms

    constructor (store: MemoryStore.Store, terms: Terms)
      ensures this.store == store && this.terms == terms
    {
      this.store, this.terms := store, terms;
    }

    method OnClient(node: Node) returns (r: Result<(), BillingError>)
      ensures r == Billing.OnClient(store.State(), terms, node)
    {
      if terms.minBalance.None? {
        return Ok(());
      }
      var balance := store.GetNodeBalance(node.id);
      if balance.Err? {
        return Err(StoreFailure(balance.error));
      }
      var total := balance.value.credit + balance.value.deposit;
      if terms.minBalance.value > total {
        return Err(LowBalance(total, terms.minBalance.value));
      }
      return Ok(());
    }

    /** Credits the peers one by one, ignoring refusals, and adds up what they are owed. */
    method PayPeers(peers: seq<Node>, credit: int) returns (total: int)
      requires M.Valid(store.State())
      modifies store
      ensures store.State() == PayAll(old(store.State()), peers, credit) && M.Valid(store.State())
      ensures total == |peers| * credit
    {
      total := 0;
      for i := 0 to |peers|
        invariant M.Valid(store.State())
        invariant store.State() == PayAll(old(store.State()), peers[..i], credit)
        invariant total == i * credit
      {
        assert peers[..i + 1][..i] == peers[..i];
        var _ := store.AddNodeBalance(peers[i].id, credit);
        total := total + credit;
      }
      assert peers[..|peers|] == peers;
    }

    method OnUpdate(node: Node, peers: seq<Node>, now: Time) returns (r: Result<Balance, BillingError>)
      requires M.Valid(store.State())
      modifies store
      ensures (store.State(), r) == Billing.OnUpdate(old(store.State()), terms, node, peers, now)
      ensures M.Valid(store.State())
    {
      if node.isHost {
        var balance := store.GetNodeBalance(node.id);
        return AsBilling(balance);
      }
      if terms.interval <= 0 || terms.creditPerInterval == 0 {
        return Err(InvalidSettings);
      }
      var credit := IntervalCredit(terms, node.lastSeen, now);
      if credit == 0 {
        var balance := store.GetNodeBalance(node.id);
        return AsBilling(balance);
      }
      var total := PayPeers(peers, credit);
      if terms.minBalance.Some? && terms.minBalance.value > total {
        return Err(LowBalance(total, terms.minBalance.value));
      }
      var debit := store.AddNodeBalance(node.id, -total);
      if debit.Err? {
        return Err(StoreFailure(debit.error));
      }
      var balance := store.GetNodeBalance(node.id);
      return AsBilling(balance);
    }
  }
}
