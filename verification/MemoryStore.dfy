/** The in-memory store: five maps, updated in place under one lock, so that every method is atomic. */
module MemoryStore {
  import opened Wrappers
  import opened StoreTypes
  import M = MemorySpec
  import PeerStamps
  import StatsCounter
  import opened Choices

  class Store {
    var balances: map<Account, Balance>
    var nodes: map<NodeID, M.MemNode>
    var accounts: map<NodeID, Account>
    var trials: map<NodeID, Balance>
    var nonces: map<string, int>

    ghost function State(): M.Mem
      reads this
    {
      M.Mem(balances, nodes, accounts, trials, nonces)
    }

    constructor ()
      ensures State() == M.EMPTY && M.Valid(State())
    {
      balances, nodes, accounts, trials, nonces := map[], map[], map[], map[], map[];
    }

    method CheckAndSaveNonce(id: string, nonce: int, now: Time) returns (r: Result<(), StoreError>)
      requires M.Valid(State())
      modifies this
      ensures (State(), r) == M.CheckAndSaveNonce(old(State()), id, nonce, now) && M.Valid(State())
    {
      if nonce <= now - EXPIRE_NONCE {
        return Err(InvalidNonce);
      }
      var last := if id in nonces then nonces[id] else 0;
      if last >= nonce {
        return Err(InvalidNonce);
      }
      nonces := nonces[id := nonce];
      return Ok(());
    }

    method GetNodeBalance(id: NodeID) returns (r: Result<Balance, StoreError>)
      ensures r == M.GetNodeBalance(State(), id)
    {
      if id !in nodes {
        return Err(UnregisteredNode);
      }
      if id !in accounts {
        return Ok(BalanceAt(trials, id));
      }
      return Ok(BalanceAt(balances, accounts[id]));
    }

    method AddNodeBalance(id: NodeID, amount: int) returns (r: Result<(), StoreError>)
      requires M.Valid(State())
      modifies this
      ensures (State(), r) == M.AddNodeBalance(old(State()), id, amount) && M.Valid(State())
    {
      M.AddNodeBalanceKeepsValid(State(), id, amount);
      if id !in nodes {
        return Err(UnregisteredNode);
      }
      if id in accounts {
        var balance := BalanceAt(balances, accounts[id]);
        balances := balances[accounts[id] := AddCredit(balance, amount)];
      } else {
        var balance := BalanceAt(trials, id);
        trials := trials[id := AddCredit(balance, amount)];
      }
      return Ok(());
    }

    method GetAccountBalance(account: Account) returns (r: Balance)
      ensures r == BalanceAt(State().balances, account)
    {
      r := if account in balances then balances[account] else NO_BALANCE;
    }

    method AddAccountBalance(account: Account, amount: int)
      requires M.Valid(State())
      modifies this
      ensures State() == M.AddAccountBalance(old(State()), account, amount) && M.Valid(State())
    {
      var balance := BalanceAt(balances, account);
      balances := balances[account := AddCredit(balance, amount)];
    }

    method AddAccountNode(account: Account, id: NodeID) returns (r: Result<(), StoreError>)
      requires M.Valid(State())
      modifies this
      ensures (State(), r) == M.AddAccountNode(old(State()), account, id) && M.Valid(State())
    {
      M.AddAccountNodeKeepsValid(State(), account, id);
      if id !in nodes {
        return Err(UnregisteredNode);
      }
      var balance := BalanceAt(balances, account);
      accounts := accounts[id := account];
      balance := AddCredit(balance, BalanceAt(trials, id).credit).(account := account);
      trials := trials - {id};
      balances := balances[account := balance];
      return Ok(());
    }

    method IsAccountNode(account: Account, id: NodeID) returns (r: Result<(), StoreError>)
      ensures r == M.IsAccountNode(State(), account, id)
    {
      if id !in accounts || accounts[id] != account {
        return Err(NotAuthorized);
      }
      return Ok(());
    }

    /** The nodes bound to an account, each once, in the order in which the map is visited. */
    method GetAccountNodes(account: Account) returns (r: seq<NodeID>)
      ensures (set id | id in r) == M.GetAccountNodes(State(), account)
      ensures forall i, j :: 0 <= i < j < |r| ==> r[i] != r[j]
    {
      r := [];
      var rest := accounts.Keys;
      while rest != {}
        invariant rest <= accounts.Keys
        invariant forall id :: id in r <==> id in accounts && id !in rest && accounts[id] == account
        invariant forall i, j :: 0 <= i < j < |r| ==> r[i] != r[j]
        decreases |rest|
      {
        var id :| id in rest;
        rest := rest - {id};
        if accounts[id] == account {
          r := r + [id];
        }
      }
    }

    method GetNode(id: NodeID) returns (r: Result<Node, StoreError>)
      ensures r == M.GetNode(State(), id)
    {
      if id !in nodes {
        return Err(UnregisteredNode);
      }
      return Ok(nodes[id].node);
    }

    method SetNode(n: Node) returns (r: Result<(), StoreError>)
      requires M.Valid(State())
      modifies this
      ensures (State(), r) == M.SetNode(old(State()), n) && M.Valid(State())
    {
      M.SetNodeKeepsValid(State(), n);
      if n.id == "" {
        return Err(MalformedNode);
      }
      nodes := nodes[n.id := M.MemNode(n, map[])];
      return Ok(());
    }

    /** The recorded peers that are registered, each once. */
    method NodePeers(id: NodeID) returns (r: Result<seq<Node>, StoreError>)
      requires M.Valid(State())
      ensures r.Err? <==> M.NodePeers(State(), id).Err?
      ensures r.Err? ==> r.error == UnregisteredNode
      ensures r.Ok? ==> (forall n :: n in r.value <==> n in M.NodePeers(State(), id).value)
                        && forall i, j :: 0 <= i < j < |r.value| ==> r.value[i] != r.value[j]
    {
      if id !in nodes {
        return Err(UnregisteredNode);
      }
      var peers: seq<Node> := [];
      var rest := nodes[id].peers.Keys;
      while rest != {}
        invariant rest <= nodes[id].peers.Keys
        invariant forall p :: p in nodes[id].peers && p !in rest && p in nodes ==> nodes[p].node in peers
        invariant forall i :: 0 <= i < |peers| ==>
                    var p := peers[i].id; p in nodes[id].peers && p !in rest && p in nodes && nodes[p].node == peers[i]
        invariant forall i, j :: 0 <= i < j < |peers| ==> peers[i].id != peers[j].id
        decreases |rest|
      {
        var p :| p in rest;
        rest := rest - {p};
        if p in nodes {
          peers := peers + [nodes[p].node];
        }
      }
      return Ok(peers);
    }

    method UpdateNodePeers(id: NodeID, listed: seq<NodeID>, block: nat, now: Time)
      returns (r: Result<(), StoreError>, inactive: seq<NodeID>)
      requires M.Valid(State())
      modifies this
      ensures var spec := M.UpdateNodePeers(old(State()), id, listed, block, now);
              && State() == spec.0 && M.Valid(State())
              && (if spec.1.Err? then r == Err(spec.1.error) && inactive == []
                  else r == Ok(()) && (set p | p in inactive) == spec.1.value && |inactive| == |spec.1.value|)
    {
      M.UpdateNodePeersKeepsValid(State(), id, listed, block, now);
      inactive := [];
      if id !in nodes {
        return Err(UnregisteredNode), [];
      }
      var node := nodes[id];
      var records := map p | p in nodes :: nodes[p].node;
      var stamps := PeerStamps.StampListed(node.peers, listed, records);
      PeerStamps.StampsAreReported(State(), id, listed, records);
      var kept;
      kept, inactive := PeerStamps.DropStale(stamps, now);
      nodes := nodes[id := M.MemNode(node.node.(lastSeen := now, blockNumber := block), kept)];
      r := Ok(());
    }

    /**
     * Up to `limit` eligible hosts, each once, or all of them if `limit` is zero. Which ones is left to the order in
     * which the map is visited.
     */
    method ActiveHosts(kind: string, limit: nat, now: Time) returns (r: seq<Node>)
      requires M.Valid(State())
      ensures Selection(r, M.NodeRecords(State()), M.EligibleHosts(State(), kind, now), limit)
      ensures limit > 0 ==> |r| <= limit
      ensures forall n :: n in r ==>
                && n.isHost && (kind == "" || n.kind == kind) && n.lastSeen > now - EXPIRE_INTERVAL
                && n.id in nodes && nodes[n.id].node == n
      ensures limit == 0 || |r| < limit ==>
                forall id :: id in nodes ==>
                  var n := nodes[id].node;
                  n.isHost && (kind == "" || n.kind == kind) && n.lastSeen > now - EXPIRE_INTERVAL ==> n in r
    {
      var records := map id | id in nodes :: nodes[id].node;
      assert EligibleIDs(records, kind, now) == M.EligibleHosts(State(), kind, now);
      r := PickUpTo(records, kind, limit, now);
      WhoIsChosen(r, records, kind, limit, now);
      assert forall id :: id in nodes ==> id in records && records[id] == nodes[id].node;
    }

    method GetStats(now: Time) returns (s: Stats)
      ensures s == M.StatsOf(M.NodeRecords(State()), balances, trials, now)
    {
      var records := map id | id in nodes :: nodes[id].node;
      s := StatsCounter.Aggregate(records, balances, trials, now);
    }
  }
}
