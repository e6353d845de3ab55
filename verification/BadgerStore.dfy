/**
 * The badger store: every method is one transaction on the flat database. `cells` and `db` are what the flat map stands
 * for, as cells and as tables; the methods only keep them up to date.
 */
module BadgerStore {
  import opened Wrappers
  import opened StoreTypes
  import opened KeySpace
  import opened FlatDB
  import B = BadgerSpec
  import M = MemorySpec
  import PeerStamps
  import StatsCounter
  import Choices

  /** Every record is stored under its own ID. */
  ghost predicate Keyed(records: map<NodeID, Node>) {
    forall id :: id in records ==> records[id].id == id
  }

  /** `peers` are the records of exactly the nodes of `ids` that have one, each once. */
  ghost predicate RecordsListed(peers: seq<Node>, nodes: map<NodeID, Node>, ids: set<NodeID>) {
    && (forall p :: p in ids && p in nodes ==> nodes[p] in peers)
    && (forall i :: 0 <= i < |peers| ==> var p := peers[i].id; p in ids && p in nodes && nodes[p] == peers[i])
    && (forall i, j :: 0 <= i < j < |peers| ==> peers[i].id != peers[j].id)
  }

  /** The records of those IDs that have one, in order. */
  function RecordsFor(ids: seq<NodeID>, nodes: map<NodeID, Node>): seq<Node> {
    if ids == [] then [] else
      var last := ids[|ids| - 1];
      RecordsFor(ids[..|ids| - 1], nodes) + if last in nodes then [nodes[last]] else []
  }

  lemma RecordsForNext(ids: seq<NodeID>, nodes: map<NodeID, Node>, i: nat)
    requires i < |ids|
    ensures RecordsFor(ids[..i + 1], nodes)
         == if ids[i] in nodes then RecordsFor(ids[..i], nodes) + [nodes[ids[i]]] else RecordsFor(ids[..i], nodes)
  {
    assert ids[..i + 1][..i] == ids[..i];
  }

  lemma {:induction false} RecordsForLists(ids: seq<NodeID>, nodes: map<NodeID, Node>, known: set<NodeID>)
    requires Keyed(nodes) && (forall p :: p in ids <==> p in known)
    requires forall i, j :: 0 <= i < j < |ids| ==> ids[i] != ids[j]
    ensures RecordsListed(RecordsFor(ids, nodes), nodes, known)
    decreases |ids|
  {
    if ids != [] {
      var front, last := ids[..|ids| - 1], ids[|ids| - 1];
      RecordsForLists(front, nodes, known - {last});
    }
  }

  /** The order in which a map with these keys is visited. */
  method InSomeOrder(known: set<NodeID>) returns (ids: seq<NodeID>)
    ensures forall p :: p in ids <==> p in known
    ensures forall i, j :: 0 <= i < j < |ids| ==> ids[i] != ids[j]
  {
    ids := [];
    var rest := known;
    while rest != {}
      invariant rest <= known
      invariant forall p :: p in ids <==> p in known && p !in rest
      invariant forall i, j :: 0 <= i < j < |ids| ==> ids[i] != ids[j]
      decreases |rest|
    {
      var p :| p in rest;
      ids, rest := ids + [p], rest - {p};
    }
  }

  class Store {
    var flat: Flat
    ghost var cells: Cells
    ghost var db: B.DB

    ghost predicate Backed()
      reads this`flat, this`cells
    {
      Backs(flat, cells)
    }

    ghost predicate Valid()
      reads this
    {
      Backed() && Holds(cells, db) && Keyed(db.nodes)
    }

    constructor ()
      ensures Valid() && db == B.EMPTY
    {
      flat, cells, db := map[], map[], B.EMPTY;
    }

    // Access to single cells by key.

    method GetItem(c: Cell) returns (v: Option<Value>)
      requires Backed()
      ensures v == if c in cells then Some(cells[c]) else None
    {
      var key := Key(c);
      v := if key in flat then Some(flat[key]) else None;
    }

    method SetItem(c: Cell, v: Value)
      requires Backed()
      modifies this`flat, this`cells
      ensures Backed() && cells == old(cells)[c := v]
    {
      PutBacked(flat, cells, c, v);
      flat, cells := flat[Key(c) := v], cells[c := v];
    }

    method DeleteItem(c: Cell)
      requires Backed()
      modifies this`flat, this`cells
      ensures Backed() && cells == old(cells) - {c}
    {
      DropBacked(flat, cells, {c});
      assert KeysOf({c}) == {Key(c)};
      flat, cells := flat - {Key(c)}, cells - {c};
    }

    /** The rows of a table, by a scan over its prefix. */
    method ScanTable(t: Table) returns (rows: map<string, Value>)
      requires Backed()
      ensures RowsOf(cells, t, rows)
    {
      rows := Collect(flat, t);
    }

    method CheckAndSaveNonce(id: string, nonce: int, now: Time) returns (r: Result<(), StoreError>)
      requires Valid()
      modifies this
      ensures Valid() && (db, r) == B.CheckAndSaveNonce(old(db), id, nonce, now)
    {
      if nonce <= now - EXPIRE_NONCE {
        return Err(InvalidNonce);
      }
      var last := GetItem(Row(Nonce, id));
      if last.Some? && last.value.saved.nonce >= nonce {
        return Err(InvalidNonce);
      }
      PutNonce(cells, db, id, B.SavedNonce(nonce, now));
      SetItem(Row(Nonce, id), VNonce(B.SavedNonce(nonce, now)));
      db := B.CheckAndSaveNonce(db, id, nonce, now).0;
      return Ok(());
    }

    /** Where the node's credit is kept, and what is there. */
    method FindBalance(id: NodeID) returns (cell: Cell, balance: Option<Balance>)
      requires Valid()
      ensures cell == if id in db.accounts then Row(BalanceOf, db.accounts[id]) else Row(Trial, id)
      ensures balance == B.NodeBalance(db, id)
    {
      cell := Row(Trial, id);
      var account := GetItem(Row(AccountOf, id));
      if account.Some? {
        cell := Row(BalanceOf, account.value.account);
      }
      var item := GetItem(cell);
      balance := if item.Some? then Some(item.value.balance) else None;
    }

    method GetNodeBalance(id: NodeID) returns (r: Result<Balance, StoreError>)
      requires Valid()
      ensures r == B.GetNodeBalance(db, id)
    {
      var cell, balance := FindBalance(id);
      if balance.Some? {
        return Ok(balance.value);
      }
      var node := GetItem(Row(NodeRecord, id));
      return if node.Some? then Ok(NO_BALANCE) else Err(UnregisteredNode);
    }

    method AddNodeBalance(id: NodeID, amount: int) returns (r: Result<(), StoreError>)
      requires Valid()
      modifies this
      ensures Valid() && (db, r) == B.AddNodeBalance(old(db), id, amount)
    {
      var cell, balance := FindBalance(id);
      if balance.None? {
        var node := GetItem(Row(NodeRecord, id));
        if node.None? {
          return Err(UnregisteredNode);
        }
      }
      var b := AddCredit(balance.GetOr(NO_BALANCE), amount);
      if cell.table == Trial {
        PutTrial(cells, db, id, b);
      } else {
        PutBalance(cells, db, cell.id, b);
      }
      SetItem(cell, VBalance(b));
      db := B.AddNodeBalance(db, id, amount).0;
      return Ok(());
    }

    method GetAccountBalance(account: Account) returns (r: Balance)
      requires Valid()
      ensures r == BalanceAt(db.balances, account)
    {
      var item := GetItem(Row(BalanceOf, account));
      r := if item.Some? then item.value.balance else NO_BALANCE;
    }

    method AddAccountBalance(account: Account, amount: int)
      requires Valid()
      modifies this
      ensures Valid() && db == B.AddAccountBalance(old(db), account, amount)
    {
      var balance := GetAccountBalance(account);
      balance := AddCredit(balance, amount).(account := account);
      PutBalance(cells, db, account, balance);
      SetItem(Row(BalanceOf, account), VBalance(balance));
      db := db.(balances := db.balances[account := balance]);
    }

    method AddAccountNode(account: Account, id: NodeID) returns (r: Result<(), StoreError>)
      requires Valid()
      modifies this
      ensures Valid() && (db, r) == B.AddAccountNode(old(db), account, id)
    {
      var node := GetItem(Row(NodeRecord, id));
      if node.None? {
        return Err(UnregisteredNode);
      }
      var trial := GetItem(Row(Trial, id));
      var balance := GetAccountBalance(account);
      var credit := if trial.Some? then trial.value.balance.credit else 0;
      var merged := AddCredit(balance, credit).(account := account);
      PutAccount(cells, db, id, account);
      SetItem(Row(AccountOf, id), VAccount(account));
      db := db.(accounts := db.accounts[id := account]);
      PutBalance(cells, db, account, merged);
      SetItem(Row(BalanceOf, account), VBalance(merged));
      db := db.(balances := db.balances[account := merged]);
      DropTrial(cells, db, id);
      DeleteItem(Row(Trial, id));
      db := db.(trials := db.trials - {id});
      return Ok(());
    }

    method IsAccountNode(account: Account, id: NodeID) returns (r: Result<(), StoreError>)
      requires Valid()
      ensures r == B.IsAccountNode(db, account, id)
    {
      var item := GetItem(Row(AccountOf, id));
      if item.None? || item.value.account != account {
        return Err(NotAuthorized);
      }
      return Ok(());
    }

    /** Scans all bindings and keeps the ones to this account. */
    method GetAccountNodes(account: Account) returns (r: set<NodeID>)
      requires Valid()
      ensures r == B.GetAccountNodes(db, account)
    {
      var rows := ScanTable(AccountOf);
      AccountsFromRows(cells, db.accounts, rows, account);
      r := set id | id in rows && rows[id].VAccount? && rows[id].account == account;
    }

    method GetNode(id: NodeID) returns (r: Result<Node, StoreError>)
      requires Valid()
      ensures r == B.GetNode(db, id)
    {
      var item := GetItem(Row(NodeRecord, id));
      return if item.Some? then Ok(item.value.node) else Err(UnregisteredNode);
    }

    method SetNode(n: Node) returns (r: Result<(), StoreError>)
      requires Valid()
      modifies this
      ensures Valid() && (db, r) == B.SetNode(old(db), n)
    {
      if n.id == "" {
        return Err(MalformedNode);
      }
      PutNode(cells, db, n.id, n);
      SetItem(Row(NodeRecord, n.id), VNode(n));
      db := db.(nodes := db.nodes[n.id := n]);
      return Ok(());
    }

    method UpdateNodePeers(id: NodeID, listed: seq<NodeID>, block: nat, now: Time)
      returns (r: Result<(), StoreError>, inactive: seq<NodeID>)
      requires Valid()
      modifies this
      ensures Valid()
      ensures var spec := B.UpdateNodePeers(old(db), id, listed, block, now);
              && db == spec.0
              && (if spec.1.Err? then r == Err(spec.1.error) && inactive == []
                  else r == Ok(()) && (set p | p in inactive) == spec.1.value && |inactive| == |spec.1.value|)
    {
      var item := GetItem(Row(NodeRecord, id));
      if item.None? {
        return Err(UnregisteredNode), [];
      }
      var seen := item.value.node.(lastSeen := now, blockNumber := block);
      ghost var before := db;
      PutNode(cells, db, id, seen);
      SetItem(Row(NodeRecord, id), VNode(seen));
      db := db.(nodes := db.nodes[id := seen]);
      var recorded := GetItem(Row(PeersOf, id));
      var peers := if recorded.Some? then recorded.value.peers else map[];
      var stamps := StampListed(peers, listed);
      StampsAreReported(before, id, listed, block, now);
      var kept;
      kept, inactive := PeerStamps.DropStale(stamps, now);
      PutPeers(cells, db, id, kept);
      SetItem(Row(PeersOf, id), VPeers(kept));
      db := db.(peers := db.peers[id := kept]);
      r := Ok(());
    }

    /** Overwrites the recorded stamps by the LastSeen of every listed node that is registered, looked up one by one. */
    method StampListed(recorded: map<NodeID, Time>, listed: seq<NodeID>) returns (stamps: map<NodeID, Time>)
      requires Valid()
      ensures stamps == PeerStamps.Stamped(recorded, listed, db.nodes)
    {
      stamps := recorded;
      ghost var nodes := db.nodes;
      PeerStamps.StampNone(recorded, nodes);
      for i := 0 to |listed|
        invariant stamps == PeerStamps.Stamped(recorded, listed[..i], nodes)
      {
        PeerStamps.StampOne(recorded, listed, nodes, i);
        var node := GetNode(listed[i]);
        if node.Ok? {
          stamps := stamps[listed[i] := node.value.lastSeen];
        }
      }
      assert listed[..|listed|] == listed;
    }

    /** All node records, by a scan of their table. */
    method NodeRecords() returns (records: map<NodeID, Node>)
      requires Valid()
      ensures records == db.nodes
    {
      var rows := ScanTable(NodeRecord);
      NodesFromRows(cells, db.nodes, rows);
      records := map id | id in rows && rows[id].VNode? :: rows[id].node;
    }

    /** The recorded peers that are registered, each once. A node without a record may still have recorded peers. */
    method NodePeers(id: NodeID) returns (r: Result<seq<Node>, StoreError>)
      requires Valid()
      ensures r.Err? <==> B.NodePeers(db, id).Err?
      ensures r.Err? ==> r.error == UnregisteredNode
      ensures r.Ok? ==> (forall n :: n in r.value <==> n in B.NodePeers(db, id).value)
                        && forall i, j :: 0 <= i < j < |r.value| ==> r.value[i] != r.value[j]
    {
      var recorded := GetItem(Row(PeersOf, id));
      if recorded.None? {
        var node := GetItem(Row(NodeRecord, id));
        return if node.Some? then Ok([]) else Err(UnregisteredNode);
      }
      var peers := RecordsOf(recorded.value.peers.Keys);
      return Ok(peers);
    }

    /** The records of the nodes that have one, in the order in which the map of peers is visited. */
    method RecordsOf(known: set<NodeID>) returns (peers: seq<Node>)
      requires Valid()
      ensures RecordsListed(peers, db.nodes, known)
    {
      var ids := InSomeOrder(known);
      peers := LookUp(ids);
      RecordsForLists(ids, db.nodes, known);
    }

    /** Looks the nodes up one by one and skips the ones that have no record. */
    method LookUp(ids: seq<NodeID>) returns (peers: seq<Node>)
      requires Valid()
      ensures peers == RecordsFor(ids, db.nodes)
    {
      peers := [];
      ghost var nodes := db.nodes;
      for i := 0 to |ids|
        invariant peers == RecordsFor(ids[..i], nodes)
      {
        RecordsForNext(ids, nodes, i);
        var node := GetNode(ids[i]);
        if node.Ok? {
          peers := peers + [node.value];
        }
      }
      assert ids[..|ids|] == ids;
    }

    /** A shuffled choice of up to `limit` eligible hosts, or all of them if `limit` is zero. */
    method ActiveHosts(kind: string, limit: nat, now: Time) returns (r: seq<Node>)
      requires Valid()
      ensures Choices.Selection(r, db.nodes, B.EligibleHosts(db, kind, now), limit)
      ensures limit > 0 ==> |r| <= limit
      ensures forall n :: n in r ==>
                && n.isHost && (kind == "" || n.kind == kind) && n.lastSeen > now - EXPIRE_INTERVAL
                && n.id in db.nodes && db.nodes[n.id] == n
      ensures limit == 0 || |r| < limit ==>
                forall id :: id in db.nodes ==>
                  var n := db.nodes[id];
                  n.isHost && (kind == "" || n.kind == kind) && n.lastSeen > now - EXPIRE_INTERVAL ==> n in r
    {
      var records := NodeRecords();
      assert Choices.EligibleIDs(records, kind, now) == B.EligibleHosts(db, kind, now);
      r := Choices.PickShuffled(records, kind, limit, now);
      Choices.WhoIsChosen(r, records, kind, limit, now);
    }

    /** Loops over the nodes, the balances and the trials by prefix. */
    method GetStats(now: Time) returns (s: Stats)
      requires Valid()
      ensures s == M.StatsOf(db.nodes, db.balances, db.trials, now)
    {
      var records := NodeRecords();
      var rows := ScanTable(BalanceOf);
      BalancesFromRows(cells, db.balances, rows);
      var balances := map a | a in rows && rows[a].VBalance? :: rows[a].balance;
      rows := ScanTable(Trial);
      TrialsFromRows(cells, db.trials, rows);
      var trials := map id | id in rows && rows[id].VBalance? :: rows[id].balance;
      s := StatsCounter.Aggregate(records, balances, trials, now);
    }
  }

  /** The node's own record is written first, so the listing sees its new LastSeen. */
  lemma StampsAreReported(db: B.DB, id: NodeID, listed: seq<NodeID>, block: nat, now: Time)
    requires id in db.nodes
    ensures var nodes := db.nodes[id := db.nodes[id].(lastSeen := now, blockNumber := block)];
            PeerStamps.Stamped(B.RecordedPeers(db, id), listed, nodes) == B.Reported(db, id, listed, now)
  {
  }
}
