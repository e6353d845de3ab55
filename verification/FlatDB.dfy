/**
 * The badger database as it is: one map from string keys to values. `Tables` reads it as the typed tables of the store;
 * each kind of write on the flat map is the expected write on one table.
 */
module FlatDB {
  import opened Wrappers
  import opened StoreTypes
  import opened KeySpace
  import B = BadgerSpec

  /** A decoded value; encoding and decoding are taken to be inverse. */
  datatype Value =
    | VNonce(saved: B.SavedNonce)
    | VAccount(account: Account)
    | VBalance(balance: Balance)
    | VNode(node: Node)
    | VPeers(peers: map<NodeID, Time>)
    | VVersion(version: int)

  type Flat = map<string, Value>

  type Cells = map<Cell, Value>

  // Each table of the store is held, row by row, by the cells of that table.

  ghost predicate HoldsNonces(cells: Cells, t: map<string, B.SavedNonce>) {
    forall id :: (Row(Nonce, id) in cells <==> id in t) && (id in t ==> cells[Row(Nonce, id)] == VNonce(t[id]))
  }

  ghost predicate HoldsAccounts(cells: Cells, t: map<NodeID, Account>) {
    forall id ::
      (Row(AccountOf, id) in cells <==> id in t) && (id in t ==> cells[Row(AccountOf, id)] == VAccount(t[id]))
  }

  ghost predicate HoldsTrials(cells: Cells, t: map<NodeID, Balance>) {
    forall id :: (Row(Trial, id) in cells <==> id in t) && (id in t ==> cells[Row(Trial, id)] == VBalance(t[id]))
  }

  ghost predicate HoldsBalances(cells: Cells, t: map<Account, Balance>) {
    forall a :: (Row(BalanceOf, a) in cells <==> a in t) && (a in t ==> cells[Row(BalanceOf, a)] == VBalance(t[a]))
  }

  ghost predicate HoldsNodes(cells: Cells, t: map<NodeID, Node>) {
    forall id :: (Row(NodeRecord, id) in cells <==> id in t) && (id in t ==> cells[Row(NodeRecord, id)] == VNode(t[id]))
  }

  ghost predicate HoldsPeers(cells: Cells, t: map<NodeID, map<NodeID, Time>>) {
    forall id :: (Row(PeersOf, id) in cells <==> id in t) && (id in t ==> cells[Row(PeersOf, id)] == VPeers(t[id]))
  }

  /** The cells hold exactly the tables of `db`. */
  ghost predicate Holds(cells: Cells, db: B.DB) {
    && HoldsNonces(cells, db.nonces)
    && HoldsAccounts(cells, db.accounts)
    && HoldsTrials(cells, db.trials)
    && HoldsBalances(cells, db.balances)
    && HoldsNodes(cells, db.nodes)
    && HoldsPeers(cells, db.peers)
    && (Version in cells <==> db.version.Some?)
    && (Version in cells ==> cells[Version] == VVersion(db.version.value))
  }

  // A write to a row is a write to its table.

  lemma PutNonce(cells: Cells, db: B.DB, id: string, v: B.SavedNonce)
    requires Holds(cells, db)
    ensures Holds(cells[Row(Nonce, id) := VNonce(v)], db.(nonces := db.nonces[id := v]))
  {
  }

  lemma PutAccount(cells: Cells, db: B.DB, id: NodeID, v: Account)
    requires Holds(cells, db)
    ensures Holds(cells[Row(AccountOf, id) := VAccount(v)], db.(accounts := db.accounts[id := v]))
  {
  }

  lemma PutTrial(cells: Cells, db: B.DB, id: NodeID, v: Balance)
    requires Holds(cells, db)
    ensures Holds(cells[Row(Trial, id) := VBalance(v)], db.(trials := db.trials[id := v]))
  {
  }

  lemma PutBalance(cells: Cells, db: B.DB, a: Account, v: Balance)
    requires Holds(cells, db)
    ensures Holds(cells[Row(BalanceOf, a) := VBalance(v)], db.(balances := db.balances[a := v]))
  {
  }

  lemma PutNode(cells: Cells, db: B.DB, id: NodeID, v: Node)
    requires Holds(cells, db)
    ensures Holds(cells[Row(NodeRecord, id) := VNode(v)], db.(nodes := db.nodes[id := v]))
  {
  }

  lemma PutPeers(cells: Cells, db: B.DB, id: NodeID, v: map<NodeID, Time>)
    requires Holds(cells, db)
    ensures Holds(cells[Row(PeersOf, id) := VPeers(v)], db.(peers := db.peers[id := v]))
  {
  }

  lemma DropTrial(cells: Cells, db: B.DB, id: NodeID)
    requires Holds(cells, db)
    ensures Holds(cells - {Row(Trial, id)}, db.(trials := db.trials - {id}))
  {
  }

  // A scan of a table reads it completely.

  /** `rows` are the rows of table `t`. */
  ghost predicate RowsOf(cells: Cells, t: Table, rows: map<string, Value>) {
    && (forall id :: id in rows <==> Row(t, id) in cells)
    && (forall id :: id in rows ==> rows[id] == cells[Row(t, id)])
  }

  lemma NodesFromRows(cells: Cells, t: map<NodeID, Node>, rows: map<string, Value>)
    requires HoldsNodes(cells, t) && RowsOf(cells, NodeRecord, rows)
    ensures forall id :: id in rows ==> rows[id].VNode?
    ensures (map id | id in rows && rows[id].VNode? :: rows[id].node) == t
  {
  }

  lemma BalancesFromRows(cells: Cells, t: map<Account, Balance>, rows: map<string, Value>)
    requires HoldsBalances(cells, t) && RowsOf(cells, BalanceOf, rows)
    ensures (map id | id in rows && rows[id].VBalance? :: rows[id].balance) == t
  {
  }

  lemma TrialsFromRows(cells: Cells, t: map<NodeID, Balance>, rows: map<string, Value>)
    requires HoldsTrials(cells, t) && RowsOf(cells, Trial, rows)
    ensures (map id | id in rows && rows[id].VBalance? :: rows[id].balance) == t
  {
  }

  lemma AccountsFromRows(cells: Cells, t: map<NodeID, Account>, rows: map<string, Value>, a: Account)
    requires HoldsAccounts(cells, t) && RowsOf(cells, AccountOf, rows)
    ensures (set id | id in rows && rows[id].VAccount? && rows[id].account == a) == set id | id in t && t[id] == a
  {
  }
}
