/** The badger store as a value: its six tables, and each transaction as one atomic change of them. */
module BadgerSpec {
  import opened Wrappers
  import opened StoreTypes
  import MemorySpec

  /** A nonce together with the time at which its time-to-live started. */
  datatype SavedNonce = SavedNonce(nonce: int, savedAt: Time)

  datatype DB = DB(
    nonces: map<string, SavedNonce>,
    accounts: map<NodeID, Account>,
    trials: map<NodeID, Balance>,
    balances: map<Account, Balance>,
    nodes: map<NodeID, Node>,
    peers: map<NodeID, map<NodeID, Time>>,
    version: Option<int>)

  const EMPTY := DB(map[], map[], map[], map[], map[], map[], None)

  function CheckAndSaveNonce(db: DB, id: string, nonce: int, now: Time): (DB, Result<(), StoreError>) {
    if nonce <= now - EXPIRE_NONCE then (db, Err(InvalidNonce))
    else if id in db.nonces && db.nonces[id].nonce >= nonce then (db, Err(InvalidNonce))
    else (db.(nonces := db.nonces[id := SavedNonce(nonce, now)]), Ok(()))
  }

  /** The balance that carries a node's credit, if there is one: its account's, or else its trial. */
  function NodeBalance(db: DB, id: NodeID): Option<Balance> {
    if id in db.accounts then
      (if db.accounts[id] in db.balances then Some(db.balances[db.accounts[id]]) else None)
    else
      (if id in db.trials then Some(db.trials[id]) else None)
  }

  /** Only a missing balance makes the driver look whether the node is registered. */
  function GetNodeBalance(db: DB, id: NodeID): Result<Balance, StoreError> {
    match NodeBalance(db, id)
    case Some(b) => Ok(b)
    case None => if id in db.nodes then Ok(NO_BALANCE) else Err(UnregisteredNode)
  }

  function AddNodeBalance(db: DB, id: NodeID, amount: int): (DB, Result<(), StoreError>) {
    match GetNodeBalance(db, id)
    case Err(e) => (db, Err(e))
    case Ok(b) =>
      if id in db.accounts then (db.(balances := db.balances[db.accounts[id] := AddCredit(b, amount)]), Ok(()))
      else (db.(trials := db.trials[id := AddCredit(b, amount)]), Ok(()))
  }

  function AddAccountBalance(db: DB, account: Account, amount: int): DB {
    var b := AddCredit(BalanceAt(db.balances, account), amount);
    db.(balances := db.balances[account := b.(account := account)])
  }

  function AddAccountNode(db: DB, account: Account, id: NodeID): (DB, Result<(), StoreError>) {
    if id !in db.nodes then (db, Err(UnregisteredNode)) else
      var merged := AddCredit(BalanceAt(db.balances, account), BalanceAt(db.trials, id).credit);
      (db.(accounts := db.accounts[id := account],
           balances := db.balances[account := merged.(account := account)],
           trials := db.trials - {id}),
       Ok(()))
  }

  function IsAccountNode(db: DB, account: Account, id: NodeID): Result<(), StoreError> {
    if id !in db.accounts || db.accounts[id] != account then Err(NotAuthorized) else Ok(())
  }

  function GetAccountNodes(db: DB, account: Account): set<NodeID> {
    set id | id in db.accounts && db.accounts[id] == account
  }

  function GetNode(db: DB, id: NodeID): Result<Node, StoreError> {
    if id in db.nodes then Ok(db.nodes[id]) else Err(UnregisteredNode)
  }

  function SetNode(db: DB, n: Node): (DB, Result<(), StoreError>) {
    if n.id == "" then (db, Err(MalformedNode)) else (db.(nodes := db.nodes[n.id := n]), Ok(()))
  }

  function EligibleHosts(db: DB, kind: string, now: Time): set<NodeID> {
    set id | id in db.nodes && Eligible(db.nodes[id], kind, now)
  }

  function RecordedPeers(db: DB, id: NodeID): map<NodeID, Time> {
    if id in db.peers then db.peers[id] else map[]
  }

  function NodePeers(db: DB, id: NodeID): Result<set<Node>, StoreError> {
    if id !in db.peers && id !in db.nodes then Err(UnregisteredNode)
    else Ok(set p | p in RecordedPeers(db, id) && p in db.nodes :: db.nodes[p])
  }

  /** The transaction writes the node's own record first, so a node that lists itself is stamped with `now`. */
  function Reported(db: DB, id: NodeID, listed: seq<NodeID>, now: Time): map<NodeID, Time>
    requires id in db.nodes
  {
    RecordedPeers(db, id) + map p | p in listed && p in db.nodes :: if p == id then now else db.nodes[p].lastSeen
  }

  function UpdateNodePeers(db: DB, id: NodeID, listed: seq<NodeID>, block: nat, now: Time)
    : (DB, Result<set<NodeID>, StoreError>)
  {
    if id !in db.nodes then (db, Err(UnregisteredNode)) else
      var stamps := Reported(db, id, listed, now);
      (db.(nodes := db.nodes[id := db.nodes[id].(lastSeen := now, blockNumber := block)],
           peers := db.peers[id := MemorySpec.Fresh(stamps, now)]),
       Ok(MemorySpec.Stale(stamps, now)))
  }

  /** One state-changing call: the tables after it and its answer. */
  function Step(db: DB, op: Op): (DB, Answer) {
    match op
    case CheckAndSaveNonce(id, nonce, now) =>
      var r := CheckAndSaveNonce(db, id, nonce, now); (r.0, NoPeers(r.1))
    case AddNodeBalance(id, amount) =>
      var r := AddNodeBalance(db, id, amount); (r.0, NoPeers(r.1))
    case AddAccountBalance(account, amount) => (AddAccountBalance(db, account, amount), Ok({}))
    case AddAccountNode(account, id) =>
      var r := AddAccountNode(db, account, id); (r.0, NoPeers(r.1))
    case SetNode(n) =>
      var r := SetNode(db, n); (r.0, NoPeers(r.1))
    case UpdateNodePeers(id, peers, block, now) => UpdateNodePeers(db, id, peers, block, now)
  }

  /**
   * The peer update as an exact partition: the previously recorded peers together with the listed registered ones are
   * split, without overlap, into the kept peers (stamped after the deadline) and the ones returned as inactive. The
   * node itself, if listed, is judged by `now`, every other listed peer by its own LastSeen, and any other by its old
   * stamp; no other node, peer list or table is touched.
   */
  lemma PeerUpdatePartitions(db: DB, id: NodeID, listed: seq<NodeID>, block: nat, now: Time)
    requires id in db.nodes
    ensures var r := UpdateNodePeers(db, id, listed, block, now);
            var before := RecordedPeers(db, id);
            var after := RecordedPeers(r.0, id);
            var known := before.Keys + (set p | p in listed && p in db.nodes);
            && r.1.Ok?
            && after.Keys + r.1.value == known
            && after.Keys !! r.1.value
            && (forall p :: p in known ==>
                  var stamp := if p !in listed || p !in db.nodes then before[p]
                               else if p == id then now else db.nodes[p].lastSeen;
                  && (p in after <==> stamp > now - EXPIRE_INTERVAL)
                  && (p in after ==> after[p] == stamp))
            && r.0.nodes == db.nodes[id := db.nodes[id].(lastSeen := now, blockNumber := block)]
            && (forall other :: other != id ==> RecordedPeers(r.0, other) == RecordedPeers(db, other))
            && r.0 == db.(nodes := r.0.nodes, peers := r.0.peers)
  {
    var stamps := Reported(db, id, listed, now);
    assert stamps.Keys == RecordedPeers(db, id).Keys + (set p | p in listed && p in db.nodes);
  }

  /** The peers of a node, one by one: the records of those recorded peers that are registered. */
  lemma PeersAre(db: DB, id: NodeID, n: Node)
    requires forall p :: p in db.nodes ==> db.nodes[p].id == p
    ensures NodePeers(db, id).Ok? <==> id in db.peers || id in db.nodes
    ensures NodePeers(db, id).Ok? ==>
              (n in NodePeers(db, id).value <==>
                 id in db.peers && n.id in db.peers[id] && n.id in db.nodes && db.nodes[n.id] == n)
  {
  }
}
