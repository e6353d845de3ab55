/** The in-memory store as a value: what each call does to the five maps and what it answers. */
module MemorySpec {
  import opened Wrappers
  import opened StoreTypes
  import opened MapSums

  /** A registered node together with the peers it reported, each stamped with that peer's LastSeen. */
  datatype MemNode = MemNode(node: Node, peers: map<NodeID, Time>)

  datatype Mem = Mem(
    balances: map<Account, Balance>,
    nodes: map<NodeID, MemNode>,
    accounts: map<NodeID, Account>,
    trials: map<NodeID, Balance>,
    nonces: map<string, int>)

  const EMPTY := Mem(map[], map[], map[], map[], map[])

  function CheckAndSaveNonce(m: Mem, id: string, nonce: int, now: Time): (Mem, Result<(), StoreError>) {
    if nonce <= now - EXPIRE_NONCE then (m, Err(InvalidNonce))
    else if (if id in m.nonces then m.nonces[id] else 0) >= nonce then (m, Err(InvalidNonce))
    else (m.(nonces := m.nonces[id := nonce]), Ok(()))
  }

  function GetNodeBalance(m: Mem, id: NodeID): Result<Balance, StoreError> {
    if id !in m.nodes then Err(UnregisteredNode)
    else if id in m.accounts then Ok(BalanceAt(m.balances, m.accounts[id]))
    else Ok(BalanceAt(m.trials, id))
  }

  function AddNodeBalance(m: Mem, id: NodeID, amount: int): (Mem, Result<(), StoreError>) {
    if id !in m.nodes then (m, Err(UnregisteredNode))
    else if id in m.accounts then
      (PutBalance(m, m.accounts[id], AddCredit(BalanceAt(m.balances, m.accounts[id]), amount)), Ok(()))
    else
      (m.(trials := m.trials[id := AddCredit(BalanceAt(m.trials, id), amount)]), Ok(()))
  }

  function PutBalance(m: Mem, account: Account, b: Balance): Mem {
    m.(balances := m.balances[account := b])
  }

  function AddAccountBalance(m: Mem, account: Account, amount: int): Mem {
    PutBalance(m, account, AddCredit(BalanceAt(m.balances, account), amount))
  }

  function AddAccountNode(m: Mem, account: Account, id: NodeID): (Mem, Result<(), StoreError>) {
    if id !in m.nodes then (m, Err(UnregisteredNode)) else
      var merged := AddCredit(BalanceAt(m.balances, account), BalanceAt(m.trials, id).credit);
      (PutBalance(m, account, merged.(account := account))
       .(accounts := m.accounts[id := account], trials := m.trials - {id}),
       Ok(()))
  }

  function IsAccountNode(m: Mem, account: Account, id: NodeID): Result<(), StoreError> {
    if id in m.accounts && m.accounts[id] == account then Ok(()) else Err(NotAuthorized)
  }

  function GetAccountNodes(m: Mem, account: Account): set<NodeID> {
    set id | id in m.accounts && m.accounts[id] == account
  }

  function GetNode(m: Mem, id: NodeID): Result<Node, StoreError> {
    if id in m.nodes then Ok(m.nodes[id].node) else Err(UnregisteredNode)
  }

  function SetNode(m: Mem, n: Node): (Mem, Result<(), StoreError>) {
    if n.id == "" then (m, Err(MalformedNode))
    else (m.(nodes := m.nodes[n.id := MemNode(n, map[])]), Ok(()))
  }

  function EligibleHosts(m: Mem, kind: string, now: Time): set<NodeID> {
    set id | id in m.nodes && Eligible(m.nodes[id].node, kind, now)
  }

  function NodePeers(m: Mem, id: NodeID): Result<set<Node>, StoreError> {
    if id !in m.nodes then Err(UnregisteredNode)
    else Ok(set p | p in m.nodes[id].peers && p in m.nodes :: m.nodes[p].node)
  }

  /** The peers recorded so far, overwritten by the current LastSeen of every listed peer that is registered. */
  function Reported(m: Mem, id: NodeID, listed: seq<NodeID>): map<NodeID, Time>
    requires id in m.nodes
  {
    m.nodes[id].peers + map p | p in listed && p in m.nodes :: m.nodes[p].node.lastSeen
  }

  function Fresh(stamps: map<NodeID, Time>, now: Time): map<NodeID, Time> {
    map p | p in stamps && stamps[p] > now - EXPIRE_INTERVAL :: stamps[p]
  }

  function Stale(stamps: map<NodeID, Time>, now: Time): set<NodeID> {
    set p | p in stamps && stamps[p] <= now - EXPIRE_INTERVAL
  }

  function UpdateNodePeers(m: Mem, id: NodeID, listed: seq<NodeID>, block: nat, now: Time)
    : (Mem, Result<set<NodeID>, StoreError>)
  {
    if id !in m.nodes then (m, Err(UnregisteredNode)) else
      var stamps := Reported(m, id, listed);
      var seen := m.nodes[id].node.(lastSeen := now, blockNumber := block);
      (m.(nodes := m.nodes[id := MemNode(seen, Fresh(stamps, now))]), Ok(Stale(stamps, now)))
  }

  function NodeRecords(m: Mem): map<NodeID, Node> {
    map id | id in m.nodes :: m.nodes[id].node
  }

  /** The highest block number among the nodes, or zero. */
  ghost function LatestBlock(nodes: map<NodeID, Node>): nat
    decreases |nodes|
  {
    if nodes == map[] then 0 else
      var id :| id in nodes;
      var rest := LatestBlock(nodes - {id});
      if nodes[id].blockNumber > rest then nodes[id].blockNumber else rest
  }

  function Unowned<K(==)>(m: map<K, Balance>): set<K> {
    set k | k in m && m[k].account == ""
  }

  predicate HasRole(n: Node, host: bool) {
    n.isHost == host
  }

  /** The IDs of the hosts, or of the clients. */
  function OfRole(nodes: map<NodeID, Node>, host: bool): set<NodeID> {
    set id | id in nodes && HasRole(nodes[id], host)
  }

  function ActiveOfRole(nodes: map<NodeID, Node>, host: bool, now: Time): set<NodeID> {
    set id | id in nodes && HasRole(nodes[id], host) && Active(nodes[id], now)
  }

  ghost function StatsOf(nodes: map<NodeID, Node>, balances: map<Account, Balance>, trials: map<NodeID, Balance>,
                         now: Time): Stats
  {
    Stats(
      |ActiveOfRole(nodes, true, now)|,
      |OfRole(nodes, true)|,
      |ActiveOfRole(nodes, false, now)|,
      |OfRole(nodes, false)|,
      LatestBlock(nodes),
      Sum(Credits(balances)) + Sum(Credits(trials)),
      Sum(Deposits(balances)) + Sum(Deposits(trials)),
      |Unowned(balances)| + |Unowned(trials)|)
  }

  /** All the credit in the store. */
  ghost function TotalCredit(m: Mem): int {
    Sum(Credits(m.balances)) + Sum(Credits(m.trials))
  }

  /** One state-changing call: the state after it and its answer. */
  function Step(m: Mem, op: Op): (Mem, Answer) {
    match op
    case CheckAndSaveNonce(id, nonce, now) =>
      var r := CheckAndSaveNonce(m, id, nonce, now); (r.0, NoPeers(r.1))
    case AddNodeBalance(id, amount) =>
      var r := AddNodeBalance(m, id, amount); (r.0, NoPeers(r.1))
    case AddAccountBalance(account, amount) => (AddAccountBalance(m, account, amount), Ok({}))
    case AddAccountNode(account, id) =>
      var r := AddAccountNode(m, account, id); (r.0, NoPeers(r.1))
    case SetNode(n) =>
      var r := SetNode(m, n); (r.0, NoPeers(r.1))
    case UpdateNodePeers(id, peers, block, now) => UpdateNodePeers(m, id, peers, block, now)
  }

  /** The state after a sequence of calls. */
  function Run(m: Mem, ops: seq<Op>): Mem
    decreases |ops|
  {
    if ops == [] then m else Step(Run(m, ops[..|ops| - 1]), ops[|ops| - 1]).0
  }

  /**
   * What every reachable state keeps: nodes are filed under their own non-empty ID, only registered nodes have a
   * trial or an account and never both, and every account a node is bound to has a balance. Trials belong to no
   * account.
   */
  ghost predicate Valid(m: Mem) {
    && (forall id :: id in m.nodes ==> m.nodes[id].node.id == id && id != "")
    && m.trials.Keys <= m.nodes.Keys
    && m.accounts.Keys <= m.nodes.Keys
    && m.trials.Keys !! m.accounts.Keys
    && (forall id :: id in m.accounts ==> m.accounts[id] in m.balances)
    && (forall id :: id in m.trials ==> m.trials[id].account == "")
  }

  lemma {:induction false} StepKeepsValid(m: Mem, op: Op)
    requires Valid(m)
    ensures Valid(Step(m, op).0)
    ensures m.nodes.Keys <= Step(m, op).0.nodes.Keys
  {
    match op
    case SetNode(n) => SetNodeKeepsValid(m, n);
    case UpdateNodePeers(id, peers, block, now) => UpdateNodePeersKeepsValid(m, id, peers, block, now);
    case AddNodeBalance(id, amount) => AddNodeBalanceKeepsValid(m, id, amount);
    case AddAccountNode(account, id) => AddAccountNodeKeepsValid(m, account, id);
    case _ =>
  }

  lemma SetNodeKeepsValid(m: Mem, n: Node)
    requires Valid(m)
    ensures Valid(SetNode(m, n).0)
  {
  }

  lemma UpdateNodePeersKeepsValid(m: Mem, id: NodeID, listed: seq<NodeID>, block: nat, now: Time)
    requires Valid(m)
    ensures Valid(UpdateNodePeers(m, id, listed, block, now).0)
  {
  }

  lemma AddNodeBalanceKeepsValid(m: Mem, id: NodeID, amount: int)
    requires Valid(m)
    ensures Valid(AddNodeBalance(m, id, amount).0)
  {
  }

  lemma AddAccountNodeKeepsValid(m: Mem, account: Account, id: NodeID)
    requires Valid(m)
    ensures Valid(AddAccountNode(m, account, id).0)
  {
  }

  /** No sequence of calls ever leaves the valid states. */
  lemma {:induction false} RunKeepsValid(m: Mem, ops: seq<Op>)
    requires Valid(m)
    ensures Valid(Run(m, ops))
    decreases |ops|
  {
    if ops != [] {
      RunKeepsValid(m, ops[..|ops| - 1]);
      StepKeepsValid(Run(m, ops[..|ops| - 1]), ops[|ops| - 1]);
    }
  }

  /**
   * The peer update as an exact partition: the previously recorded peers together with the listed registered ones are
   * split, without overlap, into the kept peers (stamped after the deadline) and the ones returned as inactive. Every
   * listed peer is judged by its own current LastSeen, every other one by its old stamp; no other node is touched.
   */
  lemma PeerUpdatePartitions(m: Mem, id: NodeID, listed: seq<NodeID>, block: nat, now: Time)
    requires id in m.nodes
    ensures var r := UpdateNodePeers(m, id, listed, block, now);
            var after := r.0.nodes[id].peers;
            var known := m.nodes[id].peers.Keys + (set p | p in listed && p in m.nodes);
            && r.1.Ok?
            && after.Keys + r.1.value == known
            && after.Keys !! r.1.value
            && (forall p :: p in known ==>
                  var stamp := if p in listed && p in m.nodes then m.nodes[p].node.lastSeen else m.nodes[id].peers[p];
                  && (p in after <==> stamp > now - EXPIRE_INTERVAL)
                  && (p in after ==> after[p] == stamp))
            && r.0.nodes[id].node == m.nodes[id].node.(lastSeen := now, blockNumber := block)
            && r.0.nodes.Keys == m.nodes.Keys
            && (forall other :: other in m.nodes && other != id ==> r.0.nodes[other] == m.nodes[other])
            && r.0 == m.(nodes := r.0.nodes)
  {
    var stamps := Reported(m, id, listed);
    assert stamps.Keys == m.nodes[id].peers.Keys + (set p | p in listed && p in m.nodes);
  }
}
