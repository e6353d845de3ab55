/** The values that the pool's storage drivers exchange with their callers. */
module StoreTypes {
  import opened Wrappers

  type NodeID = string
  type Account = string

  /** Instants and durations, in nanoseconds. */
  type Time = int

  // Durations are 64-bit.
  const MAX_DURATION: Time := 0x7FFF_FFFF_FFFF_FFFF
  const MIN_DURATION: Time := -0x8000_0000_0000_0000

  const SECOND: Time := 1_000_000_000
  const KEEPALIVE_INTERVAL: Time := 60 * SECOND
  const EXPIRE_INTERVAL: Time := KEEPALIVE_INTERVAL * 2
  const EXPIRE_NONCE: Time := 15 * 60 * SECOND

  datatype Node = Node(
    id: NodeID,
    uri: string,
    lastSeen: Time,
    kind: string,
    isHost: bool,
    payout: Account,
    blockNumber: nat,
    nodeVersion: string,
    vipnodeVersion: string)

  datatype Balance = Balance(account: Account, deposit: int, credit: int, nextWithdraw: Time)

  const NO_BALANCE := Balance("", 0, 0, 0)

  datatype StoreError =
    | UnregisteredNode
    | MalformedNode
    | InvalidNonce
    | NotAuthorized

  /** Aggregate numbers over the store, as `Stats` reports them. */
  datatype Stats = Stats(
    numActiveHosts: nat,
    numTotalHosts: nat,
    numActiveClients: nat,
    numTotalClients: nat,
    latestBlockNumber: nat,
    totalCredit: int,
    totalDeposit: int,
    numTrialBalances: nat)

  /** The nodes, in some order, each once. */
  predicate Enumerates(s: seq<Node>, nodes: set<Node>) {
    && (forall n :: n in s ==> n in nodes)
    && (forall n :: n in nodes ==> n in s)
    && (forall i, j :: 0 <= i < j < |s| ==> s[i] != s[j])
  }

  function BalanceAt<K(==)>(m: map<K, Balance>, k: K): Balance {
    if k in m then m[k] else NO_BALANCE
  }

  function AddCredit(b: Balance, amount: int): Balance {
    b.(credit := b.credit + amount)
  }

  function Credits<K(==)>(m: map<K, Balance>): map<K, int> {
    map k | k in m :: m[k].credit
  }

  function Deposits<K(==)>(m: map<K, Balance>): map<K, int> {
    map k | k in m :: m[k].deposit
  }

  /** A node counts as active when it was seen within the last EXPIRE_INTERVAL. */
  predicate Active(n: Node, now: Time) {
    n.lastSeen > now - EXPIRE_INTERVAL
  }

  /** The hosts of the wanted kind (any kind if empty) that are active at `now`. */
  predicate Eligible(n: Node, kind: string, now: Time) {
    n.isHost && (kind == "" || n.kind == kind) && Active(n, now)
  }

  /** One state-changing call on a store, with the clock reading it takes, if it takes one. */
  datatype Op =
    | CheckAndSaveNonce(nonceID: string, nonce: int, now: Time)
    | AddNodeBalance(id: NodeID, amount: int)
    | AddAccountBalance(account: Account, amount: int)
    | AddAccountNode(account: Account, id: NodeID)
    | SetNode(node: Node)
    | UpdateNodePeers(id: NodeID, peers: seq<NodeID>, blockNumber: nat, now: Time)

  /** The answer to a state-changing call: the inactive peers for UpdateNodePeers, nothing otherwise. */
  type Answer = Result<set<NodeID>, StoreError>

  function NoPeers(r: Result<(), StoreError>): Answer {
    match r case Ok(_) => Ok({}) case Err(e) => Err(e)
  }
}
