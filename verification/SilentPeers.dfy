/**
 * A peer that has gone silent is never paid. Connections and updates, each atomic and on a clock that does not go back,
 * keep every recorded peer stamp at or below that peer's own LastSeen; so whoever an update pays was itself seen within
 * the last EXPIRE_INTERVAL.
 */
module SilentPeers {
  import opened StoreTypes
  import opened Billing
  import M = MemorySpec
  import B = BadgerSpec

  datatype Request =
    | Connect(node: Node, now: Time)
    | Update(id: NodeID, listed: seq<NodeID>, blockNumber: nat, now: Time)
    | Ledger(op: Op)

  /** A connecting node is stored with the current time; ledger calls touch no node. */
  function After(m: M.Mem, r: Request): M.Mem {
    match r
    case Connect(n, now) => M.SetNode(m, n.(lastSeen := now)).0
    case Update(id, listed, block, now) => M.UpdateNodePeers(m, id, listed, block, now).0
    case Ledger(op) => if op.SetNode? || op.UpdateNodePeers? then m else M.Step(m, op).0
  }

  function Run(rs: seq<Request>): M.Mem {
    if rs == [] then M.EMPTY else After(Run(rs[..|rs| - 1]), rs[|rs| - 1])
  }

  /** The last clock reading, or `start` if there was none. */
  function Clock(rs: seq<Request>, start: Time): Time {
    if rs == [] then start else if rs[|rs| - 1].Ledger? then Clock(rs[..|rs| - 1], start) else rs[|rs| - 1].now
  }

  predicate Monotone(rs: seq<Request>, start: Time) {
    rs == [] || (
      && Monotone(rs[..|rs| - 1], start)
      && (rs[|rs| - 1].Ledger? || Clock(rs[..|rs| - 1], start) <= rs[|rs| - 1].now))
  }

  /** Nobody was seen after `now`; only registered nodes are recorded as peers, and no stamp exceeds their LastSeen. */
  ghost predicate StampsBehind(m: M.Mem, now: Time) {
    && (forall id :: id in m.nodes ==> m.nodes[id].node.lastSeen <= now)
    && (forall id, p :: id in m.nodes && p in m.nodes[id].peers ==>
          p in m.nodes && m.nodes[id].peers[p] <= m.nodes[p].node.lastSeen)
  }

  lemma ConnectKeepsStamps(m: M.Mem, n: Node, clock: Time, now: Time)
    requires StampsBehind(m, clock) && clock <= now
    ensures StampsBehind(M.SetNode(m, n.(lastSeen := now)).0, now)
  {
    var after := M.SetNode(m, n.(lastSeen := now)).0;
    forall id, p | id in after.nodes && p in after.nodes[id].peers
      ensures p in after.nodes && after.nodes[id].peers[p] <= after.nodes[p].node.lastSeen {
      assert after.nodes[id] == m.nodes[id] && p in m.nodes[id].peers;
      assert m.nodes[id].peers[p] <= m.nodes[p].node.lastSeen <= clock;
    }
  }

  lemma UpdateKeepsStamps(m: M.Mem, id: NodeID, listed: seq<NodeID>, block: nat, clock: Time, now: Time)
    requires StampsBehind(m, clock) && clock <= now
    ensures StampsBehind(M.UpdateNodePeers(m, id, listed, block, now).0, now)
  {
  }

  lemma {:induction false} LedgerKeepsNodes(m: M.Mem, op: Op)
    requires !op.SetNode? && !op.UpdateNodePeers?
    ensures M.Step(m, op).0.nodes == m.nodes
  {
  }

  lemma {:induction false} RequestKeepsStamps(m: M.Mem, r: Request, clock: Time)
    requires StampsBehind(m, clock) && (r.Ledger? || clock <= r.now)
    ensures StampsBehind(After(m, r), if r.Ledger? then clock else r.now)
  {
    match r
    case Connect(n, now) => ConnectKeepsStamps(m, n, clock, now);
    case Update(id, listed, block, now) => UpdateKeepsStamps(m, id, listed, block, clock, now);
    case Ledger(op) =>
      if !op.SetNode? && !op.UpdateNodePeers? {
        LedgerKeepsNodes(m, op);
      }
  }

  lemma {:induction false} RunKeepsStamps(rs: seq<Request>, start: Time)
    requires Monotone(rs, start)
    ensures StampsBehind(Run(rs), Clock(rs, start))
    decreases |rs|
  {
    if rs != [] {
      RunKeepsStamps(rs[..|rs| - 1], start);
      RequestKeepsStamps(Run(rs[..|rs| - 1]), rs[|rs| - 1], Clock(rs[..|rs| - 1], start));
    }
  }

  /** After any run, every peer that an update at `now` would pay was itself seen less than EXPIRE_INTERVAL ago. */
  lemma {:induction false} SilentPeerIsNeverPaid(rs: seq<Request>, start: Time, id: NodeID, listed: seq<NodeID>,
                                                 block: nat, now: Time)
    requires Monotone(rs, start) && Clock(rs, start) <= now && id in Run(rs).nodes
    ensures var after := M.UpdateNodePeers(Run(rs), id, listed, block, now).0;
            M.NodePeers(after, id).Ok? && forall n :: n in M.NodePeers(after, id).value ==> Active(n, now)
  {
    RunKeepsStamps(rs, start);
    UpdateKeepsStamps(Run(rs), id, listed, block, Clock(rs, start), now);
  }

  lemma {:induction false} PaymentsGoToPeers(peers: seq<Node>, credit: int, call: Op)
    requires call in PayCalls(peers, credit)
    ensures call.AddNodeBalance? && exists n :: n in peers && n.id == call.id
    decreases |peers|
  {
    if peers != [] {
      var front, last := peers[..|peers| - 1], peers[|peers| - 1];
      if call in PayCalls(front, credit) {
        PaymentsGoToPeers(front, credit, call);
        var n :| n in front && n.id == call.id;
        assert n in peers;
      } else {
        assert last in peers && last.id == call.id;
      }
    }
  }

  /** So every payment that the billing of such an update makes goes to a node seen less than EXPIRE_INTERVAL ago. */
  lemma OnlyActivePeersAreCredited(rs: seq<Request>, start: Time, id: NodeID, listed: seq<NodeID>, block: nat,
                                   now: Time, terms: Terms, peers: seq<Node>, billedAt: Time, call: Op)
    requires Monotone(rs, start) && Clock(rs, start) <= now && id in Run(rs).nodes
    requires var after := M.UpdateNodePeers(Run(rs), id, listed, block, now).0;
             M.NodePeers(after, id).Ok? && Enumerates(peers, M.NodePeers(after, id).value)
    requires call in Payments(terms, Run(rs).nodes[id].node, peers, billedAt)
    ensures call.AddNodeBalance? && exists n :: n in peers && n.id == call.id && Active(n, now)
  {
    SilentPeerIsNeverPaid(rs, start, id, listed, block, now);
    PaymentsGoToPeers(peers, PeerCredit(terms, Run(rs).nodes[id].node, billedAt), call);
  }

  // The same on the badger store, whose recorded peers may be other ones.

  function DbAfter(db: B.DB, r: Request): B.DB {
    match r
    case Connect(n, now) => B.SetNode(db, n.(lastSeen := now)).0
    case Update(id, listed, block, now) => B.UpdateNodePeers(db, id, listed, block, now).0
    case Ledger(op) => if op.SetNode? || op.UpdateNodePeers? then db else B.Step(db, op).0
  }

  function DbRun(rs: seq<Request>): B.DB {
    if rs == [] then B.EMPTY else DbAfter(DbRun(rs[..|rs| - 1]), rs[|rs| - 1])
  }

  ghost predicate DbStampsBehind(db: B.DB, now: Time) {
    && (forall id :: id in db.nodes ==> db.nodes[id].lastSeen <= now)
    && (forall id, p :: id in db.peers && p in db.peers[id] ==>
          p in db.nodes && db.peers[id][p] <= db.nodes[p].lastSeen)
  }

  lemma DbConnectKeepsStamps(db: B.DB, n: Node, clock: Time, now: Time)
    requires DbStampsBehind(db, clock) && clock <= now
    ensures DbStampsBehind(B.SetNode(db, n.(lastSeen := now)).0, now)
  {
    var after := B.SetNode(db, n.(lastSeen := now)).0;
    forall id, p | id in after.peers && p in after.peers[id]
      ensures p in after.nodes && after.peers[id][p] <= after.nodes[p].lastSeen {
      assert db.peers[id][p] <= db.nodes[p].lastSeen <= clock;
    }
  }

  lemma DbUpdateKeepsStamps(db: B.DB, id: NodeID, listed: seq<NodeID>, block: nat, clock: Time, now: Time)
    requires DbStampsBehind(db, clock) && clock <= now
    ensures DbStampsBehind(B.UpdateNodePeers(db, id, listed, block, now).0, now)
  {
    if id in db.nodes {
      var after := B.UpdateNodePeers(db, id, listed, block, now).0;
      forall other, p | other in after.peers && p in after.peers[other]
        ensures p in after.nodes && after.peers[other][p] <= after.nodes[p].lastSeen {
        if other != id {
          assert other in db.peers && db.peers[other][p] <= db.nodes[p].lastSeen;
        } else {
          assert p in B.RecordedPeers(db, id) ==> db.peers[id][p] <= db.nodes[p].lastSeen;
        }
      }
    }
  }

  lemma {:induction false} DbLedgerKeepsNodes(db: B.DB, op: Op)
    requires !op.SetNode? && !op.UpdateNodePeers?
    ensures B.Step(db, op).0.nodes == db.nodes && B.Step(db, op).0.peers == db.peers
  {
  }

  lemma {:induction false} DbRunKeepsStamps(rs: seq<Request>, start: Time)
    requires Monotone(rs, start)
    ensures DbStampsBehind(DbRun(rs), Clock(rs, start))
    decreases |rs|
  {
    if rs != [] {
      var db, clock := DbRun(rs[..|rs| - 1]), Clock(rs[..|rs| - 1], start);
      DbRunKeepsStamps(rs[..|rs| - 1], start);
      match rs[|rs| - 1]
      case Connect(n, now) => DbConnectKeepsStamps(db, n, clock, now);
      case Update(id, listed, block, now) => DbUpdateKeepsStamps(db, id, listed, block, clock, now);
      case Ledger(op) =>
        if !op.SetNode? && !op.UpdateNodePeers? {
          DbLedgerKeepsNodes(db, op);
        }
    }
  }

  /** On badger, too, every peer that an update at `now` would pay was itself seen less than EXPIRE_INTERVAL ago. */
  lemma DbSilentPeerIsNeverPaid(rs: seq<Request>, start: Time, id: NodeID, listed: seq<NodeID>, block: nat, now: Time)
    requires Monotone(rs, start) && Clock(rs, start) <= now && id in DbRun(rs).nodes
    ensures var after := B.UpdateNodePeers(DbRun(rs), id, listed, block, now).0;
            B.NodePeers(after, id).Ok? && forall n :: n in B.NodePeers(after, id).value ==> Active(n, now)
  {
    var after := B.UpdateNodePeers(DbRun(rs), id, listed, block, now).0;
    DbRunKeepsStamps(rs, start);
    DbUpdateKeepsStamps(DbRun(rs), id, listed, block, Clock(rs, start), now);
    forall p | p in B.RecordedPeers(after, id) && p in after.nodes ensures Active(after.nodes[p], now) {
      assert after.peers[id][p] <= after.nodes[p].lastSeen;
    }
  }
}
