/**
 * The concurrent pool on the badger store, which may list other peers than the memory store would. It does, up to the
 * labels in its answers, what some run of the pool on the memory store does; so its ledger balances as well.
 */
module BadgerPool {
  import opened Wrappers
  import opened StoreTypes
  import opened MapSums
  import opened Billing
  import opened Conservation
  import opened StoreRefinement
  import M = MemorySpec
  import B = BadgerSpec

  datatype DbPool = DbPool(db: B.DB, updates: map<nat, Phase>, deposited: int)

  const DB_EMPTY := DbPool(B.EMPTY, map[], 0)

  function DbPut(q: DbPool, t: nat, phase: Phase): DbPool {
    q.(updates := q.updates[t := phase])
  }

  function DbAssessed(db: B.DB, terms: Terms, node: Node, peers: seq<Node>, now: Time): Phase {
    if node.isHost then Answered(AsBilling(B.GetNodeBalance(db, node.id)))
    else if terms.interval <= 0 || terms.creditPerInterval == 0 then Answered(Err(InvalidSettings))
    else if IntervalCredit(terms, node.lastSeen, now) == 0 then Answered(AsBilling(B.GetNodeBalance(db, node.id)))
    else Paying(node, peers, IntervalCredit(terms, node.lastSeen, now), 0)
  }

  function DbPaidOne(q: DbPool, t: nat, u: Phase): DbPool
    requires u.Paying? && u.unpaid != []
  {
    DbPut(q.(db := B.AddNodeBalance(q.db, u.unpaid[0].id, u.credit).0), t,
          Paying(u.node, u.unpaid[1..], u.credit, u.total + u.credit))
  }

  function DbSettled(q: DbPool, terms: Terms, t: nat, node: Node, total: int): DbPool {
    if terms.minBalance.Some? && terms.minBalance.value > total then DbPut(q, t, Stranded(total))
    else if B.AddNodeBalance(q.db, node.id, -total).1.Err? then DbPut(q, t, Stranded(total))
    else DbPut(q.(db := B.AddNodeBalance(q.db, node.id, -total).0), t, Debited(node))
  }

  /** The update is at the right point, and `peers` are the peers that badger lists for the node. */
  predicate Assessable(q: DbPool, t: nat, peers: seq<Node>) {
    && t in q.updates && q.updates[t].Stamped?
    && B.NodePeers(q.db, q.updates[t].node.id).Ok?
    && Enumerates(peers, B.NodePeers(q.db, q.updates[t].node.id).value)
  }

  function DbNext(q: DbPool, terms: Terms, a: Action): DbPool {
    match a
    case Call(op) =>
      if op.AddNodeBalance? then q
      else q.(db := B.Step(q.db, op).0, deposited := q.deposited + if op.AddAccountBalance? then op.amount else 0)
    case Begin(t, id, listed, block) => if t in q.updates then q else DbPut(q, t, Started(id, listed, block))
    case Fetch(t) =>
      if t !in q.updates || !q.updates[t].Started? then q else
        var u := q.updates[t];
        DbPut(q, t, match B.GetNode(q.db, u.id)
                    case Ok(n) => Fetched(n, u.listed, u.blockNumber)
                    case Err(e) => Answered(Err(StoreFailure(e))))
    case Stamp(t, now) =>
      if t !in q.updates || !q.updates[t].Fetched? then q else
        var u := q.updates[t];
        DbPut(q.(db := B.UpdateNodePeers(q.db, u.node.id, u.listed, u.blockNumber, now).0), t, Stamped(u.node))
    case Assess(t, peers, now) =>
      if !Assessable(q, t, peers) then q else DbPut(q, t, DbAssessed(q.db, terms, q.updates[t].node, peers, now))
    case PayOne(t) =>
      if t !in q.updates || !q.updates[t].Paying? || q.updates[t].unpaid == [] then q else DbPaidOne(q, t, q.updates[t])
    case Settle(t) =>
      if t !in q.updates || !q.updates[t].Paying? || q.updates[t].unpaid != [] then q
      else DbSettled(q, terms, t, q.updates[t].node, q.updates[t].total)
    case Report(t) =>
      if t !in q.updates || !q.updates[t].Debited? then q
      else DbPut(q, t, Answered(AsBilling(B.GetNodeBalance(q.db, q.updates[t].node.id))))
  }

  function DbRun(terms: Terms, actions: seq<Action>): DbPool {
    if actions == [] then DB_EMPTY else DbNext(DbRun(terms, actions[..|actions| - 1]), terms, actions[|actions| - 1])
  }

  /** The steps of the memory pool that go with a run: all but the attempts to assess that badger turns down. */
  function Mirror(terms: Terms, actions: seq<Action>): seq<Action> {
    if actions == [] then [] else
      var before, a := actions[..|actions| - 1], actions[|actions| - 1];
      Mirror(terms, before) + if a.Assess? && !Assessable(DbRun(terms, before), a.t, a.peers) then [] else [a]
  }

  /** The same phase; answers may differ in their labels. */
  predicate SamePhase(u: Phase, v: Phase) {
    u == v || (u.Answered? && v.Answered?)
  }

  ghost predicate Similar(p: Pool, q: DbPool) {
    && Agree(p.store, q.db)
    && p.deposited == q.deposited
    && p.updates.Keys == q.updates.Keys
    && forall t :: t in p.updates ==> SamePhase(p.updates[t], q.updates[t])
  }

  lemma PutSimilar(p: Pool, q: DbPool, store: M.Mem, db: B.DB, t: nat, u: Phase, v: Phase)
    requires Similar(p, q) && Agree(store, db) && SamePhase(u, v)
    ensures Similar(Put(p.(store := store), t, u), DbPut(q.(db := db), t, v))
  {
  }

  /** A step that leaves the stores alone. */
  lemma PhaseSimilar(p: Pool, q: DbPool, t: nat, u: Phase, v: Phase)
    requires Similar(p, q) && SamePhase(u, v)
    ensures Similar(Put(p, t, u), DbPut(q, t, v))
  {
    PutSimilar(p, q, p.store, q.db, t, u, v);
    assert p.(store := p.store) == p && q.(db := q.db) == q;
  }

  lemma CallSimilar(p: Pool, q: DbPool, terms: Terms, op: Op)
    requires Similar(p, q)
    ensures Similar(Next(p, terms, Call(op)), DbNext(q, terms, Call(op)))
  {
    StepAgrees(p.store, q.db, op);
  }

  lemma FetchSimilar(p: Pool, q: DbPool, terms: Terms, t: nat)
    requires Similar(p, q)
    ensures Similar(Next(p, terms, Fetch(t)), DbNext(q, terms, Fetch(t)))
  {
    if t in p.updates && p.updates[t].Started? {
      assert SamePhase(p.updates[t], q.updates[t]);
      assert M.GetNode(p.store, p.updates[t].id) == B.GetNode(q.db, p.updates[t].id);
      PhaseSimilar(p, q, t, Next(p, terms, Fetch(t)).updates[t], DbNext(q, terms, Fetch(t)).updates[t]);
    }
  }

  lemma StampSimilar(p: Pool, q: DbPool, terms: Terms, t: nat, now: Time)
    requires Similar(p, q)
    ensures Similar(Next(p, terms, Stamp(t, now)), DbNext(q, terms, Stamp(t, now)))
  {
    if t in p.updates && p.updates[t].Fetched? {
      assert SamePhase(p.updates[t], q.updates[t]);
      var u := p.updates[t];
      UpdateNodePeersAgrees(p.store, q.db, u.node.id, u.listed, u.blockNumber, now);
      var store := M.UpdateNodePeers(p.store, u.node.id, u.listed, u.blockNumber, now).0;
      var db := B.UpdateNodePeers(q.db, u.node.id, u.listed, u.blockNumber, now).0;
      PutSimilar(p, q, store, db, t, Stamped(u.node), Stamped(u.node));
    }
  }

  lemma ListedAreRegistered(m: M.Mem, db: B.DB, id: NodeID, peers: seq<Node>)
    requires Agree(m, db) && B.NodePeers(db, id).Ok? && Enumerates(peers, B.NodePeers(db, id).value)
    ensures AllRegistered(m, peers)
  {
    forall n | n in peers ensures n.id in m.nodes {
      assert n in B.NodePeers(db, id).value;
      var p :| p in B.RecordedPeers(db, id) && p in db.nodes && db.nodes[p] == n;
      assert m.nodes[p].node == n;
    }
  }

  lemma AssessSimilar(p: Pool, q: DbPool, terms: Terms, t: nat, peers: seq<Node>, now: Time)
    requires Similar(p, q) && Assessable(q, t, peers)
    ensures Similar(Next(p, terms, Assess(t, peers, now)), DbNext(q, terms, Assess(t, peers, now)))
  {
    assert SamePhase(p.updates[t], q.updates[t]);
    var node := p.updates[t].node;
    ListedAreRegistered(p.store, q.db, node.id, peers);
    PhaseSimilar(p, q, t, Assessed(p.store, terms, node, peers, now), DbAssessed(q.db, terms, node, peers, now));
  }

  lemma PayOneSimilar(p: Pool, q: DbPool, terms: Terms, t: nat)
    requires Similar(p, q)
    ensures Similar(Next(p, terms, PayOne(t)), DbNext(q, terms, PayOne(t)))
  {
    if t in p.updates && p.updates[t].Paying? && p.updates[t].unpaid != [] {
      assert SamePhase(p.updates[t], q.updates[t]);
      var u := p.updates[t];
      var v := Paying(u.node, u.unpaid[1..], u.credit, u.total + u.credit);
      AddNodeBalanceAgrees(p.store, q.db, u.unpaid[0].id, u.credit);
      PutSimilar(p, q, M.AddNodeBalance(p.store, u.unpaid[0].id, u.credit).0,
                 B.AddNodeBalance(q.db, u.unpaid[0].id, u.credit).0, t, v, v);
    }
  }

  lemma DebitSimilar(p: Pool, q: DbPool, t: nat, node: Node, amount: int, p1: Pool, q1: DbPool)
    requires Similar(p, q)
    requires p1 == Put(p.(store := M.AddNodeBalance(p.store, node.id, amount).0), t, Debited(node))
    requires q1 == DbPut(q.(db := B.AddNodeBalance(q.db, node.id, amount).0), t, Debited(node))
    ensures Similar(p1, q1)
  {
    AddNodeBalanceAgrees(p.store, q.db, node.id, amount);
    PutSimilar(p, q, M.AddNodeBalance(p.store, node.id, amount).0, B.AddNodeBalance(q.db, node.id, amount).0, t,
               Debited(node), Debited(node));
  }

  /** The two pools settle alike: both refuse, or both debit. */
  lemma SettledAlike(p: Pool, q: DbPool, terms: Terms, t: nat, node: Node, total: int, p1: Pool, q1: DbPool)
    requires Similar(p, q) && p1 == Settled(p, terms, t, node, total) && q1 == DbSettled(q, terms, t, node, total)
    ensures (p1 == Put(p, t, Stranded(total)) && q1 == DbPut(q, t, Stranded(total)))
            || (p1 == Put(p.(store := M.AddNodeBalance(p.store, node.id, -total).0), t, Debited(node))
                && q1 == DbPut(q.(db := B.AddNodeBalance(q.db, node.id, -total).0), t, Debited(node)))
  {
    AddNodeBalanceAgrees(p.store, q.db, node.id, -total);
  }

  lemma SettledSimilar(p: Pool, q: DbPool, terms: Terms, t: nat, node: Node, total: int, p1: Pool, q1: DbPool)
    requires Similar(p, q) && p1 == Settled(p, terms, t, node, total) && q1 == DbSettled(q, terms, t, node, total)
    ensures Similar(p1, q1)
  {
    SettledAlike(p, q, terms, t, node, total, p1, q1);
    if p1 == Put(p, t, Stranded(total)) && q1 == DbPut(q, t, Stranded(total)) {
      PhaseSimilar(p, q, t, Stranded(total), Stranded(total));
    } else {
      DebitSimilar(p, q, t, node, -total, p1, q1);
    }
  }

  lemma SettleSimilar(p: Pool, q: DbPool, terms: Terms, t: nat)
    requires Similar(p, q)
    ensures Similar(Next(p, terms, Settle(t)), DbNext(q, terms, Settle(t)))
  {
    if t in p.updates && p.updates[t].Paying? && p.updates[t].unpaid == [] {
      assert SamePhase(p.updates[t], q.updates[t]);
      var node, total := p.updates[t].node, p.updates[t].total;
      SettledSimilar(p, q, terms, t, node, total, Next(p, terms, Settle(t)), DbNext(q, terms, Settle(t)));
    }
  }

  lemma ReportSimilar(p: Pool, q: DbPool, terms: Terms, t: nat)
    requires Similar(p, q)
    ensures Similar(Next(p, terms, Report(t)), DbNext(q, terms, Report(t)))
  {
    if t in p.updates && p.updates[t].Debited? {
      assert SamePhase(p.updates[t], q.updates[t]);
      PhaseSimilar(p, q, t, Next(p, terms, Report(t)).updates[t], DbNext(q, terms, Report(t)).updates[t]);
    }
  }

  lemma BeginSimilar(p: Pool, q: DbPool, terms: Terms, t: nat, id: NodeID, listed: seq<NodeID>, block: nat)
    requires Similar(p, q)
    ensures Similar(Next(p, terms, Begin(t, id, listed, block)), DbNext(q, terms, Begin(t, id, listed, block)))
  {
    if t !in p.updates {
      PhaseSimilar(p, q, t, Started(id, listed, block), Started(id, listed, block));
    }
  }

  /** One step of the badger pool, unless it is turned down, is the same step of the memory pool. */
  lemma {:induction false} NextSimilar(p: Pool, q: DbPool, terms: Terms, a: Action)
    requires Similar(p, q) && (a.Assess? ==> Assessable(q, a.t, a.peers))
    ensures Similar(Next(p, terms, a), DbNext(q, terms, a))
  {
    match a
    case Call(op) => CallSimilar(p, q, terms, op);
    case Begin(t, id, listed, block) => BeginSimilar(p, q, terms, t, id, listed, block);
    case Fetch(t) => FetchSimilar(p, q, terms, t);
    case Stamp(t, now) => StampSimilar(p, q, terms, t, now);
    case Assess(t, peers, now) => AssessSimilar(p, q, terms, t, peers, now);
    case PayOne(t) => PayOneSimilar(p, q, terms, t);
    case Settle(t) => SettleSimilar(p, q, terms, t);
    case Report(t) => ReportSimilar(p, q, terms, t);
  }

  /** Every run of the badger pool goes with a run of the memory pool. */
  lemma {:induction false} RunSimilar(terms: Terms, actions: seq<Action>)
    ensures Similar(Run(terms, Mirror(terms, actions)), DbRun(terms, actions))
    decreases |actions|
  {
    if actions != [] {
      var before, a := actions[..|actions| - 1], actions[|actions| - 1];
      var steps, q := Mirror(terms, before), DbRun(terms, before);
      RunSimilar(terms, before);
      if a.Assess? && !Assessable(q, a.t, a.peers) {
        assert steps + [] == steps;
      } else {
        Conservation.RunOneMore(Conservation.EMPTY, terms, steps, a);
        NextSimilar(Run(terms, steps), q, terms, a);
      }
    }
  }

  ghost function DbTotalCredit(db: B.DB): int {
    Sum(Credits(db.balances)) + Sum(Credits(db.trials))
  }

  lemma SameOutstanding(p: Pool, q: DbPool)
    requires Similar(p, q)
    ensures OutstandingOf(p.updates) == OutstandingOf(q.updates)
  {
    forall t | t in p.updates ensures Outstanding(p.updates[t]) == Outstanding(q.updates[t]) {
      assert SamePhase(p.updates[t], q.updates[t]);
    }
  }

  /** In every interleaving on badger, the ledger is off by exactly what updates have credited but not debited. */
  lemma DbLedgerAlwaysBalances(terms: Terms, actions: seq<Action>)
    ensures var q := DbRun(terms, actions); DbTotalCredit(q.db) == q.deposited + Sum(OutstandingOf(q.updates))
  {
    var p, q := Run(terms, Mirror(terms, actions)), DbRun(terms, actions);
    RunSimilar(terms, actions);
    LedgerAlwaysBalances(terms, Mirror(terms, actions));
    SameSums(q.db.balances, p.store.balances);
    SameOutstanding(p, q);
  }

  /** At rest and without a minimum balance, the credits that badger's Stats reports are what was deposited. */
  lemma DbBalancedAtRest(terms: Terms, actions: seq<Action>, now: Time)
    requires terms.minBalance.None?
    requires forall t :: t in DbRun(terms, actions).updates ==> !DbRun(terms, actions).updates[t].Paying?
    ensures var q := DbRun(terms, actions);
            M.StatsOf(q.db.nodes, q.db.balances, q.db.trials, now).totalCredit == q.deposited
  {
    var p, q := Run(terms, Mirror(terms, actions)), DbRun(terms, actions);
    DbLedgerAlwaysBalances(terms, actions);
    RunSimilar(terms, actions);
    LedgerAlwaysBalances(terms, Mirror(terms, actions));
    forall t | t in q.updates ensures Outstanding(q.updates[t]) == 0 {
      assert SamePhase(p.updates[t], q.updates[t]) && Justified(terms, p.updates[t]);
    }
    SumOfZeros(OutstandingOf(q.updates));
  }

  /** The excess at rest is exactly what the stranded updates credited, each of them below the minimum. */
  lemma DbExcessAtRest(terms: Terms, actions: seq<Action>)
    requires forall t :: t in DbRun(terms, actions).updates ==> !DbRun(terms, actions).updates[t].Paying?
    ensures var q := DbRun(terms, actions);
            && DbTotalCredit(q.db) == q.deposited + Sum(StrandedOf(q.updates))
            && forall t :: t in q.updates && q.updates[t].Stranded? ==>
                 terms.minBalance.Some? && q.updates[t].total < terms.minBalance.value
  {
    var p, q := Run(terms, Mirror(terms, actions)), DbRun(terms, actions);
    DbLedgerAlwaysBalances(terms, actions);
    SumSkipsZeros(OutstandingOf(q.updates), StrandedOf(q.updates));
    RunSimilar(terms, actions);
    LedgerAlwaysBalances(terms, Mirror(terms, actions));
    forall t | t in q.updates && q.updates[t].Stranded?
      ensures terms.minBalance.Some? && q.updates[t].total < terms.minBalance.value {
      assert SamePhase(p.updates[t], q.updates[t]) && Justified(terms, p.updates[t]);
    }
  }
}
