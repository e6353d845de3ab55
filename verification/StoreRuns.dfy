/**
 * Whole runs of the two stores side by side: every call goes to both, and the database may drop expired nonces between
 * calls. The theorems say which answers agree on every run, and exactly which calls can make the others differ.
 */
module StoreRuns {
  import opened Wrappers
  import opened StoreTypes
  import opened StoreRefinement
  import opened NonceExpiry
  import opened Cardinality
  import M = MemorySpec
  import B = BadgerSpec

  datatype Event = Call(op: Op) | Expire(ids: set<string>, now: Time)

  function MemAfter(m: M.Mem, e: Event): M.Mem {
    match e case Call(op) => M.Step(m, op).0 case Expire(_, _) => m
  }

  function DbAfter(db: B.DB, e: Event): B.DB {
    match e case Call(op) => B.Step(db, op).0 case Expire(ids, _) => Forget(db, ids)
  }

  function MemRun(es: seq<Event>): M.Mem {
    if es == [] then M.EMPTY else MemAfter(MemRun(es[..|es| - 1]), es[|es| - 1])
  }

  function DbRun(es: seq<Event>): B.DB {
    if es == [] then B.EMPTY else DbAfter(DbRun(es[..|es| - 1]), es[|es| - 1])
  }

  // Peers.

  /** Both stores have recorded the same peers, with the same stamps, for every node. */
  ghost predicate PeersAgree(m: M.Mem, db: B.DB) {
    forall id :: id in m.nodes ==> m.nodes[id].peers == B.RecordedPeers(db, id)
  }

  /**
   * The calls on which the stores treat peers alike. Registering a node again clears its recorded peers in memory
   * only, and a node that lists itself is stamped with its previous LastSeen in memory but with `now` in badger.
   */
  predicate TreatsPeersAlike(m: M.Mem, op: Op) {
    match op
    case SetNode(n) => n.id in m.nodes && n.id != "" ==> m.nodes[n.id].peers == map[]
    case UpdateNodePeers(id, listed, _, now) => id in m.nodes && id in listed ==> m.nodes[id].node.lastSeen == now
    case _ => true
  }

  lemma SetNodePeers(m: M.Mem, db: B.DB, n: Node)
    requires Agree(m, db) && PeersAgree(m, db)
    ensures PeersAgree(M.SetNode(m, n).0, B.SetNode(db, n).0) <==> TreatsPeersAlike(m, SetNode(n))
  {
    if n.id != "" {
      var m1, db1 := M.SetNode(m, n).0, B.SetNode(db, n).0;
      assert m1.nodes[n.id].peers == map[];
      assert B.RecordedPeers(db1, n.id) == B.RecordedPeers(db, n.id);
      if TreatsPeersAlike(m, SetNode(n)) {
        forall id | id in m1.nodes ensures m1.nodes[id].peers == B.RecordedPeers(db1, id) {
          if id == n.id {
            assert id !in m.nodes ==> id !in db.peers;
          }
        }
      }
    }
  }

  lemma StampAgrees(m: M.Mem, db: B.DB, id: NodeID, listed: seq<NodeID>, now: Time, p: NodeID)
    requires id in m.nodes && db.nodes == M.NodeRecords(m) && m.nodes[id].peers == B.RecordedPeers(db, id)
    ensures var x, y := M.Reported(m, id, listed), B.Reported(db, id, listed, now);
            (p in x <==> p in y) && (p in x ==> y[p] == if p == id && id in listed then now else x[p])
  {
  }

  lemma StampsAgree(m: M.Mem, db: B.DB, id: NodeID, listed: seq<NodeID>, now: Time)
    requires id in m.nodes && db.nodes == M.NodeRecords(m) && m.nodes[id].peers == B.RecordedPeers(db, id)
    ensures B.Reported(db, id, listed, now)
         == if id in listed then M.Reported(m, id, listed)[id := now] else M.Reported(m, id, listed)
  {
    var x, y := M.Reported(m, id, listed), B.Reported(db, id, listed, now);
    forall p ensures p in x <==> p in y
             ensures p in x ==> y[p] == if p == id && id in listed then now else x[p] {
      StampAgrees(m, db, id, listed, now, p);
    }
    if id in listed {
      StampAgrees(m, db, id, listed, now, id);
      assert y == x[id := now];
    } else {
      assert y == x;
    }
  }

  /** A stamp of `now` is always fresh; any other stamp leaves a different map behind. */
  lemma OwnStamp(stamps: map<NodeID, Time>, id: NodeID, now: Time)
    requires id in stamps
    ensures M.Fresh(stamps, now) == M.Fresh(stamps[id := now], now) <==> stamps[id] == now
    ensures stamps[id] == now ==> stamps[id := now] == stamps
  {
    if stamps[id] == now {
      assert stamps[id := now] == stamps;
    } else {
      assert M.Fresh(stamps[id := now], now)[id] == now;
      assert id in M.Fresh(stamps, now) ==> M.Fresh(stamps, now)[id] != now;
    }
  }

  lemma OwnPeersAfterUpdate(m: M.Mem, db: B.DB, id: NodeID, listed: seq<NodeID>, now: Time)
    requires id in m.nodes && db.nodes == M.NodeRecords(m) && m.nodes[id].peers == B.RecordedPeers(db, id)
    ensures var x, y := M.Reported(m, id, listed), B.Reported(db, id, listed, now);
            && (M.Fresh(x, now) == M.Fresh(y, now) <==> (id in listed ==> m.nodes[id].node.lastSeen == now))
            && (M.Fresh(x, now) == M.Fresh(y, now) ==> M.Stale(x, now) == M.Stale(y, now))
  {
    StampsAgree(m, db, id, listed, now);
    if id in listed {
      OwnStamp(M.Reported(m, id, listed), id, now);
    }
  }

  /** Writing the peers of one node in both stores keeps them equal exactly if the same stamps are written. */
  lemma PutPeers(m: M.Mem, db: B.DB, id: NodeID, n: M.MemNode, stamps: map<NodeID, Time>, x: M.Mem, y: B.DB)
    requires PeersAgree(m, db) && x == m.(nodes := m.nodes[id := n])
    requires y == db.(nodes := y.nodes, peers := db.peers[id := stamps])
    ensures PeersAgree(x, y) <==> n.peers == stamps
  {
    forall other | other in m.nodes && other != id ensures x.nodes[other].peers == B.RecordedPeers(y, other) {
      assert m.nodes[other].peers == B.RecordedPeers(db, other);
    }
    assert x.nodes[id].peers == n.peers && B.RecordedPeers(y, id) == stamps;
  }

  lemma InactiveAgree(m: M.Mem, db: B.DB, id: NodeID, listed: seq<NodeID>, block: nat, now: Time)
    requires db.nodes == M.NodeRecords(m) && PeersAgree(m, db)
    requires TreatsPeersAlike(m, UpdateNodePeers(id, listed, block, now))
    ensures M.UpdateNodePeers(m, id, listed, block, now).1 == B.UpdateNodePeers(db, id, listed, block, now).1
  {
    if id in m.nodes {
      OwnPeersAfterUpdate(m, db, id, listed, now);
    }
  }

  lemma UpdatedRecords(m: M.Mem, db: B.DB, id: NodeID, listed: seq<NodeID>, block: nat, now: Time, x: M.Mem, y: B.DB)
    requires id in m.nodes && id in db.nodes
    requires x == M.UpdateNodePeers(m, id, listed, block, now).0
    requires y == B.UpdateNodePeers(db, id, listed, block, now).0
    ensures id in x.nodes && x == m.(nodes := m.nodes[id := x.nodes[id]])
    ensures x.nodes[id].peers == M.Fresh(M.Reported(m, id, listed), now)
    ensures y == db.(nodes := y.nodes, peers := db.peers[id := M.Fresh(B.Reported(db, id, listed, now), now)])
  {
  }

  lemma UpdatedPeers(m: M.Mem, db: B.DB, id: NodeID, listed: seq<NodeID>, now: Time, x: M.Mem, y: B.DB)
    requires id in m.nodes && db.nodes == M.NodeRecords(m) && PeersAgree(m, db)
    requires id in x.nodes && x == m.(nodes := m.nodes[id := x.nodes[id]])
    requires x.nodes[id].peers == M.Fresh(M.Reported(m, id, listed), now)
    requires y == db.(nodes := y.nodes, peers := db.peers[id := M.Fresh(B.Reported(db, id, listed, now), now)])
    ensures PeersAgree(x, y) <==> (id in listed ==> m.nodes[id].node.lastSeen == now)
  {
    OwnPeersAfterUpdate(m, db, id, listed, now);
    PutPeers(m, db, id, x.nodes[id], M.Fresh(B.Reported(db, id, listed, now), now), x, y);
  }

  /** A peer update keeps the recorded peers equal exactly if it treats peers alike; then the inactive ones agree. */
  lemma UpdatePeers(m: M.Mem, db: B.DB, id: NodeID, listed: seq<NodeID>, block: nat, now: Time)
    requires db.nodes == M.NodeRecords(m) && PeersAgree(m, db)
    ensures var x, y := M.UpdateNodePeers(m, id, listed, block, now), B.UpdateNodePeers(db, id, listed, block, now);
            var alike := TreatsPeersAlike(m, UpdateNodePeers(id, listed, block, now));
            (PeersAgree(x.0, y.0) <==> alike) && (alike ==> x.1 == y.1)
  {
    var x, y := M.UpdateNodePeers(m, id, listed, block, now).0, B.UpdateNodePeers(db, id, listed, block, now).0;
    if id in m.nodes {
      UpdatedRecords(m, db, id, listed, block, now, x, y);
      UpdatedPeers(m, db, id, listed, now, x, y);
    }
    if TreatsPeersAlike(m, UpdateNodePeers(id, listed, block, now)) {
      InactiveAgree(m, db, id, listed, block, now);
    }
  }

  /** Exactly the calls that treat peers alike keep the recorded peers equal; on them the answers are equal too. */
  lemma {:induction false} PeersStep(m: M.Mem, db: B.DB, op: Op)
    requires Agree(m, db) && PeersAgree(m, db)
    ensures PeersAgree(M.Step(m, op).0, B.Step(db, op).0) <==> TreatsPeersAlike(m, op)
    ensures TreatsPeersAlike(m, op) && !op.CheckAndSaveNonce? ==> M.Step(m, op).1 == B.Step(db, op).1
  {
    StepAgrees(m, db, op);
    match op
    case SetNode(n) => SetNodePeers(m, db, n);
    case UpdateNodePeers(id, listed, block, now) => UpdatePeers(m, db, id, listed, block, now);
    case _ => OtherCallsKeepPeers(m, db, op);
  }

  lemma {:induction false} OtherCallsKeepPeers(m: M.Mem, db: B.DB, op: Op)
    requires !op.SetNode? && !op.UpdateNodePeers?
    ensures M.Step(m, op).0.nodes == m.nodes && B.Step(db, op).0.peers == db.peers
    ensures M.Step(m, op).1.Ok? ==> M.Step(m, op).1.value == {}
    ensures B.Step(db, op).1.Ok? ==> B.Step(db, op).1.value == {}
  {
  }

  /** Every call of the run so far treated peers alike. */
  predicate PeersDiscipline(es: seq<Event>) {
    es == [] || (
      && PeersDiscipline(es[..|es| - 1])
      && (es[|es| - 1].Call? ==> TreatsPeersAlike(MemRun(es[..|es| - 1]), es[|es| - 1].op)))
  }

  // Nonces.

  /** The last clock reading of a nonce check or expiry. Clocks start past EXPIRE_NONCE. */
  function Clock(es: seq<Event>): Time {
    if es == [] then EXPIRE_NONCE else
      match es[|es| - 1]
      case Call(CheckAndSaveNonce(_, _, now)) => now
      case Expire(_, now) => now
      case _ => Clock(es[..|es| - 1])
  }

  /** The clock never goes back, no accepted nonce is ahead of it, and only nonces whose time has passed expire. */
  predicate NonceDiscipline(es: seq<Event>, grain: nat) {
    es == [] || (
      var before := es[..|es| - 1];
      && NonceDiscipline(before, grain)
      && match es[|es| - 1]
         case Call(CheckAndSaveNonce(id, nonce, now)) =>
           Clock(before) <= now && (M.CheckAndSaveNonce(MemRun(before), id, nonce, now).1.Ok? ==> nonce <= now - grain)
         case Expire(ids, now) => Clock(before) <= now && MayForget(DbRun(before), ids, now, grain)
         case _ => true)
  }

  lemma {:induction false} OtherCallsKeepNonces(m: M.Mem, db: B.DB, op: Op)
    requires !op.CheckAndSaveNonce?
    ensures M.Step(m, op).0.nonces == m.nonces && B.Step(db, op).0.nonces == db.nonces
  {
  }

  // The theorems.

  lemma {:induction false} ClockPastExpiry(es: seq<Event>, grain: nat)
    requires NonceDiscipline(es, grain)
    ensures EXPIRE_NONCE <= Clock(es)
  {
    if es != [] {
      ClockPastExpiry(es[..|es| - 1], grain);
    }
  }

  /** On every run the stores agree; on disciplined runs they agree on peers and on nonces as well. */
  lemma {:induction false} RunsAgree(es: seq<Event>, grain: nat)
    ensures Agree(MemRun(es), DbRun(es))
    ensures PeersDiscipline(es) ==> PeersAgree(MemRun(es), DbRun(es))
    ensures NonceDiscipline(es, grain) ==> NoncesAgree(MemRun(es), DbRun(es), Clock(es), grain)
    decreases |es|
  {
    if es != [] {
      var before, e := es[..|es| - 1], es[|es| - 1];
      RunsAgree(before, grain);
      var m, db := MemRun(before), DbRun(before);
      match e
      case Expire(ids, now) =>
        if NonceDiscipline(es, grain) {
          ForgetAgrees(m, db, ids, now, Clock(before), grain);
        }
      case Call(op) =>
        StepAgrees(m, db, op);
        if PeersDiscipline(es) {
          PeersStep(m, db, op);
        }
        if NonceDiscipline(es, grain) {
          NonceStep(m, db, op, before, es, grain);
        }
    }
  }

  lemma {:induction false} NonceStep(m: M.Mem, db: B.DB, op: Op, before: seq<Event>, es: seq<Event>, grain: nat)
    requires es == before + [Call(op)] && NonceDiscipline(es, grain)
    requires m == MemRun(before) && db == DbRun(before) && NoncesAgree(m, db, Clock(before), grain)
    ensures NoncesAgree(M.Step(m, op).0, B.Step(db, op).0, Clock(es), grain)
    ensures op.CheckAndSaveNonce? ==> M.Step(m, op).1 == B.Step(db, op).1
  {
    assert es[..|es| - 1] == before && es[|es| - 1] == Call(op);
    ClockPastExpiry(before, grain);
    match op
    case CheckAndSaveNonce(id, nonce, now) => CheckAgrees(m, db, id, nonce, now, Clock(before), grain);
    case _ => OtherCallsKeepNonces(m, db, op);
  }

  /**
   * The refinement theorem for the answer to any next call after any run: errors always agree, the reported inactive
   * peers agree as long as peers were treated alike, and nonce verdicts as long as nonces were disciplined.
   */
  lemma {:induction false} NextAnswerAgrees(es: seq<Event>, op: Op, grain: nat)
    ensures var x, y := M.Step(MemRun(es), op).1, B.Step(DbRun(es), op).1;
            && (!op.CheckAndSaveNonce? ==> Verdict(x) == Verdict(y))
            && (!op.CheckAndSaveNonce? && PeersDiscipline(es + [Call(op)]) ==> x == y)
            && (op.CheckAndSaveNonce? && NonceDiscipline(es + [Call(op)], grain) ==> x == y)
  {
    RunsAgree(es, grain);
    StepAgrees(MemRun(es), DbRun(es), op);
    var next := es + [Call(op)];
    assert next[..|next| - 1] == es && next[|next| - 1] == Call(op);
    if PeersDiscipline(next) {
      PeersStep(MemRun(es), DbRun(es), op);
    }
    if NonceDiscipline(next, grain) {
      NonceStep(MemRun(es), DbRun(es), op, es, next, grain);
    }
  }

  /** The stores have recorded the same peers at every moment of the run. */
  ghost predicate PeersAlwaysAgree(es: seq<Event>) {
    PeersAgree(MemRun(es), DbRun(es)) && (es == [] || PeersAlwaysAgree(es[..|es| - 1]))
  }

  /** The recorded peers agree throughout a run if and only if every call treated peers alike. */
  lemma {:induction false} PeersAgreeThroughout(es: seq<Event>)
    ensures PeersAlwaysAgree(es) <==> PeersDiscipline(es)
    decreases |es|
  {
    if es != [] {
      var before, e := es[..|es| - 1], es[|es| - 1];
      PeersAgreeThroughout(before);
      if PeersAlwaysAgree(before) && e.Call? {
        RunsAgree(before, 0);
        PeersStep(MemRun(before), DbRun(before), e.op);
      }
    }
  }

  /** After any run every query gets the same answer from both stores: credits, bindings, records, hosts and totals. */
  lemma {:induction false} QueriesAgree(es: seq<Event>, id: NodeID, account: Account, kind: string, now: Time)
    ensures var m, db := MemRun(es), DbRun(es);
            && M.GetNodeBalance(m, id).Ok? == B.GetNodeBalance(db, id).Ok?
            && (M.GetNodeBalance(m, id).Ok? ==>
                  Unlabelled(M.GetNodeBalance(m, id).value) == Unlabelled(B.GetNodeBalance(db, id).value))
            && Unlabelled(BalanceAt(m.balances, account)) == Unlabelled(BalanceAt(db.balances, account))
            && M.IsAccountNode(m, account, id) == B.IsAccountNode(db, account, id)
            && M.GetAccountNodes(m, account) == B.GetAccountNodes(db, account)
            && M.GetNode(m, id) == B.GetNode(db, id)
            && M.EligibleHosts(m, kind, now) == B.EligibleHosts(db, kind, now)
            && M.NodePeers(m, id).Ok? == B.NodePeers(db, id).Ok?
            && (PeersDiscipline(es) ==> M.NodePeers(m, id) == B.NodePeers(db, id))
  {
    RunsAgree(es, 0);
    var m, db := MemRun(es), DbRun(es);
    GetNodeBalanceAgrees(m, db, id);
    ActiveHostsAgrees(m, db, kind, now);
    assert account in m.balances ==> Unlabelled(db.balances[account]) == Unlabelled(m.balances[account]);
    if PeersDiscipline(es) && id in m.nodes {
      var peers := m.nodes[id].peers;
      assert peers == B.RecordedPeers(db, id);
      assert (set p | p in peers && p in m.nodes :: m.nodes[p].node)
          == (set p | p in peers && p in db.nodes :: db.nodes[p]);
    }
  }

  // Account labels: memory labels a balance when a node is bound to it, badger also when it is credited directly.

  /** Some registered node was bound to `a` during the run. */
  predicate Linked(es: seq<Event>, a: Account) {
    es != [] && (
      || Linked(es[..|es| - 1], a)
      || (match es[|es| - 1]
          case Call(AddAccountNode(b, id)) => b == a && id in MemRun(es[..|es| - 1]).nodes
          case _ => false))
  }

  /** `a` was credited directly during the run. */
  predicate Funded(es: seq<Event>, a: Account) {
    es != [] && (
      || Funded(es[..|es| - 1], a)
      || (match es[|es| - 1]
          case Call(AddAccountBalance(b, _)) => b == a
          case _ => false))
  }

  lemma {:induction false} MemLabelStep(m: M.Mem, op: Op, a: Account)
    ensures BalanceAt(M.Step(m, op).0.balances, a).account
         == if op.AddAccountNode? && op.account == a && op.id in m.nodes then a else BalanceAt(m.balances, a).account
  {
  }

  lemma {:induction false} DbLabelStep(db: B.DB, op: Op, a: Account)
    ensures BalanceAt(B.Step(db, op).0.balances, a).account
         == if || (op.AddAccountNode? && op.account == a && op.id in db.nodes)
               || (op.AddAccountBalance? && op.account == a)
            then a else BalanceAt(db.balances, a).account
  {
  }

  lemma {:induction false} LabelsAfter(es: seq<Event>, a: Account)
    ensures BalanceAt(MemRun(es).balances, a).account == if Linked(es, a) then a else ""
    ensures BalanceAt(DbRun(es).balances, a).account == if Linked(es, a) || Funded(es, a) then a else ""
    decreases |es|
  {
    if es != [] {
      var before, e := es[..|es| - 1], es[|es| - 1];
      LabelsAfter(before, a);
      RunsAgree(before, 0);
      if e.Call? {
        MemLabelStep(MemRun(before), e.op, a);
        DbLabelStep(DbRun(before), e.op, a);
      }
    }
  }

  /** The label of an account's balance differs between the stores exactly when it was funded but never linked. */
  lemma {:induction false} LabelsAgreeExactly(es: seq<Event>, a: Account)
    ensures BalanceAt(MemRun(es).balances, a).account == BalanceAt(DbRun(es).balances, a).account
       <==> a == "" || Linked(es, a) || !Funded(es, a)
  {
    LabelsAfter(es, a);
  }

  /** No account other than the empty one was credited directly without ever being linked. */
  ghost predicate FundedAreLinked(es: seq<Event>) {
    forall a :: a != "" && Funded(es, a) ==> Linked(es, a)
  }

  lemma UnownedInBoth(es: seq<Event>, a: Account)
    ensures a in M.Unowned(DbRun(es).balances) ==> a in M.Unowned(MemRun(es).balances)
    ensures a in M.Unowned(MemRun(es).balances) && a !in M.Unowned(DbRun(es).balances) <==>
              a != "" && Funded(es, a) && !Linked(es, a)
  {
    LabelsAfter(es, a);
    RunsAgree(es, 0);
  }

  /** The numbers of unlabelled balances agree exactly if every account that was credited directly was also linked. */
  lemma UnownedAgreeExactly(es: seq<Event>)
    ensures |M.Unowned(MemRun(es).balances)| == |M.Unowned(DbRun(es).balances)| <==> FundedAreLinked(es)
  {
    var x, y := M.Unowned(MemRun(es).balances), M.Unowned(DbRun(es).balances);
    forall a ensures a in y ==> a in x
             ensures a in x && a !in y <==> a != "" && Funded(es, a) && !Linked(es, a) {
      UnownedInBoth(es, a);
    }
    SplitSize(x, y);
    assert x * y == y;
    if FundedAreLinked(es) {
      assert x - y == {};
    } else {
      var a :| a != "" && Funded(es, a) && !Linked(es, a);
      assert a in x - y;
    }
  }

  /**
   * After any run the aggregate statistics agree but for the number of unlabelled balances; all of them agree exactly
   * if every account that was credited directly was also linked.
   */
  lemma {:induction false} TotalsAgree(es: seq<Event>, now: Time)
    ensures var m, db := MemRun(es), DbRun(es);
            var x := M.StatsOf(M.NodeRecords(m), m.balances, m.trials, now);
            var y := M.StatsOf(db.nodes, db.balances, db.trials, now);
            && x.(numTrialBalances := 0) == y.(numTrialBalances := 0)
            && (x == y <==> FundedAreLinked(es))
  {
    RunsAgree(es, 0);
    StatsAgree(MemRun(es), DbRun(es), now);
    UnownedAgreeExactly(es);
  }

  /** One direct credit is enough: memory then counts one more unlabelled balance than badger. */
  lemma FundingAloneDiffers()
    ensures var es := [Call(AddAccountBalance("a", 1))];
            |M.Unowned(MemRun(es).balances)| == 1 && |M.Unowned(DbRun(es).balances)| == 0
  {
    var op := AddAccountBalance("a", 1);
    RunAppend([], Call(op));
    assert [] + [Call(op)] == [Call(op)];
    assert M.Unowned(M.AddAccountBalance(M.EMPTY, "a", 1).balances) == {"a"};
    assert M.Unowned(B.AddAccountBalance(B.EMPTY, "a", 1).balances) == {};
  }

  /** The nonces that the badger store accepted for `id`, in order. */
  function Accepted(es: seq<Event>, id: string): seq<int> {
    if es == [] then [] else
      var before := es[..|es| - 1];
      match es[|es| - 1]
      case Call(CheckAndSaveNonce(i, nonce, now)) =>
        Accepted(before, id)
        + if i == id && B.CheckAndSaveNonce(DbRun(before), i, nonce, now).1.Ok? then [nonce] else []
      case _ => Accepted(before, id)
  }

  /** `a` increases strictly and stays at or below the nonce that memory holds for `id`. */
  ghost predicate IncreasesTo(a: seq<int>, nonces: map<string, int>, id: string) {
    && (forall i, j :: 0 <= i < j < |a| ==> a[i] < a[j])
    && (forall i :: 0 <= i < |a| ==> id in nonces && a[i] <= nonces[id])
  }

  lemma CheckIncreases(a: seq<int>, m: M.Mem, id: string, i: string, nonce: int, now: Time)
    requires IncreasesTo(a, m.nonces, id)
    ensures var (after, r) := M.CheckAndSaveNonce(m, i, nonce, now);
            IncreasesTo(a + if i == id && r.Ok? then [nonce] else [], after.nonces, id)
  {
  }

  /** Forgetting notwithstanding, the accepted nonces of an ID strictly increase over the whole disciplined run. */
  lemma {:induction false} AcceptedIncreases(es: seq<Event>, id: string, grain: nat)
    requires NonceDiscipline(es, grain)
    ensures IncreasesTo(Accepted(es, id), MemRun(es).nonces, id)
    decreases |es|
  {
    if es != [] {
      var before, e := es[..|es| - 1], es[|es| - 1];
      AcceptedIncreases(before, id, grain);
      RunsAgree(before, grain);
      var m := MemRun(before);
      match e
      case Expire(_, _) => assert Accepted(es, id) == Accepted(before, id);
      case Call(op) =>
        assert es == before + [Call(op)];
        NonceStep(m, DbRun(before), op, before, es, grain);
        match op
        case CheckAndSaveNonce(i, nonce, now) =>
          var accepted := M.CheckAndSaveNonce(m, i, nonce, now).1.Ok?;
          assert accepted == M.Step(m, op).1.Ok? == B.CheckAndSaveNonce(DbRun(before), i, nonce, now).1.Ok?;
          assert Accepted(es, id) == Accepted(before, id) + if i == id && accepted then [nonce] else [];
          CheckIncreases(Accepted(before, id), m, id, i, nonce, now);
        case _ =>
          OtherCallsKeepNonces(m, DbRun(before), op);
          assert Accepted(es, id) == Accepted(before, id);
    }
  }

  // Two runs on which the recorded peers part ways, one for each clause of `TreatsPeersAlike`.

  const ALICE := Node("alice", "", 0, "", false, "", 0, "", "")
  const BOB := Node("bob", "", 0, "", false, "", 0, "", "")

  lemma RunAppend(es: seq<Event>, e: Event)
    ensures MemRun(es + [e]) == MemAfter(MemRun(es), e)
    ensures DbRun(es + [e]) == DbAfter(DbRun(es), e)
  {
    assert (es + [e])[..|es + [e]| - 1] == es;
  }

  /** A registered client that lists itself long after it was last seen is inactive in memory and active in badger. */
  lemma SelfListingDiffers()
    ensures var es := [Call(SetNode(ALICE))];
            var op := UpdateNodePeers("alice", ["alice"], 0, EXPIRE_INTERVAL);
            && M.Step(MemRun(es), op).1 == Ok({"alice"})
            && B.Step(DbRun(es), op).1 == Ok({})
  {
    var listed := ["alice"];
    RunAppend([], Call(SetNode(ALICE)));
    assert [] + [Call(SetNode(ALICE))] == [Call(SetNode(ALICE))];
    var m, db := M.SetNode(M.EMPTY, ALICE).0, B.SetNode(B.EMPTY, ALICE).0;
    assert listed[0] == "alice";
    assert M.Reported(m, "alice", listed) == map["alice" := 0];
    assert B.Reported(db, "alice", listed, EXPIRE_INTERVAL) == map["alice" := EXPIRE_INTERVAL];
    assert M.Stale(map["alice" := 0], EXPIRE_INTERVAL) == {"alice"};
    assert M.Stale(map["alice" := EXPIRE_INTERVAL], EXPIRE_INTERVAL) == {};
  }

  const MET_MEM :=
    M.EMPTY.(nodes := map["alice" := M.MemNode(ALICE, map["bob" := 0]), "bob" := M.MemNode(BOB, map[])])
  const MET_DB := B.EMPTY.(nodes := map["alice" := ALICE, "bob" := BOB], peers := map["alice" := map["bob" := 0]])

  /** Two nodes register and one reports the other. */
  const MEETING := [Call(SetNode(ALICE)), Call(SetNode(BOB)), Call(UpdateNodePeers("alice", ["bob"], 0, 0))]

  lemma MemReportBob(m: M.Mem)
    requires m == M.EMPTY.(nodes := map["alice" := M.MemNode(ALICE, map[]), "bob" := M.MemNode(BOB, map[])])
    ensures M.UpdateNodePeers(m, "alice", ["bob"], 0, 0).0 == MET_MEM
  {
    var listed := ["bob"];
    assert listed[0] == "bob";
    assert M.Reported(m, "alice", listed) == map["bob" := 0];
    assert M.Fresh(map["bob" := 0], 0) == map["bob" := 0];
  }

  lemma DbReportBob(db: B.DB)
    requires db == B.EMPTY.(nodes := map["alice" := ALICE, "bob" := BOB])
    ensures B.UpdateNodePeers(db, "alice", ["bob"], 0, 0).0 == MET_DB
  {
    var listed := ["bob"];
    assert listed[0] == "bob";
    assert B.Reported(db, "alice", listed, 0) == map["bob" := 0];
    assert M.Fresh(map["bob" := 0], 0) == map["bob" := 0];
  }

  lemma BothRegistered()
    ensures MemRun(MEETING[..2])
         == M.EMPTY.(nodes := map["alice" := M.MemNode(ALICE, map[]), "bob" := M.MemNode(BOB, map[])])
    ensures DbRun(MEETING[..2]) == B.EMPTY.(nodes := map["alice" := ALICE, "bob" := BOB])
  {
    var one := [Call(SetNode(ALICE))];
    assert [] + one == one && MEETING[..2] == one + [Call(SetNode(BOB))];
    RunAppend([], Call(SetNode(ALICE)));
    RunAppend(one, Call(SetNode(BOB)));
  }

  lemma MetAfterMeeting()
    ensures MemRun(MEETING) == MET_MEM && DbRun(MEETING) == MET_DB
  {
    BothRegistered();
    MemReportBob(MemRun(MEETING[..2]));
    DbReportBob(DbRun(MEETING[..2]));
    assert MEETING == MEETING[..2] + [Call(UpdateNodePeers("alice", ["bob"], 0, 0))];
    RunAppend(MEETING[..2], Call(UpdateNodePeers("alice", ["bob"], 0, 0)));
  }

  lemma MemForgetsBob()
    ensures M.NodePeers(M.SetNode(MET_MEM, ALICE).0, "alice") == Ok({})
  {
    assert M.NodePeers(M.SetNode(MET_MEM, ALICE).0, "alice").value == {};
  }

  lemma DbRemembersBob()
    ensures B.NodePeers(B.SetNode(MET_DB, ALICE).0, "alice") == Ok({BOB})
  {
    var nodes := map["alice" := ALICE, "bob" := BOB];
    assert nodes["alice" := ALICE] == nodes;
    assert B.SetNode(MET_DB, ALICE).0.nodes == nodes;
    var peers := map["bob" := 0];
    assert B.RecordedPeers(B.SetNode(MET_DB, ALICE).0, "alice") == peers;
    assert (set p | p in peers && p in nodes :: nodes[p]) == {BOB} by {
      assert "bob" in peers && nodes["bob"] == BOB;
    }
  }

  /** When one of them registers again, memory forgets a peer that badger still reports. */
  lemma RegisteringAgainDiffers()
    ensures M.NodePeers(M.SetNode(MemRun(MEETING), ALICE).0, "alice") == Ok({})
    ensures B.NodePeers(B.SetNode(DbRun(MEETING), ALICE).0, "alice") == Ok({BOB})
  {
    MetAfterMeeting();
    MemForgetsBob();
    DbRemembersBob();
  }
}
