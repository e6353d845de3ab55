/**
 * The badger store refines the memory store: fed the same calls and clock readings, the two give the same answers.
 */
module StoreRefinement {
  import opened Wrappers
  import opened StoreTypes
  import M = MemorySpec
  import B = BadgerSpec

  /** The ledger and node tables hold the same facts; only registered nodes have peers. */
  ghost predicate Agree(m: M.Mem, db: B.DB) {
    && M.Valid(m)
    && db.accounts == m.accounts
    && db.trials == m.trials
    && db.nodes == M.NodeRecords(m)
    && SameMoney(db.balances, m.balances)
    && db.peers.Keys <= m.nodes.Keys
  }

  /** Same accounts, same balances, up to the account label. */
  ghost predicate SameMoney(b: map<Account, Balance>, c: map<Account, Balance>) {
    && b.Keys == c.Keys
    && forall a :: a in b ==> Unlabelled(b[a]) == Unlabelled(c[a])
  }

  function Unlabelled(b: Balance): Balance {
    b.(account := "")
  }

  lemma NodesStayEqual(m: M.Mem, id: NodeID, n: M.MemNode)
    ensures M.NodeRecords(m.(nodes := m.nodes[id := n])) == M.NodeRecords(m)[id := n.node]
  {
  }

  lemma PutTrialAgrees(m: M.Mem, db: B.DB, id: NodeID, b: Balance)
    requires Agree(m, db) && id in m.nodes && id !in m.accounts && b.account == ""
    ensures Agree(m.(trials := m.trials[id := b]), db.(trials := db.trials[id := b]))
  {
  }

  lemma PutBalanceAgrees(m: M.Mem, db: B.DB, a: Account, b: Balance, c: Balance)
    requires Agree(m, db) && Unlabelled(b) == Unlabelled(c)
    ensures Agree(M.PutBalance(m, a, b), db.(balances := db.balances[a := c]))
  {
  }

  lemma BindAgrees(m: M.Mem, db: B.DB, a: Account, id: NodeID)
    requires Agree(m, db) && id in m.nodes && a in m.balances
    ensures Agree(m.(accounts := m.accounts[id := a], trials := m.trials - {id}),
                  db.(accounts := db.accounts[id := a], trials := db.trials - {id}))
  {
  }

  /** Both stores find the same money for a node, or both call it unregistered. */
  lemma GetNodeBalanceAgrees(m: M.Mem, db: B.DB, id: NodeID)
    requires Agree(m, db)
    ensures M.GetNodeBalance(m, id).Ok? <==> B.GetNodeBalance(db, id).Ok?
    ensures M.GetNodeBalance(m, id).Ok? ==>
              Unlabelled(M.GetNodeBalance(m, id).value) == Unlabelled(B.GetNodeBalance(db, id).value)
    ensures id in m.nodes && id !in m.accounts ==> M.GetNodeBalance(m, id) == B.GetNodeBalance(db, id)
  {
    if id in m.accounts {
      var a := m.accounts[id];
      assert Unlabelled(db.balances[a]) == Unlabelled(m.balances[a]);
    }
  }

  lemma AddAccountBalanceAgrees(m: M.Mem, db: B.DB, a: Account, amount: int)
    requires Agree(m, db)
    ensures Agree(M.AddAccountBalance(m, a, amount), B.AddAccountBalance(db, a, amount))
  {
    var b := AddCredit(BalanceAt(m.balances, a), amount);
    var c := AddCredit(BalanceAt(db.balances, a), amount);
    assert Unlabelled(BalanceAt(m.balances, a)) == Unlabelled(BalanceAt(db.balances, a));
    PutBalanceAgrees(m, db, a, b, c.(account := a));
  }

  lemma AddNodeBalanceAgrees(m: M.Mem, db: B.DB, id: NodeID, amount: int)
    requires Agree(m, db)
    ensures Agree(M.AddNodeBalance(m, id, amount).0, B.AddNodeBalance(db, id, amount).0)
    ensures M.AddNodeBalance(m, id, amount).1 == B.AddNodeBalance(db, id, amount).1
  {
    GetNodeBalanceAgrees(m, db, id);
    if id in m.nodes {
      var b := AddCredit(M.GetNodeBalance(m, id).value, amount);
      var c := AddCredit(B.GetNodeBalance(db, id).value, amount);
      if id in m.accounts {
        PutBalanceAgrees(m, db, m.accounts[id], b, c);
      } else {
        PutTrialAgrees(m, db, id, b);
      }
    }
  }

  lemma AddAccountNodeAgrees(m: M.Mem, db: B.DB, a: Account, id: NodeID)
    requires Agree(m, db)
    ensures Agree(M.AddAccountNode(m, a, id).0, B.AddAccountNode(db, a, id).0)
    ensures M.AddAccountNode(m, a, id).1 == B.AddAccountNode(db, a, id).1
  {
    if id in m.nodes {
      var trial := BalanceAt(m.trials, id).credit;
      assert Unlabelled(BalanceAt(m.balances, a)) == Unlabelled(BalanceAt(db.balances, a));
      var b := AddCredit(BalanceAt(m.balances, a), trial).(account := a);
      var c := AddCredit(BalanceAt(db.balances, a), trial).(account := a);
      PutBalanceAgrees(m, db, a, b, c);
      BindAgrees(M.PutBalance(m, a, b), db.(balances := db.balances[a := c]), a, id);
    }
  }

  lemma SetNodeAgrees(m: M.Mem, db: B.DB, n: Node)
    requires Agree(m, db)
    ensures Agree(M.SetNode(m, n).0, B.SetNode(db, n).0)
    ensures M.SetNode(m, n).1 == B.SetNode(db, n).1
  {
    M.SetNodeKeepsValid(m, n);
    NodesStayEqual(m, n.id, M.MemNode(n, map[]));
  }

  lemma UpdateNodePeersAgrees(m: M.Mem, db: B.DB, id: NodeID, listed: seq<NodeID>, block: nat, now: Time)
    requires Agree(m, db)
    ensures Agree(M.UpdateNodePeers(m, id, listed, block, now).0, B.UpdateNodePeers(db, id, listed, block, now).0)
    ensures M.UpdateNodePeers(m, id, listed, block, now).1.Ok? <==> B.UpdateNodePeers(db, id, listed, block, now).1.Ok?
    ensures M.UpdateNodePeers(m, id, listed, block, now).1.Err? ==>
              M.UpdateNodePeers(m, id, listed, block, now).1 == B.UpdateNodePeers(db, id, listed, block, now).1
  {
    M.UpdateNodePeersKeepsValid(m, id, listed, block, now);
    if id in m.nodes {
      NodesStayEqual(m, id, M.UpdateNodePeers(m, id, listed, block, now).0.nodes[id]);
    }
  }

  lemma ActiveHostsAgrees(m: M.Mem, db: B.DB, kind: string, now: Time)
    requires Agree(m, db)
    ensures B.EligibleHosts(db, kind, now) == M.EligibleHosts(m, kind, now)
    ensures (set id | id in B.EligibleHosts(db, kind, now) :: db.nodes[id])
         == (set id | id in M.EligibleHosts(m, kind, now) :: m.nodes[id].node)
  {
    assert B.EligibleHosts(db, kind, now) == M.EligibleHosts(m, kind, now);
  }

  lemma SameSums(b: map<Account, Balance>, c: map<Account, Balance>)
    requires SameMoney(b, c)
    ensures Credits(b) == Credits(c) && Deposits(b) == Deposits(c)
  {
    assert forall a :: a in b ==> Unlabelled(b[a]) == Unlabelled(c[a]);
  }

  /**
   * The two stores report the same sums and the same node counts. Their whole statistics are equal exactly if they hold
   * equally many account balances without a label.
   */
  lemma StatsAgree(m: M.Mem, db: B.DB, now: Time)
    requires Agree(m, db)
    ensures var x := M.StatsOf(M.NodeRecords(m), m.balances, m.trials, now);
            var y := M.StatsOf(db.nodes, db.balances, db.trials, now);
            && x.(numTrialBalances := 0) == y.(numTrialBalances := 0)
            && (x == y <==> |M.Unowned(m.balances)| == |M.Unowned(db.balances)|)
  {
    SameSums(db.balances, m.balances);
  }

  lemma NoncesDoNotMatter(m: M.Mem, db: B.DB, id: string, nonce: int, now: Time)
    requires Agree(m, db)
    ensures Agree(M.CheckAndSaveNonce(m, id, nonce, now).0, B.CheckAndSaveNonce(db, id, nonce, now).0)
  {
  }

  /** The verdict of a call, without the peers it reports. */
  function Verdict(r: Answer): Answer {
    match r case Ok(_) => Ok({}) case Err(e) => Err(e)
  }

  /** One call, whichever it is: both stores move to agreeing states and, nonces apart, give the same verdict. */
  lemma {:induction false} StepAgrees(m: M.Mem, db: B.DB, op: Op)
    requires Agree(m, db)
    ensures Agree(M.Step(m, op).0, B.Step(db, op).0)
    ensures !op.CheckAndSaveNonce? ==> Verdict(M.Step(m, op).1) == Verdict(B.Step(db, op).1)
  {
    match op
    case CheckAndSaveNonce(id, nonce, now) => NoncesDoNotMatter(m, db, id, nonce, now);
    case AddNodeBalance(id, amount) => AddNodeBalanceAgrees(m, db, id, amount);
    case AddAccountBalance(a, amount) => AddAccountBalanceAgrees(m, db, a, amount);
    case AddAccountNode(a, id) => AddAccountNodeAgrees(m, db, a, id);
    case SetNode(n) => SetNodeAgrees(m, db, n);
    case UpdateNodePeers(id, listed, block, now) => UpdateNodePeersAgrees(m, db, id, listed, block, now);
  }
}
