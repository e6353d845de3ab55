/** The statistics of a store, accumulated node by node and balance by balance. */
module StatsCounter {
  import opened StoreTypes
  import opened MapSums
  import opened Cardinality
  import M = MemorySpec

  /** The largest block number, with any node taken out first. */
  lemma {:induction false} LatestBlockRemove(nodes: map<NodeID, Node>, id: NodeID)
    requires id in nodes
    ensures var rest := M.LatestBlock(nodes - {id});
            M.LatestBlock(nodes) == if nodes[id].blockNumber > rest then nodes[id].blockNumber else rest
    decreases |nodes|
  {
    var other :| other in nodes
              && M.LatestBlock(nodes) == var rest := M.LatestBlock(nodes - {other});
                                         if nodes[other].blockNumber > rest then nodes[other].blockNumber else rest;
    if other != id {
      LatestBlockRemove(nodes - {other}, id);
      LatestBlockRemove(nodes - {id}, other);
      assert nodes - {other} - {id} == nodes - {id} - {other};
    }
  }

  lemma CountOneRole(nodes: map<NodeID, Node>, id: NodeID, n: Node, host: bool)
    requires id !in nodes
    ensures |M.OfRole(nodes[id := n], host)| == |M.OfRole(nodes, host)| + if M.HasRole(n, host) then 1 else 0
  {
    if M.HasRole(n, host) {
      assert M.OfRole(nodes[id := n], host) == M.OfRole(nodes, host) + {id};
    } else {
      assert M.OfRole(nodes[id := n], host) == M.OfRole(nodes, host);
    }
  }

  lemma CountOneActive(nodes: map<NodeID, Node>, id: NodeID, n: Node, host: bool, now: Time)
    requires id !in nodes
    ensures |M.ActiveOfRole(nodes[id := n], host, now)|
         == |M.ActiveOfRole(nodes, host, now)| + if M.HasRole(n, host) && Active(n, now) then 1 else 0
  {
    if M.HasRole(n, host) && Active(n, now) {
      assert M.ActiveOfRole(nodes[id := n], host, now) == M.ActiveOfRole(nodes, host, now) + {id};
    } else {
      assert M.ActiveOfRole(nodes[id := n], host, now) == M.ActiveOfRole(nodes, host, now);
    }
  }

  lemma OneMoreBlock(nodes: map<NodeID, Node>, id: NodeID, n: Node)
    requires id !in nodes
    ensures M.LatestBlock(nodes[id := n])
         == if n.blockNumber > M.LatestBlock(nodes) then n.blockNumber else M.LatestBlock(nodes)
  {
    LatestBlockRemove(nodes[id := n], id);
    assert nodes[id := n] - {id} == nodes;
  }

  lemma MoveOne<V>(rest: map<string, V>, counted: map<string, V>, k: string)
    requires k in rest && rest.Keys !! counted.Keys
    ensures (rest - {k}).Keys !! counted[k := rest[k]].Keys && (rest - {k}) + counted[k := rest[k]] == rest + counted
  {
  }

  /** CountNode over all nodes, in whatever order they are visited. */
  method CountNodes(nodes: map<NodeID, Node>, now: Time)
    returns (activeHosts: nat, totalHosts: nat, activeClients: nat, totalClients: nat, latest: nat)
    ensures activeHosts == |M.ActiveOfRole(nodes, true, now)| && totalHosts == |M.OfRole(nodes, true)|
    ensures activeClients == |M.ActiveOfRole(nodes, false, now)| && totalClients == |M.OfRole(nodes, false)|
    ensures latest == M.LatestBlock(nodes)
  {
    activeHosts, totalHosts, activeClients, totalClients, latest := 0, 0, 0, 0, 0;
    var rest := nodes;
    ghost var counted: map<NodeID, Node> := map[];
    while rest != map[]
      invariant rest.Keys !! counted.Keys && rest + counted == nodes
      invariant activeHosts == |M.ActiveOfRole(counted, true, now)| && totalHosts == |M.OfRole(counted, true)|
      invariant activeClients == |M.ActiveOfRole(counted, false, now)| && totalClients == |M.OfRole(counted, false)|
      invariant latest == M.LatestBlock(counted)
      decreases |rest|
    {
      var id :| id in rest;
      var n := rest[id];
      CountOneRole(counted, id, n, true);
      CountOneRole(counted, id, n, false);
      CountOneActive(counted, id, n, true, now);
      CountOneActive(counted, id, n, false, now);
      OneMoreBlock(counted, id, n);
      MoveOne(rest, counted, id);
      rest, counted := rest - {id}, counted[id := n];
      if n.isHost {
        totalHosts := totalHosts + 1;
        if Active(n, now) {
          activeHosts := activeHosts + 1;
        }
      } else {
        totalClients := totalClients + 1;
        if Active(n, now) {
          activeClients := activeClients + 1;
        }
      }
      if n.blockNumber > latest {
        latest := n.blockNumber;
      }
    }
    assert counted == nodes;
  }

  /** The balance-related numbers of the statistics. */
  datatype Tally = Tally(credit: int, deposit: int, unowned: nat)

  /** The numbers over all balances of `m`. */
  ghost function TallyOf(m: map<string, Balance>): Tally {
    Tally(Sum(Credits(m)), Sum(Deposits(m)), |M.Unowned(m)|)
  }

  function CountBalance(t: Tally, b: Balance): Tally {
    Tally(t.credit + b.credit, t.deposit + b.deposit, t.unowned + if b.account == "" then 1 else 0)
  }

  lemma TallyOfNone(m: map<string, Balance>)
    requires m == map[]
    ensures TallyOf(m) == Tally(0, 0, 0)
  {
    assert Credits(m) == map[] && Deposits(m) == map[] && M.Unowned(m) == {};
  }

  /** Counting one more balance. */
  lemma TallyOfOneMore(m: map<string, Balance>, k: string, b: Balance)
    requires k !in m
    ensures TallyOf(m[k := b]) == CountBalance(TallyOf(m), b)
  {
    SumUpdate(Credits(m), k, b.credit);
    SumUpdate(Deposits(m), k, b.deposit);
    assert Credits(m[k := b]) == Credits(m)[k := b.credit];
    assert Deposits(m[k := b]) == Deposits(m)[k := b.deposit];
    CountOneUnowned(m, k, b);
  }

  lemma CountOneUnowned(m: map<string, Balance>, k: string, b: Balance)
    requires k !in m
    ensures |M.Unowned(m[k := b])| == |M.Unowned(m)| + if b.account == "" then 1 else 0
  {
    if b.account == "" {
      assert M.Unowned(m[k := b]) == M.Unowned(m) + {k};
    } else {
      assert M.Unowned(m[k := b]) == M.Unowned(m);
    }
  }

  /** CountBalance over all balances of one map, in whatever order they are visited. */
  method CountBalances(balances: map<string, Balance>) returns (t: Tally)
    ensures t == TallyOf(balances)
  {
    var rest := balances;
    ghost var counted: map<string, Balance> := map[];
    t := Tally(0, 0, 0);
    TallyOfNone(counted);
    while rest != map[]
      invariant rest.Keys !! counted.Keys && rest + counted == balances
      invariant t == TallyOf(counted)
      decreases |rest|
    {
      var k :| k in rest;
      TallyOfOneMore(counted, k, rest[k]);
      MoveOne(rest, counted, k);
      t := CountBalance(t, rest[k]);
      counted := counted[k := rest[k]];
      rest := rest - {k};
    }
    assert map[] + counted == counted;
  }

  /** Both stores' Stats: the nodes, then the balances, then the trials. */
  method Aggregate(nodes: map<NodeID, Node>, balances: map<Account, Balance>, trials: map<NodeID, Balance>, now: Time)
    returns (s: Stats)
    ensures s == M.StatsOf(nodes, balances, trials, now)
  {
    var ah, th, ac, tc, latest := CountNodes(nodes, now);
    var b := CountBalances(balances);
    var t := CountBalances(trials);
    s := Stats(ah, th, ac, tc, latest, b.credit + t.credit, b.deposit + t.deposit, b.unowned + t.unowned);
  }

  lemma {:induction false} LatestBlockIsHighest(nodes: map<NodeID, Node>)
    ensures forall id :: id in nodes ==> nodes[id].blockNumber <= M.LatestBlock(nodes)
    ensures M.LatestBlock(nodes) == 0 || exists id :: id in nodes && nodes[id].blockNumber == M.LatestBlock(nodes)
    decreases |nodes|
  {
    if nodes != map[] {
      var id :| id in nodes;
      var rest := nodes - {id};
      LatestBlockRemove(nodes, id);
      LatestBlockIsHighest(rest);
      forall other | other in nodes ensures nodes[other].blockNumber <= M.LatestBlock(nodes) {
        assert other != id ==> other in rest && rest[other] == nodes[other];
      }
      if M.LatestBlock(nodes) == nodes[id].blockNumber {
        assert id in nodes && nodes[id].blockNumber == M.LatestBlock(nodes);
      } else if M.LatestBlock(rest) != 0 {
        var other :| other in rest && rest[other].blockNumber == M.LatestBlock(rest);
        assert other in nodes && nodes[other].blockNumber == M.LatestBlock(nodes);
      }
    }
  }

  /** Who is counted: hosts or clients, all or only the active ones. */
  lemma NodeCountsAre(nodes: map<NodeID, Node>, balances: map<Account, Balance>, trials: map<NodeID, Balance>,
                      now: Time)
    ensures var s := M.StatsOf(nodes, balances, trials, now);
            && s.numTotalHosts == |set id | id in nodes && nodes[id].isHost|
            && s.numTotalClients == |set id | id in nodes && !nodes[id].isHost|
            && s.numTotalHosts + s.numTotalClients == |nodes|
  {
    var hosts, clients := set id | id in nodes && nodes[id].isHost, set id | id in nodes && !nodes[id].isHost;
    assert hosts == M.OfRole(nodes, true) && clients == M.OfRole(nodes, false);
    SplitSize(nodes.Keys, hosts);
    assert nodes.Keys - hosts == clients && nodes.Keys * hosts == hosts;
  }

  lemma ActiveCountsAre(nodes: map<NodeID, Node>, balances: map<Account, Balance>, trials: map<NodeID, Balance>,
                        now: Time)
    ensures var s := M.StatsOf(nodes, balances, trials, now);
            && s.numActiveHosts
               == |set id | id in nodes && nodes[id].isHost && nodes[id].lastSeen > now - EXPIRE_INTERVAL|
            && s.numActiveClients
               == |set id | id in nodes && !nodes[id].isHost && nodes[id].lastSeen > now - EXPIRE_INTERVAL|
  {
    assert (set id | id in nodes && nodes[id].isHost && nodes[id].lastSeen > now - EXPIRE_INTERVAL)
        == M.ActiveOfRole(nodes, true, now);
    assert (set id | id in nodes && !nodes[id].isHost && nodes[id].lastSeen > now - EXPIRE_INTERVAL)
        == M.ActiveOfRole(nodes, false, now);
  }

  /** The latest block number is the highest that a node has reported, or zero. */
  lemma LatestBlockIs(nodes: map<NodeID, Node>, balances: map<Account, Balance>, trials: map<NodeID, Balance>,
                      now: Time)
    ensures var latest := M.StatsOf(nodes, balances, trials, now).latestBlockNumber;
            && (forall id :: id in nodes ==> nodes[id].blockNumber <= latest)
            && (latest == 0 || exists id :: id in nodes && nodes[id].blockNumber == latest)
  {
    LatestBlockIsHighest(nodes);
  }

  /** The sums are over the balances and the trials, and so is the count of balances without an account. */
  lemma SumsAre(nodes: map<NodeID, Node>, balances: map<Account, Balance>, trials: map<NodeID, Balance>, now: Time)
    ensures var s := M.StatsOf(nodes, balances, trials, now);
            && s.totalCredit
               == Sum(map a | a in balances :: balances[a].credit) + Sum(map id | id in trials :: trials[id].credit)
            && s.totalDeposit
               == Sum(map a | a in balances :: balances[a].deposit) + Sum(map id | id in trials :: trials[id].deposit)
            && s.numTrialBalances
               == |set a | a in balances && balances[a].account == ""|
                  + |set id | id in trials && trials[id].account == ""|
  {
    assert (map a | a in balances :: balances[a].credit) == Credits(balances);
    assert (map id | id in trials :: trials[id].credit) == Credits(trials);
    assert (map a | a in balances :: balances[a].deposit) == Deposits(balances);
    assert (map id | id in trials :: trials[id].deposit) == Deposits(trials);
    assert (set a | a in balances && balances[a].account == "") == M.Unowned(balances);
    assert (set id | id in trials && trials[id].account == "") == M.Unowned(trials);
  }
}
