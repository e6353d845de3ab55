/**
 * The pool serves requests concurrently: an update is a sequence of store calls, each atomic, between which any other
 * request may run. In every interleaving the ledger holds exactly what was paid in from outside plus what updates have
 * credited to peers and not (yet) debited from their client.
 */
module Conservation {
  import opened Wrappers
  import opened StoreTypes
  import opened MapSums
  import opened Billing
  import M = MemorySpec

  /** How far an update request has come. */
  datatype Phase =
    | Started(id: NodeID, listed: seq<NodeID>, blockNumber: nat)
    | Fetched(node: Node, listed: seq<NodeID>, blockNumber: nat)
    | Stamped(node: Node)
    | Paying(node: Node, unpaid: seq<Node>, credit: int, total: int)
    | Debited(node: Node)
    | Answered(r: Result<Balance, BillingError>)
    | Stranded(total: int)

  datatype Pool = Pool(store: M.Mem, updates: map<nat, Phase>, deposited: int)

  const EMPTY := Pool(M.EMPTY, map[], 0)

  /** One atomic step. `Call` is any store call of another request; only billing adds to node balances. */
  datatype Action =
    | Call(op: Op)
    | Begin(t: nat, id: NodeID, listed: seq<NodeID>, blockNumber: nat)
    | Fetch(t: nat)
    | Stamp(t: nat, now: Time)
    | Assess(t: nat, peers: seq<Node>, now: Time)
    | PayOne(t: nat)
    | Settle(t: nat)
    | Report(t: nat)

  /** Which peers an update pays is up to the store; all that counts here is that they are registered. */
  predicate AllRegistered(m: M.Mem, peers: seq<Node>) {
    forall n :: n in peers ==> n.id in m.nodes
  }

  function Put(p: Pool, t: nat, phase: Phase): Pool {
    p.(updates := p.updates[t := phase])
  }

  /** OnUpdate up to the first payment. */
  function Assessed(m: M.Mem, terms: Terms, node: Node, peers: seq<Node>, now: Time): Phase {
    if node.isHost then Answered(AsBilling(M.GetNodeBalance(m, node.id)))
    else if terms.interval <= 0 || terms.creditPerInterval == 0 then Answered(Err(InvalidSettings))
    else if IntervalCredit(terms, node.lastSeen, now) == 0 then Answered(AsBilling(M.GetNodeBalance(m, node.id)))
    else Paying(node, peers, IntervalCredit(terms, node.lastSeen, now), 0)
  }

  /** One peer credited; an error of the store would be ignored. */
  function PaidOne(p: Pool, t: nat, u: Phase): Pool
    requires u.Paying? && u.unpaid != []
  {
    Put(p.(store := M.AddNodeBalance(p.store, u.unpaid[0].id, u.credit).0), t,
        Paying(u.node, u.unpaid[1..], u.credit, u.total + u.credit))
  }

  /** After the last payment: either the charge is below the minimum and nothing is debited, or the client pays. */
  function Settled(p: Pool, terms: Terms, t: nat, node: Node, total: int): Pool {
    if terms.minBalance.Some? && terms.minBalance.value > total then Put(p, t, Stranded(total))
    else if M.AddNodeBalance(p.store, node.id, -total).1.Err? then Put(p, t, Stranded(total))
    else Put(p.(store := M.AddNodeBalance(p.store, node.id, -total).0), t, Debited(node))
  }

  /** A step that is not possible in the current state changes nothing. */
  function Next(p: Pool, terms: Terms, a: Action): Pool {
    match a
    case Call(op) =>
      if op.AddNodeBalance? then p
      else p.(store := M.Step(p.store, op).0,
              deposited := p.deposited + if op.AddAccountBalance? then op.amount else 0)
    case Begin(t, id, listed, block) => if t in p.updates then p else Put(p, t, Started(id, listed, block))
    case Fetch(t) =>
      if t !in p.updates || !p.updates[t].Started? then p else
        var u := p.updates[t];
        Put(p, t, match M.GetNode(p.store, u.id)
                  case Ok(n) => Fetched(n, u.listed, u.blockNumber)
                  case Err(e) => Answered(Err(StoreFailure(e))))
    case Stamp(t, now) =>
      if t !in p.updates || !p.updates[t].Fetched? then p else
        var u := p.updates[t];
        Put(p.(store := M.UpdateNodePeers(p.store, u.node.id, u.listed, u.blockNumber, now).0), t, Stamped(u.node))
    case Assess(t, peers, now) =>
      if t !in p.updates || !p.updates[t].Stamped? then p else
        if !AllRegistered(p.store, peers) then p
        else Put(p, t, Assessed(p.store, terms, p.updates[t].node, peers, now))
    case PayOne(t) =>
      if t !in p.updates || !p.updates[t].Paying? || p.updates[t].unpaid == [] then p else PaidOne(p, t, p.updates[t])
    case Settle(t) =>
      if t !in p.updates || !p.updates[t].Paying? || p.updates[t].unpaid != [] then p
      else Settled(p, terms, t, p.updates[t].node, p.updates[t].total)
    case Report(t) =>
      if t !in p.updates || !p.updates[t].Debited? then p
      else Put(p, t, Answered(AsBilling(M.GetNodeBalance(p.store, p.updates[t].node.id))))
  }

  /** The pool after a sequence of steps from `p`. */
  function RunFrom(p: Pool, terms: Terms, actions: seq<Action>): Pool
    decreases |actions|
  {
    if actions == [] then p else Next(RunFrom(p, terms, actions[..|actions| - 1]), terms, actions[|actions| - 1])
  }

  function Run(terms: Terms, actions: seq<Action>): Pool {
    RunFrom(EMPTY, terms, actions)
  }

  /** What an update has credited to peers without debiting its client: while it is paying, or for ever if it failed. */
  function Outstanding(u: Phase): int {
    match u case Paying(_, _, _, total) => total case Stranded(total) => total case _ => 0
  }

  function OutstandingOf(updates: map<nat, Phase>): map<nat, int> {
    map t | t in updates :: Outstanding(updates[t])
  }

  /** Everyone an update still has to pay or debit is registered, so no payment is ever refused. */
  predicate Payable(m: M.Mem, u: Phase) {
    match u
    case Fetched(node, _, _) => node.id in m.nodes
    case Stamped(node) => node.id in m.nodes
    case Paying(node, unpaid, _, _) => node.id in m.nodes && forall i :: 0 <= i < |unpaid| ==> unpaid[i].id in m.nodes
    case _ => true
  }

  /** An update is stranded only by a charge below the minimum; the store never refuses its debit. */
  predicate Justified(terms: Terms, u: Phase) {
    u.Stranded? ==> terms.minBalance.Some? && terms.minBalance.value > u.total
  }

  ghost predicate Inv(p: Pool, terms: Terms) {
    && M.Valid(p.store)
    && (forall t :: t in p.updates ==> Payable(p.store, p.updates[t]))
    && (forall t :: t in p.updates ==> Justified(terms, p.updates[t]))
    && M.TotalCredit(p.store) == p.deposited + Sum(OutstandingOf(p.updates))
  }

  // How the calls move the total.

  lemma CreditsPut<K>(m: map<K, Balance>, k: K, b: Balance)
    ensures Sum(Credits(m[k := b])) == Sum(Credits(m)) - BalanceAt(m, k).credit + b.credit
  {
    assert Credits(m[k := b]) == Credits(m)[k := b.credit];
    SumUpdate(Credits(m), k, b.credit);
  }

  lemma AddNodeBalanceTotal(m: M.Mem, id: NodeID, amount: int)
    ensures M.TotalCredit(M.AddNodeBalance(m, id, amount).0)
         == M.TotalCredit(m) + if id in m.nodes then amount else 0
  {
    if id in m.nodes {
      if id in m.accounts {
        CreditsPut(m.balances, m.accounts[id], AddCredit(BalanceAt(m.balances, m.accounts[id]), amount));
      } else {
        CreditsPut(m.trials, id, AddCredit(BalanceAt(m.trials, id), amount));
      }
    }
  }

  lemma AddAccountBalanceTotal(m: M.Mem, a: Account, amount: int)
    ensures M.TotalCredit(M.AddAccountBalance(m, a, amount)) == M.TotalCredit(m) + amount
  {
    CreditsPut(m.balances, a, AddCredit(BalanceAt(m.balances, a), amount));
  }

  /** Binding a node moves its trial into the account: the total stays. */
  lemma AddAccountNodeTotal(m: M.Mem, a: Account, id: NodeID)
    ensures M.TotalCredit(M.AddAccountNode(m, a, id).0) == M.TotalCredit(m)
  {
    if id in m.nodes {
      var merged := AddCredit(BalanceAt(m.balances, a), BalanceAt(m.trials, id).credit).(account := a);
      CreditsPut(m.balances, a, merged);
      assert Credits(m.trials - {id}) == Credits(m.trials) - {id};
      SumDelete(Credits(m.trials), id);
    }
  }

  lemma {:induction false} CallTotal(m: M.Mem, op: Op)
    requires !op.AddNodeBalance?
    ensures M.TotalCredit(M.Step(m, op).0) == M.TotalCredit(m) + if op.AddAccountBalance? then op.amount else 0
  {
    match op
    case AddAccountBalance(a, amount) => AddAccountBalanceTotal(m, a, amount);
    case AddAccountNode(a, id) => AddAccountNodeTotal(m, a, id);
    case _ =>
  }

  lemma PutOutstanding(updates: map<nat, Phase>, t: nat, u: Phase)
    ensures Sum(OutstandingOf(updates[t := u]))
         == Sum(OutstandingOf(updates)) - (if t in updates then Outstanding(updates[t]) else 0) + Outstanding(u)
  {
    assert OutstandingOf(updates[t := u]) == OutstandingOf(updates)[t := Outstanding(u)];
    SumUpdate(OutstandingOf(updates), t, Outstanding(u));
  }

  // Every action keeps the invariant.

  /** More registered nodes leave every update payable. */
  lemma PayableGrows(m: M.Mem, n: M.Mem, u: Phase)
    requires m.nodes.Keys <= n.nodes.Keys && Payable(m, u)
    ensures Payable(n, u)
  {
  }

  lemma Replace(p: Pool, terms: Terms, store: M.Mem, t: nat, u: Phase)
    requires Inv(p, terms) && M.Valid(store) && p.store.nodes.Keys <= store.nodes.Keys
    requires Payable(store, u) && Justified(terms, u)
    requires M.TotalCredit(store) - M.TotalCredit(p.store)
          == Outstanding(u) - if t in p.updates then Outstanding(p.updates[t]) else 0
    ensures Inv(Put(p.(store := store), t, u), terms)
  {
    PutOutstanding(p.updates, t, u);
    forall s | s in p.updates ensures Payable(store, p.updates[s]) {
      PayableGrows(p.store, store, p.updates[s]);
    }
  }

  lemma CallKeepsInv(p: Pool, terms: Terms, op: Op)
    requires Inv(p, terms)
    ensures Inv(Next(p, terms, Call(op)), terms)
  {
    if !op.AddNodeBalance? {
      M.StepKeepsValid(p.store, op);
      CallTotal(p.store, op);
      forall t | t in p.updates ensures Payable(M.Step(p.store, op).0, p.updates[t]) {
        PayableGrows(p.store, M.Step(p.store, op).0, p.updates[t]);
      }
    }
  }

  lemma StampKeepsInv(p: Pool, terms: Terms, t: nat, now: Time)
    requires Inv(p, terms) && t in p.updates && p.updates[t].Fetched?
    ensures Inv(Next(p, terms, Stamp(t, now)), terms)
  {
    var u := p.updates[t];
    assert Payable(p.store, u);
    M.UpdateNodePeersKeepsValid(p.store, u.node.id, u.listed, u.blockNumber, now);
    Replace(p, terms, M.UpdateNodePeers(p.store, u.node.id, u.listed, u.blockNumber, now).0, t, Stamped(u.node));
  }

  lemma AssessKeepsInv(p: Pool, terms: Terms, t: nat, peers: seq<Node>, now: Time)
    requires Inv(p, terms) && t in p.updates && p.updates[t].Stamped?
    ensures Inv(Next(p, terms, Assess(t, peers, now)), terms)
  {
    assert Payable(p.store, p.updates[t]);
    if AllRegistered(p.store, peers) {
      Replace(p, terms, p.store, t, Assessed(p.store, terms, p.updates[t].node, peers, now));
    }
  }

  /** Adding to a registered node what the update's books gain in return. */
  lemma CreditNode(p: Pool, terms: Terms, t: nat, id: NodeID, amount: int, u: Phase)
    requires Inv(p, terms) && t in p.updates && id in p.store.nodes
    requires Payable(p.store, u) && !u.Stranded? && Outstanding(u) == Outstanding(p.updates[t]) + amount
    ensures M.AddNodeBalance(p.store, id, amount).1.Ok?
    ensures Inv(Put(p.(store := M.AddNodeBalance(p.store, id, amount).0), t, u), terms)
  {
    var store := M.AddNodeBalance(p.store, id, amount).0;
    M.AddNodeBalanceKeepsValid(p.store, id, amount);
    AddNodeBalanceTotal(p.store, id, amount);
    assert store.nodes == p.store.nodes;
    PayableGrows(p.store, store, u);
    Replace(p, terms, store, t, u);
  }

  lemma PayOneKeepsInv(p: Pool, terms: Terms, t: nat)
    requires Inv(p, terms) && t in p.updates && p.updates[t].Paying? && p.updates[t].unpaid != []
    ensures Inv(PaidOne(p, t, p.updates[t]), terms)
  {
    var u := p.updates[t];
    assert Payable(p.store, u);
    var v := Paying(u.node, u.unpaid[1..], u.credit, u.total + u.credit);
    assert Payable(p.store, v);
    CreditNode(p, terms, t, u.unpaid[0].id, u.credit, v);
    assert PaidOne(p, t, u) == Put(p.(store := M.AddNodeBalance(p.store, u.unpaid[0].id, u.credit).0), t, v);
  }

  lemma SettleKeepsInv(p: Pool, terms: Terms, t: nat)
    requires Inv(p, terms) && t in p.updates && p.updates[t].Paying?
    ensures Inv(Settled(p, terms, t, p.updates[t].node, p.updates[t].total), terms)
  {
    var u := p.updates[t];
    assert Payable(p.store, u);
    if terms.minBalance.Some? && terms.minBalance.value > u.total {
      Replace(p, terms, p.store, t, Stranded(u.total));
      assert p.(store := p.store) == p;
    } else {
      CreditNode(p, terms, t, u.node.id, -u.total, Debited(u.node));
      assert Settled(p, terms, t, u.node, u.total)
          == Put(p.(store := M.AddNodeBalance(p.store, u.node.id, -u.total).0), t, Debited(u.node));
    }
  }

  /** A step that changes only the phase of one update, which neither gains nor loses anything. */
  lemma PhaseKeepsInv(p: Pool, terms: Terms, t: nat, u: Phase)
    requires Inv(p, terms) && Payable(p.store, u) && !u.Stranded? && Outstanding(u) == 0
    requires t in p.updates ==> Outstanding(p.updates[t]) == 0
    ensures Inv(Put(p, t, u), terms)
  {
    Replace(p, terms, p.store, t, u);
    assert p.(store := p.store) == p;
  }

  lemma BeginKeepsInv(p: Pool, terms: Terms, t: nat, id: NodeID, listed: seq<NodeID>, block: nat)
    requires Inv(p, terms)
    ensures Inv(Next(p, terms, Begin(t, id, listed, block)), terms)
  {
    if t !in p.updates {
      PhaseKeepsInv(p, terms, t, Started(id, listed, block));
    }
  }

  lemma FetchKeepsInv(p: Pool, terms: Terms, t: nat)
    requires Inv(p, terms)
    ensures Inv(Next(p, terms, Fetch(t)), terms)
  {
    if t in p.updates && p.updates[t].Started? {
      var u := Next(p, terms, Fetch(t)).updates[t];
      assert u.Fetched? ==> p.store.nodes[p.updates[t].id].node.id == p.updates[t].id;
      PhaseKeepsInv(p, terms, t, u);
    }
  }

  lemma ReportKeepsInv(p: Pool, terms: Terms, t: nat)
    requires Inv(p, terms)
    ensures Inv(Next(p, terms, Report(t)), terms)
  {
    if t in p.updates && p.updates[t].Debited? {
      PhaseKeepsInv(p, terms, t, Next(p, terms, Report(t)).updates[t]);
    }
  }

  lemma {:induction false} NextKeepsInv(p: Pool, terms: Terms, a: Action)
    requires Inv(p, terms)
    ensures Inv(Next(p, terms, a), terms)
  {
    if Next(p, terms, a) != p {
      match a
      case Call(op) => CallKeepsInv(p, terms, op);
      case Begin(t, id, listed, block) => BeginKeepsInv(p, terms, t, id, listed, block);
      case Fetch(t) => FetchKeepsInv(p, terms, t);
      case Stamp(t, now) => StampKeepsInv(p, terms, t, now);
      case Assess(t, peers, now) => AssessKeepsInv(p, terms, t, peers, now);
      case PayOne(t) => PayOneKeepsInv(p, terms, t);
      case Settle(t) => SettleKeepsInv(p, terms, t);
      case Report(t) => ReportKeepsInv(p, terms, t);
    }
  }

  /** In every interleaving, the ledger is off by exactly what updates have credited but not debited. */
  lemma {:induction false} LedgerAlwaysBalances(terms: Terms, actions: seq<Action>)
    ensures Inv(Run(terms, actions), terms)
    decreases |actions|
  {
    if actions == [] {
      assert OutstandingOf(map[]) == map[] && Credits(M.EMPTY.balances) == map[] && Credits(M.EMPTY.trials) == map[];
    } else {
      LedgerAlwaysBalances(terms, actions[..|actions| - 1]);
      NextKeepsInv(Run(terms, actions[..|actions| - 1]), terms, actions[|actions| - 1]);
    }
  }

  /** The errors that OnUpdate ignores never happen: in every interleaving, the next payments of all updates succeed. */
  lemma PaymentsAreNeverRefused(terms: Terms, actions: seq<Action>, t: nat)
    requires var p := Run(terms, actions); t in p.updates && p.updates[t].Paying?
    ensures var p := Run(terms, actions);
            forall n :: n in p.updates[t].unpaid ==> M.AddNodeBalance(p.store, n.id, p.updates[t].credit).1 == Ok(())
  {
    LedgerAlwaysBalances(terms, actions);
    assert Payable(Run(terms, actions).store, Run(terms, actions).updates[t]);
  }

  /** No update is between its first payment and its debit. */
  predicate AtRest(p: Pool) {
    forall t :: t in p.updates ==> !p.updates[t].Paying?
  }

  lemma {:induction false} SumOfZeros<K>(m: map<K, int>)
    requires forall k :: k in m ==> m[k] == 0
    ensures Sum(m) == 0
    decreases |m|
  {
    if m != map[] {
      var k :| k in m;
      SumRemove(m, k);
      SumOfZeros(m - {k});
    }
  }

  /**
   * At rest and with no minimum balance, the credits that Stats reports sum to what was deposited from outside: to
   * zero if nothing was. Billing creates and destroys nothing, whatever the interleaving.
   */
  lemma BalancedAtRest(terms: Terms, actions: seq<Action>, now: Time)
    requires terms.minBalance.None? && AtRest(Run(terms, actions))
    ensures var p := Run(terms, actions);
            M.StatsOf(M.NodeRecords(p.store), p.store.balances, p.store.trials, now).totalCredit == p.deposited
  {
    LedgerAlwaysBalances(terms, actions);
    SumOfZeros(OutstandingOf(Run(terms, actions).updates));
  }

  /** The charges of the updates that ended below the minimum balance. */
  function StrandedOf(updates: map<nat, Phase>): map<nat, int> {
    map t | t in updates && updates[t].Stranded? :: updates[t].total
  }

  lemma {:induction false} SumSkipsZeros<K>(m: map<K, int>, n: map<K, int>)
    requires n.Keys <= m.Keys && forall k :: k in m ==> m[k] == if k in n then n[k] else 0
    ensures Sum(m) == Sum(n)
    decreases |m|
  {
    if m != map[] {
      var k :| k in m;
      SumRemove(m, k);
      SumSkipsZeros(m - {k}, n - {k});
      SumDelete(n, k);
    }
  }

  /** With a minimum balance, the excess at rest is exactly what the stranded updates credited. */
  lemma ExcessAtRest(terms: Terms, actions: seq<Action>)
    requires AtRest(Run(terms, actions))
    ensures var p := Run(terms, actions);
            && M.TotalCredit(p.store) == p.deposited + Sum(StrandedOf(p.updates))
            && forall t :: t in StrandedOf(p.updates) ==>
                 terms.minBalance.Some? && StrandedOf(p.updates)[t] < terms.minBalance.value
  {
    var p := Run(terms, actions);
    LedgerAlwaysBalances(terms, actions);
    SumSkipsZeros(OutstandingOf(p.updates), StrandedOf(p.updates));
    forall t | t in StrandedOf(p.updates)
      ensures terms.minBalance.Some? && StrandedOf(p.updates)[t] < terms.minBalance.value {
      assert Justified(terms, p.updates[t]);
    }
  }

  // An update that nothing interrupts does what OnUpdate says.

  /** The pool after the update has made its first `k` payments and nothing else has happened. */
  function PaidFirst(p: Pool, t: nat, u: Phase, k: nat): Pool
    requires u.Paying? && k <= |u.unpaid|
  {
    Put(p.(store := PayAll(p.store, u.unpaid[..k], u.credit)), t,
        Paying(u.node, u.unpaid[k..], u.credit, u.total + k * u.credit))
  }

  lemma PaysInOrder(p: Pool, t: nat, u: Phase, k: nat)
    requires u.Paying? && k < |u.unpaid|
    ensures var q := PaidFirst(p, t, u, k);
            q.updates[t].unpaid != [] && PaidOne(q, t, q.updates[t]) == PaidFirst(p, t, u, k + 1)
  {
    var q := PaidFirst(p, t, u, k);
    assert u.unpaid[..k + 1][..k] == u.unpaid[..k] && u.unpaid[k..][1..] == u.unpaid[k + 1..];
    assert u.unpaid[k..][0] == u.unpaid[..k + 1][k];
    assert u.total + k * u.credit + u.credit == u.total + (k + 1) * u.credit;
  }

  lemma RunOneMore(p: Pool, terms: Terms, actions: seq<Action>, a: Action)
    ensures RunFrom(p, terms, actions + [a]) == Next(RunFrom(p, terms, actions), terms, a)
  {
    assert (actions + [a])[..|actions|] == actions;
  }

  /** `k` payment steps of the update `t`. */
  function PayOnes(t: nat, k: nat): seq<Action> {
    if k == 0 then [] else PayOnes(t, k - 1) + [PayOne(t)]
  }

  /** The pool after `k` payment steps. */
  function Paid(q: Pool, terms: Terms, t: nat, k: nat): Pool {
    if k == 0 then q else Next(Paid(q, terms, t, k - 1), terms, PayOne(t))
  }

  lemma OneMorePay(p: Pool, terms: Terms, before: seq<Action>, t: nat, k: nat, q: Pool, r: Pool)
    requires q == RunFrom(p, terms, before + PayOnes(t, k)) && r == Next(q, terms, PayOne(t))
    ensures RunFrom(p, terms, before + PayOnes(t, k + 1)) == r
  {
    assert before + PayOnes(t, k + 1) == (before + PayOnes(t, k)) + [PayOne(t)];
    RunOneMore(p, terms, before + PayOnes(t, k), PayOne(t));
  }

  lemma {:induction false} PayOnesArePaid(p: Pool, terms: Terms, before: seq<Action>, t: nat, k: nat, q: Pool)
    requires q == RunFrom(p, terms, before)
    ensures RunFrom(p, terms, before + PayOnes(t, k)) == Paid(q, terms, t, k)
    decreases k
  {
    if k == 0 {
      assert before + PayOnes(t, 0) == before;
    } else {
      PayOnesArePaid(p, terms, before, t, k - 1, q);
      OneMorePay(p, terms, before, t, k - 1, Paid(q, terms, t, k - 1), Paid(q, terms, t, k));
    }
  }

  lemma PaysFirst(q: Pool, terms: Terms, t: nat, u: Phase, k: nat, r: Pool)
    requires u.Paying? && k < |u.unpaid| && r == PaidFirst(q, t, u, k)
    ensures Next(r, terms, PayOne(t)) == PaidFirst(q, t, u, k + 1)
  {
    PaysInOrder(q, t, u, k);
  }

  lemma NothingPaidYet(q: Pool, t: nat, u: Phase)
    requires u.Paying? && t in q.updates && q.updates[t] == u
    ensures PaidFirst(q, t, u, 0) == q
  {
    assert u.unpaid[..0] == [] && u.unpaid[0..] == u.unpaid;
    assert q.updates[t := u] == q.updates;
  }

  lemma {:induction false} PaidIsPaidFirst(q: Pool, terms: Terms, t: nat, u: Phase, k: nat)
    requires t in q.updates && q.updates[t] == u && u.Paying? && k <= |u.unpaid|
    ensures Paid(q, terms, t, k) == PaidFirst(q, t, u, k)
    decreases k
  {
    if k == 0 {
      NothingPaidYet(q, t, u);
    } else {
      PaidIsPaidFirst(q, terms, t, u, k - 1);
      PaysFirst(q, terms, t, u, k - 1, Paid(q, terms, t, k - 1));
    }
  }

  /** An update that has nothing to pay is not moved by payment steps. */
  lemma {:induction false} PaidIsIdle(q: Pool, terms: Terms, t: nat, k: nat)
    requires t in q.updates && !q.updates[t].Paying?
    ensures Paid(q, terms, t, k) == q
    decreases k
  {
    if k > 0 {
      PaidIsIdle(q, terms, t, k - 1);
    }
  }

  /** The steps of the update `t` from its bill on, with nothing in between. */
  function BillingSteps(t: nat, peers: seq<Node>, now: Time): seq<Action> {
    [Assess(t, peers, now)] + PayOnes(t, |peers|) + [Settle(t)] + [Report(t)]
  }

  /** How an update ends: with the answer of OnUpdate, or stranded with its charge. */
  function Ended(spec: Result<Balance, BillingError>): Phase {
    if spec.Err? && spec.error.LowBalance? then Stranded(spec.error.currentBalance) else Answered(spec)
  }

  lemma AfterPayments(p: Pool, terms: Terms, t: nat, peers: seq<Node>, now: Time, paid: Pool)
    ensures RunFrom(p, terms, [Assess(t, peers, now)] + PayOnes(t, |peers|)) == paid ==>
              RunFrom(p, terms, BillingSteps(t, peers, now)) == Next(Next(paid, terms, Settle(t)), terms, Report(t))
  {
    var first := [Assess(t, peers, now)] + PayOnes(t, |peers|);
    RunOneMore(p, terms, first, Settle(t));
    RunOneMore(p, terms, first + [Settle(t)], Report(t));
  }

  lemma AfterAssess(p: Pool, terms: Terms, t: nat, peers: seq<Node>, now: Time)
    requires t in p.updates && p.updates[t].Stamped? && AllRegistered(p.store, peers)
    ensures RunFrom(p, terms, [Assess(t, peers, now)])
         == Put(p, t, Assessed(p.store, terms, p.updates[t].node, peers, now))
  {
    assert [] + [Assess(t, peers, now)] == [Assess(t, peers, now)];
    RunOneMore(p, terms, [], Assess(t, peers, now));
  }

  /** Nothing to pay: the answer is there at once. */
  lemma UnchargedSteps(p: Pool, terms: Terms, t: nat, peers: seq<Node>, now: Time)
    requires t in p.updates && p.updates[t].Stamped? && AllRegistered(p.store, peers)
    requires PeerCredit(terms, p.updates[t].node, now) == 0
    ensures var spec := OnUpdate(p.store, terms, p.updates[t].node, peers, now);
            RunFrom(p, terms, BillingSteps(t, peers, now)) == Put(p.(store := spec.0), t, Ended(spec.1))
  {
    var u := Assessed(p.store, terms, p.updates[t].node, peers, now);
    AfterAssess(p, terms, t, peers, now);
    assert u.Answered?;
    PayOnesArePaid(p, terms, [Assess(t, peers, now)], t, |peers|, Put(p, t, u));
    PaidIsIdle(Put(p, t, u), terms, t, |peers|);
    AfterPayments(p, terms, t, peers, now, Put(p, t, u));
    assert Next(Put(p, t, u), terms, Settle(t)) == Put(p, t, u);
    assert p.(store := p.store) == p;
  }

  /** The pool once the charged update `t` has ended. */
  function Closed(p: Pool, terms: Terms, t: nat, node: Node, paid: M.Mem, total: int): Pool {
    if terms.minBalance.Some? && terms.minBalance.value > total then Put(p.(store := paid), t, Stranded(total))
    else
      var after := M.AddNodeBalance(paid, node.id, -total).0;
      Put(p.(store := after), t, Answered(AsBilling(M.GetNodeBalance(after, node.id))))
  }

  /** After the last payment: the debit and the report, or the refusal. */
  lemma SettledAndReported(p: Pool, terms: Terms, t: nat, node: Node, paid: M.Mem, credit: int, total: int)
    requires node.id in paid.nodes
    ensures var q := Put(p.(store := paid), t, Paying(node, [], credit, total));
            Next(Next(q, terms, Settle(t)), terms, Report(t)) == Closed(p, terms, t, node, paid, total)
  {
    var q := Put(p.(store := paid), t, Paying(node, [], credit, total));
    assert Next(q, terms, Settle(t)) == Settled(q, terms, t, node, total);
  }

  lemma ChargedRun(p: Pool, terms: Terms, t: nat, peers: seq<Node>, now: Time, node: Node, credit: int, total: int)
    requires t in p.updates && p.updates[t] == Stamped(node) && node.id in p.store.nodes
    requires AllRegistered(p.store, peers)
    requires credit == PeerCredit(terms, node, now) != 0 && total == |peers| * credit
    ensures RunFrom(p, terms, BillingSteps(t, peers, now))
         == Closed(p, terms, t, node, PayAll(p.store, peers, credit), total)
  {
    var u, paid := Paying(node, peers, credit, 0), PayAll(p.store, peers, credit);
    AfterAssess(p, terms, t, peers, now);
    PayOnesArePaid(p, terms, [Assess(t, peers, now)], t, |peers|, Put(p, t, u));
    PaidIsPaidFirst(Put(p, t, u), terms, t, u, |peers|);
    var q := PaidFirst(Put(p, t, u), t, u, |peers|);
    AfterPayments(p, terms, t, peers, now, q);
    assert peers[..|peers|] == peers && peers[|peers|..] == [];
    assert q == Put(p.(store := paid), t, Paying(node, [], credit, total));
    PayAllMoves(p.store, peers, credit, "", "");
    SettledAndReported(p, terms, t, node, paid, credit, total);
  }

  lemma ChargedEnd(p: Pool, terms: Terms, t: nat, node: Node, peers: seq<Node>, now: Time)
    requires node.id in p.store.nodes && PeerCredit(terms, node, now) != 0
    ensures var spec := OnUpdate(p.store, terms, node, peers, now);
            var credit := PeerCredit(terms, node, now);
            Put(p.(store := spec.0), t, Ended(spec.1))
            == Closed(p, terms, t, node, PayAll(p.store, peers, credit), |peers| * credit)
  {
    OnUpdateState(p.store, terms, node, peers, now);
    OnUpdateMoves(p.store, terms, node, peers, now, "", "");
  }

  /** Run without interruption, the atomic steps of an update have the effect and the answer of OnUpdate. */
  lemma UninterruptedIsOnUpdate(p: Pool, terms: Terms, t: nat, peers: seq<Node>, now: Time)
    requires t in p.updates && p.updates[t].Stamped? && p.updates[t].node.id in p.store.nodes
    requires AllRegistered(p.store, peers)
    ensures var spec := OnUpdate(p.store, terms, p.updates[t].node, peers, now);
            RunFrom(p, terms, BillingSteps(t, peers, now)) == Put(p.(store := spec.0), t, Ended(spec.1))
  {
    if PeerCredit(terms, p.updates[t].node, now) == 0 {
      UnchargedSteps(p, terms, t, peers, now);
    } else {
      var node := p.updates[t].node;
      var credit := PeerCredit(terms, node, now);
      ChargedRun(p, terms, t, peers, now, node, credit, |peers| * credit);
      ChargedEnd(p, terms, t, node, peers, now);
    }
  }

  /** The steps of the update `t` before its bill. */
  function FirstSteps(t: nat, id: NodeID, listed: seq<NodeID>, block: nat, now: Time): seq<Action> {
    [Begin(t, id, listed, block)] + [Fetch(t)] + [Stamp(t, now)]
  }

  lemma FirstStepsStamp(p: Pool, terms: Terms, t: nat, id: NodeID, listed: seq<NodeID>, block: nat, now: Time)
    requires t !in p.updates && id in p.store.nodes && M.Valid(p.store)
    ensures RunFrom(p, terms, FirstSteps(t, id, listed, block, now))
         == Put(p.(store := M.UpdateNodePeers(p.store, id, listed, block, now).0), t, Stamped(p.store.nodes[id].node))
  {
    var first := [Begin(t, id, listed, block)];
    assert [] + first == first;
    RunOneMore(p, terms, [], Begin(t, id, listed, block));
    RunOneMore(p, terms, first, Fetch(t));
    RunOneMore(p, terms, first + [Fetch(t)], Stamp(t, now));
    var q := Put(Put(p, t, Started(id, listed, block)), t, Fetched(p.store.nodes[id].node, listed, block));
    assert RunFrom(p, terms, first + [Fetch(t)]) == q;
  }

  lemma {:induction false} RunSplits(p: Pool, terms: Terms, a: seq<Action>, b: seq<Action>)
    ensures RunFrom(p, terms, a + b) == RunFrom(RunFrom(p, terms, a), terms, b)
    decreases |b|
  {
    if b == [] {
      assert a + b == a;
    } else {
      RunSplits(p, terms, a, b[..|b| - 1]);
      assert a + b == (a + b[..|b| - 1]) + [b[|b| - 1]];
      RunOneMore(p, terms, a + b[..|b| - 1], b[|b| - 1]);
    }
  }

  /**
   * A whole update without interruption: the store stamps the peers, and the bill is for the time since the node was
   * last seen before that stamp.
   */
  lemma WholeUpdate(p: Pool, terms: Terms, t: nat, id: NodeID, listed: seq<NodeID>, block: nat, now: Time,
                    peers: seq<Node>, billedAt: Time)
    requires t !in p.updates && id in p.store.nodes && M.Valid(p.store)
    requires AllRegistered(p.store, peers)
    ensures var spec := OnUpdate(M.UpdateNodePeers(p.store, id, listed, block, now).0, terms, p.store.nodes[id].node,
                                 peers, billedAt);
            RunFrom(p, terms, FirstSteps(t, id, listed, block, now) + BillingSteps(t, peers, billedAt))
            == Put(p.(store := spec.0), t, Ended(spec.1))
  {
    var stamped := M.UpdateNodePeers(p.store, id, listed, block, now).0;
    var q := Put(p.(store := stamped), t, Stamped(p.store.nodes[id].node));
    FirstStepsStamp(p, terms, t, id, listed, block, now);
    RunSplits(p, terms, FirstSteps(t, id, listed, block, now), BillingSteps(t, peers, billedAt));
    UninterruptedIsOnUpdate(q, terms, t, peers, billedAt);
    assert forall u, m :: Put(q.(store := m), t, u) == Put(p.(store := m), t, u);
  }

  // The calls behind a run.

  /** The store call that a step makes, if it makes one. */
  function CallsOf(p: Pool, terms: Terms, a: Action): seq<Op> {
    match a
    case Call(op) => if op.AddNodeBalance? then [] else [op]
    case Stamp(t, now) =>
      if t !in p.updates || !p.updates[t].Fetched? then [] else
        var u := p.updates[t]; [UpdateNodePeers(u.node.id, u.listed, u.blockNumber, now)]
    case PayOne(t) =>
      if t !in p.updates || !p.updates[t].Paying? || p.updates[t].unpaid == [] then [] else
        [AddNodeBalance(p.updates[t].unpaid[0].id, p.updates[t].credit)]
    case Settle(t) =>
      if t !in p.updates || !p.updates[t].Paying? || p.updates[t].unpaid != [] then [] else
        var total := p.updates[t].total;
        if terms.minBalance.Some? && terms.minBalance.value > total then []
        else [AddNodeBalance(p.updates[t].node.id, -total)]
    case _ => []
  }

  /** All store calls of a run, in the order in which they happened. */
  function History(terms: Terms, actions: seq<Action>): seq<Op> {
    if actions == [] then [] else
      var before := actions[..|actions| - 1];
      History(terms, before) + CallsOf(Run(terms, before), terms, actions[|actions| - 1])
  }

  lemma {:induction false} StepMakesItsCalls(p: Pool, terms: Terms, a: Action)
    ensures |CallsOf(p, terms, a)| <= 1
    ensures Next(p, terms, a).store
         == if CallsOf(p, terms, a) == [] then p.store else M.Step(p.store, CallsOf(p, terms, a)[0]).0
  {
  }

  /** Whatever the interleaving, the store is the one that the calls, one after the other, lead to. */
  lemma {:induction false} StoreFollowsHistory(terms: Terms, actions: seq<Action>)
    ensures Run(terms, actions).store == M.Run(M.EMPTY, History(terms, actions))
    decreases |actions|
  {
    if actions != [] {
      var before, a := actions[..|actions| - 1], actions[|actions| - 1];
      var h, calls := History(terms, before), CallsOf(Run(terms, before), terms, a);
      StoreFollowsHistory(terms, before);
      StepMakesItsCalls(Run(terms, before), terms, a);
      if calls == [] {
        assert h + calls == h;
      } else {
        assert calls == [calls[0]] && (h + calls)[..|h|] == h;
      }
    }
  }
}
