/** The pay-per-interval balance manager: what an update charges, and what a sequence of updates adds up to. */
module Billing {
  import opened Wrappers
  import opened StoreTypes
  import M = MemorySpec

  datatype Terms = Terms(interval: Time, creditPerInterval: int, minBalance: Option<int>)

  datatype BillingError =
    | InvalidSettings
    | LowBalance(currentBalance: int, minimum: int)
    | StoreFailure(error: StoreError)

  /** Subtracting instants saturates at the longest durations. */
  function Elapsed(now: Time, since: Time): Time {
    if now - since > MAX_DURATION then MAX_DURATION
    else if now - since < MIN_DURATION then MIN_DURATION
    else now - since
  }

  /** The price of a stretch of time; the division rounds down. */
  function Price(terms: Terms, time: Time): int
    requires terms.interval > 0
  {
    time * terms.creditPerInterval / terms.interval
  }

  /** What each peer earns for the time since the client was last seen. */
  function IntervalCredit(terms: Terms, lastSeen: Time, now: Time): int
    requires terms.interval > 0
  {
    Price(terms, Elapsed(now, lastSeen))
  }

  function AsBilling(r: Result<Balance, StoreError>): Result<Balance, BillingError> {
    match r case Ok(b) => Ok(b) case Err(e) => Err(StoreFailure(e))
  }

  /** Crediting the peers one after the other; a peer that the store refuses is skipped. */
  function PayAll(m: M.Mem, peers: seq<Node>, credit: int): M.Mem
    decreases |peers|
  {
    if peers == [] then m
    else M.AddNodeBalance(PayAll(m, peers[..|peers| - 1], credit), peers[|peers| - 1].id, credit).0
  }

  /** An update's effect on the balances. The minimum is compared with the charge, after the peers were credited. */
  function OnUpdate(m: M.Mem, terms: Terms, node: Node, peers: seq<Node>, now: Time)
    : (M.Mem, Result<Balance, BillingError>)
  {
    if node.isHost then (m, AsBilling(M.GetNodeBalance(m, node.id)))
    else if terms.interval <= 0 || terms.creditPerInterval == 0 then (m, Err(InvalidSettings))
    else
      var credit := IntervalCredit(terms, node.lastSeen, now);
      if credit == 0 then (m, AsBilling(M.GetNodeBalance(m, node.id))) else
        var total := |peers| * credit;
        var paid := PayAll(m, peers, credit);
        if terms.minBalance.Some? && terms.minBalance.value > total then
          (paid, Err(LowBalance(total, terms.minBalance.value)))
        else
          match M.AddNodeBalance(paid, node.id, -total)
          case (_, Err(e)) => (paid, Err(StoreFailure(e)))
          case (settled, Ok(_)) => (settled, AsBilling(M.GetNodeBalance(settled, node.id)))
  }

  function OnClient(m: M.Mem, terms: Terms, node: Node): Result<(), BillingError> {
    if terms.minBalance.None? then Ok(()) else
      match M.GetNodeBalance(m, node.id)
      case Err(e) => Err(StoreFailure(e))
      case Ok(b) =>
        var total := b.credit + b.deposit;
        if terms.minBalance.value > total then Err(LowBalance(total, terms.minBalance.value)) else Ok(())
  }

  // What one update does to every balance.

  /** How many of the peers are registered and bound to account `a`. */
  function BoundPeers(m: M.Mem, peers: seq<Node>, a: Account): nat {
    if peers == [] then 0 else
      var id := peers[|peers| - 1].id;
      BoundPeers(m, peers[..|peers| - 1], a) + if id in m.nodes && id in m.accounts && m.accounts[id] == a then 1 else 0
  }

  /** How many of the peers are the registered node `id` while it is on trial. */
  function TrialPeers(m: M.Mem, peers: seq<Node>, id: NodeID): nat {
    if peers == [] then 0 else
      TrialPeers(m, peers[..|peers| - 1], id)
      + if peers[|peers| - 1].id == id && id in m.nodes && id !in m.accounts then 1 else 0
  }

  /** The credit of account `a` and of the trial of `id` after adding `amount` to node `n`. */
  lemma AddNodeBalanceMoves(m: M.Mem, n: NodeID, amount: int, a: Account, id: NodeID)
    ensures var after := M.AddNodeBalance(m, n, amount).0;
            && after.nodes == m.nodes && after.accounts == m.accounts
            && BalanceAt(after.balances, a).credit == BalanceAt(m.balances, a).credit
               + (if n in m.nodes && n in m.accounts && m.accounts[n] == a then amount else 0)
            && BalanceAt(after.trials, id).credit == BalanceAt(m.trials, id).credit
               + (if n == id && id in m.nodes && id !in m.accounts then amount else 0)
  {
  }

  lemma {:induction false} PayAllMoves(m: M.Mem, peers: seq<Node>, credit: int, a: Account, id: NodeID)
    ensures var paid := PayAll(m, peers, credit);
            && paid.nodes == m.nodes && paid.accounts == m.accounts
            && BalanceAt(paid.balances, a).credit == BalanceAt(m.balances, a).credit + BoundPeers(m, peers, a) * credit
            && BalanceAt(paid.trials, id).credit == BalanceAt(m.trials, id).credit + TrialPeers(m, peers, id) * credit
    decreases |peers|
  {
    if peers != [] {
      var front, last := peers[..|peers| - 1], peers[|peers| - 1].id;
      PayAllMoves(m, front, credit, a, id);
      AddNodeBalanceMoves(PayAll(m, front, credit), last, credit, a, id);
      assert (BoundPeers(m, front, a) + 1) * credit == BoundPeers(m, front, a) * credit + credit;
      assert (TrialPeers(m, front, id) + 1) * credit == TrialPeers(m, front, id) * credit + credit;
    }
  }

  /**
   * A charged client update credits every account once for each of its peers and debits the client's account (or
   * trial) once for all of them; with a low charge the peers keep the credit and nobody is debited.
   */
  lemma OnUpdateMoves(m: M.Mem, terms: Terms, node: Node, peers: seq<Node>, now: Time, a: Account, id: NodeID)
    requires !node.isHost && terms.interval > 0 && terms.creditPerInterval != 0 && node.id in m.nodes
    requires IntervalCredit(terms, node.lastSeen, now) != 0
    ensures var credit := IntervalCredit(terms, node.lastSeen, now);
            var total := |peers| * credit;
            var charge := if terms.minBalance.Some? && terms.minBalance.value > total then 0 else total;
            var after := OnUpdate(m, terms, node, peers, now).0;
            && BalanceAt(after.balances, a).credit == BalanceAt(m.balances, a).credit + BoundPeers(m, peers, a) * credit
               - (if node.id in m.accounts && m.accounts[node.id] == a then charge else 0)
            && BalanceAt(after.trials, id).credit == BalanceAt(m.trials, id).credit + TrialPeers(m, peers, id) * credit
               - (if node.id == id && id !in m.accounts then charge else 0)
    ensures var (after, r) := OnUpdate(m, terms, node, peers, now);
            var total := |peers| * IntervalCredit(terms, node.lastSeen, now);
            r == if terms.minBalance.Some? && terms.minBalance.value > total
                 then Err(LowBalance(total, terms.minBalance.value))
                 else AsBilling(M.GetNodeBalance(after, node.id))
  {
    var credit := IntervalCredit(terms, node.lastSeen, now);
    PayAllMoves(m, peers, credit, a, id);
    AddNodeBalanceMoves(PayAll(m, peers, credit), node.id, -(|peers| * credit), a, id);
  }

  // The store calls behind an update.

  /** What each peer is credited; nothing if the node is a host, the settings are invalid or no time has passed. */
  function PeerCredit(terms: Terms, node: Node, now: Time): int {
    if node.isHost || terms.interval <= 0 || terms.creditPerInterval == 0 then 0
    else IntervalCredit(terms, node.lastSeen, now)
  }

  function PayCalls(peers: seq<Node>, credit: int): seq<Op> {
    if peers == [] then [] else PayCalls(peers[..|peers| - 1], credit) + [AddNodeBalance(peers[|peers| - 1].id, credit)]
  }

  /** The calls that pay the peers. */
  function Payments(terms: Terms, node: Node, peers: seq<Node>, now: Time): seq<Op> {
    if PeerCredit(terms, node, now) == 0 then [] else PayCalls(peers, PeerCredit(terms, node, now))
  }

  /** The client is debited: something was paid, and the charge is not below the minimum. */
  predicate Debited(terms: Terms, node: Node, peers: seq<Node>, now: Time) {
    var credit := PeerCredit(terms, node, now);
    credit != 0 && (terms.minBalance.None? || terms.minBalance.value <= |peers| * credit)
  }

  function DebitCall(terms: Terms, node: Node, peers: seq<Node>, now: Time): Op {
    AddNodeBalance(node.id, -(|peers| * PeerCredit(terms, node, now)))
  }

  /** All calls: the payments and, if the client is debited, its debit. */
  function Calls(terms: Terms, node: Node, peers: seq<Node>, now: Time): seq<Op> {
    if Debited(terms, node, peers, now) then Payments(terms, node, peers, now) + [DebitCall(terms, node, peers, now)]
    else Payments(terms, node, peers, now)
  }

  lemma {:induction false} PayAllIsItsCalls(m: M.Mem, peers: seq<Node>, credit: int)
    ensures PayAll(m, peers, credit) == M.Run(m, PayCalls(peers, credit))
    decreases |peers|
  {
    if peers != [] {
      var front := PayCalls(peers[..|peers| - 1], credit);
      PayAllIsItsCalls(m, peers[..|peers| - 1], credit);
      assert PayCalls(peers, credit)[..|front|] == front;
    }
  }

  lemma OnUpdateState(m: M.Mem, terms: Terms, node: Node, peers: seq<Node>, now: Time)
    ensures OnUpdate(m, terms, node, peers, now).0
         == var credit := PeerCredit(terms, node, now);
            if credit == 0 then m
            else if !Debited(terms, node, peers, now) then PayAll(m, peers, credit)
            else M.AddNodeBalance(PayAll(m, peers, credit), node.id, -(|peers| * credit)).0
  {
  }

  lemma OnUpdateKeepsBindings(m: M.Mem, terms: Terms, node: Node, peers: seq<Node>, now: Time)
    ensures var after := OnUpdate(m, terms, node, peers, now).0; after.nodes == m.nodes && after.accounts == m.accounts
  {
    PayAllMoves(m, peers, PeerCredit(terms, node, now), "", "");
    OnUpdateState(m, terms, node, peers, now);
  }

  lemma OnUpdateIsValid(m: M.Mem, terms: Terms, node: Node, peers: seq<Node>, now: Time)
    requires M.Valid(m)
    ensures var after := OnUpdate(m, terms, node, peers, now).0; M.Valid(after) && after.nodes == m.nodes
  {
    OnUpdateKeepsBindings(m, terms, node, peers, now);
    OnUpdateIsItsCalls(m, terms, node, peers, now);
    M.RunKeepsValid(m, Calls(terms, node, peers, now));
  }

  lemma PaidAndDebited(m: M.Mem, peers: seq<Node>, credit: int, id: NodeID, amount: int, calls: seq<Op>, after: M.Mem)
    requires calls == PayCalls(peers, credit) + [AddNodeBalance(id, amount)]
    requires after == M.AddNodeBalance(PayAll(m, peers, credit), id, amount).0
    ensures after == M.Run(m, calls)
  {
    PayAllIsItsCalls(m, peers, credit);
    RunOneMore(m, PayCalls(peers, credit), id, amount);
  }

  /** An update changes the store by exactly these calls, in this order. */
  lemma OnUpdateIsItsCalls(m: M.Mem, terms: Terms, node: Node, peers: seq<Node>, now: Time)
    ensures OnUpdate(m, terms, node, peers, now).0 == M.Run(m, Calls(terms, node, peers, now))
  {
    var credit, after := PeerCredit(terms, node, now), OnUpdate(m, terms, node, peers, now).0;
    OnUpdateState(m, terms, node, peers, now);
    if Debited(terms, node, peers, now) {
      PaidAndDebited(m, peers, credit, node.id, -(|peers| * credit), Calls(terms, node, peers, now), after);
    } else {
      PayAllIsItsCalls(m, peers, credit);
    }
  }

  lemma RunOneMore(m: M.Mem, ops: seq<Op>, id: NodeID, amount: int)
    ensures M.Run(m, ops + [AddNodeBalance(id, amount)]) == M.AddNodeBalance(M.Run(m, ops), id, amount).0
  {
    assert (ops + [AddNodeBalance(id, amount)])[..|ops|] == ops;
  }

  // When an update or a connection is refused.

  /**
   * An update is refused for a low balance exactly when it is charged and the whole charge is below the minimum. What
   * the client owns plays no part.
   */
  lemma LowBalanceExactly(m: M.Mem, terms: Terms, node: Node, peers: seq<Node>, now: Time)
    ensures var charge := |peers| * PeerCredit(terms, node, now);
            var r := OnUpdate(m, terms, node, peers, now).1;
            && (r.Err? && r.error.LowBalance? <==>
                  PeerCredit(terms, node, now) != 0 && terms.minBalance.Some? && terms.minBalance.value > charge)
            && (r.Err? && r.error.LowBalance? ==> r.error == LowBalance(charge, terms.minBalance.value))
  {
  }

  /** For a charged update of a registered client that is the only error there is. */
  lemma ChargedUpdateFailsExactly(m: M.Mem, terms: Terms, node: Node, peers: seq<Node>, now: Time)
    requires node.id in m.nodes && PeerCredit(terms, node, now) != 0
    ensures OnUpdate(m, terms, node, peers, now).1.Err? <==>
              terms.minBalance.Some? && terms.minBalance.value > |peers| * PeerCredit(terms, node, now)
  {
    PayAllMoves(m, peers, PeerCredit(terms, node, now), "", "");
  }

  /** What a registered node owns: credit and deposit. */
  function Holdings(m: M.Mem, id: NodeID): int {
    match M.GetNodeBalance(m, id) case Ok(b) => b.credit + b.deposit case Err(_) => 0
  }

  /**
   * The refusal is the documented one, of a client that owns less than the minimum, if and only if the minimum does not
   * lie between what the client owns and what it is charged.
   */
  lemma RefusalMatchesHoldingsExactly(m: M.Mem, terms: Terms, node: Node, peers: seq<Node>, now: Time)
    requires node.id in m.nodes && PeerCredit(terms, node, now) != 0 && terms.minBalance.Some?
    ensures var min, owned := terms.minBalance.value, Holdings(m, node.id);
            var charge := |peers| * PeerCredit(terms, node, now);
            (OnUpdate(m, terms, node, peers, now).1.Err? <==> owned < min)
            <==> (min <= owned && min <= charge) || (owned < min && charge < min)
  {
    ChargedUpdateFailsExactly(m, terms, node, peers, now);
  }

  const RICH := Node("client", "", 0, "", false, "", 0, "", "")

  /** A client that owns a million is refused for a minimum of five, because it has no peers to pay. */
  lemma RichClientIsRefused()
    ensures var m := M.Run(M.EMPTY, [SetNode(RICH), AddNodeBalance("client", 1_000_000)]);
            && Holdings(m, "client") == 1_000_000
            && OnUpdate(m, Terms(1, 1, Some(5)), RICH, [], 1).1 == Err(LowBalance(0, 5))
  {
    var ops := [SetNode(RICH), AddNodeBalance("client", 1_000_000)];
    assert ops[..1] == [SetNode(RICH)] && ops[..1][..0] == [];
    assert M.Run(M.EMPTY, ops[..1]) == M.SetNode(M.EMPTY, RICH).0;
  }

  /**
   * Whom a connection lets in. The node has just been stored, so only the credit and deposit of its account, or of its
   * trial, count, as they were before; a newcomer has none and is refused exactly for a positive minimum.
   */
  lemma WelcomeExactly(m: M.Mem, terms: Terms, n: Node)
    requires M.Valid(m) && n.id != ""
    ensures var r := OnClient(M.SetNode(m, n).0, terms, n);
            var b := if n.id in m.accounts then BalanceAt(m.balances, m.accounts[n.id]) else BalanceAt(m.trials, n.id);
            && r == (if terms.minBalance.None? || terms.minBalance.value <= b.credit + b.deposit then Ok(())
                     else Err(LowBalance(b.credit + b.deposit, terms.minBalance.value)))
            && (n.id !in m.nodes ==> b == NO_BALANCE)
  {
  }

  /**
   * The loop that the code comments warn of: who is refused by an update is let in again on reconnecting exactly if it
   * then owns the minimum, which it does if it did before and its peers were paid a positive credit.
   */
  lemma RefusedAndWelcomedAgain(m: M.Mem, terms: Terms, node: Node, peers: seq<Node>, now: Time)
    requires M.Valid(m) && node.id in m.nodes && PeerCredit(terms, node, now) != 0
    requires terms.minBalance.Some? && terms.minBalance.value > |peers| * PeerCredit(terms, node, now)
    ensures var refused := OnUpdate(m, terms, node, peers, now);
            var again := OnClient(M.SetNode(refused.0, node).0, terms, node);
            && refused.1.Err?
            && (again.Ok? <==> terms.minBalance.value <= Holdings(refused.0, node.id))
            && (PeerCredit(terms, node, now) > 0 && terms.minBalance.value <= Holdings(m, node.id) ==> again.Ok?)
  {
    var credit := PeerCredit(terms, node, now);
    PayAllIsValid(m, peers, credit);
    if credit > 0 {
      PayingNeverTakes(m, peers, credit, node.id);
    }
    WelcomeExactly(PayAll(m, peers, credit), terms, node);
  }

  lemma {:induction false} PayAllIsValid(m: M.Mem, peers: seq<Node>, credit: int)
    requires M.Valid(m)
    ensures M.Valid(PayAll(m, peers, credit)) && PayAll(m, peers, credit).nodes == m.nodes
    decreases |peers|
  {
    if peers != [] {
      var front := peers[..|peers| - 1];
      PayAllIsValid(m, front, credit);
      M.AddNodeBalanceKeepsValid(PayAll(m, front, credit), peers[|peers| - 1].id, credit);
    }
  }

  lemma AddingNeverTakes(m: M.Mem, n: NodeID, credit: int, id: NodeID)
    requires credit >= 0
    ensures Holdings(M.AddNodeBalance(m, n, credit).0, id) >= Holdings(m, id)
  {
  }

  lemma {:induction false} PayingNeverTakes(m: M.Mem, peers: seq<Node>, credit: int, id: NodeID)
    requires credit >= 0
    ensures Holdings(PayAll(m, peers, credit), id) >= Holdings(m, id)
    decreases |peers|
  {
    if peers != [] {
      PayingNeverTakes(m, peers[..|peers| - 1], credit, id);
      AddingNeverTakes(PayAll(m, peers[..|peers| - 1], credit), peers[|peers| - 1].id, credit, id);
    }
  }

  // Rounding.

  lemma QuotientBetween(d: int, q: int)
    requires d > 0 && -d < d * q < 2 * d
    ensures 0 <= q <= 1
  {
    assert q < 0 ==> d * q <= -d;
    assert q > 1 ==> d * q >= 2 * d;
  }

  /** Rounding down twice loses at most one unit against rounding down once. */
  lemma FloorOfSum(x: int, y: int, d: int)
    requires d > 0
    ensures x / d + y / d <= (x + y) / d <= x / d + y / d + 1
  {
    var a, b, c := x / d, y / d, (x + y) / d;
    assert x == d * a + x % d && y == d * b + y % d && x + y == d * c + (x + y) % d;
    assert d * (c - a - b) == d * c - d * a - d * b;
    QuotientBetween(d, c - a - b);
  }

  /** One more charge in front of `n` later ones adds at most one more unit of rounding. */
  lemma AddCharge(terms: Terms, gap: Time, later: Time, earned: int, n: nat)
    requires terms.interval > 0 && (n == 0 ==> later == 0)
    requires earned <= Price(terms, later) <= earned + if n == 0 then 0 else n - 1
    ensures Price(terms, gap) + earned <= Price(terms, gap + later) <= Price(terms, gap) + earned + n
  {
    var c, d := terms.creditPerInterval, terms.interval;
    assert (gap + later) * c == gap * c + later * c;
    FloorOfSum(gap * c, later * c, d);
  }

  /** With at least one unit per instant, longer times cost more. */
  lemma PriceGrows(terms: Terms, x: Time, y: Time)
    requires terms.creditPerInterval >= terms.interval > 0 && x < y
    ensures Price(terms, x) < Price(terms, y)
  {
    var c, d := terms.creditPerInterval, terms.interval;
    var more := (y - x) * c;
    AtLeastOnce(y - x, c);
    assert y * c == x * c + more;
    FloorOfSum(x * c, more, d);
    WholeUnit(more, d);
  }

  lemma AtLeastOnce(k: int, c: int)
    requires k >= 1 && c >= 0
    ensures k * c >= c
  {
    assert k * c == (k - 1) * c + c;
  }

  lemma WholeUnit(x: int, d: int)
    requires x >= d > 0
    ensures x / d >= 1
  {
    FloorOfSum(d, x - d, d);
    assert (x - d) / d >= 0;
  }

  /** A price is the exact product of time and rate over the interval, rounded down to a whole unit. */
  lemma PriceIsExact(terms: Terms, time: Time)
    requires terms.interval > 0
    ensures var p := Price(terms, time);
            p * terms.interval <= time * terms.creditPerInterval < (p + 1) * terms.interval
  {
    var x, d := time * terms.creditPerInterval, terms.interval;
    assert x == d * (x / d) + x % d;
    assert (x / d + 1) * d == d * (x / d) + d;
  }

  /** `charge` is what `time` costs at the rate of the terms, rounded down to a whole unit. */
  predicate InFull(terms: Terms, charge: int, time: Time) {
    charge * terms.interval <= time * terms.creditPerInterval < (charge + 1) * terms.interval
  }

  lemma Scale(x: int, y: int, d: int)
    requires x <= y && d >= 0
    ensures x * d <= y * d
  {
    assert y * d == x * d + (y - x) * d;
  }

  lemma ChargeIsUnique(terms: Terms, x: int, y: int, time: Time)
    requires terms.interval > 0 && InFull(terms, x, time) && InFull(terms, y, time)
    ensures x == y
  {
    if x < y {
      Scale(x + 1, y, terms.interval);
    } else if y < x {
      Scale(y + 1, x, terms.interval);
    }
  }

  /** A gap that a 64-bit duration can express is charged in full. */
  lemma ChargeIsExact(terms: Terms, since: Time, now: Time)
    requires terms.interval > 0 && MIN_DURATION <= now - since <= MAX_DURATION
    ensures InFull(terms, IntervalCredit(terms, since, now), now - since)
  {
    PriceIsExact(terms, now - since);
  }

  /** With at least one unit per instant, a gap is charged in full if and only if a 64-bit duration can express it. */
  lemma GapIsChargedInFullExactly(terms: Terms, since: Time, now: Time)
    requires terms.creditPerInterval >= terms.interval > 0
    ensures InFull(terms, IntervalCredit(terms, since, now), now - since)
       <==> MIN_DURATION <= now - since <= MAX_DURATION
  {
    PriceIsExact(terms, now - since);
    if InFull(terms, IntervalCredit(terms, since, now), now - since) {
      ChargeIsUnique(terms, IntervalCredit(terms, since, now), Price(terms, now - since), now - since);
    }
    if now - since > MAX_DURATION {
      PriceGrows(terms, MAX_DURATION, now - since);
    } else if now - since < MIN_DURATION {
      PriceGrows(terms, now - since, MIN_DURATION);
    }
  }

  /** At any price, a gap that is too long is charged as the longest duration: the excess is not charged. */
  lemma ExcessIsNotCharged(terms: Terms, since: Time, now: Time)
    requires terms.interval > 0
    ensures now - since > MAX_DURATION ==> InFull(terms, IntervalCredit(terms, since, now), MAX_DURATION)
    ensures now - since < MIN_DURATION ==> InFull(terms, IntervalCredit(terms, since, now), MIN_DURATION)
  {
    PriceIsExact(terms, MAX_DURATION);
    PriceIsExact(terms, MIN_DURATION);
  }

  // The updates that charge nothing.

  /**
   * An update that pays nobody changes nothing. It answers with the balance, or with an error if the node is a client
   * and the settings are invalid.
   */
  lemma UnchargedUpdate(m: M.Mem, terms: Terms, node: Node, peers: seq<Node>, now: Time)
    requires node.isHost || terms.interval <= 0 || terms.creditPerInterval == 0
             || IntervalCredit(terms, node.lastSeen, now) == 0
    ensures var (after, r) := OnUpdate(m, terms, node, peers, now);
            && after == m
            && (!node.isHost && (terms.interval <= 0 || terms.creditPerInterval == 0) ==> r == Err(InvalidSettings))
            && (node.isHost || (terms.interval > 0 && terms.creditPerInterval != 0) ==>
                  r == match M.GetNodeBalance(m, node.id) case Ok(b) => Ok(b) case Err(e) => Err(StoreFailure(e)))
  {
  }
}
