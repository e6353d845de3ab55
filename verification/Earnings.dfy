/**
 * What a peer earns from one client over time. Every update runs the store's peer update and then the billing, on
 * whatever order the store lists the peers in; any other calls may come in between.
 */
module Earnings {
  import opened StoreTypes
  import opened Billing
  import M = MemorySpec

  /** In an update of the client the store stamps it at `now` and lists `peers`; it is billed at `billedAt`. */
  datatype Request =
    | Other(op: Op)
    | Update(listed: seq<NodeID>, blockNumber: nat, now: Time, peers: seq<Node>, billedAt: Time)

  function Stamped(m: M.Mem, client: NodeID, r: Request): M.Mem
    requires r.Update?
  {
    M.UpdateNodePeers(m, client, r.listed, r.blockNumber, r.now).0
  }

  /** An update is billed with the client's record from before the stamp. */
  function After(m: M.Mem, terms: Terms, client: NodeID, r: Request): M.Mem {
    match r
    case Other(op) => M.Step(m, op).0
    case Update(_, _, _, peers, billedAt) =>
      if client !in m.nodes then m
      else OnUpdate(Stamped(m, client, r), terms, m.nodes[client].node, peers, billedAt).0
  }

  /** The billing is given exactly the peers that the store has recorded, in some order. */
  ghost predicate Listed(m: M.Mem, client: NodeID, r: Request) {
    r.Update? ==> M.NodePeers(Stamped(m, client, r), client).Ok?
                  && Enumerates(r.peers, M.NodePeers(Stamped(m, client, r), client).value)
  }

  /** The client is charged, and `p` is among the peers that are paid. */
  predicate Pays(m: M.Mem, client: NodeID, r: Request, p: NodeID)
    requires client in m.nodes && r.Update?
  {
    var s := Stamped(m, client, r);
    !m.nodes[client].node.isHost && client in s.nodes && p in s.nodes[client].peers && p in s.nodes
  }

  ghost predicate PaidThroughout(m: M.Mem, terms: Terms, client: NodeID, rs: seq<Request>, p: NodeID)
    decreases |rs|
  {
    rs == [] || (
      && Listed(m, client, rs[0])
      && (rs[0].Update? ==> client in m.nodes && Pays(m, client, rs[0], p))
      && PaidThroughout(After(m, terms, client, rs[0]), terms, client, rs[1..], p))
  }

  /** The sum of what the calls add to node `p`. */
  function Received(calls: seq<Op>, p: NodeID): int {
    if calls == [] then 0 else
      var last := calls[|calls| - 1];
      Received(calls[..|calls| - 1], p) + if last.AddNodeBalance? && last.id == p then last.amount else 0
  }

  /** What `p` earns: all that the updates' payments add to it. */
  function Earned(m: M.Mem, terms: Terms, client: NodeID, rs: seq<Request>, p: NodeID): int
    decreases |rs|
  {
    if rs == [] then 0 else
      var r := rs[0];
      (if r.Update? && client in m.nodes
       then Received(Payments(terms, m.nodes[client].node, r.peers, r.billedAt), p) else 0)
      + Earned(After(m, terms, client, r), terms, client, rs[1..], p)
  }

  // One payment per update.

  lemma {:induction false} PaidOnce(peers: seq<Node>, credit: int, p: NodeID)
    requires forall i, j :: 0 <= i < j < |peers| ==> peers[i].id != peers[j].id
    ensures Received(PayCalls(peers, credit), p) == if exists n :: n in peers && n.id == p then credit else 0
    decreases |peers|
  {
    if peers != [] {
      var front, last := peers[..|peers| - 1], peers[|peers| - 1];
      PaidOnce(front, credit, p);
      assert PayCalls(peers, credit)[..|PayCalls(front, credit)|] == PayCalls(front, credit);
      assert forall n :: n in peers <==> n in front || n == last;
    }
  }

  /** Peers are listed once each, by ID as well. */
  lemma PeersHaveDistinctIDs(m: M.Mem, id: NodeID, peers: seq<Node>)
    requires M.Valid(m) && id in m.nodes && Enumerates(peers, M.NodePeers(m, id).value)
    ensures forall i, j :: 0 <= i < j < |peers| ==> peers[i].id != peers[j].id
    ensures forall n :: n in peers ==> n.id in m.nodes && m.nodes[n.id].node == n
    ensures forall p :: (exists n :: n in peers && n.id == p) <==> p in m.nodes[id].peers && p in m.nodes
  {
    forall n | n in peers ensures n.id in m.nodes[id].peers && n.id in m.nodes && m.nodes[n.id].node == n {
      assert n in M.NodePeers(m, id).value;
    }
    forall p | p in m.nodes[id].peers && p in m.nodes ensures exists n :: n in peers && n.id == p {
      assert m.nodes[p].node in M.NodePeers(m, id).value;
    }
  }

  lemma UpdatePaysOnce(m: M.Mem, terms: Terms, client: NodeID, r: Request, p: NodeID)
    requires M.Valid(m) && client in m.nodes && r.Update? && Listed(m, client, r) && Pays(m, client, r, p)
    requires terms.interval > 0
    ensures Received(Payments(terms, m.nodes[client].node, r.peers, r.billedAt), p)
         == IntervalCredit(terms, m.nodes[client].node.lastSeen, r.billedAt)
  {
    var s, credit := Stamped(m, client, r), PeerCredit(terms, m.nodes[client].node, r.billedAt);
    M.UpdateNodePeersKeepsValid(m, client, r.listed, r.blockNumber, r.now);
    PeersHaveDistinctIDs(s, client, r.peers);
    PaidOnce(r.peers, credit, p);
  }

  // The client's stamp from request to request.

  /** The LastSeen of the client after a request. Only its own updates and registrations move it. */
  function Restamped(since: Time, client: NodeID, r: Request): Time {
    match r
    case Update(_, _, now, _, _) => now
    case Other(SetNode(n)) => if n.id == client && client != "" then n.lastSeen else since
    case Other(UpdateNodePeers(id, _, _, now)) => if id == client then now else since
    case Other(_) => since
  }

  lemma StampedByUpdate(m: M.Mem, terms: Terms, client: NodeID, r: Request)
    requires M.Valid(m) && client in m.nodes && r.Update?
    ensures var after := After(m, terms, client, r);
            M.Valid(after) && client in after.nodes && after.nodes[client].node.lastSeen == r.now
  {
    var s, node := Stamped(m, client, r), m.nodes[client].node;
    M.UpdateNodePeersKeepsValid(m, client, r.listed, r.blockNumber, r.now);
    OnUpdateIsValid(s, terms, node, r.peers, r.billedAt);
  }

  lemma {:induction false} StampedByOther(m: M.Mem, client: NodeID, op: Op)
    requires client in m.nodes && client != ""
    ensures client in M.Step(m, op).0.nodes
    ensures M.Step(m, op).0.nodes[client].node.lastSeen == Restamped(m.nodes[client].node.lastSeen, client, Other(op))
  {
  }

  lemma StampsFollow(m: M.Mem, terms: Terms, client: NodeID, r: Request)
    requires M.Valid(m) && client in m.nodes
    ensures var after := After(m, terms, client, r);
            && M.Valid(after) && client in after.nodes
            && after.nodes[client].node.lastSeen == Restamped(m.nodes[client].node.lastSeen, client, r)
  {
    match r
    case Other(op) =>
      M.StepKeepsValid(m, op);
      StampedByOther(m, client, op);
    case Update(_, _, _, _, _) => StampedByUpdate(m, terms, client, r);
  }

  // Adding up the charges.

  function Updates(rs: seq<Request>): nat {
    if rs == [] then 0 else (if rs[0].Update? then 1 else 0) + Updates(rs[1..])
  }

  /** The charges of the updates, each from the stamp that the store holds before it. */
  function Charges(terms: Terms, since: Time, client: NodeID, rs: seq<Request>): int
    requires terms.interval > 0
    decreases |rs|
  {
    if rs == [] then 0 else
      (if rs[0].Update? then IntervalCredit(terms, since, rs[0].billedAt) else 0)
      + Charges(terms, Restamped(since, client, rs[0]), client, rs[1..])
  }

  /** The time that the updates charge for. */
  function ChargedTime(since: Time, client: NodeID, rs: seq<Request>): Time
    decreases |rs|
  {
    if rs == [] then 0 else
      (if rs[0].Update? then Elapsed(rs[0].billedAt, since) else 0)
      + ChargedTime(Restamped(since, client, rs[0]), client, rs[1..])
  }

  lemma {:induction false} NoUpdatesNoTime(since: Time, client: NodeID, rs: seq<Request>)
    requires Updates(rs) == 0
    ensures ChargedTime(since, client, rs) == 0
    decreases |rs|
  {
    if rs != [] {
      NoUpdatesNoTime(Restamped(since, client, rs[0]), client, rs[1..]);
    }
  }

  /** The charges add up to the price of the charged time, up to one unit of rounding per update after the first. */
  lemma {:induction false} ChargesAddUp(terms: Terms, since: Time, client: NodeID, rs: seq<Request>)
    requires terms.interval > 0
    ensures var n, charges := Updates(rs), Charges(terms, since, client, rs);
            charges <= Price(terms, ChargedTime(since, client, rs)) <= charges + if n == 0 then 0 else n - 1
    decreases |rs|
  {
    if rs != [] {
      var r, rest := rs[0], rs[1..];
      var next := Restamped(since, client, r);
      ChargesAddUp(terms, next, client, rest);
      if r.Update? {
        if Updates(rest) == 0 {
          NoUpdatesNoTime(next, client, rest);
        }
        var later, charges := ChargedTime(next, client, rest), Charges(terms, next, client, rest);
        AddCharge(terms, Elapsed(r.billedAt, since), later, charges, Updates(rest));
      }
    }
  }

  /** What the updates add to a peer that is paid throughout are exactly the charges from the client's LastSeen on. */
  lemma {:induction false} EarnedIsCharges(m: M.Mem, terms: Terms, client: NodeID, rs: seq<Request>, p: NodeID)
    requires M.Valid(m) && client in m.nodes && terms.interval > 0 && PaidThroughout(m, terms, client, rs, p)
    ensures Earned(m, terms, client, rs, p) == Charges(terms, m.nodes[client].node.lastSeen, client, rs)
    decreases |rs|
  {
    if rs != [] {
      if rs[0].Update? {
        UpdatePaysOnce(m, terms, client, rs[0], p);
      }
      StampsFollow(m, terms, client, rs[0]);
      EarnedIsCharges(After(m, terms, client, rs[0]), terms, client, rs[1..], p);
    }
  }

  /** Rounding, in whole numbers: `earned` is off from `charged` times rate over interval by less than `n` units. */
  predicate WithinUnits(terms: Terms, charged: Time, earned: int, n: nat) {
    0 <= charged * terms.creditPerInterval - earned * terms.interval < n * terms.interval
  }

  lemma WithinUnitsOfPrice(terms: Terms, charged: Time, earned: int, n: nat)
    requires terms.interval > 0 && n >= 1 && earned <= Price(terms, charged) <= earned + n - 1
    ensures WithinUnits(terms, charged, earned, n)
  {
    var d, p := terms.interval, Price(terms, charged);
    PriceIsExact(terms, charged);
    Scale(earned, p, d);
    Scale(p + 1, earned + n, d);
    assert (earned + n) * d == earned * d + n * d;
  }

  /**
   * Billing does not depend on how often the client reports: what a peer that is paid throughout earns from `n` updates
   * is the charged time at the rate of the terms, but for less than one unit of rounding per update.
   */
  lemma EarningsIndependentOfRate(m: M.Mem, terms: Terms, client: NodeID, rs: seq<Request>, p: NodeID)
    requires M.Valid(m) && client in m.nodes && terms.interval > 0 && PaidThroughout(m, terms, client, rs, p)
    requires Updates(rs) >= 1
    ensures var charged := ChargedTime(m.nodes[client].node.lastSeen, client, rs);
            var earned := Earned(m, terms, client, rs, p);
            0 <= charged * terms.creditPerInterval - earned * terms.interval < Updates(rs) * terms.interval
  {
    var since := m.nodes[client].node.lastSeen;
    EarnedIsCharges(m, terms, client, rs, p);
    ChargesAddUp(terms, since, client, rs);
    WithinUnitsOfPrice(terms, ChargedTime(since, client, rs), Earned(m, terms, client, rs, p), Updates(rs));
  }

  // What the charged time is.

  /** The store's stamp on the client after the requests. */
  function LastStamp(since: Time, client: NodeID, rs: seq<Request>): Time
    decreases |rs|
  {
    if rs == [] then since else LastStamp(Restamped(since, client, rs[0]), client, rs[1..])
  }

  /** How much later the billing read the clock than the store did, summed over the updates. */
  function Lag(rs: seq<Request>): Time {
    if rs == [] then 0 else (if rs[0].Update? then rs[0].billedAt - rs[0].now else 0) + Lag(rs[1..])
  }

  /** The time that stamps without a bill skip: the client connects again, or its update fails after the stamp. */
  function Uncharged(since: Time, client: NodeID, rs: seq<Request>): Time
    decreases |rs|
  {
    if rs == [] then 0 else
      var next := Restamped(since, client, rs[0]);
      (if rs[0].Update? then 0 else next - since) + Uncharged(next, client, rs[1..])
  }

  /** No single charge spans more time than a duration can express. */
  predicate NoGapSaturates(since: Time, client: NodeID, rs: seq<Request>)
    decreases |rs|
  {
    rs == [] || (
      && (rs[0].Update? ==> MIN_DURATION <= rs[0].billedAt - since <= MAX_DURATION)
      && NoGapSaturates(Restamped(since, client, rs[0]), client, rs[1..]))
  }

  /**
   * The charged time is the time from the first stamp to the last, longer by the billing lags and shorter by what
   * stamps without a bill skip.
   */
  lemma {:induction false} ChargedTimeIs(since: Time, client: NodeID, rs: seq<Request>)
    requires NoGapSaturates(since, client, rs)
    ensures ChargedTime(since, client, rs)
         == LastStamp(since, client, rs) - since + Lag(rs) - Uncharged(since, client, rs)
    decreases |rs|
  {
    if rs != [] {
      ChargedTimeIs(Restamped(since, client, rs[0]), client, rs[1..]);
    }
  }

  /** Every update is billed at the instant of the stamp before it. */
  predicate BilledAtStamp(since: Time, client: NodeID, rs: seq<Request>)
    decreases |rs|
  {
    rs == [] || (
      && (rs[0].Update? ==> rs[0].billedAt == since)
      && BilledAtStamp(Restamped(since, client, rs[0]), client, rs[1..]))
  }

  /** A client that registers at the instant of each of its bills is never charged, for whatever span of time. */
  lemma {:induction false} ReconnectingIsNeverBilled(m: M.Mem, terms: Terms, client: NodeID, rs: seq<Request>,
                                                     p: NodeID)
    requires M.Valid(m) && client in m.nodes && BilledAtStamp(m.nodes[client].node.lastSeen, client, rs)
    ensures Earned(m, terms, client, rs, p) == 0
    decreases |rs|
  {
    if rs != [] {
      StampsFollow(m, terms, client, rs[0]);
      ReconnectingIsNeverBilled(After(m, terms, client, rs[0]), terms, client, rs[1..], p);
    }
  }

  /** One round of this: register, update and bill at `now`. The ledger is the one from before. */
  lemma ReconnectAndUpdateIsFree(m: M.Mem, terms: Terms, n: Node, listed: seq<NodeID>, block: nat, now: Time,
                                 peers: seq<Node>)
    requires n.id != "" && n.lastSeen == now
    ensures var r := Update(listed, block, now, peers, now);
            var after := After(After(m, terms, n.id, Other(SetNode(n))), terms, n.id, r);
            after.balances == m.balances && after.trials == m.trials
  {
  }

  // What reaches the ledger.

  /** The credit that node `p` can draw on. */
  function NodeCredit(m: M.Mem, p: NodeID): int {
    match M.GetNodeBalance(m, p) case Ok(b) => b.credit case Err(_) => 0
  }

  /** Both nodes draw on one balance: the same account, or they are one node on trial. */
  predicate SameBalance(m: M.Mem, p: NodeID, q: NodeID) {
    if p in m.accounts then q in m.accounts && m.accounts[q] == m.accounts[p] else p == q
  }

  /** How many of the peers are registered and draw on the balance of `p`. */
  function Sharers(m: M.Mem, peers: seq<Node>, p: NodeID): nat {
    if peers == [] then 0 else
      var id := peers[|peers| - 1].id;
      Sharers(m, peers[..|peers| - 1], p) + if id in m.nodes && SameBalance(m, p, id) then 1 else 0
  }

  lemma {:induction false} SharersCount(m: M.Mem, peers: seq<Node>, p: NodeID)
    ensures Sharers(m, peers, p)
         == if p in m.accounts then BoundPeers(m, peers, m.accounts[p]) else TrialPeers(m, peers, p)
    decreases |peers|
  {
    if peers != [] {
      SharersCount(m, peers[..|peers| - 1], p);
    }
  }

  /** An update moves the credit behind `p` once for every peer that shares it, less the charge if the client does. */
  lemma GainExactly(m: M.Mem, terms: Terms, node: Node, peers: seq<Node>, now: Time, p: NodeID)
    requires p in m.nodes && node.id in m.nodes
    ensures var credit := PeerCredit(terms, node, now);
            NodeCredit(OnUpdate(m, terms, node, peers, now).0, p) - NodeCredit(m, p)
            == Sharers(m, peers, p) * credit
               - if Debited(terms, node, peers, now) && SameBalance(m, p, node.id) then |peers| * credit else 0
  {
    var credit := PeerCredit(terms, node, now);
    if credit != 0 {
      var a := if p in m.accounts then m.accounts[p] else "";
      OnUpdateMoves(m, terms, node, peers, now, a, p);
      SharersCount(m, peers, p);
      OnUpdateKeepsBindings(m, terms, node, peers, now);
    }
  }

  /** Nobody else that is paid, nor the client, draws on the balance of `p`. */
  predicate Alone(m: M.Mem, client: NodeID, peers: seq<Node>, p: NodeID) {
    !SameBalance(m, p, client) && forall n :: n in peers && n.id != p ==> !SameBalance(m, p, n.id)
  }

  lemma {:induction false} AloneSharers(m: M.Mem, peers: seq<Node>, credit: int, p: NodeID)
    requires forall n :: n in peers ==> n.id in m.nodes && (n.id != p ==> !SameBalance(m, p, n.id))
    ensures Sharers(m, peers, p) * credit == Received(PayCalls(peers, credit), p)
    decreases |peers|
  {
    if peers != [] {
      var front := peers[..|peers| - 1];
      AloneSharers(m, front, credit, p);
      assert PayCalls(peers, credit)[..|PayCalls(front, credit)|] == PayCalls(front, credit);
      assert (Sharers(m, front, p) + 1) * credit == Sharers(m, front, p) * credit + credit;
    }
  }

  ghost predicate AloneThroughout(m: M.Mem, terms: Terms, client: NodeID, rs: seq<Request>, p: NodeID)
    decreases |rs|
  {
    rs == [] || (
      && (rs[0].Update? ==> Alone(Stamped(m, client, rs[0]), client, rs[0].peers, p))
      && AloneThroughout(After(m, terms, client, rs[0]), terms, client, rs[1..], p))
  }

  /** By how much the updates raise the credit behind `p`, read off the store before and after each of them. */
  function Gained(m: M.Mem, terms: Terms, client: NodeID, rs: seq<Request>, p: NodeID): int
    decreases |rs|
  {
    if rs == [] then 0 else
      var after := After(m, terms, client, rs[0]);
      (if rs[0].Update? then NodeCredit(after, p) - NodeCredit(m, p) else 0)
      + Gained(after, terms, client, rs[1..], p)
  }

  lemma UpdateGain(m: M.Mem, terms: Terms, client: NodeID, r: Request, p: NodeID)
    requires M.Valid(m) && client in m.nodes && r.Update? && Listed(m, client, r) && p in m.nodes
    requires Alone(Stamped(m, client, r), client, r.peers, p)
    ensures NodeCredit(After(m, terms, client, r), p) - NodeCredit(m, p)
         == Received(Payments(terms, m.nodes[client].node, r.peers, r.billedAt), p)
  {
    var s, node := Stamped(m, client, r), m.nodes[client].node;
    M.UpdateNodePeersKeepsValid(m, client, r.listed, r.blockNumber, r.now);
    PeersHaveDistinctIDs(s, client, r.peers);
    GainExactly(s, terms, node, r.peers, r.billedAt, p);
    AloneSharers(s, r.peers, PeerCredit(terms, node, r.billedAt), p);
    assert NodeCredit(s, p) == NodeCredit(m, p);
  }

  /** For a peer with a balance of its own, the earnings are what the store's balance grows by. */
  lemma {:induction false} GainedIsEarned(m: M.Mem, terms: Terms, client: NodeID, rs: seq<Request>, p: NodeID)
    requires M.Valid(m) && client in m.nodes && p in m.nodes
    requires PaidThroughout(m, terms, client, rs, p) && AloneThroughout(m, terms, client, rs, p)
    ensures Gained(m, terms, client, rs, p) == Earned(m, terms, client, rs, p)
    decreases |rs|
  {
    if rs != [] {
      if rs[0].Update? {
        UpdateGain(m, terms, client, rs[0], p);
      }
      StampsFollow(m, terms, client, rs[0]);
      NodesStay(m, terms, client, rs[0], p);
      GainedIsEarned(After(m, terms, client, rs[0]), terms, client, rs[1..], p);
    }
  }

  lemma NodesStay(m: M.Mem, terms: Terms, client: NodeID, r: Request, p: NodeID)
    requires M.Valid(m) && p in m.nodes
    ensures p in After(m, terms, client, r).nodes
  {
    match r
    case Other(op) => M.StepKeepsValid(m, op);
    case Update(_, _, _, peers, billedAt) =>
      if client in m.nodes {
        OnUpdateKeepsBindings(Stamped(m, client, r), terms, m.nodes[client].node, peers, billedAt);
      }
  }

  /** So is, up to rounding, the growth of that balance independent of how often the client reports. */
  lemma GrowthIndependentOfRate(m: M.Mem, terms: Terms, client: NodeID, rs: seq<Request>, p: NodeID)
    requires M.Valid(m) && client in m.nodes && p in m.nodes && terms.interval > 0 && Updates(rs) >= 1
    requires PaidThroughout(m, terms, client, rs, p) && AloneThroughout(m, terms, client, rs, p)
    ensures var charged := ChargedTime(m.nodes[client].node.lastSeen, client, rs);
            var gained := Gained(m, terms, client, rs, p);
            0 <= charged * terms.creditPerInterval - gained * terms.interval < Updates(rs) * terms.interval
  {
    GainedIsEarned(m, terms, client, rs, p);
    EarningsIndependentOfRate(m, terms, client, rs, p);
  }

  /**
   * One update with one peer, in whole numbers: the credit that the peer gains is the time since the client was last
   * seen at the rate of the terms, rounded down, and the client loses as much unless that is below the minimum.
   */
  lemma LonePeerIsPaidExactly(m: M.Mem, terms: Terms, node: Node, peer: Node, now: Time)
    requires !node.isHost && terms.interval > 0 && MIN_DURATION <= now - node.lastSeen <= MAX_DURATION
    requires peer.id in m.nodes && node.id in m.nodes
    requires !SameBalance(m, peer.id, node.id) && !SameBalance(m, node.id, peer.id)
    ensures var after := OnUpdate(m, terms, node, [peer], now).0;
            var credit := NodeCredit(after, peer.id) - NodeCredit(m, peer.id);
            && credit * terms.interval <= (now - node.lastSeen) * terms.creditPerInterval
            && (now - node.lastSeen) * terms.creditPerInterval < (credit + 1) * terms.interval
            && NodeCredit(m, node.id) - NodeCredit(after, node.id)
               == if terms.minBalance.Some? && credit < terms.minBalance.value then 0 else credit
  {
    LonePeerGains(m, terms, node, peer, now);
    ClientLoses(m, terms, node, peer, now);
    CreditOfClient(terms, node, now);
  }

  lemma CreditOfClient(terms: Terms, node: Node, now: Time)
    requires !node.isHost && terms.interval > 0 && MIN_DURATION <= now - node.lastSeen <= MAX_DURATION
    ensures InFull(terms, PeerCredit(terms, node, now), now - node.lastSeen)
  {
    ChargeIsExact(terms, node.lastSeen, now);
    if terms.creditPerInterval == 0 {
      assert (now - node.lastSeen) * terms.creditPerInterval == 0;
    }
  }

  lemma LonePeerGains(m: M.Mem, terms: Terms, node: Node, peer: Node, now: Time)
    requires peer.id in m.nodes && node.id in m.nodes && !SameBalance(m, peer.id, node.id)
    ensures NodeCredit(OnUpdate(m, terms, node, [peer], now).0, peer.id) - NodeCredit(m, peer.id)
         == PeerCredit(terms, node, now)
  {
    assert [peer][..|[peer]| - 1] == [];
    assert Sharers(m, [peer], peer.id) == 1;
    GainExactly(m, terms, node, [peer], now, peer.id);
  }

  lemma ClientLoses(m: M.Mem, terms: Terms, node: Node, peer: Node, now: Time)
    requires peer.id in m.nodes && node.id in m.nodes && !SameBalance(m, node.id, peer.id)
    ensures var credit := PeerCredit(terms, node, now);
            NodeCredit(m, node.id) - NodeCredit(OnUpdate(m, terms, node, [peer], now).0, node.id)
            == if terms.minBalance.Some? && credit < terms.minBalance.value then 0 else credit
  {
    assert [peer][..|[peer]| - 1] == [];
    assert Sharers(m, [peer], node.id) == 0;
    GainExactly(m, terms, node, [peer], now, node.id);
  }
}
