/** The pool service: host connections, the requests of nodes, and the work they cause in the store. */
module Pool {
  import opened Wrappers
  import opened StoreTypes
  import opened Choices
  import opened Cardinality
  import opened HostRequests
  import M = MemorySpec
  import Billing
  import PayPerInterval
  import HostRegistry
  import SilentPeers

  type Service = HostRegistry.Service

  datatype RequestError =
    | WrongNetwork
    | NoService
    | BadAddress
    | VerifyFailed
    | StoreFailure(store: StoreError)
    | NoBlockNumber
    | Refused(billing: Billing.BillingError)
    | RemoteHostErrors(failed: nat)
    | NoHostNodes(found: nat)

  /** The nodes that a request of `id` skips: itself and its registered peers. */
  function Skipped(m: M.Mem, id: NodeID): set<NodeID> {
    {id} + match M.NodePeers(m, id) case Err(_) => {} case Ok(peers) => set n | n in peers :: n.id
  }

  /** The answer, from the hosts that were selected, those that were called and those that acknowledged. */
  ghost predicate Answers(res: Result<seq<Node>, RequestError>, records: Records, selected: nat, called: set<NodeID>,
                          acks: set<NodeID>)
  {
    if called * acks != {} then res.Ok? && Selection(res.value, records, called * acks, 0)
    else res == Err(if called != {} then RemoteHostErrors(|called|) else NoHostNodes(selected))
  }

  /** Once every called host has replied, the accepted ones and the failures are the called ones, divided by `acks`. */
  lemma AllReplied(remotes: seq<Node>, records: Records, called: set<NodeID>, acks: set<NodeID>, accepted: seq<Node>,
                   yes: set<NodeID>, no: set<NodeID>)
    requires Lists(remotes, records, called) && IDsOf(remotes) == called
    requires forall n :: n in remotes ==> n.id in yes + no
    requires Lists(accepted, records, yes) && |accepted| == |yes|
    requires forall id :: id in yes ==> id in called && id in acks
    requires forall id :: id in no ==> id in called && id !in acks
    ensures Selection(accepted, records, called * acks, 0) && |no| == |called - acks| && |yes| + |no| == |remotes|
  {
    assert called <= yes + no;
    assert yes == called * acks && no == called - acks;
    ListedOnce(remotes, records, called);
    SplitSize(called, acks);
  }

  /** The replies come in any order. Every called host is either accepted or counted as a failure. */
  method Gather(remotes: seq<Node>, ghost records: Records, ghost called: set<NodeID>, acks: set<NodeID>)
    returns (accepted: seq<Node>, failures: nat)
    requires Lists(remotes, records, called) && IDsOf(remotes) == called
    ensures Selection(accepted, records, called * acks, 0)
    ensures failures == |called - acks| && |accepted| + failures == |remotes|
  {
    accepted, failures := [], 0;
    var waiting := set n | n in remotes;
    ghost var yes: set<NodeID>, no: set<NodeID> := {}, {};
    while waiting != {}
      invariant forall n :: n in waiting ==> n in remotes && n.id !in yes && n.id !in no
      invariant forall n :: n in remotes && n !in waiting ==> n.id in yes || n.id in no
      invariant Lists(accepted, records, yes) && |accepted| == |yes| && failures == |no|
      invariant forall id :: id in yes ==> id in called && id in acks
      invariant forall id :: id in no ==> id in called && id !in acks
      decreases |waiting|
    {
      var node :| node in waiting;
      waiting := waiting - {node};
      assert node.id in called && records[node.id] == node;
      if node.id in acks {
        AppendListed(accepted, records, yes, node);
        accepted, yes := accepted + [node], yes + {node.id};
      } else {
        failures, no := failures + 1, no + {node.id};
      }
    }
    AllReplied(remotes, records, called, acks, accepted, yes, no);
  }

  /** Some acceptance is a success; otherwise the failures are reported, or that there was nobody to call. */
  method Respond(accepted: seq<Node>, failures: nat, found: nat, ghost records: Records, ghost called: set<NodeID>,
                 ghost acks: set<NodeID>)
    returns (r: Result<seq<Node>, RequestError>)
    requires Selection(accepted, records, called * acks, 0) && failures == |called - acks|
    ensures Answers(r, records, found, called, acks)
  {
    if |accepted| >= 1 {
      return Ok(accepted);
    }
    assert called * acks == {};
    forall id | id in called ensures id !in acks {
      assert id in acks ==> id in called * acks;
    }
    assert called - acks == called;
    return Err(if failures > 0 then RemoteHostErrors(failures) else NoHostNodes(found));
  }

  /** The selected nodes that are not skipped and have a connection. */
  method Callable(selected: seq<Node>, ghost records: Records, skip: set<NodeID>, remoteHosts: map<NodeID, Service>)
    returns (remotes: seq<Node>)
    requires Lists(selected, records, IDsOf(selected))
    ensures IDsOf(remotes) == (IDsOf(selected) - skip) * remoteHosts.Keys
    ensures Lists(remotes, records, IDsOf(remotes))
  {
    remotes := [];
    for i := 0 to |selected|
      invariant forall n :: n in remotes ==> n in selected[..i]
      invariant forall n :: n in selected[..i] ==> (n in remotes <==> n.id !in skip && n.id in remoteHosts)
      invariant forall j, k :: 0 <= j < k < |remotes| ==> remotes[j].id != remotes[k].id
    {
      if selected[i].id !in skip && selected[i].id in remoteHosts {
        remotes := remotes + [selected[i]];
      }
    }
  }

  /**
   * What a requester gets: hosts that are eligible, connected, willing and new to it, up to as many as it asked for and
   * skipped; and at least as many as it asked for, or all there are, if every eligible host is connected and willing.
   */
  lemma RequestOutcome(r: Result<seq<Node>, RequestError>, records: Records, selected: seq<Node>, eligible: set<NodeID>,
                       skip: set<NodeID>, n: nat, remoteHosts: map<NodeID, Service>, acks: set<NodeID>)
    requires n >= 1 && Selection(selected, records, eligible, n + |skip|)
    requires Answers(r, records, |selected|, (IDsOf(selected) - skip) * remoteHosts.Keys, acks)
    ensures r.Ok? ==>
              Lists(r.value, records, (eligible - skip) * remoteHosts.Keys * acks) && 1 <= |r.value| <= n + |skip|
    ensures eligible - skip <= remoteHosts.Keys * acks && eligible - skip != {} ==>
              r.Ok? && Min(n, |eligible - skip|) <= |r.value|
  {
    var candidates := IDsOf(selected) - skip;
    var called := candidates * remoteHosts.Keys;
    CandidateBounds(selected, records, eligible, skip, n);
    SubsetIsSmaller(called * acks, candidates);
    if eligible - skip <= remoteHosts.Keys * acks {
      assert called * acks == candidates;
      assert eligible - skip != {} ==> |eligible - skip| > 0;
    }
  }

  lemma CapIsRespected(max: int, num: nat)
    ensures Capped(max, num) == if max <= 0 || num <= max then num else max
  {
  }

  /** The skipped nodes, one by one: the requester and those of its recorded peers that are registered. */
  lemma WhoIsSkipped(m: M.Mem, id: NodeID)
    requires M.Valid(m) && id in m.nodes
    ensures forall h :: h in Skipped(m, id) <==> h == id || (h in m.nodes[id].peers && h in m.nodes)
    ensures 1 <= |Skipped(m, id)| <= 1 + |m.nodes[id].peers|
  {
    var peers := m.nodes[id].peers;
    forall h | h in peers && h in m.nodes ensures h in Skipped(m, id) {
      assert m.nodes[h].node in M.NodePeers(m, id).value;
    }
    assert Skipped(m, id) <= {id} + peers.Keys;
    SubsetIsSmaller(Skipped(m, id), {id} + peers.Keys);
    SubsetIsSmaller({id}, Skipped(m, id));
  }

  /** Whom a request returns. */
  lemma WhoIsReturned(m: M.Mem, id: NodeID, kind: string, now: Time, r: Result<seq<Node>, RequestError>,
                      selected: seq<Node>, limit: nat, hosts: set<NodeID>, acks: set<NodeID>, others: set<NodeID>)
    requires M.Valid(m) && id in m.nodes && others == M.EligibleHosts(m, kind, now) - Skipped(m, id)
    requires Selection(selected, M.NodeRecords(m), M.EligibleHosts(m, kind, now), limit)
    requires Answers(r, M.NodeRecords(m), |selected|, (IDsOf(selected) - Skipped(m, id)) * hosts, acks)
    ensures r.Ok? ==> forall h :: h in r.value ==>
              h.id in others && h.id in m.nodes && m.nodes[h.id].node == h && h.id in hosts && h.id in acks
    ensures r.Ok? ==> forall i, j :: 0 <= i < j < |r.value| ==> r.value[i].id != r.value[j].id
  {
    ListedOnce(selected, M.NodeRecords(m), M.EligibleHosts(m, kind, now));
  }

  /** How many a request returns. */
  lemma HowManyAreReturned(m: M.Mem, id: NodeID, n: nat, kind: string, now: Time, r: Result<seq<Node>, RequestError>,
                           selected: seq<Node>, remoteHosts: map<NodeID, Service>, acks: set<NodeID>,
                           others: set<NodeID>)
    requires M.Valid(m) && id in m.nodes && n >= 1
    requires Selection(selected, M.NodeRecords(m), M.EligibleHosts(m, kind, now), n + |Skipped(m, id)|)
    requires Answers(r, M.NodeRecords(m), |selected|, (IDsOf(selected) - Skipped(m, id)) * remoteHosts.Keys, acks)
    requires others == M.EligibleHosts(m, kind, now) - Skipped(m, id)
    ensures r.Ok? ==> 1 <= |r.value| <= n + 1 + |m.nodes[id].peers|
    ensures others <= remoteHosts.Keys * acks && others != {} ==>
              r.Ok? && |r.value| >= if n < |others| then n else |others|
  {
    WhoIsSkipped(m, id);
    RequestOutcome(r, M.NodeRecords(m), selected, M.EligibleHosts(m, kind, now), Skipped(m, id), n, remoteHosts, acks);
  }

  lemma OthersAre(m: M.Mem, id: NodeID, kind: string, now: Time, others: set<NodeID>)
    requires M.Valid(m) && id in m.nodes
    requires forall h :: h in others <==>
               && h in m.nodes && h != id && h !in m.nodes[id].peers && m.nodes[h].node.isHost
               && (kind == "" || m.nodes[h].node.kind == kind) && m.nodes[h].node.lastSeen > now - EXPIRE_INTERVAL
    ensures others == M.EligibleHosts(m, kind, now) - Skipped(m, id)
  {
    WhoIsSkipped(m, id);
  }

  /** Which error a request ends with. */
  lemma WhyNobodyIsReturned(m: M.Mem, id: NodeID, n: nat, kind: string, now: Time, r: Result<seq<Node>, RequestError>,
                            selected: seq<Node>, hosts: set<NodeID>, acks: set<NodeID>, others: set<NodeID>)
    requires M.Valid(m) && id in m.nodes && n >= 1 && others == M.EligibleHosts(m, kind, now) - Skipped(m, id)
    requires Selection(selected, M.NodeRecords(m), M.EligibleHosts(m, kind, now), n + |Skipped(m, id)|)
    requires Answers(r, M.NodeRecords(m), |selected|, (IDsOf(selected) - Skipped(m, id)) * hosts, acks)
    ensures others !! hosts ==> r.Err? && r.error.NoHostNodes?
    ensures r.Err? && others != {} && others <= hosts ==> r.error.RemoteHostErrors?
    ensures r.Err? && r.error.RemoteHostErrors? ==> 1 <= r.error.failed <= |others * hosts|
    ensures r.Err? ==> r.error.NoHostNodes? || r.error.RemoteHostErrors?
  {
    var called := (IDsOf(selected) - Skipped(m, id)) * hosts;
    CandidateBounds(selected, M.NodeRecords(m), M.EligibleHosts(m, kind, now), Skipped(m, id), n);
    assert others !! hosts ==> called == {};
    assert others != {} ==> |others| >= 1;
    assert others <= hosts ==> called == IDsOf(selected) - Skipped(m, id);
    assert called <= others * hosts;
    SubsetIsSmaller(called, others * hosts);
  }

  lemma RequestMeans(m: M.Mem, id: NodeID, num: nat, max: int, kind: string, now: Time,
                     remoteHosts: map<NodeID, Service>, acks: set<NodeID>, r: Result<seq<Node>, RequestError>,
                     selected: seq<Node>, called: set<NodeID>, others: set<NodeID>)
    requires M.Valid(m) && id in m.nodes && num > 0
    requires Selection(selected, M.NodeRecords(m), M.EligibleHosts(m, kind, now), Capped(max, num) + |Skipped(m, id)|)
    requires called == (IDsOf(selected) - Skipped(m, id)) * remoteHosts.Keys
    requires Answers(r, M.NodeRecords(m), |selected|, called, acks)
    requires forall h :: h in others <==>
               && h in m.nodes && h != id && h !in m.nodes[id].peers && m.nodes[h].node.isHost
               && (kind == "" || m.nodes[h].node.kind == kind) && m.nodes[h].node.lastSeen > now - EXPIRE_INTERVAL
    ensures r.Ok? ==> forall h :: h in r.value ==>
              h.id in others && h.id in m.nodes && m.nodes[h.id].node == h && h.id in remoteHosts && h.id in acks
    ensures r.Ok? ==> forall i, j :: 0 <= i < j < |r.value| ==> r.value[i].id != r.value[j].id
    ensures var n := if max <= 0 || num <= max then num else max;
            && (r.Ok? ==> 1 <= |r.value| <= n + 1 + |m.nodes[id].peers|)
            && (others <= remoteHosts.Keys * acks && others != {} ==>
                  r.Ok? && |r.value| >= if n < |others| then n else |others|)
    ensures others !! remoteHosts.Keys ==> r.Err? && r.error.NoHostNodes?
    ensures r.Err? && others != {} && others <= remoteHosts.Keys ==> r.error.RemoteHostErrors?
    ensures r.Err? && r.error.RemoteHostErrors? ==> 1 <= r.error.failed <= |others * remoteHosts.Keys|
    ensures r.Err? ==> r.error.NoHostNodes? || r.error.RemoteHostErrors?
  {
    var n := Capped(max, num);
    CapIsRespected(max, num);
    OthersAre(m, id, kind, now, others);
    WhoIsReturned(m, id, kind, now, r, selected, n + |Skipped(m, id)|, remoteHosts.Keys, acks, others);
    HowManyAreReturned(m, id, n, kind, now, r, selected, remoteHosts, acks, others);
    WhyNobodyIsReturned(m, id, n, kind, now, r, selected, remoteHosts.Keys, acks, others);
  }

  /** Whether a request counts as signed and fresh. A signature over the older form of the request is tried second. */
  function Verified(m: M.Mem, signed: bool, signedOld: bool, id: NodeID, nonce: int, now: Time, later: Time)
    : (M.Mem, bool)
  {
    var first := M.CheckAndSaveNonce(m, id, nonce, now);
    var second := M.CheckAndSaveNonce(m, id, nonce, later);
    if signed && first.1.Ok? then (first.0, true)
    else if signedOld && second.1.Ok? then (second.0, true)
    else (m, false)
  }

  /** The second try helps a signature, never a nonce: with some valid signature, one check of the nonce decides. */
  lemma RetryDoesNotReviveNonce(m: M.Mem, signed: bool, signedOld: bool, id: NodeID, nonce: int, now: Time, later: Time)
    requires now <= later
    ensures Verified(m, signed, signedOld, id, nonce, now, later)
         == if !signed && !signedOld then (m, false)
            else var check := M.CheckAndSaveNonce(m, id, nonce, if signed then now else later); (check.0, check.1.Ok?)
  {
  }

  class VipnodePool {
    const manager: PayPerInterval.Manager
    const maxRequestHosts: int
    var remoteHosts: map<NodeID, Service>
    var remoteNodeLookup: map<Service, NodeID>

    constructor (manager: PayPerInterval.Manager, maxRequestHosts: int)
      ensures this.manager == manager && this.maxRequestHosts == maxRequestHosts
      ensures Hosts() == HostRegistry.NOBODY
    {
      this.manager, this.maxRequestHosts := manager, maxRequestHosts;
      remoteHosts, remoteNodeLookup := map[], map[];
    }

    ghost function Hosts(): HostRegistry.Registry
      reads this
    {
      HostRegistry.Registry(remoteHosts, remoteNodeLookup)
    }

    ghost function State(): M.Mem
      reads manager.store
    {
      manager.store.State()
    }

    method CloseRemote(service: Service)
      modifies this
      ensures Hosts() == HostRegistry.Next(old(Hosts()), HostRegistry.Close(service))
    {
      if service !in remoteNodeLookup {
        return;
      }
      var id := remoteNodeLookup[service];
      remoteNodeLookup := remoteNodeLookup - {service};
      remoteHosts := remoteHosts - {id};
    }

    /**
     * A node on the wrong network is refused, and so is a host without a connection to call it back on or with an
     * address that cannot be normalised. A host that gets this far keeps its connection, even if the store or the
     * balance manager then refuses the node.
     */
    method Connect(node: Node, networkAllowed: bool, service: Option<Service>, address: Option<string>, now: Time)
      returns (r: Result<(), RequestError>)
      requires M.Valid(State())
      modifies this, manager.store
      ensures M.Valid(State())
      ensures !networkAllowed ==> r == Err(WrongNetwork)
      ensures networkAllowed && node.isHost && service.None? ==> r == Err(NoService)
      ensures networkAllowed && node.isHost && service.Some? && address.None? ==> r == Err(BadAddress)
      ensures var refused := !networkAllowed || (node.isHost && (service.None? || address.None?));
              var n := node.(uri := if node.isHost then address.GetOr("") else node.uri);
              && (refused ==> State() == old(State()) && remoteHosts == old(remoteHosts)
                              && remoteNodeLookup == old(remoteNodeLookup))
              && (!refused && node.isHost ==>
                    && remoteHosts == old(remoteHosts)[node.id := service.value]
                    && remoteNodeLookup == old(remoteNodeLookup)[service.value := node.id]
                    && Hosts() == HostRegistry.Next(old(Hosts()), HostRegistry.Connect(node.id, service.value)))
              && (!node.isHost ==> remoteHosts == old(remoteHosts) && remoteNodeLookup == old(remoteNodeLookup))
              && (!refused ==> State() == SilentPeers.After(old(State()), SilentPeers.Connect(n, now)))
              && (!refused && node.id == "" ==> State() == old(State()) && r == Err(StoreFailure(MalformedNode)))
              && (!refused && node.id != "" ==>
                    && State() == old(State()).(nodes := State().nodes)
                    && State().nodes == old(State()).nodes[node.id := M.MemNode(n.(lastSeen := now), map[])]
                    && var m, min := old(State()), manager.terms.minBalance;
                       var b := if node.id in m.accounts then BalanceAt(m.balances, m.accounts[node.id])
                                else BalanceAt(m.trials, node.id);
                       r == if min.None? || min.value <= b.credit + b.deposit then Ok(())
                            else Err(Refused(Billing.LowBalance(b.credit + b.deposit, min.value))))
    {
      if !networkAllowed {
        return Err(WrongNetwork);
      }
      var n := node.(lastSeen := now);
      if node.isHost {
        if service.None? {
          return Err(NoService);
        }
        if address.None? {
          return Err(BadAddress);
        }
        n := n.(uri := address.value);
        remoteHosts := remoteHosts[node.id := service.value];
        remoteNodeLookup := remoteNodeLookup[service.value := node.id];
      }
      if node.id != "" {
        Billing.WelcomeExactly(State(), manager.terms, n);
      }
      var stored := manager.store.SetNode(n);
      if stored.Err? {
        return Err(StoreFailure(stored.error));
      }
      var welcome := manager.OnClient(n);
      return match welcome case Ok(_) => Ok(()) case Err(e) => Err(Refused(e));
    }

    /**
     * Asks hosts to admit `id`. `acks` are the hosts that would acknowledge. `selected` is what the store offered and
     * `called` who was asked.
     */
    method SeekHosts(id: NodeID, num: nat, kind: string, now: Time, acks: set<NodeID>)
      returns (r: Result<seq<Node>, RequestError>, ghost selected: seq<Node>, ghost called: set<NodeID>)
      requires M.Valid(State())
      ensures Capped(maxRequestHosts, num) == 0 ==> r == Ok([])
      ensures Capped(maxRequestHosts, num) > 0 && id !in State().nodes ==> r == Err(StoreFailure(UnregisteredNode))
      ensures Capped(maxRequestHosts, num) > 0 && id in State().nodes ==>
                var n, skip := Capped(maxRequestHosts, num), Skipped(State(), id);
                && Selection(selected, M.NodeRecords(State()), M.EligibleHosts(State(), kind, now), n + |skip|)
                && called == (IDsOf(selected) - skip) * remoteHosts.Keys
                && Answers(r, M.NodeRecords(State()), |selected|, called, acks)
    {
      selected, called := [], {};
      var n := Capped(maxRequestHosts, num);
      if n == 0 {
        return Ok([]), [], {};
      }
      var peers := manager.store.NodePeers(id);
      if peers.Err? {
        return Err(StoreFailure(peers.error)), [], {};
      }
      var skip := {id} + set p | p in peers.value :: p.id;
      assert skip == Skipped(State(), id);
      ghost var records := M.NodeRecords(State());
      var offered := manager.store.ActiveHosts(kind, n + |skip|, now);
      var remotes := Callable(offered, records, skip, remoteHosts);
      selected, called := offered, IDsOf(remotes);
      var accepted, failures := Gather(remotes, records, called, acks);
      r := Respond(accepted, failures, |offered|, records, called, acks);
    }

    /** Finds and returns hosts for `id`. `others` are all that there are for it. */
    method RequestHosts(id: NodeID, num: nat, kind: string, now: Time, acks: set<NodeID>)
      returns (r: Result<seq<Node>, RequestError>, ghost others: set<NodeID>)
      requires M.Valid(State())
      ensures num == 0 ==> r == Ok([])
      ensures num > 0 && id !in State().nodes ==> r == Err(StoreFailure(UnregisteredNode))
      ensures forall h :: h in others <==>
                && h in State().nodes && h != id && (id in State().nodes ==> h !in State().nodes[id].peers)
                && State().nodes[h].node.isHost && (kind == "" || State().nodes[h].node.kind == kind)
                && State().nodes[h].node.lastSeen > now - EXPIRE_INTERVAL
      ensures r.Ok? ==> forall h :: h in r.value ==>
                && h.id in others && State().nodes[h.id].node == h && h.id in remoteHosts && h.id in acks
      ensures r.Ok? ==> forall i, j :: 0 <= i < j < |r.value| ==> r.value[i].id != r.value[j].id
      ensures num > 0 && id in State().nodes ==>
                var n := if maxRequestHosts <= 0 || num <= maxRequestHosts then num else maxRequestHosts;
                && (r.Ok? ==> 1 <= |r.value| <= n + 1 + |State().nodes[id].peers|)
                && (others <= remoteHosts.Keys * acks && others != {} ==>
                      r.Ok? && |r.value| >= if n < |others| then n else |others|)
      ensures num > 0 && id in State().nodes && r.Err? ==>
                && (r.error.NoHostNodes? || r.error.RemoteHostErrors?)
                && (others != {} && others <= remoteHosts.Keys ==> r.error.RemoteHostErrors?)
                && (r.error.RemoteHostErrors? ==> 1 <= r.error.failed <= |others * remoteHosts.Keys|)
    {
      ghost var selected, called;
      r, selected, called := SeekHosts(id, num, kind, now, acks);
      ghost var m := State();
      others := set h | h in m.nodes && h != id && (id in m.nodes ==> h !in m.nodes[id].peers)
                        && m.nodes[h].node.isHost && (kind == "" || m.nodes[h].node.kind == kind)
                        && m.nodes[h].node.lastSeen > now - EXPIRE_INTERVAL;
      if num > 0 && id in m.nodes {
        RequestMeans(m, id, num, maxRequestHosts, kind, now, remoteHosts, acks, r, selected, called, others);
      }
    }

    /** The state and the answer of an update: verify, stamp the peers, then bill with the record from before. */
    method Update(signed: bool, signedOld: bool, id: NodeID, nonce: int, listed: seq<NodeID>, block: nat,
                  latestBlockKnown: bool, verifiedAt: Time, retriedAt: Time, stampedAt: Time, billedAt: Time)
      returns (r: Result<Balance, RequestError>, inactive: seq<NodeID>, active: seq<Node>)
      requires M.Valid(State())
      modifies manager.store
      ensures M.Valid(State())
      ensures var v := Verified(old(State()), signed, signedOld, id, nonce, verifiedAt, retriedAt);
              if !v.1 then State() == old(State()) && r == Err(VerifyFailed)
              else if id !in v.0.nodes then State() == v.0 && r == Err(StoreFailure(UnregisteredNode))
              else
                var stamped := M.UpdateNodePeers(v.0, id, listed, block, stampedAt);
                && (set p | p in inactive) == stamped.1.value
                && (forall n :: n in active <==> n in M.NodePeers(stamped.0, id).value)
                && (forall i, j :: 0 <= i < j < |active| ==> active[i] != active[j])
                && if !latestBlockKnown then State() == stamped.0 && r == Err(NoBlockNumber)
                   else var billed := Billing.OnUpdate(stamped.0, manager.terms, v.0.nodes[id].node, active, billedAt);
                        State() == billed.0
                        && r == match billed.1 case Ok(b) => Ok(b) case Err(e) => Err(Refused(e))
    {
      inactive, active := [], [];
      var ok := Verify(signed, signedOld, id, nonce, verifiedAt, retriedAt);
      if !ok {
        return Err(VerifyFailed), [], [];
      }
      var node := manager.store.GetNode(id);
      if node.Err? {
        return Err(StoreFailure(node.error)), [], [];
      }
      var updated;
      updated, inactive := manager.store.UpdateNodePeers(id, listed, block, stampedAt);
      var peers := manager.store.NodePeers(id);
      active := peers.value;
      if !latestBlockKnown {
        return Err(NoBlockNumber), inactive, active;
      }
      var balance := manager.OnUpdate(node.value, active, billedAt);
      r := match balance case Ok(b) => Ok(b) case Err(e) => Err(Refused(e));
    }

    method Verify(signed: bool, signedOld: bool, id: NodeID, nonce: int, now: Time, later: Time) returns (ok: bool)
      requires M.Valid(State())
      modifies manager.store
      ensures (State(), ok) == Verified(old(State()), signed, signedOld, id, nonce, now, later) && M.Valid(State())
    {
      if signed {
        var check := manager.store.CheckAndSaveNonce(id, nonce, now);
        if check.Ok? {
          return true;
        }
      }
      if signedOld {
        var check := manager.store.CheckAndSaveNonce(id, nonce, later);
        return check.Ok?;
      }
      return false;
    }
  }
}
