/** Which connection serves which host: two maps that are meant to be inverse to each other. */
module HostRegistry {
  import opened StoreTypes

  /** A connection, by identity. */
  type Service = nat

  datatype Registry = Registry(remoteHosts: map<NodeID, Service>, remoteNodeLookup: map<Service, NodeID>)

  const NOBODY := Registry(map[], map[])

  datatype Event = Connect(id: NodeID, service: Service) | Close(service: Service)

  function Next(r: Registry, e: Event): Registry {
    match e
    case Connect(id, s) => Registry(r.remoteHosts[id := s], r.remoteNodeLookup[s := id])
    case Close(s) =>
      if s !in r.remoteNodeLookup then r
      else Registry(r.remoteHosts - {r.remoteNodeLookup[s]}, r.remoteNodeLookup - {s})
  }

  function Run(es: seq<Event>): Registry {
    if es == [] then NOBODY else Next(Run(es[..|es| - 1]), es[|es| - 1])
  }

  ghost predicate Inverse(r: Registry) {
    && (forall id :: id in r.remoteHosts ==>
          r.remoteHosts[id] in r.remoteNodeLookup && r.remoteNodeLookup[r.remoteHosts[id]] == id)
    && (forall s :: s in r.remoteNodeLookup ==>
          r.remoteNodeLookup[s] in r.remoteHosts && r.remoteHosts[r.remoteNodeLookup[s]] == s)
  }

  /** The connection serves no other node, and the node has no other connection. */
  predicate Exclusive(r: Registry, e: Event) {
    e.Connect? ==>
      && (e.service in r.remoteNodeLookup ==> r.remoteNodeLookup[e.service] == e.id)
      && (e.id in r.remoteHosts ==> r.remoteHosts[e.id] == e.service)
  }

  /** Closing a connection keeps the maps inverse; opening one does so exactly if it is exclusive. */
  lemma InverseStep(r: Registry, e: Event)
    requires Inverse(r)
    ensures Inverse(Next(r, e)) <==> Exclusive(r, e)
  {
    if e.Connect? && !Exclusive(r, e) {
      var after := Next(r, e);
      if e.id in r.remoteHosts && r.remoteHosts[e.id] != e.service {
        assert r.remoteHosts[e.id] in after.remoteNodeLookup;
      } else {
        assert r.remoteNodeLookup[e.service] in after.remoteHosts;
      }
    }
  }

  /** Every connection that was opened was exclusive at that moment. */
  predicate AllExclusive(es: seq<Event>) {
    es == [] || (AllExclusive(es[..|es| - 1]) && Exclusive(Run(es[..|es| - 1]), es[|es| - 1]))
  }

  /** The maps were inverse at every moment. */
  ghost predicate AlwaysInverse(es: seq<Event>) {
    Inverse(Run(es)) && (es == [] || AlwaysInverse(es[..|es| - 1]))
  }

  /** The maps are inverse at every moment of a run if and only if every opened connection was exclusive. */
  lemma {:induction false} InverseThroughout(es: seq<Event>)
    ensures AlwaysInverse(es) <==> AllExclusive(es)
    decreases |es|
  {
    if es != [] {
      var front, last := es[..|es| - 1], es[|es| - 1];
      InverseThroughout(front);
      if AlwaysInverse(front) {
        InverseStep(Run(front), last);
      }
    }
  }

  /** After such a run, closing a connection leaves no host to be called over it, and drops no other host. */
  lemma CloseForgetsItsHost(es: seq<Event>, s: Service)
    requires AllExclusive(es)
    ensures var hosts := Run(es).remoteHosts;
            Next(Run(es), Close(s)).remoteHosts == map id | id in hosts && hosts[id] != s :: hosts[id]
  {
    InverseThroughout(es);
  }

  /** Otherwise a late close of an old connection drops a host that has since connected again. */
  lemma LateCloseDropsHost(id: NodeID, first: Service, second: Service)
    requires first != second
    ensures id !in Run([Connect(id, first), Connect(id, second), Close(first)]).remoteHosts
  {
    var es := [Connect(id, first), Connect(id, second), Close(first)];
    assert es[..2] == [Connect(id, first), Connect(id, second)] && es[..2][..1] == [Connect(id, first)];
    assert es[..2][..1][..0] == [];
    assert Run(es[..2][..1]) == Next(NOBODY, Connect(id, first));
    assert Run(es[..2]) == Next(Run(es[..2][..1]), Connect(id, second));
  }
}
