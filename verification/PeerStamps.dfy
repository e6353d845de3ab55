/** The two loops of a peer update, which both stores run on a node's recorded peers. */
module PeerStamps {
  import opened StoreTypes
  import M = MemorySpec

  /** The recorded stamps, overwritten by the LastSeen of every listed node that is registered. */
  function Stamped(recorded: map<NodeID, Time>, listed: seq<NodeID>, nodes: map<NodeID, Node>): map<NodeID, Time> {
    recorded + map p | p in listed && p in nodes :: nodes[p].lastSeen
  }

  lemma StampNone(recorded: map<NodeID, Time>, nodes: map<NodeID, Node>)
    ensures Stamped(recorded, [], nodes) == recorded
  {
  }

  lemma StampOne(recorded: map<NodeID, Time>, listed: seq<NodeID>, nodes: map<NodeID, Node>, i: nat)
    requires i < |listed|
    ensures Stamped(recorded, listed[..i + 1], nodes)
         == var done, p := Stamped(recorded, listed[..i], nodes), listed[i];
            if p in nodes then done[p := nodes[p].lastSeen] else done
  {
    assert listed[..i + 1] == listed[..i] + [listed[i]];
  }

  method StampListed(recorded: map<NodeID, Time>, listed: seq<NodeID>, nodes: map<NodeID, Node>)
    returns (stamps: map<NodeID, Time>)
    ensures stamps == Stamped(recorded, listed, nodes)
  {
    stamps := recorded;
    var i := 0;
    while i < |listed|
      invariant i <= |listed|
      invariant stamps == Stamped(recorded, listed[..i], nodes)
    {
      StampOne(recorded, listed, nodes, i);
      if listed[i] in nodes {
        stamps := stamps[listed[i] := nodes[listed[i]].lastSeen];
      }
      i := i + 1;
    }
    assert listed[..i] == listed;
  }

  lemma StampsAreReported(m: M.Mem, id: NodeID, listed: seq<NodeID>, nodes: map<NodeID, Node>)
    requires id in m.nodes && nodes == M.NodeRecords(m)
    ensures Stamped(m.nodes[id].peers, listed, nodes) == M.Reported(m, id, listed)
  {
  }

  /** Drops the stale stamps, in whatever order the map is visited, and lists each dropped peer once. */
  method DropStale(stamps: map<NodeID, Time>, now: Time) returns (kept: map<NodeID, Time>, inactive: seq<NodeID>)
    ensures kept == M.Fresh(stamps, now)
    ensures (set p | p in inactive) == M.Stale(stamps, now)
    ensures |inactive| == |M.Stale(stamps, now)|
  {
    kept, inactive := stamps, [];
    var deadline := now - EXPIRE_INTERVAL;
    var rest := stamps.Keys;
    ghost var dropped: set<NodeID> := {};
    while rest != {}
      invariant rest <= stamps.Keys
      invariant kept == map p | p in stamps && (p in rest || stamps[p] > deadline) :: stamps[p]
      invariant dropped == set p | p in stamps && p !in rest && stamps[p] <= deadline
      invariant dropped == (set p | p in inactive) && |dropped| == |inactive|
      decreases |rest|
    {
      var p :| p in rest;
      rest := rest - {p};
      if stamps[p] <= deadline {
        kept := kept - {p};
        inactive := inactive + [p];
        dropped := dropped + {p};
      }
    }
  }
}
