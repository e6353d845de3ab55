/** Choosing hosts: the two ways in which the stores pick up to `limit` eligible nodes. */
module Choices {
  import opened StoreTypes
  import opened Cardinality

  type Records = map<NodeID, Node>

  function EligibleIDs(records: Records, kind: string, now: Time): set<NodeID> {
    set id | id in records && Eligible(records[id], kind, now)
  }

  function IDsOf(r: seq<Node>): set<NodeID> {
    set n | n in r :: n.id
  }

  /** `r` lists records of nodes in `ids`, no node twice. */
  ghost predicate Lists(r: seq<Node>, records: Records, ids: set<NodeID>) {
    && (forall i :: 0 <= i < |r| ==> r[i].id in ids && r[i].id in records && records[r[i].id] == r[i])
    && (forall i, j :: 0 <= i < j < |r| ==> r[i].id != r[j].id)
  }

  /** `r` lists `limit` of the nodes in `ids`, or all of them if there are fewer or if `limit` is zero. */
  ghost predicate Selection(r: seq<Node>, records: Records, ids: set<NodeID>, limit: nat) {
    Lists(r, records, ids) && |r| == if limit == 0 || |ids| < limit then |ids| else limit
  }

  /** A list without repetition is as long as its set of IDs. */
  lemma {:induction false} ListedOnce(r: seq<Node>, records: Records, ids: set<NodeID>)
    requires Lists(r, records, ids)
    ensures |IDsOf(r)| == |r| && IDsOf(r) <= ids
    decreases |r|
  {
    if r != [] {
      var front, last := r[..|r| - 1], r[|r| - 1];
      ListedOnce(front, records, ids);
      assert IDsOf(r) == IDsOf(front) + {last.id};
      assert last.id !in IDsOf(front);
    }
  }

  /** A selection that is not cut short by the limit leaves nobody out. */
  lemma NobodyLeftOut(r: seq<Node>, records: Records, ids: set<NodeID>, limit: nat)
    requires Selection(r, records, ids, limit) && (limit == 0 || |r| < limit)
    ensures forall id :: id in ids ==> id in records && records[id] in r
  {
    ListedOnce(r, records, ids);
    SplitSize(ids, IDsOf(r));
    assert ids * IDsOf(r) == IDsOf(r);
    assert ids - IDsOf(r) == {};
    forall id | id in ids ensures id in records && records[id] in r {
      assert id in IDsOf(r);
    }
  }

  /** Who is chosen: only active hosts of the wanted kind, and all of them if the limit is not reached. */
  lemma WhoIsChosen(r: seq<Node>, records: Records, kind: string, limit: nat, now: Time)
    requires Selection(r, records, EligibleIDs(records, kind, now), limit)
    ensures forall n :: n in r ==>
              && n.isHost && (kind == "" || n.kind == kind) && n.lastSeen > now - EXPIRE_INTERVAL
              && n.id in records && records[n.id] == n
    ensures limit == 0 || |r| < limit ==>
              forall id :: id in records ==>
                var n := records[id];
                n.isHost && (kind == "" || n.kind == kind) && n.lastSeen > now - EXPIRE_INTERVAL ==> n in r
  {
    if limit == 0 || |r| < limit {
      NobodyLeftOut(r, records, EligibleIDs(records, kind, now), limit);
      forall id | id in records && Eligible(records[id], kind, now) ensures records[id] in r {
        assert id in EligibleIDs(records, kind, now);
      }
    }
  }

  lemma AppendListed(r: seq<Node>, records: Records, ids: set<NodeID>, n: Node)
    requires Lists(r, records, ids) && n.id !in ids && n.id in records && records[n.id] == n
    ensures Lists(r + [n], records, ids + {n.id}) && |ids + {n.id}| == |ids| + 1
  {
  }

  /** The taken nodes are a selection once nothing is left to visit, or once they are as many as asked for. */
  lemma TakenEnough(r: seq<Node>, records: Records, taken: set<NodeID>, rest: set<NodeID>, ids: set<NodeID>, limit: nat)
    requires Lists(r, records, taken) && |r| == |taken| && taken <= ids <= taken + rest
    requires if 0 < limit <= |r| then |r| == limit else rest == {}
    ensures Selection(r, records, ids, limit)
  {
    SubsetIsSmaller(taken, ids);
    assert rest == {} ==> taken == ids;
  }

  /** Stops at the limit; the order in which the records are visited is left open. */
  method PickUpTo(records: Records, kind: string, limit: nat, now: Time) returns (r: seq<Node>)
    requires forall id :: id in records ==> records[id].id == id
    ensures Selection(r, records, EligibleIDs(records, kind, now), limit)
  {
    r := [];
    var left: int := limit;
    var rest := records.Keys;
    ghost var eligible := EligibleIDs(records, kind, now);
    ghost var taken: set<NodeID> := {};
    while rest != {}
      invariant forall id :: id in rest ==> id in records && id !in taken
      invariant taken <= eligible <= taken + rest
      invariant Lists(r, records, taken) && |r| == |taken|
      invariant left == limit - |r| && (limit > 0 ==> left > 0)
      decreases |rest|
    {
      var id :| id in rest;
      rest := rest - {id};
      var n := records[id];
      if !n.isHost || (kind != "" && n.kind != kind) || !(n.lastSeen > now - EXPIRE_INTERVAL) {
        assert id !in eligible;
        continue;
      }
      AppendListed(r, records, taken, n);
      r, left, taken := r + [n], left - 1, taken + {id};
      if left == 0 {
        break;
      }
    }
    TakenEnough(r, records, taken, rest, eligible, limit);
  }

  lemma SwapListed(r: seq<Node>, records: Records, ids: set<NodeID>, i: nat, j: nat)
    requires Lists(r, records, ids) && i < |r| && j < |r|
    ensures Lists(r[i := r[j]][j := r[i]], records, ids)
  {
  }

  /** Exchanges elements at random places, in place: a permutation, so still a list of the same nodes. */
  method Shuffle(a: array<Node>, ghost records: Records, ghost ids: set<NodeID>)
    requires Lists(a[..], records, ids)
    modifies a
    ensures multiset(a[..]) == multiset(old(a[..]))
    ensures Lists(a[..], records, ids)
  {
    var i := a.Length;
    while i > 1
      invariant Lists(a[..], records, ids)
      invariant multiset(a[..]) == multiset(old(a[..]))
    {
      i := i - 1;
      var j :| 0 <= j <= i;
      SwapListed(a[..], records, ids, i, j);
      ghost var before := a[..];
      a[i], a[j] := a[j], a[i];
      assert a[..] == before[i := before[j]][j := before[i]];
    }
  }

  /** Collects everything, then keeps `limit` of it after a shuffle. */
  method PickShuffled(records: Records, kind: string, limit: nat, now: Time) returns (r: seq<Node>)
    requires forall id :: id in records ==> records[id].id == id
    ensures Selection(r, records, EligibleIDs(records, kind, now), limit)
  {
    r := PickUpTo(records, kind, 0, now);
    if limit <= 0 || |r| < limit {
      return;
    }
    var a := new Node[|r|](i requires 0 <= i < |r| => r[i]);
    assert a[..] == r;
    Shuffle(a, records, EligibleIDs(records, kind, now));
    r := a[..limit];
    assert r == a[..][..limit];
  }
}
