/** How many hosts a request finds: counting what is left of a selection once the nodes to skip are taken out. */
module HostRequests {
  import opened StoreTypes
  import opened Choices
  import opened Cardinality

  function Min(a: int, b: int): int {
    if a < b then a else b
  }

  /** The number of hosts that a request may ask for; a maximum of zero or less is no maximum. */
  function Capped(max: int, n: nat): nat {
    if 0 < max < n then max else n
  }

  /**
   * The store is asked for `n` hosts more than there are nodes to skip. What is left without the skipped ones is
   * eligible, and it is at least `n` or everything, but possibly more than `n`.
   */
  lemma CandidateBounds(r: seq<Node>, records: Records, eligible: set<NodeID>, skip: set<NodeID>, n: nat)
    requires n >= 1 && Selection(r, records, eligible, n + |skip|)
    ensures var candidates := IDsOf(r) - skip;
            && candidates <= eligible - skip
            && Min(n + |skip|, |eligible|) - |eligible * skip| <= |candidates| <= Min(n + |skip|, |eligible - skip|)
            && Min(n, |eligible - skip|) <= |candidates|
  {
    var ids := IDsOf(r);
    ListedOnce(r, records, eligible);
    SplitSize(ids, skip);
    SplitSize(eligible, skip);
    SubsetIsSmaller(ids * skip, eligible * skip);
    SubsetIsSmaller(eligible * skip, skip);
    SubsetIsSmaller(ids - skip, eligible - skip);
  }

  /** Any set of nodes can be listed. */
  lemma {:induction false} SomeList(records: Records, ids: set<NodeID>) returns (r: seq<Node>)
    requires forall id :: id in ids ==> id in records && records[id].id == id
    ensures Lists(r, records, ids) && |r| == |ids| && IDsOf(r) == ids
    decreases |ids|
  {
    r := [];
    if ids != {} {
      var id :| id in ids;
      var front := SomeList(records, ids - {id});
      AppendListed(front, records, ids - {id}, records[id]);
      r := front + [records[id]];
      assert ids - {id} + {id} == ids;
      assert IDsOf(r) == IDsOf(front) + {id};
    }
  }

  /** A subset of any smaller size, taking from `first` before the rest. */
  lemma {:induction false} SomeSubset<T>(first: set<T>, ids: set<T>, k: nat) returns (s: set<T>)
    requires first <= ids && k <= |ids|
    ensures s <= ids && |s| == k && (first <= s || s <= first)
    decreases k
  {
    s := {};
    if k > 0 {
      var t := SomeSubset(first, ids, k - 1);
      if first <= t {
        assert ids - t != {} by {
          SplitSize(ids, t);
          assert ids * t == t;
        }
        var x :| x in ids - t;
        s := t + {x};
      } else {
        var x :| x in first && x !in t;
        s := t + {x};
      }
    }
  }

  /** If `r` is a selection, it leaves at most `n` hosts that are not skipped and are both connected and willing. */
  ghost predicate AtMost(r: seq<Node>, records: Records, eligible: set<NodeID>, skip: set<NodeID>, willing: set<NodeID>,
                         n: nat)
  {
    Selection(r, records, eligible, n + |skip|) ==> |(IDsOf(r) - skip) * willing| <= n
  }

  /**
   * A request can return more hosts than it asked for exactly when there are more. Whatever the store selects, at most
   * `n` hosts are returned if and only if at most `n` eligible hosts are not skipped, connected and willing.
   */
  lemma NeverMoreThanAskedExactly(records: Records, eligible: set<NodeID>, skip: set<NodeID>, willing: set<NodeID>,
                                  n: nat)
    requires n >= 1 && skip != {} && forall id :: id in eligible ==> id in records && records[id].id == id
    ensures (forall r :: AtMost(r, records, eligible, skip, willing, n)) <==> |(eligible - skip) * willing| <= n
  {
    if |(eligible - skip) * willing| <= n {
      forall r ensures AtMost(r, records, eligible, skip, willing, n) {
        if Selection(r, records, eligible, n + |skip|) {
          ListedOnce(r, records, eligible);
          SubsetIsSmaller((IDsOf(r) - skip) * willing, (eligible - skip) * willing);
        }
      }
    } else {
      var r := ExcessiveSelection(records, eligible, skip, willing, n);
      assert !AtMost(r, records, eligible, skip, willing, n);
    }
  }

  lemma ExcessiveSelection(records: Records, eligible: set<NodeID>, skip: set<NodeID>, willing: set<NodeID>, n: nat)
    returns (r: seq<Node>)
    requires n >= 1 && skip != {} && forall id :: id in eligible ==> id in records && records[id].id == id
    requires |(eligible - skip) * willing| > n
    ensures Selection(r, records, eligible, n + |skip|) && |(IDsOf(r) - skip) * willing| > n
  {
    var wanted := (eligible - skip) * willing;
    SubsetIsSmaller(wanted, eligible);
    var s := SomeSubset(wanted, eligible, Min(n + |skip|, |eligible|));
    r := SomeList(records, s);
    if wanted <= s {
      SubsetIsSmaller(wanted, (s - skip) * willing);
    } else {
      assert (s - skip) * willing == s;
    }
  }
}
