/** The table of pending responses as the connection object updates it: ordering, eviction and look-up. */
module PendingTable {
  import opened StoreTypes
  import opened Router

  datatype Item = Item(key: string, timestamp: Time)

  ghost predicate Sorted(q: seq<Item>) {
    forall i, j :: 0 <= i < j < |q| ==> q[i].timestamp <= q[j].timestamp
  }

  method Swap(queue: array<Item>, i: nat, j: nat)
    requires i < j < queue.Length
    modifies queue
    ensures queue[..] == old(queue[..])[i := old(queue[j])][j := old(queue[i])]
    ensures multiset(queue[..]) == multiset(old(queue[..]))
  {
    queue[i], queue[j] := queue[j], queue[i];
  }

  /** Sorting by timestamp; entries of equal age may end up in any order. */
  method SortByTimestamp(queue: array<Item>)
    modifies queue
    ensures Sorted(queue[..])
    ensures multiset(queue[..]) == multiset(old(queue[..]))
  {
    var i := 0;
    while i < queue.Length
      invariant i <= queue.Length
      invariant Sorted(queue[..i])
      invariant multiset(queue[..]) == multiset(old(queue[..]))
    {
      var j := i;
      while j > 0 && queue[j].timestamp < queue[j - 1].timestamp
        invariant j <= i
        invariant forall p, q :: 0 <= p < q <= i && q != j ==> queue[p].timestamp <= queue[q].timestamp
        invariant multiset(queue[..]) == multiset(old(queue[..]))
      {
        Swap(queue, j - 1, j);
        j := j - 1;
      }
      i := i + 1;
    }
    assert queue[..i] == queue[..];
  }

  /** The items of `done`, each once. */
  ghost predicate ItemsOf(items: multiset<Item>, pending: map<string, Entry>, done: set<string>) {
    && done <= pending.Keys
    && forall x :: items[x] == if x.key in done && x.timestamp == pending[x.key].timestamp then 1 else 0
  }

  lemma {:induction false} NoDuplicates(q: seq<Item>, i: nat, j: nat)
    requires i < j < |q| && q[i] == q[j]
    ensures multiset(q)[q[i]] >= 2
  {
    assert q == q[..j] + [q[j]] + q[j + 1..];
    assert q[i] in q[..j];
  }

  function KeysOf(q: seq<Item>): set<string> {
    set i | 0 <= i < |q| :: q[i].key
  }

  lemma {:induction false} CountKeys(q: seq<Item>)
    requires forall i, j :: 0 <= i < j < |q| ==> q[i].key != q[j].key
    ensures |KeysOf(q)| == |q|
    decreases |q|
  {
    if q != [] {
      var front, last := q[..|q| - 1], q[|q| - 1].key;
      CountKeys(front);
      forall k ensures k in KeysOf(q) <==> k in KeysOf(front) || k == last {
        if k in KeysOf(front) {
          var i :| 0 <= i < |front| && front[i].key == k;
          assert q[i].key == k;
        }
        if k in KeysOf(q) {
          var i :| 0 <= i < |q| && q[i].key == k;
          assert i < |front| ==> front[i].key == k;
        }
      }
      assert KeysOf(q) == KeysOf(front) + {last};
      assert last !in KeysOf(front);
    }
  }

  /** The first `num` items of a sorted listing of the table are its oldest entries. */
  lemma PrefixIsOldest(q: seq<Item>, pending: map<string, Entry>, num: nat)
    requires ItemsOf(multiset(q), pending, pending.Keys) && Sorted(q) && |q| == |pending| && num <= |q|
    ensures Oldest(pending, KeysOf(q[..num]), num)
  {
    forall i | 0 <= i < |q| ensures q[i].key in pending && q[i].timestamp == pending[q[i].key].timestamp {
      assert q[i] in multiset(q);
    }
    forall i, j | 0 <= i < j < |q| ensures q[i].key != q[j].key {
      if q[i].key == q[j].key {
        NoDuplicates(q, i, j);
        assert false;
      }
    }
    CountKeys(q[..num]);
    var gone := KeysOf(q[..num]);
    forall i | 0 <= i < num ensures q[i].key in gone {
      assert q[..num][i].key == q[i].key;
    }
    forall g, k | g in gone && k in pending && k !in gone ensures pending[g].timestamp <= pending[k].timestamp {
      var i :| 0 <= i < num && q[..num][i].key == g;
      var x := Item(k, pending[k].timestamp);
      assert multiset(q)[x] == 1;
      assert x in q;
      var j :| 0 <= j < |q| && q[j] == x;
    }
  }

  /** The `num` oldest entries, oldest first. */
  method PendingOldest(pending: map<string, Entry>, num: nat) returns (queue: seq<Item>)
    ensures Oldest(pending, KeysOf(queue), num)
    ensures Sorted(queue) && |queue| == |KeysOf(queue)|
  {
    var wanted := if num > |pending| then |pending| else num;
    var items: seq<Item> := [];
    var rest := pending.Keys;
    while rest != {}
      invariant rest <= pending.Keys
      invariant ItemsOf(multiset(items), pending, pending.Keys - rest)
      invariant |items| + |rest| == |pending.Keys|
      decreases |rest|
    {
      var key :| key in rest;
      items := items + [Item(key, pending[key].timestamp)];
      rest := rest - {key};
    }
    var listing := new Item[|items|](i requires 0 <= i < |items| => items[i]);
    assert listing[..] == items;
    assert pending.Keys - {} == pending.Keys;
    SortByTimestamp(listing);
    PrefixIsOldest(listing[..], pending, wanted);
    queue := listing[..wanted];
  }

  /** The table with the items' entries deleted one after the other. */
  ghost function Without(pending: map<string, Entry>, q: seq<Item>): map<string, Entry> {
    if q == [] then pending else Without(pending, q[..|q| - 1]) - {q[|q| - 1].key}
  }

  lemma WithoutNext(pending: map<string, Entry>, q: seq<Item>, i: nat)
    requires i < |q|
    ensures Without(pending, q[..i + 1]) == Without(pending, q[..i]) - {q[i].key}
  {
    assert q[..i + 1][..i] == q[..i];
  }

  lemma {:induction false} WithoutIsDifference(pending: map<string, Entry>, q: seq<Item>)
    ensures Without(pending, q) == pending - KeysOf(q)
    decreases |q|
  {
    if q == [] {
      assert pending - KeysOf(q) == pending;
    } else {
      var front, last := q[..|q| - 1], q[|q| - 1];
      WithoutIsDifference(pending, front);
      AppendKey(front, last);
      assert q == front + [last];
      assert pending - KeysOf(front) - {last.key} == pending - (KeysOf(front) + {last.key});
    }
  }

  /** The connection's table, and the channels made so far, by number. */
  class Remote {
    const limits: Limits
    var pending: map<string, Entry>
    var channels: nat

    constructor (limits: Limits)
      ensures this.limits == limits && pending == map[] && channels == 0
    {
      this.limits := limits;
      pending := map[];
      channels := 0;
    }

    /** Removes the `num` oldest entries. */
    method CleanPending(num: nat) returns (ghost gone: set<string>)
      modifies this`pending
      ensures Oldest(old(pending), gone, num)
      ensures pending == old(pending) - gone
    {
      var queue := PendingOldest(pending, num);
      gone := KeysOf(queue);
      var i := 0;
      while i < |queue|
        invariant i <= |queue|
        invariant pending == Without(old(pending), queue[..i])
      {
        WithoutNext(old(pending), queue, i);
        pending := pending - {queue[i].key};
        i := i + 1;
      }
      assert queue[..i] == queue;
      WithoutIsDifference(old(pending), queue);
    }

    /** Returns the channel for `key`, making one if there is none, after cleaning a full table. */
    method GetPendingChan(key: string, now: Time) returns (chan: nat, ghost gone: set<string>)
      modifies this
      ensures Cleaned(old(pending), gone, limits)
      ensures pending == Lookup(old(pending), gone, key, old(channels), now)
      ensures key in pending && chan == pending[key].chan
      ensures channels == old(channels) + if key in old(pending) && key !in gone then 0 else 1
    {
      gone := {};
      if limits.pendingLimit > 0 && |pending| >= limits.pendingLimit && limits.pendingDiscard > 0 {
        gone := CleanPending(limits.pendingDiscard);
      } else {
        assert pending - {} == pending;
      }
      if key !in pending {
        pending := pending[key := Entry(channels, now)];
        channels := channels + 1;
      }
      chan := pending[key].chan;
    }
  }

  lemma AppendKey(q: seq<Item>, x: Item)
    ensures KeysOf(q + [x]) == KeysOf(q) + {x.key}
  {
    forall k ensures k in KeysOf(q + [x]) <==> k in KeysOf(q) + {x.key} {
      if k in KeysOf(q) {
        var i :| 0 <= i < |q| && q[i].key == k;
        assert (q + [x])[i].key == k;
      }
      assert (q + [x])[|q|].key == x.key;
    }
  }
}
