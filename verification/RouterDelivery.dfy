/**
 * Delivery: with distinct request IDs and at most one answer per ID, a response reaches its caller whether it arrives
 * before or after the caller starts to receive, unless the caller gave up or its entry was evicted.
 */
module RouterDelivery {
  import opened StoreTypes
  import opened Router

  predicate Distinct(ids: seq<string>) {
    forall i, j :: 0 <= i < j < |ids| ==> ids[i] != ids[j]
  }

  /** Some caller has taken the message for `id` out of its slot. */
  predicate Taken(s: State, id: string) {
    exists c ::
      0 <= c < |s.callers| && c < |s.ids| && s.ids[c] == id && (s.callers[c].Received? || s.callers[c].Returned?)
  }

  /** The message that arrived for `id` is on its way into, or already in, the slot that the table holds for `id`. */
  predicate InPlace(s: State, id: string) {
    && id in s.pending
    && ((s.reader.Delivering? && s.reader.msg.id == id && s.reader.chan == s.pending[id].chan)
        || (s.pending[id].chan in s.full && s.full[s.pending[id].chan].id == id))
  }

  /** A caller that waits does so on the slot that the table holds for its ID, unless the entry was evicted. */
  predicate WaitsInPlace(s: State, c: nat)
    requires c < |s.callers| && |s.callers| == |s.ids|
  {
    s.callers[c].Waiting? && s.ids[c] !in s.evicted ==>
      s.ids[c] in s.pending && s.pending[s.ids[c]].chan == s.callers[c].chan
  }

  ghost predicate Tracked(s: State) {
    && Correlated(s)
    && (forall id :: id in s.arrived && id !in s.evicted && !Taken(s, id) ==> InPlace(s, id))
    && (forall c :: 0 <= c < |s.callers| ==> WaitsInPlace(s, c))
  }

  /** What was taken stays taken as long as no caller lets go of a message. */
  lemma StillTaken(s: State, t: State, id: string)
    requires |s.callers| <= |t.callers| && s.ids <= t.ids
    requires forall d :: 0 <= d < |s.callers| && (s.callers[d].Received? || s.callers[d].Returned?) ==>
                           t.callers[d].Received? || t.callers[d].Returned?
    ensures Taken(s, id) ==> Taken(t, id)
  {
    if Taken(s, id) {
      var d :| 0 <= d < |s.callers| && d < |s.ids| && s.ids[d] == id
               && (s.callers[d].Received? || s.callers[d].Returned?);
      assert t.ids[d] == id && (t.callers[d].Received? || t.callers[d].Returned?);
    }
  }

  /** Looking up an entry disturbs only the entries it evicts. */
  lemma LookupTracked(s: State, key: string, now: Time, gone: set<string>)
    requires Tracked(s)
    ensures Tracked(WithEntry(s, key, now, gone)) && key in WithEntry(s, key, now, gone).pending
  {
    LookupCorrelated(s, key, now, gone);
    var t := WithEntry(s, key, now, gone);
    forall id | id in t.arrived && id !in t.evicted && !Taken(t, id) ensures InPlace(t, id) {
      assert Taken(s, id) ==> Taken(t, id);
      assert InPlace(s, id);
    }
    forall c | 0 <= c < |t.callers| ensures WaitsInPlace(t, c) {
      assert WaitsInPlace(s, c);
    }
  }

  /** A caller that moves without touching the table, the slots or the reader, and without letting go of a message. */
  lemma MoveTracked(s: State, t: State, c: nat)
    requires Tracked(s) && Correlated(t) && c < |s.callers| && |t.callers| == |s.callers|
    requires t == s.(callers := t.callers)
    requires forall d :: 0 <= d < |s.callers| && d != c ==> t.callers[d] == s.callers[d]
    requires !s.callers[c].Received? && !s.callers[c].Returned? && WaitsInPlace(t, c)
    ensures Tracked(t)
  {
    forall id | id in t.arrived && id !in t.evicted && !Taken(t, id) ensures InPlace(t, id) {
      StillTaken(s, t, id);
      assert InPlace(s, id);
    }
    forall d | 0 <= d < |t.callers| ensures WaitsInPlace(t, d) {
      assert WaitsInPlace(s, d);
    }
  }

  lemma TakeTracked(s: State, limits: Limits, c: nat)
    requires Tracked(s) && c < |s.callers| && s.callers[c].Waiting? && s.callers[c].chan in s.full
    ensures Tracked(Next(s, limits, Take(c)))
  {
    NextCorrelated(s, limits, Take(c));
    var t := Next(s, limits, Take(c));
    assert CallerCorrelated(s, c);
    forall id | id in t.arrived && id !in t.evicted && !Taken(t, id) ensures InPlace(t, id) {
      StillTaken(s, t, id);
      assert InPlace(s, id);
      assert t.callers[c].Received? && t.ids[c] != id;
    }
    forall d | 0 <= d < |t.callers| ensures WaitsInPlace(t, d) {
      assert WaitsInPlace(s, d);
    }
  }

  lemma ForgetTracked(s: State, limits: Limits, c: nat)
    requires Tracked(s) && Distinct(s.ids) && c < |s.callers| && s.callers[c].Received?
    ensures Tracked(Next(s, limits, Forget(c)))
  {
    NextCorrelated(s, limits, Forget(c));
    var t := Next(s, limits, Forget(c));
    forall id | id in t.arrived && id !in t.evicted && !Taken(t, id) ensures InPlace(t, id) {
      StillTaken(s, t, id);
      assert t.callers[c].Returned? && t.ids[c] != id;
      assert InPlace(s, id);
    }
    forall d | 0 <= d < |t.callers| ensures WaitsInPlace(t, d) {
      assert WaitsInPlace(s, d);
    }
  }

  lemma ReadTracked(s: State, limits: Limits, msg: Message, now: Time, gone: set<string>)
    requires Tracked(s) && s.reader.Idle? && msg.id != "" && Cleaned(s.pending, gone, limits)
    ensures Tracked(Next(s, limits, Read(msg, now, gone)))
  {
    NextCorrelated(s, limits, Read(msg, now, gone));
    LookupTracked(s, msg.id, now, gone);
    var u, t := WithEntry(s, msg.id, now, gone), Next(s, limits, Read(msg, now, gone));
    forall id | id in t.arrived && id !in t.evicted && !Taken(t, id) ensures InPlace(t, id) {
      assert Taken(u, id) ==> Taken(t, id);
      assert id != msg.id ==> InPlace(u, id);
    }
    forall d | 0 <= d < |t.callers| ensures WaitsInPlace(t, d) {
      assert WaitsInPlace(u, d);
    }
  }

  lemma DeliverTracked(s: State, limits: Limits)
    requires Tracked(s) && s.reader.Delivering? && s.reader.chan !in s.full
    ensures Tracked(Next(s, limits, Deliver))
  {
    NextCorrelated(s, limits, Deliver);
    var t := Next(s, limits, Deliver);
    forall id | id in t.arrived && id !in t.evicted && !Taken(t, id) ensures InPlace(t, id) {
      assert Taken(s, id) ==> Taken(t, id);
      assert InPlace(s, id);
    }
    forall d | 0 <= d < |t.callers| ensures WaitsInPlace(t, d) {
      assert WaitsInPlace(s, d);
    }
  }

  lemma RequestTracked(s: State, limits: Limits, id: string)
    requires Tracked(s)
    ensures Tracked(Next(s, limits, Request(id)))
  {
    NextCorrelated(s, limits, Request(id));
    var t := Next(s, limits, Request(id));
    forall k | k in t.arrived && k !in t.evicted && !Taken(t, k) ensures InPlace(t, k) {
      StillTaken(s, t, k);
      assert InPlace(s, k);
    }
    forall d | 0 <= d < |t.callers| ensures WaitsInPlace(t, d) {
      assert d < |s.callers| ==> WaitsInPlace(s, d);
    }
  }

  lemma WriteTracked(s: State, limits: Limits, c: nat)
    requires Tracked(s) && Next(s, limits, Write(c)) != s
    ensures Tracked(Next(s, limits, Write(c)))
  {
    NextCorrelated(s, limits, Write(c));
    MoveTracked(s, Next(s, limits, Write(c)), c);
  }

  lemma GiveUpTracked(s: State, limits: Limits, c: nat)
    requires Tracked(s) && Next(s, limits, GiveUp(c)) != s
    ensures Tracked(Next(s, limits, GiveUp(c)))
  {
    NextCorrelated(s, limits, GiveUp(c));
    MoveTracked(s, Next(s, limits, GiveUp(c)), c);
  }

  lemma ReceiveTracked(s: State, limits: Limits, c: nat, now: Time, gone: set<string>)
    requires Tracked(s) && Next(s, limits, Receive(c, now, gone)) != s
    ensures Tracked(Next(s, limits, Receive(c, now, gone)))
  {
    var t := Next(s, limits, Receive(c, now, gone));
    NextCorrelated(s, limits, Receive(c, now, gone));
    LookupTracked(s, s.ids[c], now, gone);
    MoveTracked(WithEntry(s, s.ids[c], now, gone), t, c);
  }

  lemma {:induction false} NextTracked(s: State, limits: Limits, a: Action)
    requires Tracked(s) && Distinct(s.ids)
    ensures Tracked(Next(s, limits, a))
  {
    if Next(s, limits, a) != s {
      match a
      case Request(id) => RequestTracked(s, limits, id);
      case Write(c) => WriteTracked(s, limits, c);
      case Receive(c, now, gone) => ReceiveTracked(s, limits, c, now, gone);
      case Take(c) => TakeTracked(s, limits, c);
      case Forget(c) => ForgetTracked(s, limits, c);
      case GiveUp(c) => GiveUpTracked(s, limits, c);
      case Read(msg, now, gone) => ReadTracked(s, limits, msg, now, gone);
      case Deliver => DeliverTracked(s, limits);
    }
  }

  lemma {:induction false} RunTracked(limits: Limits, actions: seq<Action>)
    requires Distinct(Run(limits, actions).ids)
    ensures Tracked(Run(limits, actions))
    decreases |actions|
  {
    if actions != [] {
      var before, a := Run(limits, actions[..|actions| - 1]), actions[|actions| - 1];
      IDsGrow(before, limits, a);
      RunTracked(limits, actions[..|actions| - 1]);
      NextTracked(before, limits, a);
    }
  }

  lemma {:induction false} IDsGrow(s: State, limits: Limits, a: Action)
    ensures s.ids <= Next(s, limits, a).ids
  {
  }

  /**
   * A caller that waits, has not been evicted and whose response the read loop has finished with can take exactly
   * that response at once, whatever else the read loop is busy with.
   */
  lemma ResponseReachesWaitingCaller(limits: Limits, actions: seq<Action>, c: nat)
    requires AnsweredOnce(limits, actions)
    requires var s := Run(limits, actions);
             && Distinct(s.ids) && c < |s.callers| && c < |s.ids| && s.callers[c].Waiting?
             && s.ids[c] in s.arrived && s.ids[c] !in s.evicted
             && (s.reader.Delivering? ==> s.reader.msg.id != s.ids[c])
    ensures var s := Run(limits, actions);
            var t := Next(s, limits, Take(c));
            c < |t.callers| && t.callers[c] == Received(s.arrived[s.ids[c]])
  {
    var s := Run(limits, actions);
    RunTracked(limits, actions);
    RunOnePerID(limits, actions);
    assert WaitsInPlace(s, c) && CallerCorrelated(s, c);
    NotTaken(s, c);
    assert InPlace(s, s.ids[c]);
    assert IsArrived(s, s.full[s.callers[c].chan]);
  }

  lemma NotTaken(s: State, c: nat)
    requires Distinct(s.ids) && |s.callers| == |s.ids| && c < |s.callers|
    requires !s.callers[c].Received? && !s.callers[c].Returned?
    ensures !Taken(s, s.ids[c])
  {
  }

  /**
   * A response that arrived before its caller began to receive is not lost: as long as neither an earlier clean-up nor
   * the one in this very look-up evicts the entry, the caller finds it in its slot.
   */
  lemma EarlyResponseWaitsForCaller(limits: Limits, actions: seq<Action>, c: nat, now: Time, gone: set<string>)
    requires AnsweredOnce(limits, actions)
    requires var s := Run(limits, actions);
             && Distinct(s.ids) && c < |s.ids| && InPhase(s, c, Sent)
             && s.ids[c] in s.arrived && s.ids[c] !in s.evicted
             && (s.reader.Delivering? ==> s.reader.msg.id != s.ids[c])
             && Cleaned(s.pending, gone, limits) && s.ids[c] !in gone
    ensures var s := Run(limits, actions);
            var t := Next(s, limits, Receive(c, now, gone));
            && c < |t.callers| && t.callers[c].Waiting?
            && t.callers[c].chan in t.full && t.full[t.callers[c].chan] == s.arrived[s.ids[c]]
  {
    var s := Run(limits, actions);
    RunTracked(limits, actions);
    RunOnePerID(limits, actions);
    NotTaken(s, c);
    assert InPlace(s, s.ids[c]);
    assert IsArrived(s, s.full[s.pending[s.ids[c]].chan]);
  }
}
