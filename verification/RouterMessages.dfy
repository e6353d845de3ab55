/**
 * What calls return. A message that a caller holds, or that is on its way, is one that the read loop read, unchanged;
 * and it is in one place only. Also, how the entries of the table come and go.
 */
module RouterMessages {
  import opened StoreTypes
  import opened Cardinality
  import opened Router
  import opened RouterDelivery
  import opened RouterVerdict

  /** The read loop read this message in some step of the run. */
  predicate WasRead(actions: seq<Action>, msg: Message) {
    exists i :: 0 <= i < |actions| && actions[i].Read? && actions[i].msg == msg
  }

  /** The message that a caller holds. */
  predicate Holds(u: Caller, msg: Message) {
    (u.Received? || u.Returned?) && u.msg == msg
  }

  ghost predicate Genuine(s: State, actions: seq<Action>) {
    && (forall ch :: ch in s.full ==> WasRead(actions, s.full[ch]))
    && (s.reader.Delivering? ==> WasRead(actions, s.reader.msg))
    && (forall id :: id in s.arrived ==> WasRead(actions, s.arrived[id]) && s.arrived[id].id == id)
    && (forall c :: 0 <= c < |s.callers| && (s.callers[c].Received? || s.callers[c].Returned?) ==>
          WasRead(actions, s.callers[c].msg))
  }

  lemma StillRead(actions: seq<Action>, a: Action)
    ensures forall msg :: WasRead(actions, msg) ==> WasRead(actions + [a], msg)
    ensures a.Read? ==> WasRead(actions + [a], a.msg)
  {
    assert (actions + [a])[|actions|] == a;
    forall msg | WasRead(actions, msg) ensures WasRead(actions + [a], msg) {
      var i :| 0 <= i < |actions| && actions[i].Read? && actions[i].msg == msg;
      assert (actions + [a])[i] == actions[i];
    }
  }

  /** Where the messages of the next state come from. */
  lemma {:induction false} MessagesMove(s: State, limits: Limits, a: Action, c: nat)
    ensures var t := Next(s, limits, a);
            c < |t.callers| && (t.callers[c].Received? || t.callers[c].Returned?) ==>
              (c < |s.callers| && Holds(s.callers[c], t.callers[c].msg))
              || (c < |s.callers| && s.callers[c].Waiting? && s.callers[c].chan in s.full
                  && s.full[s.callers[c].chan] == t.callers[c].msg)
  {
    match a
    case Request(_) =>
    case Write(_) =>
    case Receive(c, now, gone) =>
      if Next(s, limits, a) != s {
        LookupIsQuiet(s, s.ids[c], now, gone);
      }
    case Take(_) =>
    case Forget(_) =>
    case GiveUp(_) =>
    case Read(msg, now, gone) =>
      if Next(s, limits, a) != s {
        LookupIsQuiet(s, msg.id, now, gone);
      }
    case Deliver =>
  }

  lemma {:induction false} SlotsMove(s: State, limits: Limits, a: Action)
    ensures var t := Next(s, limits, a);
            && (forall ch :: ch in t.full ==>
                  (ch in s.full && s.full[ch] == t.full[ch]) || (s.reader.Delivering? && s.reader.msg == t.full[ch]))
            && (t.reader.Delivering? ==> t.reader == s.reader || (a.Read? && t.reader.msg == a.msg))
            && (forall id :: id in t.arrived ==>
                  || (id in s.arrived && t.arrived[id] == s.arrived[id])
                  || (a.Read? && t.arrived[id] == a.msg && a.msg.id == id))
  {
  }

  lemma {:induction false} RunIsGenuine(limits: Limits, actions: seq<Action>)
    ensures Genuine(Run(limits, actions), actions)
    decreases |actions|
  {
    if actions != [] {
      var before, a := actions[..|actions| - 1], actions[|actions| - 1];
      var s, t := Run(limits, before), Run(limits, actions);
      RunIsGenuine(limits, before);
      assert actions == before + [a];
      StillRead(before, a);
      SlotsMove(s, limits, a);
      forall c | 0 <= c < |t.callers| && (t.callers[c].Received? || t.callers[c].Returned?)
        ensures WasRead(actions, t.callers[c].msg) {
        MessagesMove(s, limits, a, c);
      }
    }
  }

  /** In every interleaving, what a call receives and returns is a message that was read, unchanged, with its own ID. */
  lemma CallReturnsWhatWasRead(limits: Limits, actions: seq<Action>, c: nat)
    requires var s := Run(limits, actions); c < |s.callers| && (s.callers[c].Received? || s.callers[c].Returned?)
    ensures var s := Run(limits, actions);
            && c < |s.ids|
            && exists i :: 0 <= i < |actions| && actions[i].Read? && actions[i].msg == s.callers[c].msg
                           && actions[i].msg.id == s.ids[c]
  {
    RunIsGenuine(limits, actions);
    RunCorrelated(limits, actions);
    var s := Run(limits, actions);
    assert CallerCorrelated(s, c);
    assert WasRead(actions, s.callers[c].msg);
  }

  /**
   * Exactly the callers whose entry was kept return, and what they return is the message that was read for them: after
   * the delivery, if it is still going on, the take and the return.
   */
  lemma ResponseIsReturnedExactly(limits: Limits, actions: seq<Action>, c: nat)
    requires AnsweredOnce(limits, actions) && Distinct(Run(limits, actions).ids)
    requires var s := Run(limits, actions); Waits(s, c) && s.ids[c] in s.arrived
    ensures var s := Run(limits, actions);
            var t := Next(Next(Finished(s, limits, s.ids[c]), limits, Take(c)), limits, Forget(c));
            && c < |t.callers|
            && WasRead(actions, s.arrived[s.ids[c]]) && s.arrived[s.ids[c]].id == s.ids[c]
            && (Kept(limits, actions, c) ==> t.callers[c] == Returned(s.arrived[s.ids[c]]))
            && (!Kept(limits, actions, c) ==> t.callers[c] == s.callers[c])
  {
    var s := Run(limits, actions);
    RunIsGenuine(limits, actions);
    RunCorrelated(limits, actions);
    ResponseReachesCallerExactly(limits, actions, c);
    ReturnsWhatItHolds(Finished(s, limits, s.ids[c]), limits, c);
  }

  lemma ReturnsWhatItHolds(s: State, limits: Limits, c: nat)
    requires c < |s.callers| && c < |s.ids| && s.callers[c].Waiting?
    ensures var t := Next(s, limits, Take(c));
            && c < |t.callers| && (t.callers[c].Received? ==>
                  Next(t, limits, Forget(c)).callers == t.callers[c := Returned(t.callers[c].msg)])
            && (!t.callers[c].Received? ==> Next(t, limits, Forget(c)) == t)
  {
  }

  // A message is in one place only, and a call that has returned leaves nothing behind.

  /** A message that a caller has taken is in no slot and not being delivered. */
  ghost predicate Spent(s: State) {
    forall id :: Taken(s, id) ==>
      && id in s.arrived
      && (forall ch :: ch in s.full ==> s.full[ch].id != id)
      && (s.reader.Delivering? ==> s.reader.msg.id != id)
  }

  lemma {:induction false} NewlyHeld(s: State, limits: Limits, a: Action, d: nat)
    requires |s.callers| == |s.ids|
    requires var u := Next(s, limits, a).callers; d < |u| && (u[d].Received? || u[d].Returned?)
    ensures d < |s.callers|
    ensures s.callers[d].Received? || s.callers[d].Returned?
            || (a == Take(d) && Waits(s, d) && s.callers[d].chan in s.full)
  {
    match a
    case Request(_) =>
    case Write(_) =>
    case Receive(c, now, gone) =>
      if Next(s, limits, a) != s {
        LookupIsQuiet(s, s.ids[c], now, gone);
      }
    case Take(_) =>
    case Forget(_) =>
    case GiveUp(_) =>
    case Read(msg, now, gone) =>
      if Next(s, limits, a) != s {
        LookupIsQuiet(s, msg.id, now, gone);
      }
    case Deliver =>
  }

  lemma {:induction false} NewlyTaken(s: State, limits: Limits, a: Action, id: string)
    requires Correlated(s) && Taken(Next(s, limits, a), id)
    ensures Taken(s, id)
            || (a.Take? && Waits(s, a.c) && s.ids[a.c] == id && s.callers[a.c].chan in s.full)
  {
    var t := Next(s, limits, a);
    var d :| 0 <= d < |t.callers| && d < |t.ids| && t.ids[d] == id
             && (t.callers[d].Received? || t.callers[d].Returned?);
    NewlyHeld(s, limits, a, d);
    IDsGrow(s, limits, a);
  }

  lemma TakeEmpties(s: State, limits: Limits, c: nat)
    requires Waits(s, c) && s.callers[c].chan in s.full
    ensures var t := Next(s, limits, Take(c));
            t.full == s.full - {s.callers[c].chan} && t.reader == s.reader && t.arrived == s.arrived
  {
  }

  lemma NextSpent(s: State, limits: Limits, a: Action)
    requires Correlated(s) && OnePerID(s) && Spent(s) && (a.Read? ==> a.msg.id !in s.arrived)
    ensures Spent(Next(s, limits, a))
  {
    var t := Next(s, limits, a);
    SlotsMove(s, limits, a);
    ArrivedGrows(s, limits, a);
    forall id | Taken(t, id)
      ensures id in t.arrived
      ensures forall ch :: ch in t.full ==> t.full[ch].id != id
      ensures t.reader.Delivering? ==> t.reader.msg.id != id {
      NewlyTaken(s, limits, a, id);
      if !Taken(s, id) {
        TakeEmpties(s, limits, a.c);
        assert CallerCorrelated(s, a.c);
        assert IsArrived(s, s.full[s.callers[a.c].chan]);
      }
    }
  }

  lemma {:induction false} ArrivedGrows(s: State, limits: Limits, a: Action)
    ensures s.arrived.Keys <= Next(s, limits, a).arrived.Keys
  {
  }

  /** With at most one answer per ID, no message is ever in two places. */
  lemma {:induction false} RunIsSpent(limits: Limits, actions: seq<Action>)
    requires AnsweredOnce(limits, actions)
    ensures Spent(Run(limits, actions))
    decreases |actions|
  {
    if actions != [] {
      var before := actions[..|actions| - 1];
      RunIsSpent(limits, before);
      RunCorrelated(limits, before);
      RunOnePerID(limits, before);
      NextSpent(Run(limits, before), limits, actions[|actions| - 1]);
    }
  }

  /** The entry of a call that has returned is gone. */
  ghost predicate Tidy(s: State) {
    forall c :: 0 <= c < |s.callers| && c < |s.ids| && s.callers[c].Returned? ==> s.ids[c] !in s.pending
  }

  lemma {:induction false} EntriesMove(s: State, limits: Limits, a: Action, id: string)
    requires |s.callers| == |s.ids|
    ensures id in Next(s, limits, a).pending ==>
              id in s.pending
              || (a.Read? && a.msg.id == id)
              || (a.Receive? && a.c < |s.ids| && s.ids[a.c] == id && s.callers[a.c].Sent?)
  {
  }

  lemma {:induction false} ReturnsMove(s: State, limits: Limits, a: Action, c: nat)
    requires |s.callers| == |s.ids| && c < |Next(s, limits, a).callers| && Next(s, limits, a).callers[c].Returned?
    ensures c < |s.callers| && Next(s, limits, a).ids[c] == s.ids[c]
    ensures s.callers[c].Returned? || (a.Forget? && a.c == c && s.ids[c] !in Next(s, limits, a).pending)
  {
  }

  lemma NextTidy(s: State, limits: Limits, a: Action)
    requires Correlated(s) && Spent(s) && Tidy(s) && Distinct(s.ids) && (a.Read? ==> a.msg.id !in s.arrived)
    ensures Tidy(Next(s, limits, a))
  {
    var t := Next(s, limits, a);
    forall c | 0 <= c < |t.callers| && c < |t.ids| && t.callers[c].Returned? ensures t.ids[c] !in t.pending {
      ReturnsMove(s, limits, a, c);
      if s.callers[c].Returned? {
        assert Taken(s, s.ids[c]);
        EntriesMove(s, limits, a, s.ids[c]);
      }
    }
  }

  /** In every run with distinct IDs, each answered at most once, a call that has returned leaves no entry behind. */
  lemma {:induction false} ReturnedCallsLeaveNoEntry(limits: Limits, actions: seq<Action>)
    requires AnsweredOnce(limits, actions) && Distinct(Run(limits, actions).ids)
    ensures Tidy(Run(limits, actions))
    decreases |actions|
  {
    if actions != [] {
      var before, a := actions[..|actions| - 1], actions[|actions| - 1];
      IDsGrow(Run(limits, before), limits, a);
      ReturnedCallsLeaveNoEntry(limits, before);
      RunCorrelated(limits, before);
      RunIsSpent(limits, before);
      NextTidy(Run(limits, before), limits, a);
    }
  }

  // How entries are dated and which ones go.

  /** Some step of the run looked up `id` at `time`. */
  ghost predicate LookedUpAt(limits: Limits, actions: seq<Action>, id: string, time: Time) {
    exists i :: 0 <= i < |actions| && LooksUp(Run(limits, actions[..i]), actions[i], id, time)
  }

  predicate LooksUp(s: State, a: Action, id: string, time: Time) {
    || (a.Read? && a.msg.id == id && a.now == time)
    || (a.Receive? && a.c < |s.ids| && s.ids[a.c] == id && a.now == time)
  }

  lemma {:induction false} DatesMove(s: State, limits: Limits, a: Action, k: string)
    requires k in Next(s, limits, a).pending
    ensures (k in s.pending && Next(s, limits, a).pending[k] == s.pending[k])
            || LooksUp(s, a, k, Next(s, limits, a).pending[k].timestamp)
  {
  }

  /** The timestamp of every entry is the clock reading of the look-up that made it. */
  lemma {:induction false} EntriesAreDated(limits: Limits, actions: seq<Action>, k: string)
    requires k in Run(limits, actions).pending
    ensures LookedUpAt(limits, actions, k, Run(limits, actions).pending[k].timestamp)
    decreases |actions|
  {
    var before, a := actions[..|actions| - 1], actions[|actions| - 1];
    var s, t := Run(limits, before), Run(limits, actions);
    DatesMove(s, limits, a, k);
    if k in s.pending && t.pending[k] == s.pending[k] {
      EntriesAreDated(limits, before, k);
      var i :| 0 <= i < |before| && LooksUp(Run(limits, before[..i]), before[i], k, t.pending[k].timestamp);
      assert before[..i] == actions[..i] && before[i] == actions[i];
    } else {
      assert actions[..|actions| - 1] == before && actions[|actions| - 1] == a;
    }
  }

  /** Entries go only from a full table, as many as asked for or as there are, none newer than any that stays. */
  lemma {:induction false} EvictsOldestWhenFull(s: State, limits: Limits, a: Action)
    requires Next(s, limits, a).evicted != s.evicted
    ensures (a.Read? || a.Receive?) && Next(s, limits, a).evicted == s.evicted + a.gone
    ensures 0 < limits.pendingLimit <= |s.pending| && limits.pendingDiscard > 0 && a.gone <= s.pending.Keys
    ensures |a.gone| == if limits.pendingDiscard < |s.pending| then limits.pendingDiscard else |s.pending|
    ensures forall g, k :: g in a.gone && k in s.pending && k !in a.gone ==>
              s.pending[g].timestamp <= s.pending[k].timestamp
  {
  }

  /** And a look-up in a full table does evict. */
  lemma {:induction false} FullTableEvicts(s: State, limits: Limits, a: Action)
    requires 0 < limits.pendingLimit <= |s.pending| && limits.pendingDiscard > 0
    requires (a.Read? || a.Receive?) && Next(s, limits, a) != s
    ensures a.gone <= s.pending.Keys
    ensures |a.gone| == if limits.pendingDiscard < |s.pending| then limits.pendingDiscard else |s.pending|
    ensures var key := if a.Read? then a.msg.id else s.ids[a.c];
            Next(s, limits, a).pending.Keys == s.pending.Keys - a.gone + {key}
  {
  }
}
