/**
 * Exactly which responses reach their callers. The read loop delivers a response into the channel that it finds, or
 * makes, in the entry of its ID; a caller waits on the channel that it found, or made, there. Evictions in between are
 * what can make the two differ, and once both have looked nothing changes any more.
 */
module RouterVerdict {
  import opened StoreTypes
  import opened Router
  import opened RouterDelivery

  /** The message for `id` is in the channel it was read into, or on its way there. */
  predicate HeldFor(s: State, id: string) {
    id in s.into && ((s.reader.Delivering? && s.reader.msg.id == id) || s.into[id] in s.full)
  }

  /** Every message is where it was read into, until a caller takes it. */
  ghost predicate Held(s: State) {
    && s.into.Keys == s.arrived.Keys
    && (forall id :: id in s.into ==> Belongs(s, s.into[id], id))
    && (forall ch :: ch in s.full ==> s.full[ch].id in s.into && s.into[s.full[ch].id] == ch)
    && (s.reader.Delivering? ==> s.reader.msg.id in s.into && s.into[s.reader.msg.id] == s.reader.chan)
    && (forall id :: id in s.arrived && !Taken(s, id) ==> HeldFor(s, id))
  }

  lemma {:induction false} MessageStays(s: State, limits: Limits, a: Action, d: nat)
    requires d < |s.callers| && (s.callers[d].Received? || s.callers[d].Returned?)
    ensures var callers := Next(s, limits, a).callers; d < |callers| && (callers[d].Received? || callers[d].Returned?)
  {
  }

  lemma {:induction false} TakenStays(s: State, limits: Limits, a: Action, id: string)
    ensures Taken(s, id) ==> Taken(Next(s, limits, a), id)
  {
    if Taken(s, id) {
      var d :| 0 <= d < |s.callers| && d < |s.ids| && s.ids[d] == id
               && (s.callers[d].Received? || s.callers[d].Returned?);
      MessageStays(s, limits, a, d);
      IDsGrow(s, limits, a);
    }
  }

  /** Steps of callers that leave the slots alone, and look-ups. */
  lemma QuietHeld(s: State, t: State)
    requires Held(s) && s.owner <= t.owner && t.full == s.full && t.reader == s.reader
    requires t.arrived == s.arrived && t.into == s.into && forall id :: Taken(s, id) ==> Taken(t, id)
    ensures Held(t)
  {
    forall id | id in t.arrived && !Taken(t, id) ensures HeldFor(t, id) {
      assert HeldFor(s, id);
    }
  }

  lemma TakeHeld(s: State, limits: Limits, c: nat)
    requires Correlated(s) && Held(s) && c < |s.callers| && s.callers[c].Waiting? && s.callers[c].chan in s.full
    ensures Held(Next(s, limits, Take(c)))
  {
    var t := Next(s, limits, Take(c));
    assert CallerCorrelated(s, c);
    forall id | id in t.arrived && !Taken(t, id) ensures HeldFor(t, id) {
      TakenStays(s, limits, Take(c), id);
      assert HeldFor(s, id);
      assert t.callers[c].Received? && t.ids[c] != id;
    }
  }

  lemma ReadHeld(s: State, msg: Message)
    requires Held(s) && msg.id !in s.arrived && msg.id in s.pending && Belongs(s, s.pending[msg.id].chan, msg.id)
    requires s.reader.Idle?
    ensures Held(ReadInto(s, msg))
  {
    var t := ReadInto(s, msg);
    forall id | id in t.arrived && !Taken(t, id) ensures HeldFor(t, id) {
      assert Taken(s, id) ==> Taken(t, id);
      assert id != msg.id ==> HeldFor(s, id);
    }
  }

  lemma DeliverHeld(s: State, limits: Limits)
    requires Held(s) && s.reader.Delivering? && s.reader.chan !in s.full
    ensures Held(Next(s, limits, Deliver))
  {
    var t := Next(s, limits, Deliver);
    forall id | id in t.arrived && !Taken(t, id) ensures HeldFor(t, id) {
      assert Taken(s, id) ==> Taken(t, id);
      assert HeldFor(s, id);
    }
  }

  lemma ReadStepHeld(s: State, limits: Limits, msg: Message, now: Time, gone: set<string>)
    requires Correlated(s) && Held(s) && msg.id !in s.arrived && Next(s, limits, Read(msg, now, gone)) != s
    ensures Held(Next(s, limits, Read(msg, now, gone)))
  {
    var u := WithEntry(s, msg.id, now, gone);
    LookupCorrelated(s, msg.id, now, gone);
    assert forall id :: Taken(s, id) ==> Taken(u, id);
    QuietHeld(s, u);
    ReadHeld(u, msg);
  }

  lemma {:induction false} QuietSteps(s: State, limits: Limits, a: Action)
    requires !a.Take? && !a.Read? && !a.Deliver?
    ensures var t := Next(s, limits, a);
            && s.owner <= t.owner && t.full == s.full && t.reader == s.reader
            && t.arrived == s.arrived && t.into == s.into
  {
    match a
    case Request(_) =>
    case Write(_) =>
    case Receive(c, now, gone) =>
      if Next(s, limits, a) != s {
        LookupIsQuiet(s, s.ids[c], now, gone);
      }
    case Forget(_) =>
    case GiveUp(_) =>
  }

  lemma LookupIsQuiet(s: State, key: string, now: Time, gone: set<string>)
    ensures var t := WithEntry(s, key, now, gone);
            s.owner <= t.owner && t == s.(pending := t.pending, owner := t.owner, evicted := t.evicted)
  {
  }

  lemma {:induction false} NextHeld(s: State, limits: Limits, a: Action)
    requires Correlated(s) && Held(s) && (a.Read? ==> a.msg.id !in s.arrived)
    ensures Held(Next(s, limits, a))
  {
    var t := Next(s, limits, a);
    if t != s {
      match a
      case Take(c) => TakeHeld(s, limits, c);
      case Read(msg, now, gone) => ReadStepHeld(s, limits, msg, now, gone);
      case Deliver => DeliverHeld(s, limits);
      case _ =>
        QuietSteps(s, limits, a);
        forall id ensures Taken(s, id) ==> Taken(t, id) {
          TakenStays(s, limits, a, id);
        }
        QuietHeld(s, t);
    }
  }

  lemma {:induction false} RunHeld(limits: Limits, actions: seq<Action>)
    requires AnsweredOnce(limits, actions)
    ensures Held(Run(limits, actions))
    decreases |actions|
  {
    if actions != [] {
      var before := actions[..|actions| - 1];
      RunHeld(limits, before);
      RunCorrelated(limits, before);
      NextHeld(Run(limits, before), limits, actions[|actions| - 1]);
    }
  }

  predicate Waits(s: State, c: nat) {
    c < |s.callers| && c < |s.ids| && s.callers[c].Waiting?
  }

  /** The response of the waiting caller is in its channel, or being delivered into it. */
  predicate Here(s: State, c: nat)
    requires Waits(s, c)
  {
    || (s.reader.Delivering? && s.reader.msg.id == s.ids[c] && s.reader.chan == s.callers[c].chan)
    || s.callers[c].chan in s.full
  }

  /** The response is with the caller exactly if it was read into the channel on which the caller waits. */
  lemma HereExactly(s: State, c: nat)
    requires Correlated(s) && Held(s) && Distinct(s.ids) && Waits(s, c) && s.ids[c] in s.arrived
    ensures Here(s, c) <==> s.into[s.ids[c]] == s.callers[c].chan
  {
    assert CallerCorrelated(s, c);
    NotTaken(s, c);
    assert HeldFor(s, s.ids[c]);
  }

  // The verdict.

  /** When its response is read, the entry of the waiting caller is still the one with its channel. */
  predicate OwnAtRead(s: State, c: nat, gone: set<string>)
    requires Waits(s, c)
  {
    s.ids[c] in s.pending && s.ids[c] !in gone && s.pending[s.ids[c]].chan == s.callers[c].chan
  }

  /** When the caller starts to receive, the entry is still the one into which its response was read. */
  predicate OwnAtReceive(s: State, c: nat, gone: set<string>)
    requires c < |s.ids| && s.ids[c] in s.into
  {
    s.ids[c] in s.pending && s.ids[c] !in gone && s.pending[s.ids[c]].chan == s.into[s.ids[c]]
  }

  /** The entry was still the caller's own when the later of the two looked: the read loop or the caller. */
  ghost predicate Kept(limits: Limits, actions: seq<Action>, c: nat) {
    actions != [] &&
      var before, a := actions[..|actions| - 1], actions[|actions| - 1];
      var s := Run(limits, before);
      if a.Read? && Waits(s, c) && a.msg.id == s.ids[c] && Next(s, limits, a) != s then OwnAtRead(s, c, a.gone)
      else if a.Receive? && a.c == c && c < |s.ids| && s.ids[c] in s.into && Next(s, limits, a) != s
      then OwnAtReceive(s, c, a.gone)
      else Kept(limits, before, c)
  }

  lemma {:induction false} CallerMoves(s: State, limits: Limits, a: Action, c: nat)
    requires |s.callers| == |s.ids| && Waits(Next(s, limits, a), c)
    ensures c < |s.ids| && Next(s, limits, a).ids[c] == s.ids[c]
    ensures (Waits(s, c) && s.callers[c] == Next(s, limits, a).callers[c])
            || (a.Receive? && a.c == c && s.callers[c] == Sent && Cleaned(s.pending, a.gone, limits))
  {
  }

  lemma ReadDecides(s: State, limits: Limits, a: Action, c: nat)
    requires Correlated(s) && a.Read? && Waits(s, c) && a.msg.id == s.ids[c] && Next(s, limits, a) != s
    ensures var t := Next(s, limits, a);
            t.callers == s.callers && (t.into[s.ids[c]] == t.callers[c].chan <==> OwnAtRead(s, c, a.gone))
  {
    assert CallerCorrelated(s, c);
  }

  lemma ReceiveDecides(s: State, limits: Limits, a: Action, c: nat)
    requires Held(s) && a.Receive? && a.c == c && c < |s.ids| && s.ids[c] in s.into && Next(s, limits, a) != s
    ensures var t := Next(s, limits, a);
            Waits(t, c) && t.into == s.into && (t.into[s.ids[c]] == t.callers[c].chan <==> OwnAtReceive(s, c, a.gone))
  {
    assert Belongs(s, s.into[s.ids[c]], s.ids[c]);
  }

  lemma {:induction false} ElsewhereUndecided(s: State, limits: Limits, a: Action, id: string)
    requires id in Next(s, limits, a).into && !(a.Read? && a.msg.id == id && Next(s, limits, a) != s)
    ensures id in s.into && Next(s, limits, a).into[id] == s.into[id]
  {
  }

  lemma {:induction false} KeptDecides(limits: Limits, actions: seq<Action>, c: nat)
    requires AnsweredOnce(limits, actions)
    requires var s := Run(limits, actions); Waits(s, c) && s.ids[c] in s.into
    ensures var s := Run(limits, actions); s.into[s.ids[c]] == s.callers[c].chan <==> Kept(limits, actions, c)
    decreases |actions|
  {
    var before, a := actions[..|actions| - 1], actions[|actions| - 1];
    var s, t := Run(limits, before), Run(limits, actions);
    RunCorrelated(limits, before);
    RunHeld(limits, before);
    CallerMoves(s, limits, a, c);
    if a.Read? && Waits(s, c) && a.msg.id == s.ids[c] && t != s {
      ReadDecides(s, limits, a, c);
    } else if a.Receive? && a.c == c && s.ids[c] in s.into && t != s {
      ReceiveDecides(s, limits, a, c);
    } else {
      ElsewhereUndecided(s, limits, a, s.ids[c]);
      KeptDecides(limits, before, c);
    }
  }

  /** The read loop finishes with the message for `id`, if that is what it is busy with. */
  ghost function Finished(s: State, limits: Limits, id: string): State {
    if s.reader.Delivering? && s.reader.msg.id == id then Next(s, limits, Deliver) else s
  }

  /**
   * In every run with distinct IDs and at most one answer per ID: a waiting caller whose response has been read can
   * take it, as soon as the read loop is done with it, if and only if its entry was still its own when the later of the
   * two looked. Evictions before or after that do not matter.
   */
  lemma ResponseReachesCallerExactly(limits: Limits, actions: seq<Action>, c: nat)
    requires AnsweredOnce(limits, actions) && Distinct(Run(limits, actions).ids)
    requires var s := Run(limits, actions); Waits(s, c) && s.ids[c] in s.arrived
    ensures var s := Run(limits, actions);
            var t := Next(Finished(s, limits, s.ids[c]), limits, Take(c));
            && c < |t.callers|
            && (Kept(limits, actions, c) ==> t.callers[c] == Received(s.arrived[s.ids[c]]))
            && (!Kept(limits, actions, c) ==> t.callers[c] == s.callers[c])
  {
    var s := Run(limits, actions);
    RunCorrelated(limits, actions);
    RunOnePerID(limits, actions);
    RunHeld(limits, actions);
    KeptDecides(limits, actions, c);
    HereExactly(s, c);
    TakesIfHere(s, limits, c);
  }

  lemma TakesIfHere(s: State, limits: Limits, c: nat)
    requires Correlated(s) && OnePerID(s) && Waits(s, c)
    ensures var t := Next(Finished(s, limits, s.ids[c]), limits, Take(c));
            && c < |t.callers|
            && (Here(s, c) ==> IsArrivedFor(s, c) && t.callers[c] == Received(s.arrived[s.ids[c]]))
            && (!Here(s, c) ==> t.callers[c] == s.callers[c])
  {
    assert CallerCorrelated(s, c);
    if s.callers[c].chan in s.full {
      assert IsArrived(s, s.full[s.callers[c].chan]);
    }
  }

  predicate IsArrivedFor(s: State, c: nat)
    requires c < |s.ids|
  {
    s.ids[c] in s.arrived
  }

  // The verdict is final.

  lemma {:induction false} ReadOnceStays(s: State, limits: Limits, a: Action, id: string)
    requires id in s.arrived && id in s.into && (a.Read? ==> a.msg.id !in s.arrived)
    ensures var t := Next(s, limits, a); id in t.arrived && id in t.into && t.into[id] == s.into[id]
  {
  }

  lemma HereStays(s: State, limits: Limits, a: Action, c: nat)
    requires Correlated(s) && Held(s) && Distinct(Next(s, limits, a).ids) && (a.Read? ==> a.msg.id !in s.arrived)
    requires Waits(s, c) && Waits(Next(s, limits, a), c) && s.ids[c] in s.arrived
    ensures var t := Next(s, limits, a); s.ids[c] == t.ids[c] && s.ids[c] in t.arrived && (Here(t, c) <==> Here(s, c))
  {
    CallerMoves(s, limits, a, c);
    NextCorrelated(s, limits, a);
    NextHeld(s, limits, a);
    IDsGrow(s, limits, a);
    ReadOnceStays(s, limits, a, s.ids[c]);
    HereExactly(s, c);
    HereExactly(Next(s, limits, a), c);
  }

  /** The caller has started to receive. */
  predicate Started(s: State, c: nat) {
    c < |s.callers| && !s.callers[c].Allocated? && !s.callers[c].Sent?
  }

  lemma {:induction false} StartedStays(s: State, limits: Limits, a: Action, c: nat)
    requires Started(s, c)
    ensures Started(Next(s, limits, a), c)
  {
  }

  lemma {:induction false} StartedThroughout(limits: Limits, actions: seq<Action>, more: seq<Action>, c: nat)
    requires Started(Run(limits, actions), c)
    ensures Started(Run(limits, actions + more), c)
    decreases |more|
  {
    if more == [] {
      assert actions + more == actions;
    } else {
      var front := actions + more[..|more| - 1];
      StartedThroughout(limits, actions, more[..|more| - 1], c);
      assert (actions + more)[..|actions + more| - 1] == front;
      StartedStays(Run(limits, front), limits, more[|more| - 1], c);
    }
  }

  lemma RunOneMore(limits: Limits, actions: seq<Action>, a: Action)
    ensures Run(limits, actions + [a]) == Next(Run(limits, actions), limits, a)
    ensures AnsweredOnce(limits, actions + [a]) ==>
              AnsweredOnce(limits, actions) && (a.Read? ==> a.msg.id !in Run(limits, actions).arrived)
  {
    assert (actions + [a])[..|actions|] == actions;
  }

  /**
   * Whatever happens next, evictions included, as long as the caller goes on waiting: a response that is with it stays
   * with it, and one that is not never comes.
   */
  lemma {:induction false} VerdictIsFinal(limits: Limits, actions: seq<Action>, more: seq<Action>, c: nat)
    requires AnsweredOnce(limits, actions + more) && Distinct(Run(limits, actions + more).ids)
    requires Waits(Run(limits, actions), c) && Run(limits, actions).ids[c] in Run(limits, actions).arrived
    requires Waits(Run(limits, actions + more), c)
    ensures var s, t := Run(limits, actions), Run(limits, actions + more);
            t.ids[c] == s.ids[c] && t.ids[c] in t.arrived && (Here(t, c) <==> Here(s, c))
    decreases |more|
  {
    if more == [] {
      assert actions + more == actions;
    } else {
      var rest, a := more[..|more| - 1], more[|more| - 1];
      var front := actions + rest;
      assert actions + more == front + [a];
      RunOneMore(limits, front, a);
      RunCorrelated(limits, front);
      RunHeld(limits, front);
      IDsGrow(Run(limits, front), limits, a);
      StartedThroughout(limits, actions, rest, c);
      CallerMoves(Run(limits, front), limits, a, c);
      VerdictIsFinal(limits, actions, rest, c);
      HereStays(Run(limits, front), limits, a, c);
    }
  }

  // A run that loses a response: with room for one entry, the second call evicts the first one's.

  const ONE := Limits(1, 1)
  const ANSWER := Message("1", "x")

  const LOSING := [Request("1"), Write(0), Receive(0, 0, {}), Request("2"), Write(1), Receive(1, 1, {"1"}),
                   Read(ANSWER, 2, {"2"}), Deliver]

  const FIRST_WAITS := INIT.(pending := map["1" := Entry(0, 0)], ids := ["1"], callers := [Waiting(0)], owner := ["1"])

  const BOTH_WAIT := INIT.(pending := map["2" := Entry(1, 1)], ids := ["1", "2"], callers := [Waiting(0), Waiting(1)],
                           owner := ["1", "2"], evicted := {"1"})

  const ANSWER_READ := BOTH_WAIT.(pending := map["1" := Entry(2, 2)], reader := Delivering(ANSWER, 2),
                                  owner := ["1", "2", "1"], arrived := map["1" := ANSWER], into := map["1" := 2],
                                  evicted := {"1", "2"})

  const ANSWER_LOST := ANSWER_READ.(full := map[2 := ANSWER], reader := Idle)

  lemma FirstCall()
    ensures Run(ONE, LOSING[..3]) == FIRST_WAITS && AnsweredOnce(ONE, LOSING[..3])
  {
    assert LOSING[..1] == [] + [Request("1")] && LOSING[..2] == LOSING[..1] + [Write(0)];
    assert LOSING[..3] == LOSING[..2] + [Receive(0, 0, {})];
    RunOneMore(ONE, [], Request("1"));
    RunOneMore(ONE, LOSING[..1], Write(0));
    RunOneMore(ONE, LOSING[..2], Receive(0, 0, {}));
    NothingRead(ONE, LOSING[..3]);
  }

  const SECOND_SENT := FIRST_WAITS.(ids := ["1", "2"], callers := [Waiting(0), Sent])

  const SECOND_BEGINS := FIRST_WAITS.(ids := ["1", "2"], callers := [Waiting(0), Allocated])

  lemma SecondSteps()
    ensures Next(FIRST_WAITS, ONE, Request("2")) == SECOND_BEGINS && Next(SECOND_BEGINS, ONE, Write(1)) == SECOND_SENT
  {
  }

  lemma StepTo(limits: Limits, actions: seq<Action>, a: Action, s: State, t: State, longer: seq<Action>)
    requires Run(limits, actions) == s && Next(s, limits, a) == t && longer == actions + [a]
    ensures Run(limits, longer) == t
  {
    RunOneMore(limits, actions, a);
  }

  lemma SecondSends()
    ensures Run(ONE, LOSING[..5]) == SECOND_SENT
  {
    FirstCall();
    SecondSteps();
    StepTo(ONE, LOSING[..3], Request("2"), FIRST_WAITS, SECOND_BEGINS, LOSING[..4]);
    StepTo(ONE, LOSING[..4], Write(1), SECOND_BEGINS, SECOND_SENT, LOSING[..5]);
  }

  lemma SecondCall()
    ensures Run(ONE, LOSING[..6]) == BOTH_WAIT && AnsweredOnce(ONE, LOSING[..6])
  {
    SecondSends();
    SecondEvictsFirst();
    StepTo(ONE, LOSING[..5], Receive(1, 1, {"1"}), SECOND_SENT, BOTH_WAIT, LOSING[..6]);
    NothingRead(ONE, LOSING[..6]);
  }

  lemma SecondEvictsFirst()
    ensures Next(SECOND_SENT, ONE, Receive(1, 1, {"1"})) == BOTH_WAIT
  {
    assert SECOND_SENT.pending.Keys == {"1"};
    assert SECOND_SENT.pending - {"1"} == map[];
  }

  lemma AnswerIsMisread()
    ensures Next(BOTH_WAIT, ONE, Read(ANSWER, 2, {"2"})) == ANSWER_READ
  {
    assert BOTH_WAIT.pending.Keys == {"2"};
    assert BOTH_WAIT.pending - {"2"} == map[];
    assert Cleaned(BOTH_WAIT.pending, {"2"}, ONE);
    assert WithEntry(BOTH_WAIT, "1", 2, {"2"})
        == BOTH_WAIT.(pending := map["1" := Entry(2, 2)], owner := ["1", "2", "1"], evicted := {"1", "2"});
  }

  lemma {:induction false} NothingRead(limits: Limits, actions: seq<Action>)
    requires forall i :: 0 <= i < |actions| ==> !actions[i].Read?
    ensures AnsweredOnce(limits, actions)
    decreases |actions|
  {
    if actions != [] {
      NothingRead(limits, actions[..|actions| - 1]);
    }
  }

  /** After this run the first caller waits on an empty slot while its response lies in another; so it stays. */
  lemma LosingRun()
    ensures AnsweredOnce(ONE, LOSING) && Distinct(Run(ONE, LOSING).ids)
    ensures var s := Run(ONE, LOSING); Waits(s, 0) && s.ids[0] in s.arrived && !Here(s, 0) && s.full == map[2 := ANSWER]
  {
    SecondCall();
    AnswerIsMisread();
    AnswerIsLost();
    StepTo(ONE, LOSING[..6], Read(ANSWER, 2, {"2"}), BOTH_WAIT, ANSWER_READ, LOSING[..7]);
    StepTo(ONE, LOSING[..7], Deliver, ANSWER_READ, ANSWER_LOST, LOSING);
    assert LOSING[..7][..6] == LOSING[..6] && LOSING[..|LOSING| - 1] == LOSING[..7];
    assert AnsweredOnce(ONE, LOSING[..7]);
  }

  lemma AnswerIsLost()
    ensures Next(ANSWER_READ, ONE, Deliver) == ANSWER_LOST
  {
  }
}
