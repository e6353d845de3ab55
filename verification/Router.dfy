/**
 * The response router of a JSON-RPC connection: many callers, one read loop, a table of one-slot channels by request
 * ID, timeouts, and eviction of the oldest entries when the table is full. The steps below are the atomic ones; a run
 * is any interleaving of them.
 */
module Router {
  import opened StoreTypes
  import opened Cardinality

  datatype Entry = Entry(chan: nat, timestamp: Time)

  /** A response; its ID is what routes it. */
  datatype Message = Message(id: string, payload: string)

  datatype Limits = Limits(pendingLimit: int, pendingDiscard: int)

  datatype Caller =
    | Allocated
    | Sent
    | Waiting(chan: nat)
    | Received(msg: Message)
    | Returned(msg: Message)
    | GaveUp

  datatype Reader = Idle | Delivering(msg: Message, chan: nat)

  /**
   * The router's state. `owner` remembers the ID each channel was made for, `arrived` the last message read for each
   * ID, `into` the channel it was read into and `evicted` the IDs whose entries were ever cleaned away; the code keeps
   * none of the four.
   */
  datatype State = State(
    pending: map<string, Entry>,
    full: map<nat, Message>,
    ids: seq<string>,
    callers: seq<Caller>,
    reader: Reader,
    owner: seq<string>,
    arrived: map<string, Message>,
    into: map<string, nat>,
    evicted: set<string>)

  const INIT := State(map[], map[], [], [], Idle, [], map[], map[], {})

  /** `gone` are entries to clean: as many as asked for or as there are, none newer than any that stays. */
  ghost predicate Oldest(pending: map<string, Entry>, gone: set<string>, num: nat) {
    && gone <= pending.Keys
    && |gone| == (if num > |pending| then |pending| else num)
    && forall g, k :: g in gone && k in pending && k !in gone ==> pending[g].timestamp <= pending[k].timestamp
  }

  ghost predicate Cleaned(pending: map<string, Entry>, gone: set<string>, limits: Limits) {
    if limits.pendingLimit > 0 && |pending| >= limits.pendingLimit && limits.pendingDiscard > 0
    then Oldest(pending, gone, limits.pendingDiscard)
    else gone == {}
  }

  /** The table after a look-up that cleaned `gone`: the entry of `key` is there, made with `chan` if needed. */
  function Lookup(pending: map<string, Entry>, gone: set<string>, key: string, chan: nat, now: Time)
    : map<string, Entry>
  {
    var kept := pending - gone;
    if key in kept then kept else kept[key := Entry(chan, now)]
  }

  datatype Action =
    | Request(id: string)
    | Write(c: nat)
    | Receive(c: nat, now: Time, gone: set<string>)
    | Take(c: nat)
    | Forget(c: nat)
    | GiveUp(c: nat)
    | Read(msg: Message, now: Time, gone: set<string>)
    | Deliver

  function SetCaller(s: State, c: nat, to: Caller): State
    requires c < |s.callers|
  {
    s.(callers := s.callers[c := to])
  }

  /** getPendingChan: the state with the cleaned table and, if one was made, the new channel. */
  function WithEntry(s: State, key: string, now: Time, gone: set<string>): State {
    var table := Lookup(s.pending, gone, key, |s.owner|, now);
    s.(pending := table,
       owner := if key in s.pending && key !in gone then s.owner else s.owner + [key],
       evicted := s.evicted + gone)
  }

  /** The read loop has found the channel for a message, in the entry of its ID. */
  function ReadInto(s: State, msg: Message): State
    requires msg.id in s.pending
  {
    var chan := s.pending[msg.id].chan;
    s.(reader := Delivering(msg, chan), arrived := s.arrived[msg.id := msg], into := s.into[msg.id := chan])
  }

  predicate InPhase(s: State, c: nat, phase: Caller) {
    c < |s.callers| && s.callers[c] == phase
  }

  /** One step. A step that is not possible changes nothing. */
  ghost function Next(s: State, limits: Limits, a: Action): State {
    match a
    case Request(id) => s.(ids := s.ids + [id], callers := s.callers + [Allocated])
    case Write(c) => if InPhase(s, c, Allocated) then SetCaller(s, c, Sent) else s
    case Receive(c, now, gone) =>
      if InPhase(s, c, Sent) && c < |s.ids| && Cleaned(s.pending, gone, limits)
      then var t := WithEntry(s, s.ids[c], now, gone); SetCaller(t, c, Waiting(t.pending[s.ids[c]].chan))
      else s
    case Take(c) =>
      if c < |s.callers| && s.callers[c].Waiting? && s.callers[c].chan in s.full
      then SetCaller(s, c, Received(s.full[s.callers[c].chan])).(full := s.full - {s.callers[c].chan})
      else s
    case Forget(c) =>
      if c < |s.callers| && c < |s.ids| && s.callers[c].Received?
      then SetCaller(s, c, Returned(s.callers[c].msg)).(pending := s.pending - {s.ids[c]})
      else s
    case GiveUp(c) =>
      if c < |s.callers| && (s.callers[c].Allocated? || s.callers[c].Waiting?) then SetCaller(s, c, GaveUp) else s
    case Read(msg, now, gone) =>
      if s.reader.Idle? && msg.id != "" && Cleaned(s.pending, gone, limits)
      then ReadInto(WithEntry(s, msg.id, now, gone), msg)
      else s
    case Deliver =>
      if s.reader.Delivering? && s.reader.chan !in s.full
      then s.(full := s.full[s.reader.chan := s.reader.msg], reader := Idle)
      else s
  }

  ghost function Run(limits: Limits, actions: seq<Action>): State {
    if actions == [] then INIT else Next(Run(limits, actions[..|actions| - 1]), limits, actions[|actions| - 1])
  }

  // Correlation: a channel only ever carries messages of the ID it was made for.

  predicate Belongs(s: State, chan: nat, id: string) {
    chan < |s.owner| && s.owner[chan] == id
  }

  predicate CallerCorrelated(s: State, c: nat)
    requires c < |s.callers| && |s.callers| == |s.ids|
  {
    match s.callers[c]
    case Waiting(chan) => Belongs(s, chan, s.ids[c])
    case Received(msg) => msg.id == s.ids[c]
    case Returned(msg) => msg.id == s.ids[c]
    case _ => true
  }

  ghost predicate Correlated(s: State) {
    && |s.callers| == |s.ids|
    && (forall k :: k in s.pending ==> Belongs(s, s.pending[k].chan, k))
    && (forall ch :: ch in s.full ==> Belongs(s, ch, s.full[ch].id))
    && (forall c :: 0 <= c < |s.callers| ==> CallerCorrelated(s, c))
    && (s.reader.Delivering? ==> Belongs(s, s.reader.chan, s.reader.msg.id))
  }

  lemma LookupCorrelated(s: State, key: string, now: Time, gone: set<string>)
    requires Correlated(s)
    ensures var t := WithEntry(s, key, now, gone);
            Correlated(t) && key in t.pending && Belongs(t, t.pending[key].chan, key)
  {
    var t := WithEntry(s, key, now, gone);
    assert forall chan, id :: Belongs(s, chan, id) ==> Belongs(t, chan, id);
    forall c | 0 <= c < |t.callers| ensures CallerCorrelated(t, c) {
      assert CallerCorrelated(s, c);
    }
  }

  /** A caller that moves to a correlated phase, perhaps emptying a slot or dropping an entry on the way. */
  lemma MoveCorrelated(s: State, t: State, c: nat)
    requires Correlated(s) && c < |s.callers| && t.owner == s.owner && t.ids == s.ids && t.reader == s.reader
    requires t.pending.Items <= s.pending.Items && t.full.Items <= s.full.Items
    requires |t.callers| == |s.callers| && (forall d :: 0 <= d < |s.callers| && d != c ==> t.callers[d] == s.callers[d])
    requires CallerCorrelated(t, c)
    ensures Correlated(t)
  {
    forall k | k in t.pending ensures Belongs(t, t.pending[k].chan, k) {
      assert (k, t.pending[k]) in t.pending.Items;
      assert k in s.pending && s.pending[k] == t.pending[k];
    }
    forall ch | ch in t.full ensures Belongs(t, ch, t.full[ch].id) {
      assert (ch, t.full[ch]) in t.full.Items;
      assert ch in s.full && s.full[ch] == t.full[ch];
    }
    forall d | 0 <= d < |t.callers| ensures CallerCorrelated(t, d) {
      assert CallerCorrelated(s, d);
    }
  }

  lemma {:induction false} NextCorrelated(s: State, limits: Limits, a: Action)
    requires Correlated(s)
    ensures Correlated(Next(s, limits, a))
  {
    var t := Next(s, limits, a);
    if t != s {
      match a
      case Request(id) => RequestCorrelated(s, id);
      case Write(c) => MoveCorrelated(s, t, c);
      case Receive(c, now, gone) =>
        LookupCorrelated(s, s.ids[c], now, gone);
        MoveCorrelated(WithEntry(s, s.ids[c], now, gone), t, c);
      case Take(c) =>
        assert CallerCorrelated(s, c);
        MoveCorrelated(s, t, c);
      case Forget(c) =>
        assert CallerCorrelated(s, c);
        MoveCorrelated(s, t, c);
      case GiveUp(c) => MoveCorrelated(s, t, c);
      case Read(msg, now, gone) => ReadCorrelated(s, msg, now, gone);
      case Deliver => DeliverCorrelated(s);
    }
  }

  lemma RequestCorrelated(s: State, id: string)
    requires Correlated(s)
    ensures Correlated(s.(ids := s.ids + [id], callers := s.callers + [Allocated]))
  {
    var t := s.(ids := s.ids + [id], callers := s.callers + [Allocated]);
    forall c | 0 <= c < |t.callers| ensures CallerCorrelated(t, c) {
      assert c < |s.callers| ==> CallerCorrelated(s, c);
    }
  }

  lemma ReadCorrelated(s: State, msg: Message, now: Time, gone: set<string>)
    requires Correlated(s)
    ensures msg.id in WithEntry(s, msg.id, now, gone).pending
    ensures Correlated(ReadInto(WithEntry(s, msg.id, now, gone), msg))
  {
    LookupCorrelated(s, msg.id, now, gone);
    var t := WithEntry(s, msg.id, now, gone);
    var u := ReadInto(t, msg);
    forall c | 0 <= c < |u.callers| ensures CallerCorrelated(u, c) {
      assert CallerCorrelated(t, c);
    }
  }

  lemma DeliverCorrelated(s: State)
    requires Correlated(s) && s.reader.Delivering?
    ensures Correlated(s.(full := s.full[s.reader.chan := s.reader.msg], reader := Idle))
  {
    var t := s.(full := s.full[s.reader.chan := s.reader.msg], reader := Idle);
    forall c | 0 <= c < |t.callers| ensures CallerCorrelated(t, c) {
      assert CallerCorrelated(s, c);
    }
  }

  lemma {:induction false} RunCorrelated(limits: Limits, actions: seq<Action>)
    ensures Correlated(Run(limits, actions))
    decreases |actions|
  {
    if actions != [] {
      RunCorrelated(limits, actions[..|actions| - 1]);
      NextCorrelated(Run(limits, actions[..|actions| - 1]), limits, actions[|actions| - 1]);
    }
  }

  /** Whatever the other side sends and whatever is evicted, a call returns only a message with its own request ID. */
  lemma CallReturnsItsOwnResponse(limits: Limits, actions: seq<Action>, c: nat)
    requires var s := Run(limits, actions); c < |s.callers| && s.callers[c].Returned?
    ensures var s := Run(limits, actions); c < |s.ids| && s.callers[c].msg.id == s.ids[c]
  {
    RunCorrelated(limits, actions);
    assert CallerCorrelated(Run(limits, actions), c);
  }

  // Bounded memory.

  lemma DropKeys(pending: map<string, Entry>, gone: set<string>)
    requires gone <= pending.Keys
    ensures |pending - gone| == |pending| - |gone|
  {
    assert (pending - gone).Keys == pending.Keys - gone;
    assert |pending.Keys - gone| == |pending.Keys| - |gone|;
  }

  lemma AddKey(pending: map<string, Entry>, key: string, e: Entry)
    ensures |pending[key := e]| <= |pending| + 1
  {
    assert pending[key := e].Keys == pending.Keys + {key};
  }

  lemma LookupBounded(pending: map<string, Entry>, gone: set<string>, key: string, chan: nat, now: Time, limits: Limits)
    requires limits.pendingLimit > 0 && limits.pendingDiscard > 0
    requires |pending| <= limits.pendingLimit && Cleaned(pending, gone, limits)
    ensures |Lookup(pending, gone, key, chan, now)| <= limits.pendingLimit
  {
    DropKeys(pending, gone);
    AddKey(pending - gone, key, Entry(chan, now));
  }

  lemma {:induction false} NextBounded(s: State, limits: Limits, a: Action)
    requires limits.pendingLimit > 0 && limits.pendingDiscard > 0 && |s.pending| <= limits.pendingLimit
    ensures |Next(s, limits, a).pending| <= limits.pendingLimit
  {
    match a
    case Receive(c, now, gone) =>
      if Next(s, limits, a) != s {
        LookupBounded(s.pending, gone, s.ids[c], |s.owner|, now, limits);
      }
    case Read(msg, now, gone) =>
      if Next(s, limits, a) != s {
        LookupBounded(s.pending, gone, msg.id, |s.owner|, now, limits);
      }
    case Forget(c) => SubsetIsSmaller(Next(s, limits, a).pending.Keys, s.pending.Keys);
    case _ =>
  }

  /** With positive limits, no run ever holds more entries than the limit. */
  lemma {:induction false} PendingIsBounded(limits: Limits, actions: seq<Action>)
    requires limits.pendingLimit > 0 && limits.pendingDiscard > 0
    ensures |Run(limits, actions).pending| <= limits.pendingLimit
    decreases |actions|
  {
    if actions != [] {
      PendingIsBounded(limits, actions[..|actions| - 1]);
      NextBounded(Run(limits, actions[..|actions| - 1]), limits, actions[|actions| - 1]);
    }
  }

  // The read loop never blocks, if the other side answers each ID at most once.

  /** No message is read whose ID was read before. */
  ghost predicate AnsweredOnce(limits: Limits, actions: seq<Action>) {
    actions == [] || (
      var before, a := actions[..|actions| - 1], actions[|actions| - 1];
      AnsweredOnce(limits, before) && (a.Read? ==> a.msg.id !in Run(limits, before).arrived))
  }

  predicate IsArrived(s: State, msg: Message) {
    msg.id in s.arrived && s.arrived[msg.id] == msg
  }

  /** Every message in a slot is the one that arrived for its ID; no ID fills two slots, or one while delivered. */
  ghost predicate OnePerID(s: State) {
    && (forall ch :: ch in s.full ==> IsArrived(s, s.full[ch]))
    && (forall ch, dh :: ch in s.full && dh in s.full && s.full[ch].id == s.full[dh].id ==> ch == dh)
    && (s.reader.Delivering? ==>
          IsArrived(s, s.reader.msg) && forall ch :: ch in s.full ==> s.full[ch].id != s.reader.msg.id)
  }

  lemma ReadOnePerID(s: State, msg: Message)
    requires OnePerID(s) && msg.id !in s.arrived && msg.id in s.pending
    ensures OnePerID(ReadInto(s, msg))
  {
    var t := ReadInto(s, msg);
    forall ch | ch in t.full ensures IsArrived(t, t.full[ch]) {
      assert IsArrived(s, s.full[ch]);
    }
  }

  lemma DeliverOnePerID(s: State)
    requires OnePerID(s) && s.reader.Delivering? && s.reader.chan !in s.full
    ensures OnePerID(s.(full := s.full[s.reader.chan := s.reader.msg], reader := Idle))
  {
    var t := s.(full := s.full[s.reader.chan := s.reader.msg], reader := Idle);
    forall ch | ch in t.full ensures IsArrived(t, t.full[ch]) {
      assert ch in s.full ==> IsArrived(s, s.full[ch]);
    }
  }

  /** Steps that only empty slots, if anything. */
  lemma LessOnePerID(s: State, t: State)
    requires OnePerID(s) && t.reader == s.reader && t.arrived == s.arrived
    requires forall ch :: ch in t.full ==> ch in s.full && t.full[ch] == s.full[ch]
    ensures OnePerID(t)
  {
    forall ch | ch in t.full ensures IsArrived(t, t.full[ch]) {
      assert IsArrived(s, s.full[ch]);
    }
  }

  lemma {:induction false} NextOnePerID(s: State, limits: Limits, a: Action)
    requires OnePerID(s) && (a.Read? ==> a.msg.id !in s.arrived)
    ensures OnePerID(Next(s, limits, a))
  {
    var t := Next(s, limits, a);
    if t != s {
      match a
      case Read(msg, now, gone) =>
        var u := WithEntry(s, msg.id, now, gone);
        LessOnePerID(s, u);
        ReadOnePerID(u, msg);
      case Deliver => DeliverOnePerID(s);
      case _ => LessOnePerID(s, t);
    }
  }

  lemma {:induction false} RunOnePerID(limits: Limits, actions: seq<Action>)
    requires AnsweredOnce(limits, actions)
    ensures OnePerID(Run(limits, actions))
    decreases |actions|
  {
    if actions != [] {
      RunOnePerID(limits, actions[..|actions| - 1]);
      NextOnePerID(Run(limits, actions[..|actions| - 1]), limits, actions[|actions| - 1]);
    }
  }

  /** Whenever the read loop has a message to deliver its slot is empty, even after timeouts and evictions. */
  lemma ReadLoopNeverBlocks(limits: Limits, actions: seq<Action>)
    requires AnsweredOnce(limits, actions) && Run(limits, actions).reader.Delivering?
    ensures Run(limits, actions).reader.chan !in Run(limits, actions).full
    ensures Next(Run(limits, actions), limits, Deliver).reader.Idle?
  {
    RunOnePerID(limits, actions);
    RunCorrelated(limits, actions);
  }
}
