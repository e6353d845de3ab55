/**
 * The pool status page is cached behind a read/write lock with a double check: a caller that saw a stale response takes
 * the write lock and recomputes only if nobody replaced that very response in the meantime.
 */
module StatusCache {
  import opened Wrappers
  import opened StoreTypes

  /** A response by identity: `ref` distinguishes responses that were computed separately. */
  datatype Response = Response(ref: nat, updated: Time)

  datatype Caller =
    | Stale(snapshot: Option<Response>)
    | Hit(response: Option<Response>)
    | Refreshed(snapshot: Option<Response>, response: Option<Response>)
    | Yielded(snapshot: Option<Response>, response: Option<Response>)

  datatype State = State(cached: Option<Response>, made: nat, callers: map<nat, Caller>)

  const INIT := State(None, 0, map[])

  /** `Recheck` carries the clock reading of a recomputation, or none if it yields no response at all. */
  datatype Action =
    | Check(c: nat, now: Time)
    | Recheck(c: nat, computed: Option<Time>)

  predicate Valid(cached: Option<Response>, duration: Time, now: Time) {
    cached.Some? && cached.value.updated + duration > now
  }

  function Next(s: State, duration: Time, a: Action): State {
    match a
    case Check(c, now) =>
      if c in s.callers then s
      else s.(callers := s.callers[c := if Valid(s.cached, duration, now) then Hit(s.cached) else Stale(s.cached)])
    case Recheck(c, computed) =>
      if c !in s.callers || !s.callers[c].Stale? then s else
        var snapshot := s.callers[c].snapshot;
        if s.cached != snapshot then s.(callers := s.callers[c := Yielded(snapshot, s.cached)])
        else
          var r := if computed.Some? then Some(Response(s.made, computed.value)) else None;
          State(r, s.made + 1, s.callers[c := Refreshed(snapshot, r)])
  }

  /** The service's two critical sections. */
  class PoolStatus {
    const duration: Time
    var cached: Option<Response>
    var made: nat

    constructor (duration: Time)
      ensures this.duration == duration && cached == None && made == 0
    {
      this.duration, cached, made := duration, None, 0;
    }

    /** Under the read lock: the cached response, and whether it may be returned as it is. */
    method Peek(now: Time) returns (snapshot: Option<Response>, valid: bool)
      ensures forall c, callers :: c !in callers ==>
                Next(State(cached, made, callers), duration, Check(c, now))
                == State(cached, made, callers[c := if valid then Hit(snapshot) else Stale(snapshot)])
    {
      snapshot := cached;
      valid := snapshot.Some? && snapshot.value.updated + duration > now;
    }

    /** Under the write lock: somebody else's newer response, or a recomputed one that is kept even if there is none. */
    method Refresh(snapshot: Option<Response>, computed: Option<Time>) returns (r: Option<Response>)
      modifies this
      ensures forall c, callers :: c in callers && callers[c] == Stale(snapshot) ==>
                var t := Next(State(old(cached), old(made), callers), duration, Recheck(c, computed));
                cached == t.cached && made == t.made && t.callers[c].response == r
    {
      if cached != snapshot {
        return cached;
      }
      r := if computed.Some? then Some(Response(made, computed.value)) else None;
      cached, made := r, made + 1;
    }
  }

  function Run(duration: Time, actions: seq<Action>): State {
    if actions == [] then INIT else Next(Run(duration, actions[..|actions| - 1]), duration, actions[|actions| - 1])
  }

  /** How recent a response is: later computations have larger references; no response is older than any. */
  function Age(r: Option<Response>): int {
    if r.Some? then r.value.ref else -1
  }

  /** Some caller has replaced `snapshot` by a recomputed response. */
  ghost predicate HasRefresher(s: State, snapshot: Option<Response>) {
    exists d :: d in s.callers && IsRefresher(s.callers[d], snapshot)
  }

  predicate IsRefresher(u: Caller, snapshot: Option<Response>) {
    u.Refreshed? && u.snapshot == snapshot
  }

  /** What holds of each caller: a snapshot is current until somebody refreshes it, and then older than the current. */
  ghost predicate CallerInv(s: State, u: Caller) {
    match u
    case Hit(_) => true
    case Stale(x) => x == s.cached || HasRefresher(s, x)
    case Refreshed(x, _) => Age(x) < Age(s.cached)
    case Yielded(x, r) => HasRefresher(s, x) && r.Some? && Age(x) < Age(r)
  }

  ghost predicate Inv(s: State) {
    && Age(s.cached) < s.made
    && (forall c :: c in s.callers ==> CallerInv(s, s.callers[c]))
    && SingleRefresh(s)
  }

  ghost predicate SingleRefresh(s: State) {
    forall c, d :: c in s.callers && d in s.callers && s.callers[c].Refreshed? && s.callers[d].Refreshed? ==>
                     (s.callers[c].snapshot == s.callers[d].snapshot ==> c == d)
  }

  lemma RefreshersStay(s: State, t: State, x: Option<Response>)
    requires forall c :: c in s.callers && s.callers[c].Refreshed? ==> c in t.callers && t.callers[c] == s.callers[c]
    ensures HasRefresher(s, x) ==> HasRefresher(t, x)
  {
  }

  /** Among the callers with one snapshot, the first to take the write lock recomputes, and only that one. */
  lemma FirstRefreshes(s: State, c: nat)
    requires Inv(s) && c in s.callers && s.callers[c].Stale?
    ensures s.cached == s.callers[c].snapshot <==> !HasRefresher(s, s.callers[c].snapshot)
  {
    assert CallerInv(s, s.callers[c]);
    if HasRefresher(s, s.callers[c].snapshot) {
      var d :| d in s.callers && IsRefresher(s.callers[d], s.callers[c].snapshot);
      assert CallerInv(s, s.callers[d]);
    }
  }

  lemma {:induction false} NextKeepsInv(s: State, duration: Time, a: Action)
    requires Inv(s) && (a.Recheck? ==> a.computed.Some?)
    ensures Inv(Next(s, duration, a))
  {
    var t := Next(s, duration, a);
    forall x ensures HasRefresher(s, x) ==> HasRefresher(t, x) {
      RefreshersStay(s, t, x);
    }
    if a.Recheck? && t != s {
      var c := a.c;
      assert CallerInv(s, s.callers[c]);
      FirstRefreshes(s, c);
      if s.cached != s.callers[c].snapshot {
        var d :| d in s.callers && IsRefresher(s.callers[d], s.callers[c].snapshot);
        assert CallerInv(s, s.callers[d]);
      } else {
        assert IsRefresher(t.callers[c], s.cached);
      }
    }
    forall c | c in t.callers ensures CallerInv(t, t.callers[c]) {
      assert c in s.callers ==> CallerInv(s, s.callers[c]);
    }
  }

  predicate AlwaysComputes(actions: seq<Action>) {
    forall i :: 0 <= i < |actions| && actions[i].Recheck? ==> actions[i].computed.Some?
  }

  lemma {:induction false} RunKeepsInv(duration: Time, actions: seq<Action>)
    requires AlwaysComputes(actions)
    ensures Inv(Run(duration, actions))
    decreases |actions|
  {
    if actions != [] {
      RunKeepsInv(duration, actions[..|actions| - 1]);
      NextKeepsInv(Run(duration, actions[..|actions| - 1]), duration, actions[|actions| - 1]);
    }
  }

  /**
   * Whatever the interleaving, if recomputing always yields a response: of all callers that took the write lock with
   * the same stale snapshot exactly one recomputed, and the others returned a response computed later than it.
   */
  lemma OneRefreshPerSnapshot(duration: Time, actions: seq<Action>, c: nat) returns (d: nat)
    requires AlwaysComputes(actions)
    requires var s := Run(duration, actions); c in s.callers && (s.callers[c].Refreshed? || s.callers[c].Yielded?)
    ensures var s := Run(duration, actions);
            var x := s.callers[c].snapshot;
            && (forall e :: e in s.callers && IsRefresher(s.callers[e], x) <==> e == d)
            && (c != d ==> s.callers[c].Yielded? && s.callers[c].response.Some? && Age(s.callers[c].response) > Age(x))
  {
    RunKeepsInv(duration, actions);
    var s := Run(duration, actions);
    assert CallerInv(s, s.callers[c]);
    if s.callers[c].Refreshed? {
      d := c;
    } else {
      d :| d in s.callers && IsRefresher(s.callers[d], s.callers[c].snapshot);
    }
  }

  /** The response that a caller has returned, if any. */
  function Given(u: Caller): Option<Response> {
    match u
    case Stale(_) => None
    case Hit(r) => r
    case Refreshed(_, r) => r
    case Yielded(_, r) => r
  }

  /** Some caller has computed `r`. */
  ghost predicate IsComputed(s: State, r: Option<Response>) {
    exists d :: d in s.callers && s.callers[d].Refreshed? && s.callers[d].response == r
  }

  /** Every response in the cache or in a caller's hands was computed by some caller, and a hit is never empty. */
  ghost predicate Sourced(s: State) {
    && (s.cached.Some? ==> IsComputed(s, s.cached))
    && (forall c :: c in s.callers && Given(s.callers[c]).Some? ==> IsComputed(s, Given(s.callers[c])))
    && (forall c :: c in s.callers && s.callers[c].Hit? ==> s.callers[c].response.Some?)
  }

  lemma {:induction false} NextKeepsSourced(s: State, duration: Time, a: Action)
    requires Sourced(s)
    ensures Sourced(Next(s, duration, a))
  {
    var t := Next(s, duration, a);
    forall r | IsComputed(s, r) ensures IsComputed(t, r) {
      var d :| d in s.callers && s.callers[d].Refreshed? && s.callers[d].response == r;
      assert t.callers[d] == s.callers[d];
    }
    if a.Recheck? && t != s && t.callers[a.c].Refreshed? {
      assert IsComputed(t, t.cached);
    }
  }

  /** Whatever the interleaving and however often recomputing fails, every response given was computed by a caller. */
  lemma {:induction false} ResponsesAreComputed(duration: Time, actions: seq<Action>)
    ensures Sourced(Run(duration, actions))
    decreases |actions|
  {
    if actions != [] {
      ResponsesAreComputed(duration, actions[..|actions| - 1]);
      NextKeepsSourced(Run(duration, actions[..|actions| - 1]), duration, actions[|actions| - 1]);
    }
  }

  /** A recomputation without result breaks this for the empty cache: every caller that found it empty recomputes. */
  lemma NoResultIsRecomputed(s: State, duration: Time, c: nat, d: nat)
    requires c != d && c in s.callers && d in s.callers
    requires s.callers[c] == s.callers[d] == Stale(None) && s.cached == None
    ensures var t := Next(Next(s, duration, Recheck(c, None)), duration, Recheck(d, None));
            t.callers[c] == t.callers[d] == Refreshed(None, None)
  {
  }

  /** And for a full cache it makes the callers that come second return no response at all, without an error. */
  lemma NoResultIsReturned(s: State, duration: Time, c: nat, d: nat, x: Response)
    requires c != d && c in s.callers && d in s.callers
    requires s.callers[c] == s.callers[d] == Stale(Some(x)) && s.cached == Some(x)
    ensures var t := Next(Next(s, duration, Recheck(c, None)), duration, Recheck(d, None));
            t.callers[d] == Yielded(Some(x), None)
  {
  }

  /**
   * The condition is exact: of two callers with the current snapshot, the second is served a response without computing
   * it again if and only if the first one's recomputation yielded one.
   */
  lemma SecondCallerIsServedExactly(s: State, duration: Time, c: nat, d: nat, first: Option<Time>, second: Option<Time>)
    requires Age(s.cached) < s.made && c != d
    requires c in s.callers && d in s.callers && s.callers[c] == s.callers[d] == Stale(s.cached)
    ensures var t := Next(Next(s, duration, Recheck(c, first)), duration, Recheck(d, second));
            t.callers[d].Yielded? && t.callers[d].response.Some? <==> first.Some?
  {
    var t := Next(s, duration, Recheck(c, first));
    assert t.callers[d] == Stale(s.cached);
    assert first.Some? ==> t.cached == Some(Response(s.made, first.value)) && t.cached != s.cached;
  }

  // Freshness, told from the steps of the run.

  /** The caller checked the cache at a moment when `x` was still fresh. */
  predicate CheckedFresh(actions: seq<Action>, duration: Time, c: nat, x: Response) {
    exists i :: 0 <= i < |actions| && actions[i].Check? && actions[i].c == c && actions[i].now < x.updated + duration
  }

  /** The caller checked the cache at a moment when `x` was not fresh, or not there at all. */
  predicate CheckedStale(actions: seq<Action>, duration: Time, c: nat, x: Option<Response>) {
    exists i :: 0 <= i < |actions| && actions[i].Check? && actions[i].c == c
                && (x.None? || x.value.updated + duration <= actions[i].now)
  }

  /** The caller recomputed, with this result: a response of that moment, or none. */
  predicate Recomputed(actions: seq<Action>, c: nat, r: Option<Response>) {
    exists i :: 0 <= i < |actions| && actions[i].Recheck? && actions[i].c == c
                && actions[i].computed == (if r.Some? then Some(r.value.updated) else None)
  }

  predicate Accounted(actions: seq<Action>, duration: Time, c: nat, u: Caller) {
    match u
    case Hit(r) => r.Some? && CheckedFresh(actions, duration, c, r.value)
    case Stale(x) => CheckedStale(actions, duration, c, x)
    case Refreshed(x, r) => CheckedStale(actions, duration, c, x) && Recomputed(actions, c, r)
    case Yielded(x, _) => CheckedStale(actions, duration, c, x)
  }

  lemma AccountedLonger(actions: seq<Action>, a: Action, duration: Time, c: nat, u: Caller)
    requires Accounted(actions, duration, c, u)
    ensures Accounted(actions + [a], duration, c, u)
  {
    var longer := actions + [a];
    forall i | 0 <= i < |actions| ensures longer[i] == actions[i] {
    }
    match u
    case Hit(r) => CheckedFreshLonger(actions, a, duration, c, r.value);
    case Stale(x) => CheckedStaleLonger(actions, a, duration, c, x);
    case Refreshed(x, r) =>
      CheckedStaleLonger(actions, a, duration, c, x);
      var i :| 0 <= i < |actions| && actions[i].Recheck? && actions[i].c == c
               && actions[i].computed == (if r.Some? then Some(r.value.updated) else None);
      assert longer[i].Recheck?;
    case Yielded(x, _) => CheckedStaleLonger(actions, a, duration, c, x);
  }

  lemma CheckedFreshLonger(actions: seq<Action>, a: Action, duration: Time, c: nat, x: Response)
    requires CheckedFresh(actions, duration, c, x)
    ensures CheckedFresh(actions + [a], duration, c, x)
  {
    var i :| 0 <= i < |actions| && actions[i].Check? && actions[i].c == c && actions[i].now < x.updated + duration;
    assert (actions + [a])[i] == actions[i];
  }

  lemma CheckedStaleLonger(actions: seq<Action>, a: Action, duration: Time, c: nat, x: Option<Response>)
    requires CheckedStale(actions, duration, c, x)
    ensures CheckedStale(actions + [a], duration, c, x)
  {
    var i :| 0 <= i < |actions| && actions[i].Check? && actions[i].c == c
             && (x.None? || x.value.updated + duration <= actions[i].now);
    assert (actions + [a])[i] == actions[i];
  }

  /**
   * In every interleaving: a response was returned without waiting exactly by callers that checked while it was younger
   * than the duration; every other caller had checked when there was no response or it was too old; and who recomputed
   * returned a response of the moment of recomputing.
   */
  lemma {:induction false} CallersAreAccounted(duration: Time, actions: seq<Action>, c: nat)
    requires c in Run(duration, actions).callers
    ensures Accounted(actions, duration, c, Run(duration, actions).callers[c])
    decreases |actions|
  {
    var before, a := actions[..|actions| - 1], actions[|actions| - 1];
    var s, t := Run(duration, before), Run(duration, actions);
    assert actions == before + [a] && actions[|before|] == a;
    if c in s.callers {
      CallersAreAccounted(duration, before, c);
      AccountedLonger(before, a, duration, c, s.callers[c]);
    }
  }
}
