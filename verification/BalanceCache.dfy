/**
 * The expiring balance cache. A `Get` is two critical sections with the getter's call in between: a probe of the cache
 * and, on a miss, a store of what the getter returned, possibly after a reset. Histories below interleave freely.
 */
module BalanceCache {
  import opened Wrappers
  import opened StoreTypes

  /** The zero instant, which as an expiry means "never". All instants are counted from it. */
  const ZERO: Time := 0

  datatype Item = Item(value: int, expire: Time)

  datatype State = State(expireAfter: Time, items: map<Account, Item>)

  const INIT := State(0, map[])

  function ExpiryOf(expireAfter: Time, now: Time): Time {
    if expireAfter != 0 then now + expireAfter else ZERO
  }

  function AfterReset(expireAfter: Time): State {
    State(expireAfter, map[])
  }

  function AfterSet(s: State, account: Account, amount: int, now: Time): State {
    s.(items := s.items[account := Item(amount, ExpiryOf(s.expireAfter, now))])
  }

  predicate Live(item: Item, now: Time) {
    item.expire == ZERO || now < item.expire
  }

  /** The first half of Get: a hit, or a miss that also clears an expired item. */
  function Probe(s: State, account: Account, now: Time): (State, Option<int>) {
    if account !in s.items then (s, None)
    else if Live(s.items[account], now) then (s, Some(s.items[account].value))
    else (s.(items := s.items - {account}), None)
  }

  class Cache {
    var expireAfter: Time
    var items: map<Account, Item>

    ghost function Contents(): State
      reads this
    {
      State(expireAfter, items)
    }

    constructor ()
      ensures Contents() == INIT
    {
      expireAfter, items := 0, map[];
    }

    method Reset(expireAfter: Time)
      modifies this
      ensures Contents() == AfterReset(expireAfter)
    {
      this.expireAfter := expireAfter;
      items := map[];
    }

    method Set(account: Account, amount: int, now: Time)
      modifies this
      ensures Contents() == AfterSet(old(Contents()), account, amount, now)
    {
      var expire := ZERO;
      if expireAfter != 0 {
        expire := now + expireAfter;
      }
      items := items[account := Item(amount, expire)];
    }

    /**
     * A whole Get without interference: `fetched` is what the getter would return, `now` and `later` the clock readings
     * of the two halves.
     */
    method Get(account: Account, fetched: Result<int, string>, now: Time, later: Time) returns (r: Result<int, string>)
      modifies this
      ensures var probed := Probe(old(Contents()), account, now);
              if probed.1.Some? then r == Ok(probed.1.value) && Contents() == probed.0
              else r == fetched
                   && Contents() == if fetched.Ok? then AfterSet(probed.0, account, fetched.value, later) else probed.0
    {
      if account in items {
        var item := items[account];
        if item.expire == ZERO || now < item.expire {
          return Ok(item.value);
        }
        items := items - {account};
      }
      r := fetched;
      if r.Ok? {
        Set(account, r.value, later);
      }
    }
  }

  // Histories.

  datatype Event =
    | Reset(expireAfter: Time)
    | Store(account: Account, value: int, now: Time)
    | Look(account: Account, now: Time)

  function After(s: State, e: Event): State {
    match e
    case Reset(d) => AfterReset(d)
    case Store(a, v, now) => AfterSet(s, a, v, now)
    case Look(a, now) => Probe(s, a, now).0
  }

  function Run(es: seq<Event>): State {
    if es == [] then INIT else After(Run(es[..|es| - 1]), es[|es| - 1])
  }

  datatype Stored = Stored(amount: int, at: Time)

  /** The last value stored for `a` since the last reset, and when. */
  function LastStored(es: seq<Event>, a: Account): Option<Stored> {
    if es == [] then None else
      match es[|es| - 1]
      case Reset(_) => None
      case Store(b, v, now) => if b == a then Some(Stored(v, now)) else LastStored(es[..|es| - 1], a)
      case Look(_, _) => LastStored(es[..|es| - 1], a)
  }

  /** The duration given to the last reset, or none. */
  function Duration(es: seq<Event>): Time {
    if es == [] then 0 else if es[|es| - 1].Reset? then es[|es| - 1].expireAfter else Duration(es[..|es| - 1])
  }

  predicate ClockAtMost(es: seq<Event>, now: Time) {
    es == [] || (
      var e := es[|es| - 1];
      (e.Reset? || e.now <= now) && ClockAtMost(es[..|es| - 1], if e.Reset? then now else e.now))
  }

  /** What was stored at `s` is good at `now`: without an expiry, within `d`, or if s + d is the zero instant. */
  predicate Good(s: Time, d: Time, now: Time) {
    d == 0 || s + d == ZERO || now - s < d
  }

  ghost predicate Faithful(es: seq<Event>, a: Account, now: Time) {
    var s, stored, d := Run(es), LastStored(es, a), Duration(es);
    && s.expireAfter == d
    && (a in s.items ==> stored.Some? && s.items[a] == Item(stored.value.amount, ExpiryOf(d, stored.value.at)))
    && (a !in s.items && stored.Some? ==> !Good(stored.value.at, d, now))
  }

  lemma {:induction false} RunIsFaithful(es: seq<Event>, a: Account, now: Time)
    requires ClockAtMost(es, now)
    ensures Faithful(es, a, now)
    decreases |es|
  {
    if es != [] {
      var e := es[|es| - 1];
      RunIsFaithful(es[..|es| - 1], a, if e.Reset? then now else e.now);
    }
  }

  /**
   * What Get finds at `now`, over every history on a clock that does not go back: the last value stored since the last
   * reset, exactly when it is still good, and otherwise nothing. In particular no value older than the duration is ever
   * returned, also when it was fetched before the reset and stored after it.
   */
  lemma ProbeFindsLastGoodValue(es: seq<Event>, a: Account, now: Time)
    requires ClockAtMost(es, now)
    ensures var stored := LastStored(es, a);
            Probe(Run(es), a, now).1
            == if stored.Some? && Good(stored.value.at, Duration(es), now) then Some(stored.value.amount) else None
  {
    RunIsFaithful(es, a, now);
  }

  /** Every store so far came after the longest duration had passed since the zero instant. */
  predicate StoredLate(es: seq<Event>) {
    forall e :: e in es && e.Store? ==> e.now > -MIN_DURATION
  }

  lemma {:induction false} LastStoredIsInHistory(es: seq<Event>, a: Account)
    requires LastStored(es, a).Some?
    ensures var stored := LastStored(es, a).value; Store(a, stored.amount, stored.at) in es
    decreases |es|
  {
    if es[|es| - 1].Look? || (es[|es| - 1].Store? && es[|es| - 1].account != a) {
      LastStoredIsInHistory(es[..|es| - 1], a);
    }
  }

  /**
   * Freshness, on a clock that real time can show and for any 64-bit duration: Get finds a value exactly if one was
   * stored since the last reset and no expiry was set or less than the duration has passed.
   */
  lemma ProbeFindsFreshValue(es: seq<Event>, a: Account, now: Time)
    requires ClockAtMost(es, now) && StoredLate(es) && MIN_DURATION <= Duration(es) <= MAX_DURATION
    ensures var stored, d, found := LastStored(es, a), Duration(es), Probe(Run(es), a, now).1;
            found == if stored.Some? && (d == 0 || now - stored.value.at < d) then Some(stored.value.amount) else None
  {
    ProbeFindsLastGoodValue(es, a, now);
    if LastStored(es, a).Some? {
      LastStoredIsInHistory(es, a);
    }
  }

  /**
   * Without these bounds there is one exception, and no other: a value outlives its duration exactly if its expiry is
   * computed to be the zero instant.
   */
  lemma OutlivesDurationExactly(at: Time, d: Time)
    requires d != 0
    ensures (exists now :: at <= now && Good(at, d, now) && !(now - at < d)) <==> at + d == ZERO
  {
    if at + d == ZERO {
      var now := if d > 0 then at + d else at;
      assert Good(at, d, now);
    }
  }

  /** Such a value is found for ever. */
  lemma ZeroExpiryNeverExpires(a: Account, v: int, d: Time, now: Time)
    requires d != 0 && now >= -d
    ensures Probe(Run([Reset(d), Store(a, v, -d)]), a, now).1 == Some(v)
  {
    var es := [Reset(d), Store(a, v, -d)];
    assert es[..1] == [Reset(d)] && es[..1][..0] == [];
    assert Run(es[..1]) == AfterReset(d);
  }
}
