/** The client side of JSON-RPC: request IDs come from a 32-bit counter. */
module RequestIDs {
  import opened Decimal
  import opened StoreTypes
  import opened Router
  import opened RouterDelivery
  import opened RouterVerdict

  const TWO_32 := 0x1_0000_0000
  const TWO_31 := 0x8000_0000

  /** Two's complement: the 32-bit integer congruent to `n`. */
  function Wrap32(n: int): int {
    var r := n % TWO_32;
    if r < TWO_31 then r else r - TWO_32
  }

  /** The ID of the `n`-th request of a connection, counting from one. */
  function RequestID(n: nat): string {
    Signed(Wrap32(n))
  }

  class Client {
    var id: int

    constructor ()
      ensures id == 0
    {
      id := 0;
    }

    /** Increments the counter. After `n` calls on a new client it is the `n`-th ID, wrapped to 32 bits. */
    method NextID(ghost n: nat) returns (next: int)
      requires id == Wrap32(n)
      modifies this
      ensures next == id == Wrap32(n + 1)
    {
      id := if id == TWO_31 - 1 then -TWO_31 else id + 1;
      next := id;
    }

    /** The ID of the next request, as JSON. */
    method NextRequestID(ghost n: nat) returns (text: string)
      requires id == Wrap32(n)
      modifies this
      ensures id == Wrap32(n + 1) && text == RequestID(n + 1)
    {
      var next := NextID(n);
      text := Signed(next);
    }
  }

  /** Wrapping gives the one 32-bit integer that is congruent to `n`. */
  lemma WrapsExactly(n: int)
    ensures -TWO_31 <= Wrap32(n) < TWO_31 && exists k :: n - Wrap32(n) == k * TWO_32
  {
    var k := n / TWO_32 + if n % TWO_32 < TWO_31 then 0 else 1;
    assert n - Wrap32(n) == k * TWO_32;
  }

  lemma NotWrapped(n: nat)
    requires n < TWO_31
    ensures Wrap32(n) == n
  {
    assert n % TWO_32 == n;
  }

  /** Up to 2^31 - 1 the ID of a request is its number in decimal. */
  lemma RequestIDSpells(n: nat)
    requires n < TWO_31
    ensures RequestID(n) != "" && (forall i :: 0 <= i < |RequestID(n)| ==> '0' <= RequestID(n)[i] <= '9')
    ensures Value(RequestID(n)) == n
  {
    NotWrapped(n);
    DigitsGrow(0, n);
    DigitsAreDigits(n);
    DigitsRoundTrip(n);
  }

  /** Two requests of one connection share an ID exactly when their numbers differ by a multiple of 2^32. */
  lemma IDsRepeatExactly(i: nat, j: nat)
    ensures RequestID(i) == RequestID(j) <==> i % TWO_32 == j % TWO_32
  {
    if RequestID(i) == RequestID(j) {
      SignedInjective(Wrap32(i), Wrap32(j));
    }
  }

  /** The first 2^32 request IDs are pairwise distinct, as the router needs. */
  lemma FirstIDsDistinct(ids: seq<string>)
    requires |ids| <= TWO_32 && forall i :: 0 <= i < |ids| ==> ids[i] == RequestID(i + 1)
    ensures Distinct(ids)
  {
    forall i, j | 0 <= i < j < |ids| ensures ids[i] != ids[j] {
      IDsRepeatExactly(i + 1, j + 1);
    }
  }

  /** The IDs that the requests of a run carry, in order. */
  function RequestsOf(actions: seq<Action>): seq<string> {
    if actions == [] then [] else
      var a := actions[|actions| - 1];
      RequestsOf(actions[..|actions| - 1]) + if a.Request? then [a.id] else []
  }

  lemma {:induction false} StepAppendsRequest(s: State, limits: Limits, a: Action)
    ensures Next(s, limits, a).ids == s.ids + if a.Request? then [a.id] else []
  {
  }

  lemma {:induction false} IDsAreRequests(limits: Limits, actions: seq<Action>)
    ensures Run(limits, actions).ids == RequestsOf(actions)
    decreases |actions|
  {
    if actions != [] {
      IDsAreRequests(limits, actions[..|actions| - 1]);
      StepAppendsRequest(Run(limits, actions[..|actions| - 1]), limits, actions[|actions| - 1]);
    }
  }

  /** The requests of the run are numbered by the client's counter, and there are at most 2^32 of them. */
  predicate Numbered(actions: seq<Action>) {
    && |RequestsOf(actions)| <= TWO_32
    && forall k :: 0 <= k < |RequestsOf(actions)| ==> RequestsOf(actions)[k] == RequestID(k + 1)
  }

  /**
   * Delivery on a connection as it is: with the client's own IDs, up to 2^32 requests and at most one answer per ID, a
   * waiting caller whose response has been read gets it exactly if its entry was still its own when the later of the
   * read loop and the caller looked.
   */
  lemma NumberedCallsAreAnsweredExactly(limits: Limits, actions: seq<Action>, c: nat)
    requires Numbered(actions) && AnsweredOnce(limits, actions)
    requires var s := Run(limits, actions); Waits(s, c) && s.ids[c] in s.arrived
    ensures var s := Run(limits, actions);
            var t := Next(Finished(s, limits, s.ids[c]), limits, Take(c));
            && s.ids[c] == RequestID(c + 1) && c < |t.callers|
            && (t.callers[c] == Received(s.arrived[s.ids[c]]) <==> Kept(limits, actions, c))
  {
    IDsAreRequests(limits, actions);
    FirstIDsDistinct(Run(limits, actions).ids);
    ResponseReachesCallerExactly(limits, actions, c);
  }
}
