/**
 * What is known of call histories holds under concurrency: every interleaving of updates and other requests leaves the
 * store that its calls, one after the other, lead to.
 */
module Interleavings {
  import opened StoreTypes
  import opened Conservation
  import opened StoreRefinement
  import opened StoreRuns
  import M = MemorySpec
  import Attribution
  import NonceExpiry
  import Billing

  /** In every interleaving an account, or a trial, holds exactly what the history of calls attributes to it. */
  lemma CreditsFollowInterleaving(terms: Billing.Terms, actions: seq<Action>, a: Account, id: NodeID)
    ensures var store, h := Conservation.Run(terms, actions).store, History(terms, actions);
            && BalanceAt(store.balances, a).credit == Attribution.Shares(h, |h|, a)
            && BalanceAt(store.trials, id).credit == Attribution.TrialShares(h, |h|, id)
  {
    StoreFollowsHistory(terms, actions);
    Attribution.CreditsFollowHistory(History(terms, actions), a, id);
  }

  /** The calls of a history, as events of a run of both stores. */
  function Events(h: seq<Op>): seq<Event> {
    if h == [] then [] else Events(h[..|h| - 1]) + [Event.Call(h[|h| - 1])]
  }

  lemma {:induction false} MemRunOfEvents(h: seq<Op>)
    ensures MemRun(Events(h)) == M.Run(M.EMPTY, h)
    decreases |h|
  {
    if h != [] {
      MemRunOfEvents(h[..|h| - 1]);
      RunAppend(Events(h[..|h| - 1]), Event.Call(h[|h| - 1]));
    }
  }

  /**
   * In every interleaving the badger store, given the same calls, agrees with the memory store; on recorded peers as
   * well if every call treated peers alike, and on nonces if none was accepted ahead of the clock.
   */
  lemma StoresAgreeInInterleaving(terms: Billing.Terms, actions: seq<Action>, grain: nat)
    ensures var store, es := Conservation.Run(terms, actions).store, Events(History(terms, actions));
            && Agree(store, DbRun(es))
            && (PeersDiscipline(es) ==> PeersAgree(store, DbRun(es)))
            && (NonceDiscipline(es, grain) ==> NonceExpiry.NoncesAgree(store, DbRun(es), StoreRuns.Clock(es), grain))
  {
    var h := History(terms, actions);
    StoreFollowsHistory(terms, actions);
    MemRunOfEvents(h);
    RunsAgree(Events(h), grain);
  }
}
