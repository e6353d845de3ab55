/**
 * Where every credit ends up. A call history alone says who owns each credited amount: the account the node is bound
 * to at that moment, or else the first account it is bound to afterwards. The store's balances are exactly the sums
 * of what the history attributes to them.
 */
module Attribution {
  import opened Wrappers
  import opened StoreTypes
  import opened MemorySpec

  /** A node is registered once a SetNode with its non-empty ID has been made. */
  predicate Registered(h: seq<Op>, id: NodeID) {
    h != [] && (Registered(h[..|h| - 1], id) || (h[|h| - 1].SetNode? && h[|h| - 1].node.id == id && id != ""))
  }

  /** The last call of `h` binds the registered node `id` to an account. */
  predicate Binds(h: seq<Op>, id: NodeID) {
    h != [] && h[|h| - 1].AddAccountNode? && h[|h| - 1].id == id && Registered(h[..|h| - 1], id)
  }

  /** The account that a node is bound to: the one of the latest binding. */
  function BoundTo(h: seq<Op>, id: NodeID): Option<Account> {
    if h == [] then None
    else if Binds(h, id) then Some(h[|h| - 1].account)
    else BoundTo(h[..|h| - 1], id)
  }

  /**
   * The owner, as of history `h`, of what call `i` added to node `id`: the account bound at that moment, or the first
   * one bound since; none while the node is still on trial.
   */
  function Owner(h: seq<Op>, i: nat, id: NodeID): Option<Account>
    requires i < |h|
  {
    if |h| == i + 1 then BoundTo(h[..i], id) else
      var before := Owner(h[..|h| - 1], i, id);
      if before.Some? then before else if Binds(h, id) then Some(h[|h| - 1].account) else None
  }

  /** The amount that call `i` contributes to account `a`. */
  function Share(h: seq<Op>, i: nat, a: Account): int
    requires i < |h|
  {
    match h[i]
    case AddAccountBalance(b, amount) => if b == a then amount else 0
    case AddNodeBalance(id, amount) => if Registered(h[..i], id) && Owner(h, i, id) == Some(a) then amount else 0
    case _ => 0
  }

  /** The amount that call `i` contributes to the trial of node `id`. */
  function TrialShare(h: seq<Op>, i: nat, id: NodeID): int
    requires i < |h|
  {
    if h[i].AddNodeBalance? && h[i].id == id && Registered(h[..i], id) && Owner(h, i, id).None? then h[i].amount else 0
  }

  function Shares(h: seq<Op>, n: nat, a: Account): int
    requires n <= |h|
  {
    if n == 0 then 0 else Shares(h, n - 1, a) + Share(h, n - 1, a)
  }

  function TrialShares(h: seq<Op>, n: nat, id: NodeID): int
    requires n <= |h|
  {
    if n == 0 then 0 else TrialShares(h, n - 1, id) + TrialShare(h, n - 1, id)
  }

  /** A further call moves what earlier calls contributed only if it binds a node on trial, and then all of it. */
  lemma {:induction false} SharesAppend(h: seq<Op>, op: Op, n: nat, a: Account)
    requires n <= |h|
    ensures Shares(h + [op], n, a)
         == Shares(h, n, a) + if op.AddAccountNode? && op.account == a && Registered(h, op.id)
                              then TrialShares(h, n, op.id) else 0
    decreases n
  {
    if n != 0 {
      SharesAppend(h, op, n - 1, a);
      var g := h + [op];
      assert g[..|g| - 1] == h && g[..n - 1] == h[..n - 1];
    }
  }

  lemma {:induction false} TrialSharesAppend(h: seq<Op>, op: Op, n: nat, id: NodeID)
    requires n <= |h|
    ensures TrialShares(h + [op], n, id)
         == if op.AddAccountNode? && op.id == id && Registered(h, id) then 0 else TrialShares(h, n, id)
    decreases n
  {
    if n != 0 {
      TrialSharesAppend(h, op, n - 1, id);
      var g := h + [op];
      assert g[..|g| - 1] == h && g[..n - 1] == h[..n - 1];
    }
  }

  lemma {:induction false} BindingStep(m: Mem, op: Op, id: NodeID)
    ensures var after := Step(m, op).0;
            var binds := op.AddAccountNode? && op.id == id && id in m.nodes;
            && (id in after.nodes <==> id in m.nodes || (op.SetNode? && op.node.id == id && id != ""))
            && (id in after.accounts <==> id in m.accounts || binds)
            && (id in after.accounts ==> after.accounts[id] == if binds then op.account else m.accounts[id])
  {
  }

  /** The store registers and binds exactly the nodes that the history registers and binds. */
  lemma {:induction false} BindingsFollowHistory(h: seq<Op>, id: NodeID)
    ensures id in Run(EMPTY, h).nodes <==> Registered(h, id)
    ensures id in Run(EMPTY, h).accounts <==> BoundTo(h, id).Some?
    ensures id in Run(EMPTY, h).accounts ==> BoundTo(h, id) == Some(Run(EMPTY, h).accounts[id])
    decreases |h|
  {
    if h != [] {
      BindingsFollowHistory(h[..|h| - 1], id);
      BindingStep(Run(EMPTY, h[..|h| - 1]), h[|h| - 1], id);
    }
  }

  /** What one call adds to the credit of account `a`. */
  lemma {:induction false} CreditStep(m: Mem, op: Op, a: Account)
    ensures BalanceAt(Step(m, op).0.balances, a).credit - BalanceAt(m.balances, a).credit
         == match op
            case AddAccountBalance(b, amount) => if b == a then amount else 0
            case AddNodeBalance(id, amount) =>
              if id in m.nodes && id in m.accounts && m.accounts[id] == a then amount else 0
            case AddAccountNode(b, id) => if b == a && id in m.nodes then BalanceAt(m.trials, id).credit else 0
            case _ => 0
  {
  }

  /** What one call does to the trial of node `id`. */
  lemma {:induction false} TrialStep(m: Mem, op: Op, id: NodeID)
    ensures BalanceAt(Step(m, op).0.trials, id).credit
         == match op
            case AddNodeBalance(n, amount) =>
              BalanceAt(m.trials, id).credit + if n == id && id in m.nodes && id !in m.accounts then amount else 0
            case AddAccountNode(_, n) => if n == id && id in m.nodes then 0 else BalanceAt(m.trials, id).credit
            case _ => BalanceAt(m.trials, id).credit
  {
  }

  /**
   * After every history, an account's credit is the sum of its direct additions, of everything added to nodes while
   * bound to it, and of everything added to nodes on trial that were first bound to it; a trial holds the rest.
   */
  lemma {:induction false} CreditsFollowHistory(h: seq<Op>, a: Account, id: NodeID)
    ensures BalanceAt(Run(EMPTY, h).balances, a).credit == Shares(h, |h|, a)
    ensures BalanceAt(Run(EMPTY, h).trials, id).credit == TrialShares(h, |h|, id)
    decreases |h|
  {
    if h != [] {
      var before, op := h[..|h| - 1], h[|h| - 1];
      var m := Run(EMPTY, before);
      assert h == before + [op];
      CreditsFollowHistory(before, a, id);
      CreditStep(m, op, a);
      TrialStep(m, op, id);
      SharesAppend(before, op, |before|, a);
      TrialSharesAppend(before, op, |before|, id);
      match op
      case AddNodeBalance(n, _) => BindingsFollowHistory(before, n);
      case AddAccountNode(_, n) =>
        CreditsFollowHistory(before, a, n);
        BindingsFollowHistory(before, n);
      case _ =>
    }
  }

  /** Once owned, an amount keeps its owner whatever happens next: rebinding moves no credit. */
  lemma OwnerIsFinal(h: seq<Op>, op: Op, i: nat, id: NodeID)
    requires i < |h| && Owner(h, i, id).Some?
    ensures Owner(h + [op], i, id) == Owner(h, i, id)
  {
    assert (h + [op])[..|h + [op]| - 1] == h;
  }

  /** Rebinding a node to another account leaves the credit of every account, old and new, as it was. */
  lemma RebindingMovesNothing(h: seq<Op>, account: Account, id: NodeID, a: Account)
    requires BoundTo(h, id).Some?
    ensures BalanceAt(Run(EMPTY, h + [AddAccountNode(account, id)]).balances, a).credit
         == BalanceAt(Run(EMPTY, h).balances, a).credit
  {
    var op := AddAccountNode(account, id);
    var g := h + [op];
    assert g[..|g| - 1] == h && g[|g| - 1] == op;
    BindingsFollowHistory(h, id);
    RunKeepsValid(EMPTY, h);
    CreditStep(Run(EMPTY, h), op, a);
  }
}
