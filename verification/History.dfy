/**
 * What the store answers, told from the call history alone: which calls it refuses, what a node's balance is, which
 * accounts and records it has. Nothing here looks into the store.
 */
module History {
  import opened Wrappers
  import opened StoreTypes
  import M = MemorySpec
  import opened Attribution

  /** The highest nonce accepted for `id`, or zero: a nonce counts if it is fresh and higher than the last. */
  function HighestNonce(h: seq<Op>, id: string): int {
    if h == [] then 0 else
      var before := HighestNonce(h[..|h| - 1], id);
      match h[|h| - 1]
      case CheckAndSaveNonce(i, nonce, now) =>
        if i == id && nonce > now - 900_000_000_000 && nonce > before then nonce else before
      case _ => before
  }

  /** The record of a node: as it was last registered, with the stamp and the block number of its updates since. */
  function RecordOf(h: seq<Op>, id: NodeID): Option<Node> {
    if h == [] then None else
      var before := RecordOf(h[..|h| - 1], id);
      match h[|h| - 1]
      case SetNode(n) => if n.id == id && id != "" then Some(n) else before
      case UpdateNodePeers(i, _, block, now) =>
        if i == id && before.Some? then Some(before.value.(lastSeen := now, blockNumber := block)) else before
      case _ => before
  }

  lemma {:induction false} NonceStep(m: M.Mem, op: Op, id: string)
    ensures var after := M.Step(m, op).0;
            (if id in after.nonces then after.nonces[id] else 0)
            == var last := if id in m.nonces then m.nonces[id] else 0;
               if op.CheckAndSaveNonce? && op.nonceID == id && op.nonce > op.now - 900_000_000_000 && op.nonce > last
               then op.nonce else last
  {
  }

  lemma {:induction false} NoncesFollowHistory(h: seq<Op>, id: string)
    ensures (if id in M.Run(M.EMPTY, h).nonces then M.Run(M.EMPTY, h).nonces[id] else 0) == HighestNonce(h, id)
    decreases |h|
  {
    if h != [] {
      NoncesFollowHistory(h[..|h| - 1], id);
      NonceStep(M.Run(M.EMPTY, h[..|h| - 1]), h[|h| - 1], id);
    }
  }

  /** A nonce is accepted exactly if it is less than 15 minutes old and higher than every one accepted before. */
  lemma NonceIsAcceptedExactly(h: seq<Op>, id: string, nonce: int, now: Time)
    ensures M.CheckAndSaveNonce(M.Run(M.EMPTY, h), id, nonce, now).1
         == if nonce > now - 900_000_000_000 && nonce > HighestNonce(h, id) then Ok(()) else Err(InvalidNonce)
  {
    NoncesFollowHistory(h, id);
  }

  lemma {:induction false} RecordStep(m: M.Mem, op: Op, id: NodeID)
    ensures var before := if id in m.nodes then Some(m.nodes[id].node) else None;
            (if id in M.Step(m, op).0.nodes then Some(M.Step(m, op).0.nodes[id].node) else None)
            == match op
               case SetNode(n) => if n.id == id && id != "" then Some(n) else before
               case UpdateNodePeers(i, _, block, now) =>
                 if i == id && before.Some? then Some(before.value.(lastSeen := now, blockNumber := block)) else before
               case _ => before
  {
  }

  /** The store keeps exactly the record that the history says, and none for an unregistered node. */
  lemma {:induction false} RecordsFollowHistory(h: seq<Op>, id: NodeID)
    ensures M.GetNode(M.Run(M.EMPTY, h), id)
         == match RecordOf(h, id) case Some(n) => Ok(n) case None => Err(UnregisteredNode)
    decreases |h|
  {
    if h != [] {
      RecordsFollowHistory(h[..|h| - 1], id);
      RecordStep(M.Run(M.EMPTY, h[..|h| - 1]), h[|h| - 1], id);
    }
  }

  lemma {:induction false} AccountFieldsStep(m: M.Mem, op: Op, a: Account)
    ensures var before, after := BalanceAt(m.balances, a), BalanceAt(M.Step(m, op).0.balances, a);
            after.deposit == before.deposit && after.nextWithdraw == before.nextWithdraw
  {
  }

  lemma {:induction false} TrialFieldsStep(m: M.Mem, op: Op, id: NodeID)
    ensures var before, after := BalanceAt(m.trials, id), BalanceAt(M.Step(m, op).0.trials, id);
            after == NO_BALANCE || (after.deposit == before.deposit && after.nextWithdraw == before.nextWithdraw)
  {
  }

  predicate CreditOnly(b: Balance) {
    b.deposit == 0 && b.nextWithdraw == 0
  }

  /** No call of the store ever makes a deposit or sets a time to withdraw. */
  lemma {:induction false} NoDeposits(h: seq<Op>, a: Account, id: NodeID)
    ensures CreditOnly(BalanceAt(M.Run(M.EMPTY, h).balances, a)) && CreditOnly(BalanceAt(M.Run(M.EMPTY, h).trials, id))
    decreases |h|
  {
    if h != [] {
      var m := M.Run(M.EMPTY, h[..|h| - 1]);
      NoDeposits(h[..|h| - 1], a, id);
      AccountFieldsStep(m, h[|h| - 1], a);
      TrialFieldsStep(m, h[|h| - 1], id);
    }
  }

  /**
   * The balance of a node: refused exactly for a node that was never registered, and otherwise what the history
   * attributes to the account it is bound to, or to its trial.
   */
  lemma BalanceFollowsHistory(h: seq<Op>, id: NodeID)
    ensures !Registered(h, id) ==> M.GetNodeBalance(M.Run(M.EMPTY, h), id) == Err(UnregisteredNode)
    ensures Registered(h, id) ==>
              && M.GetNodeBalance(M.Run(M.EMPTY, h), id).Ok?
              && var b := M.GetNodeBalance(M.Run(M.EMPTY, h), id).value;
                 && b.credit == (match BoundTo(h, id)
                                 case Some(a) => Shares(h, |h|, a)
                                 case None => TrialShares(h, |h|, id))
                 && b.deposit == 0
  {
    var a := BoundTo(h, id).GetOr("");
    BindingsFollowHistory(h, id);
    CreditsFollowHistory(h, a, id);
    NoDeposits(h, a, id);
  }

  /** Who may spend from an account: exactly the nodes whose latest binding is to it. */
  lemma BindingsAreAnswered(h: seq<Op>, account: Account, id: NodeID)
    ensures M.IsAccountNode(M.Run(M.EMPTY, h), account, id)
         == if BoundTo(h, id) == Some(account) then Ok(()) else Err(NotAuthorized)
    ensures id in M.GetAccountNodes(M.Run(M.EMPTY, h), account) <==> BoundTo(h, id) == Some(account)
  {
    BindingsFollowHistory(h, id);
  }

  /** Which calls are refused, and how, by the history; a refused call changes nothing. */
  lemma {:induction false} RefusalsFollowHistory(h: seq<Op>, op: Op)
    ensures var (after, r) := M.Step(M.Run(M.EMPTY, h), op);
            && (r.Err? ==> after == M.Run(M.EMPTY, h))
            && match op
               case CheckAndSaveNonce(id, nonce, now) =>
                 r == if nonce > now - 900_000_000_000 && nonce > HighestNonce(h, id) then Ok({}) else Err(InvalidNonce)
               case AddNodeBalance(id, _) => r == if Registered(h, id) then Ok({}) else Err(UnregisteredNode)
               case AddAccountBalance(_, _) => r == Ok({})
               case AddAccountNode(_, id) => r == if Registered(h, id) then Ok({}) else Err(UnregisteredNode)
               case SetNode(n) => r == if n.id != "" then Ok({}) else Err(MalformedNode)
               case UpdateNodePeers(id, _, _, _) =>
                 (r.Ok? <==> Registered(h, id)) && (r.Err? ==> r.error == UnregisteredNode)
  {
    match op
    case CheckAndSaveNonce(id, nonce, now) => NonceIsAcceptedExactly(h, id, nonce, now);
    case AddNodeBalance(id, _) => BindingsFollowHistory(h, id);
    case AddAccountBalance(_, _) =>
    case AddAccountNode(_, id) => BindingsFollowHistory(h, id);
    case SetNode(_) =>
    case UpdateNodePeers(id, _, _, _) => BindingsFollowHistory(h, id);
  }

  /** The peers of a registered node, one by one: the records of those recorded peers that are registered. */
  lemma PeersAre(m: M.Mem, id: NodeID, n: Node)
    requires M.Valid(m) && id in m.nodes
    ensures M.NodePeers(m, id).Ok?
    ensures n in M.NodePeers(m, id).value <==> n.id in m.nodes[id].peers && n.id in m.nodes && m.nodes[n.id].node == n
  {
  }
}
