# vipnode pool: a verified model

vipnode coordinates a pool of Ethereum nodes. Light clients report which hosts they are connected to, the pool meters
the time, credits the hosts and debits the client. This project models that coordinator in Dafny and proves properties
that span its parts. `dafny verify dfyconfig.toml` checks all of it.

## What is modelled

- **Two stores.** `MemorySpec` and `BadgerSpec` say what each call does to the tables of the in-memory and of the badger
  store. `MemoryStore` and `BadgerStore` are classes that do it: five maps updated in place, and one flat map from string
  keys to values. `KeySpace` and `FlatDB` show that the flat map is six independent tables and a version cell.
  `StoreRefinement`, `NonceExpiry` and `StoreRuns` compare the stores over whole runs, with the database forgetting
  expired nonces between calls.
- **Ledger and billing.** `Attribution` says whose every credit is. `Billing` and `PayPerInterval` are the
  pay-per-interval manager, and `Earnings` follows one client's updates and what they add to a peer. `Conservation` runs
  updates as sequences of atomic store calls that interleave with each other and with everything else. `History` tells
  every answer of the store from its call history, and `Interleavings` carries the results about call histories over to
  concurrent runs. `BadgerPool` is the same pool on the badger store. `SilentPeers` follows the peer stamps in both.
- **Pool service.** `Pool`, `HostRequests`, `HostRegistry` and `Choices`: connecting, updating, requesting hosts, and the
  two maps between hosts and connections.
- **JSON-RPC router.** `Router` and `RouterDelivery` are a step relation over callers, the read loop, one-slot channels,
  timeouts and evictions; `RouterVerdict` says exactly which responses reach their callers, and `RouterMessages` what
  calls return. `PendingTable` is the table and its eviction order in place; `RequestIDs` supplies the IDs.
- **Caches, migration, signatures.** `BalanceCache`, `StatusCache`, `Migration`, `Preimage`, `Decimal`.

Instants and durations are integers in nanoseconds. Clock readings, random orders, map iteration orders, reply orders and
the answers of other parties are parameters or arbitrary choices, so the theorems hold for all of them. Amounts are
unbounded integers, like the original's; `/` is Euclidean on both sides. Durations saturate at 64 bits, request IDs wrap
at 32 bits.

## What turned out not to hold, and exactly when it does

- The peers that the two stores report differ after a node with recorded peers registers again, and when a node lists
  itself. `StoreRuns.PeersAgreeThroughout` gives the exact condition, `SelfListingDiffers` and `RegisteringAgainDiffers`
  the runs.
- Balances carry an account label. Memory sets it when a node is bound, badger also on direct credit, so the number of
  unlabelled balances can differ: `StoreRuns.UnownedAgreeExactly` says when, `StoreRuns.FundingAloneDiffers` shows a run.
- The comment at `pool/store/store.go:18-21` promises nonces within 15 minutes of now. The code refuses old nonces but not
  future ones. A future nonce that badger has accepted and then forgotten can be replayed; `NonceExpiry.ReplayIsRefusedExactly`
  gives the exact condition. If the database rounds expiry instants down, by at most `grain`, nonces must be older by that.
- `MinBalance` is documented as a minimum balance, but an update compares it with the charge, after the peers were
  credited (`pool/balance/perinterval.go:85-100`). `Billing.LowBalanceExactly` says when an update is refused,
  `Billing.RichClientIsRefused` shows a rich client that is, and `Billing.RefusalMatchesHoldingsExactly` gives the exact
  condition under which the refusal is the documented one. `Conservation.ExcessAtRest` says what it does to the ledger.
- Subtracting instants saturates, so one gap longer than about 292 years is underpaid: `Billing.GapIsChargedInFullExactly`.
- Time between two updates is not charged if the client connects again, or if an update fails between stamp and bill, in
  between: `Earnings.ChargedTimeIs`. A client that reconnects right before every update is never billed:
  `Earnings.ReconnectingIsNeverBilled` and `Earnings.ReconnectAndUpdateIsFree`.
- A response can miss its caller when the pending table evicts the entry: `RouterVerdict.ResponseReachesCallerExactly`
  gives the exact condition and `RouterVerdict.LosingRun` a run.
- A request for `n` hosts may return more than `n`: `HostRequests.NeverMoreThanAskedExactly`.
- The maps of hosts and connections are inverse only while connections are exclusive: `HostRegistry.InverseThroughout`.
- The migration loop accepts steps that overshoot the latest version and can index past its steps:
  `Migration.EndsAtLatestExactly` and `Migration.PanicsExactly`. The shipped steps do neither.
- If a status recomputation yields no response at all, callers behind it recompute again or return nothing without an
  error: `StatusCache.SecondCallerIsServedExactly`.
- A cached balance whose expiry falls on the zero instant never expires: `BalanceCache.OutlivesDurationExactly`. With a
  64-bit duration that takes a clock within 292 years of year 1, which only the clock override of tests can show; on any
  later clock the cache is fresh without exception: `BalanceCache.ProbeFindsFreshValue`.

## Model

| member | source | states |
|---|---|---|
| StoreRuns.NextAnswerAgrees | pool/store/badger/badger.go:51-211 | After any sequence of calls and nonce expiries, the next call is accepted or refused with the same error by both stores; the reported inactive peers agree if every call so far treated peers alike, nonce verdicts if nonces never ran ahead of the clock |
| StoreRuns.RunsAgree | pool/store/badger/badger.go:354-448 | Invariant of every run from empty: same bindings, trials, node records and, up to the label, account balances; same recorded peers and same remembered nonces under the two disciplines |
| StoreRuns.QueriesAgree | pool/store/badger/badger.go:215-352 | After any run all queries agree: node and account credit, binding tests, account nodes, records, eligible hosts, and peers on runs that treated peers alike |
| StoreRuns.TotalsAgree | pool/store/badger/badger.go:451-477 | After any run the aggregate statistics agree but for the number of unlabelled balances; all of them agree if and only if every account that was credited directly also had a node bound to it |
| StoreRuns.UnownedAgreeExactly | pool/store/store.go:114-116 | After any run the stores count equally many unlabelled account balances if and only if every account credited directly was also linked |
| StoreRuns.FundingAloneDiffers | pool/store/memory/memory.go:119-127 | The one-call run after which memory counts one unlabelled balance and badger none |
| StoreRuns.PeersAgreeThroughout | pool/store/badger/badger.go:344-448 | The recorded peers of the two stores are equal at every moment of a run if and only if every call treated peers alike |
| StoreRuns.PeersStep | pool/store/badger/badger.go:391-448 | One call keeps the recorded peers of the two stores equal if and only if it neither re-registers a node that has recorded peers nor lets a node list itself with a different LastSeen than now |
| StoreRuns.SetNodePeers | pool/store/memory/memory.go:192-204 | Registering a node keeps the peer tables equal exactly if no recorded peers are lost |
| StoreRuns.UpdatePeers | pool/store/memory/memory.go:270-306 | A peer update keeps the peer tables equal exactly if the node does not list itself with an old stamp; then the inactive peers agree |
| StoreRuns.SelfListingDiffers | pool/store/memory/memory.go:290-292 | A concrete run on which a node that lists itself is inactive in memory and active in badger |
| StoreRuns.RegisteringAgainDiffers | pool/store/badger/badger.go:344-352 | A concrete run after which registering a node again clears its peers in memory only |
| StoreRuns.LabelsAgreeExactly | pool/store/badger/badger.go:163-163 | The account label of a balance agrees between the stores exactly unless the account was credited directly and no node was ever bound to it |
| StoreRuns.LabelsAfter | pool/store/memory/memory.go:119-127 | After any run: memory labels exactly the accounts a node was bound to, badger also the ones credited directly |
| StoreRuns.AcceptedIncreases | pool/store/badger/badger.go:51-75 | Over a whole run with forgetting, the nonces badger accepts for an ID increase strictly |
| StoreRuns.NonceStep | pool/store/memory/memory.go:51-64 | On a disciplined run both stores give the same nonce verdict, whatever has been forgotten |
| StoreRefinement.StepAgrees | pool/store/badger/badger.go:51-448 | Per-call simulation: from agreeing states every call leads to agreeing states with the same verdict |
| StoreRefinement.GetNodeBalanceAgrees | pool/store/badger/badger.go:78-104 | Although badger checks registration only when a balance is missing, both stores find the same money or both refuse; rests on trials and bindings existing for registered nodes only |
| StoreRefinement.AddNodeBalanceAgrees | pool/store/badger/badger.go:110-136 | Both stores credit the same balance, or both refuse |
| StoreRefinement.AddAccountNodeAgrees | pool/store/badger/badger.go:172-211 | Binding a node merges the same trial into the same account in both stores |
| StoreRefinement.UpdateNodePeersAgrees | pool/store/badger/badger.go:391-448 | Both stores accept or refuse a peer update alike and go on agreeing on everything but possibly the stamps |
| StoreRefinement.ActiveHostsAgrees | pool/store/badger/badger.go:285-328 | The eligible hosts are the same in both stores |
| StoreRefinement.StatsAgree | pool/store/badger/badger.go:451-477 | Agreeing stores report the same sums and node counts; their whole statistics are equal exactly if they hold equally many unlabelled account balances |
| NonceExpiry.CheckAgrees | pool/store/badger/badger.go:51-75 | If an accepted nonce is not ahead of the clock, a store that forgets and one that does not give the same verdict |
| NonceExpiry.ForgetAgrees | pool/store/badger/helpers.go:35-43 | Dropping an entry at or after save time plus ExpireNonce loses nothing that the age check does not refuse anyway |
| NonceExpiry.FutureNonceIsAcceptedTwice | pool/store/badger/badger.go:70-72 | Whenever a nonce ahead of the clock is accepted there is a later moment at which badger accepts the same nonce again and memory refuses it |
| NonceExpiry.ReplayIsRefusedExactly | pool/store/store.go:18-21 | An accepted nonce is refused at every later time after a legal expiry if and only if it was not ahead of the clock when accepted |
| MemorySpec.RunKeepsValid | pool/store/memory/memory.go:32-48 | Invariant of every run: trials and bindings only for registered nodes, never both, and every bound account has a balance |
| MemorySpec.StepKeepsValid | pool/store/memory/memory.go:51-306 | Each mutator keeps those invariants and unregisters nobody |
| MemorySpec.PeerUpdatePartitions | pool/store/memory/memory.go:270-306 | Memory: recorded plus listed registered peers are the disjoint union of kept and inactive; kept are exactly those stamped after now - ExpireInterval; nothing else is touched |
| BadgerSpec.PeerUpdatePartitions | pool/store/badger/badger.go:391-448 | Badger: the same exact partition, with the node itself judged by now if it lists itself; no other record, peer list or table is touched |
| MemoryStore.Store.CheckAndSaveNonce | pool/store/memory/memory.go:51-64 | Accepts exactly a nonce that is fresh and higher than the last one; a refusal changes nothing |
| MemoryStore.Store.GetNodeBalance | pool/store/memory/memory.go:67-81 | The trial of an unbound node, the account balance of a bound one, an error for an unregistered one |
| MemoryStore.Store.AddNodeBalance | pool/store/memory/memory.go:90-109 | Credits the bound account or else the trial; an unregistered node is refused without change |
| MemoryStore.Store.AddAccountBalance | pool/store/memory/memory.go:119-127 | Credits the account and changes nothing else |
| MemoryStore.Store.AddAccountNode | pool/store/memory/memory.go:132-150 | Binds, moves the whole trial into the account, deletes the trial |
| MemoryStore.Store.IsAccountNode | pool/store/memory/memory.go:154-163 | Succeeds exactly for the account the node is bound to |
| MemoryStore.Store.GetAccountNodes | pool/store/memory/memory.go:167-178 | Exactly the nodes bound to the account, each once |
| MemoryStore.Store.GetNode | pool/store/memory/memory.go:181-189 | The record of a registered node |
| MemoryStore.Store.SetNode | pool/store/memory/memory.go:192-204 | Files the record under its ID with no peers; refuses the empty ID |
| MemoryStore.Store.ActiveHosts | pool/store/memory/memory.go:216-244 | Distinct registered hosts of the kind, seen after now - ExpireInterval: as many as the limit, or all if there are fewer or the limit is zero |
| MemoryStore.Store.NodePeers | pool/store/memory/memory.go:248-263 | The records of exactly the recorded peers that are registered, each once |
| MemoryStore.Store.UpdateNodePeers | pool/store/memory/memory.go:270-306 | The two loops compute the specified peer partition; inactive peers are returned once each |
| MemoryStore.Store.GetStats | pool/store/memory/memory.go:309-325 | The loops over nodes, balances and trials compute the specified sums and counts |
| PeerStamps.StampListed | pool/store/memory/memory.go:282-293 | The listing loop overwrites exactly the stamps of the listed registered nodes |
| PeerStamps.DropStale | pool/store/memory/memory.go:295-302 | The deleting loop keeps exactly the fresh stamps and returns every stale peer once |
| Choices.PickUpTo | pool/store/memory/memory.go:222-243 | The counting-down loop stops at the limit, never at zero, with distinct eligible records |
| Choices.WhoIsChosen | pool/store/memory/memory.go:226-235 | Chosen are only hosts of the wanted kind seen after now - ExpireInterval, and all of them if the limit is not reached |
| Choices.Shuffle | pool/store/badger/badger.go:323-325 | Exchanging elements in place is a permutation and keeps a list of distinct records |
| Choices.PickShuffled | pool/store/badger/badger.go:285-328 | Collect, shuffle, truncate: a selection of the size the limit asks for |
| StatsCounter.CountNodes | pool/store/store.go:88-107 | Counting node by node, in any order, gives the numbers of active and of all hosts and clients and the highest block |
| StatsCounter.CountBalances | pool/store/store.go:111-117 | Counting balance by balance, in any order, gives the sums of credits and deposits and the number of unlabelled balances |
| StatsCounter.Aggregate | pool/store/memory/memory.go:309-325 | The statistics of the whole store |
| StatsCounter.NodeCountsAre | pool/store/store.go:93-99 | The totals count the nodes that are hosts and those that are not, and add up to all nodes |
| StatsCounter.ActiveCountsAre | pool/store/store.go:92-102 | The active counts are of those seen after now - ExpireInterval |
| StatsCounter.LatestBlockIs | pool/store/store.go:104-106 | The latest block number is the highest reported one, or zero |
| StatsCounter.SumsAre | pool/store/store.go:111-117 | Credit and deposit are summed over balances and trials; the count is of those without an account |
| KeySpace.PrefixesDiffer | pool/store/badger/badger.go:59-92 | No key has two table prefixes, and the version key has none |
| KeySpace.KeyInjective | pool/store/badger/badger.go:79-92 | A key determines its table and ID for any ID string |
| KeySpace.PutCell | pool/store/badger/helpers.go:27-33 | Writing a key writes its cell and no other table |
| KeySpace.DropCells | pool/store/badger/versions.go:27-30 | Deleting keys deletes exactly their cells |
| KeySpace.ScanIsTable | pool/store/badger/helpers.go:46-64 | A prefix scan that strips the prefix enumerates exactly the IDs of the table, with their values |
| KeySpace.Collect | pool/store/badger/helpers.go:46-64 | The iterator loop returns exactly the rows of the table |
| KeySpace.StripPrefix | pool/store/badger/badger.go:251-252 | The stripped key is the only ID that has this key |
| KeySpace.PutBacked | pool/store/badger/helpers.go:27-33 | A write on the flat map is the write of one cell |
| KeySpace.DropBacked | pool/store/badger/badger.go:206-208 | A delete on the flat map is the delete of one cell |
| BadgerStore.Store.CheckAndSaveNonce | pool/store/badger/badger.go:51-75 | On the flat database: the specified nonce check, with the time of saving |
| BadgerStore.Store.FindBalance | pool/store/badger/badger.go:78-104 | Finds the cell that carries a node's credit: the bound account's balance or else the trial |
| BadgerStore.Store.GetNodeBalance | pool/store/badger/badger.go:78-104 | The specified balance; registration is looked up only when there is none |
| BadgerStore.Store.AddNodeBalance | pool/store/badger/badger.go:110-136 | Writes exactly the one balance or trial cell, as specified |
| BadgerStore.Store.GetAccountBalance | pool/store/badger/badger.go:139-150 | The balance cell, empty if there is none |
| BadgerStore.Store.AddAccountBalance | pool/store/badger/badger.go:153-167 | Credits and labels the balance cell |
| BadgerStore.Store.AddAccountNode | pool/store/badger/badger.go:172-211 | Three cell changes that together are the specified binding |
| BadgerStore.Store.IsAccountNode | pool/store/badger/badger.go:215-229 | Succeeds exactly for the bound account |
| BadgerStore.Store.GetAccountNodes | pool/store/badger/badger.go:233-261 | The scan over all bindings returns exactly the nodes of the account |
| BadgerStore.Store.GetNode | pool/store/badger/badger.go:330-342 | The node record, or an error |
| BadgerStore.Store.SetNode | pool/store/badger/badger.go:344-352 | Writes the record only; recorded peers stay |
| BadgerStore.Store.ActiveHosts | pool/store/badger/badger.go:285-328 | Distinct registered hosts of the kind, seen after now - ExpireInterval, in a shuffled choice: as many as the limit, or all |
| BadgerStore.Store.NodePeers | pool/store/badger/badger.go:354-389 | The records of exactly the recorded registered peers, each once |
| BadgerStore.Store.UpdateNodePeers | pool/store/badger/badger.go:391-448 | Writes the own record first, then the kept stamps; returns every stale peer once |
| BadgerStore.Store.StampListed | pool/store/badger/badger.go:420-434 | Looks every listed node up and stamps exactly the registered ones |
| BadgerStore.Store.GetStats | pool/store/badger/badger.go:451-477 | The three scans compute the same aggregate as the memory store on the same tables |
| BadgerStore.Store.GetItem | pool/store/badger/helpers.go:17-25 | Reads one cell by its key |
| BadgerStore.Store.SetItem | pool/store/badger/helpers.go:27-33 | Changes exactly one cell |
| BadgerStore.Store.DeleteItem | pool/store/badger/badger.go:206-208 | Removes exactly one cell |
| BadgerStore.Store.ScanTable | pool/store/badger/helpers.go:46-64 | Returns exactly the rows of one table |
| BadgerStore.StampsAreReported | pool/store/badger/badger.go:405-433 | Because the own record is written first, a node that lists itself is stamped with now |
| Attribution.CreditsFollowHistory | pool/store/memory/memory.go:90-150 | After any history an account holds its direct additions, everything added to nodes while bound to it and every trial migrated into it; a trial holds the rest |
| Attribution.BindingsFollowHistory | pool/store/memory/memory.go:132-150 | Registrations and bindings in the store are those of the history: the latest binding counts |
| Attribution.OwnerIsFinal | pool/store/memory/memory.go:132-150 | Once an amount belongs to an account, no later call changes its owner |
| Attribution.RebindingMovesNothing | pool/store/memory/memory.go:141-148 | Rebinding a bound node changes the credit of no account |
| Attribution.CreditStep | pool/store/memory/memory.go:112-150 | What each possible call adds to the credit that GetAccountBalance then reports for an account |
| History.RefusalsFollowHistory | pool/store/memory/memory.go:51-306 | After any history, which calls are refused and with which error, told from the history alone; a refused call changes nothing |
| History.NonceIsAcceptedExactly | pool/store/memory/memory.go:51-64 | After any history, a nonce is accepted if and only if it is less than 15 minutes old and higher than every one accepted before |
| History.RecordsFollowHistory | pool/store/memory/memory.go:181-204 | After any history, GetNode returns the record last registered, with the stamp and block number of the updates since |
| History.BalanceFollowsHistory | pool/store/memory/memory.go:67-81 | After any history, the balance of a node is refused exactly if it was never registered, and otherwise what the history attributes to its account or trial, with no deposit |
| History.BindingsAreAnswered | pool/store/memory/memory.go:154-178 | After any history, exactly the nodes whose latest binding is to an account may spend from it and are listed for it |
| History.NoDeposits | pool/store/memory/memory.go:90-150 | No call of the store ever makes a deposit or sets a time to withdraw |
| History.PeersAre | pool/store/memory/memory.go:248-263 | The peers of a node are exactly the records of its recorded peers that are registered |
| BadgerSpec.PeersAre | pool/store/badger/badger.go:354-389 | On badger, too; refused only without a record and without recorded peers |
| Interleavings.CreditsFollowInterleaving | pool/balance/perinterval.go:85-102 | The attribution holds under concurrency: in every interleaving each account and trial holds what the history of store calls attributes to it |
| Interleavings.StoresAgreeInInterleaving | pool/store/badger/badger.go:51-448 | In every interleaving of requests, badger given the same store calls agrees with memory, also on peers and nonces under their disciplines |
| Billing.PayAllMoves | pool/balance/perinterval.go:85-89 | Paying a list of peers adds to each account and trial once for every registered peer behind it |
| Billing.OnUpdateMoves | pool/balance/perinterval.go:68-111 | What a charged update does to every account and trial, and its answer; below the minimum the peers keep the credit and nobody is debited |
| Billing.OnUpdateIsItsCalls | pool/balance/perinterval.go:85-104 | An update changes the store by exactly one credit call per peer and, unless refused, one debit call |
| Billing.LowBalanceExactly | pool/balance/perinterval.go:95-100 | For every update: it ends in LowBalanceError if and only if it is charged and its whole charge is below the minimum; what the client owns plays no part |
| Billing.ChargedUpdateFailsExactly | pool/balance/perinterval.go:79-111 | A charged update of a registered client fails if and only if its charge is below the minimum |
| Billing.RefusalMatchesHoldingsExactly | pool/balance/perinterval.go:28-29 | The refusal is the documented one (client owns less than the minimum) if and only if the minimum does not lie between what the client owns and what it is charged |
| Billing.RichClientIsRefused | pool/balance/perinterval.go:95-100 | After a registration and a credit of 1000000, an update without peers is refused for a minimum of 5 |
| Billing.WelcomeExactly | pool/balance/perinterval.go:47-64 | A connecting node is let in if and only if there is no minimum or its holdings from before reach it; a newcomer is refused exactly for a positive minimum, and never because it is unregistered |
| Billing.RefusedAndWelcomedAgain | pool/balance/perinterval.go:91-94 | Whoever is refused by an update is let in again on reconnecting if and only if it then owns the minimum; with a positive credit it does if it did before: the loop the comment warns of |
| Billing.FloorOfSum | pool/balance/perinterval.go:41-42 | Rounding down twice loses at most one unit |
| Billing.ChargeIsExact | pool/balance/perinterval.go:35-43 | A gap that a 64-bit duration can express is charged at exactly time times credit over interval, rounded down to a whole unit, in whole numbers |
| Billing.UnchargedUpdate | pool/balance/perinterval.go:68-83 | Updates of hosts, with invalid settings or over no time change nothing; which answer each of them gets |
| Billing.GapIsChargedInFullExactly | pool/balance/perinterval.go:39-42 | With at least one unit per nanosecond, the charge is the exact rounded-down product for the whole gap if and only if a 64-bit duration can express the gap |
| Billing.ExcessIsNotCharged | pool/balance/perinterval.go:39-42 | At any price, a gap beyond the longest 64-bit duration is charged at exactly the longest duration |
| Earnings.EarningsIndependentOfRate | pool/balance/perinterval.go:22-43 | In whole numbers, 0 <= T*C - S*I < n*I: what n updates credit to a peer paid throughout is the charged time at the rate of the terms, but for less than one unit per update |
| Earnings.LonePeerIsPaidExactly | pool/balance/perinterval.go:68-111 | The credit that a lone peer gains in the store is the time since the client was last seen at the rate of the terms, rounded down, and the client loses as much, or nothing if that is below the minimum |
| Earnings.EarnedIsCharges | pool/service.go:147-182 | What the credit calls of the updates add to the peer is the sum of the charges from each stamp to the next bill |
| Earnings.ChargesAddUp | pool/balance/perinterval.go:35-43 | Rounded charges sum to the rounded price of the charged time, up to one unit per extra update |
| Earnings.ChargedTimeIs | pool/service.go:301-337 | The charged time is the time between first and last stamp, plus the billing lags, minus what reconnects and failed updates stamp without a bill |
| Earnings.ReconnectingIsNeverBilled | pool/service.go:301-337 | A client whose every update is billed at the instant of the stamp before it, such as a reconnect, pays no peer anything, over any run |
| Earnings.ReconnectAndUpdateIsFree | pool/balance/perinterval.go:79-83 | Registering, updating and billing at one instant leaves every balance and trial as it was |
| Earnings.GainExactly | pool/balance/perinterval.go:68-111 | An update moves the credit behind a node once per peer sharing its balance, less the charge if the client shares it |
| Earnings.GainedIsEarned | pool/store/memory/memory.go:90-109 | For a peer with a balance of its own, the earnings are exactly what its balance in the store grows by |
| Earnings.GrowthIndependentOfRate | pool/balance/perinterval.go:22-43 | The same bound in whole numbers for the growth of a balance that is the peer's own |
| Earnings.StampsFollow | pool/service.go:147-182 | Only updates and registrations of the client move its LastSeen, in every request |
| PayPerInterval.Manager.OnUpdate | pool/balance/perinterval.go:68-111 | The method does to the store exactly what the specified update does, on every branch |
| PayPerInterval.Manager.PayPeers | pool/balance/perinterval.go:85-89 | The paying loop credits the peers in turn and returns their number times the credit |
| Conservation.LedgerAlwaysBalances | pool/balance/perinterval.go:68-111 | In every interleaving of updates with other store calls, total credit is what was deposited plus what updates have credited and not debited |
| Conservation.BalancedAtRest | pool/store/store.go:111-117 | Without a minimum balance, at rest, the total credit of Stats is exactly what was deposited from outside: zero if nothing was |
| Conservation.ExcessAtRest | pool/balance/perinterval.go:91-100 | With a minimum balance, the excess at rest is exactly what the stranded updates had credited, and each of those was charged less than the minimum |
| Conservation.PaymentsAreNeverRefused | pool/balance/perinterval.go:86-89 | The ignored errors never occur: in every interleaving the pending payments of every update succeed |
| Conservation.NextKeepsInv | pool/service.go:147-182 | Every atomic step of an update and every other call keeps the ledger invariant |
| Conservation.AddAccountNodeTotal | pool/store/memory/memory.go:132-150 | Binding a node leaves the total credit unchanged |
| Conservation.UninterruptedIsOnUpdate | pool/balance/perinterval.go:68-111 | Run without interruption, the assess, pay, settle and report steps leave exactly the store and the answer of OnUpdate |
| Conservation.WholeUpdate | pool/service.go:147-182 | Run without interruption from its beginning, an update stamps the peers and then bills for the time since the node was last seen before that stamp |
| Conservation.StoreFollowsHistory | pool/service.go:147-182 | In every interleaving the store is the one that its calls, in order, lead to from the empty store |
| BadgerPool.RunSimilar | pool/store/badger/badger.go:51-448 | Every interleaving of the pool on badger, with the peers that badger lists, goes step by step with an interleaving of the pool on memory, with equal phases up to labels in answers |
| BadgerPool.DbLedgerAlwaysBalances | pool/balance/perinterval.go:68-111 | On badger, too, total credit in every interleaving is what was deposited plus what updates have credited and not debited |
| BadgerPool.DbBalancedAtRest | pool/store/badger/badger.go:451-477 | On badger, at rest and without a minimum balance, the total credit of Stats is what was deposited |
| BadgerPool.DbExcessAtRest | pool/balance/perinterval.go:91-100 | On badger, the excess at rest is exactly what the stranded updates credited, each below the minimum |
| SilentPeers.SilentPeerIsNeverPaid | pool/service.go:147-182 | After any run on a monotone clock, every peer an update pays was itself seen after now - ExpireInterval |
| SilentPeers.RunKeepsStamps | pool/store/memory/memory.go:270-306 | No recorded stamp is ever ahead of the LastSeen of the peer it belongs to |
| SilentPeers.ConnectKeepsStamps | pool/service.go:301-335 | A connect keeps the stamps behind |
| SilentPeers.OnlyActivePeersAreCredited | pool/balance/perinterval.go:86-89 | Every credit call of an update after such a run goes to a peer that was itself seen after now - ExpireInterval |
| SilentPeers.DbSilentPeerIsNeverPaid | pool/store/badger/badger.go:391-448 | The same on badger: after any run on a monotone clock, every peer an update pays was itself seen after now - ExpireInterval |
| SilentPeers.DbRunKeepsStamps | pool/store/badger/badger.go:344-448 | On badger, no recorded stamp is ever ahead of the LastSeen of its peer, across registrations that keep old peer lists |
| Pool.RetryDoesNotReviveNonce | pool/service.go:140-145 | Trying the older request form helps a signature but never a nonce: one nonce check decides |
| Pool.VipnodePool.Verify | pool/service.go:89-102 | A refused request changes nothing; an accepted one saves its nonce |
| Pool.VipnodePool.Update | pool/service.go:138-205 | Verify, stamp, read the peers, bill with the record from before; state and answer on each failing branch |
| Pool.VipnodePool.Connect | pool/service.go:280-351 | Wrong network, missing connection and bad address are refused without any change; otherwise the stored record is the given one, seen now and with its address if a host, no peers; the state change is that of the connect of SilentPeers; let in exactly if its balance from before reaches the minimum |
| Pool.VipnodePool.CloseRemote | pool/service.go:66-80 | Removes the connection and its host from both maps |
| Pool.VipnodePool.RequestHosts | pool/service.go:370-475 | Returned are distinct active hosts of the kind, connected and willing, never the requester or a recorded peer; at most the capped number plus those left out; at least the capped number, or all, if everyone else is connected and willing; which error otherwise |
| Pool.VipnodePool.SeekHosts | pool/service.go:381-475 | Calls exactly the selected, unskipped, connected hosts and answers with exactly those that acknowledged |
| Pool.WhoIsSkipped | pool/service.go:382-391 | Skipped are exactly the requester and those of its recorded peers that are registered |
| Pool.RequestOutcome | pool/service.go:370-475 | Returned hosts are distinct, eligible, not skipped, connected and willing, at most n + the number skipped; at least n or all if everyone is connected and willing |
| Pool.Gather | pool/service.go:446-454 | In any reply order, accepted are exactly the acknowledging hosts, and accepted plus failed is the number called |
| Pool.Callable | pool/service.go:407-427 | The filter loop keeps exactly the selected hosts that are neither skipped nor disconnected |
| Pool.Respond | pool/service.go:458-474 | One acceptance is a success; otherwise the failures, or the lack of hosts, are reported |
| HostRequests.CandidateBounds | pool/service.go:381-416 | Asking for n + skipped hosts leaves at least min(n, available) and at most min(n + skipped, available) candidates |
| HostRequests.NeverMoreThanAskedExactly | pool/service.go:397-475 | Whatever the store selects, at most n hosts are returned if and only if at most n eligible hosts are not skipped, connected and willing |
| HostRegistry.InverseStep | pool/service.go:329-332 | One event keeps the two maps inverse if and only if it does not open a second connection for a node or a second node on a connection |
| HostRegistry.InverseThroughout | pool/service.go:66-80 | The maps are inverse at every moment of a run if and only if every opened connection was exclusive |
| HostRegistry.CloseForgetsItsHost | pool/service.go:66-80 | After such a run, closing a connection removes exactly the hosts served by it |
| HostRegistry.LateCloseDropsHost | pool/service.go:70-77 | Without exclusiveness, closing an old connection drops a host that is connected over a new one |
| RouterMessages.CallReturnsWhatWasRead | jsonrpc2/remote.go:119-149 | In every interleaving, what a call receives and returns is exactly a message that some step of the run read, payload included, with the call's own ID |
| RouterMessages.ResponseIsReturnedExactly | jsonrpc2/remote.go:136-168 | A waiting caller whose response was read returns that very message, after delivery, take and return, if and only if its entry was kept; otherwise it goes on waiting |
| RouterMessages.RunIsSpent | jsonrpc2/remote.go:129-141 | With at most one answer per ID a message is in one place: what a caller took is in no slot and not being delivered |
| RouterMessages.ReturnedCallsLeaveNoEntry | jsonrpc2/remote.go:141-145 | With distinct IDs, each answered at most once, a call that has returned leaves no entry in the table |
| RouterMessages.EntriesAreDated | jsonrpc2/remote.go:102-109 | The timestamp of every entry is the clock reading of the look-up that made it |
| RouterMessages.EvictsOldestWhenFull | jsonrpc2/remote.go:98-100 | Entries go only when the table is full and both limits are positive: min(discard, size) of them, none newer than any that stays |
| RouterMessages.FullTableEvicts | jsonrpc2/remote.go:98-100 | A look-up in a full table does evict that many, and leaves the rest and the entry looked up |
| Router.CallReturnsItsOwnResponse | jsonrpc2/remote.go:152-168 | In every interleaving a call returns only a message with its own request ID |
| Router.NextCorrelated | jsonrpc2/remote.go:92-149 | Every step keeps each channel to messages of the ID it was made for |
| Router.PendingIsBounded | jsonrpc2/remote.go:98-100 | With positive limits no run ever holds more pending entries than the limit |
| Router.ReadLoopNeverBlocks | jsonrpc2/remote.go:119-134 | If each ID is answered at most once, the slot of every message to deliver is empty, in every reachable state |
| Router.NextOnePerID | jsonrpc2/remote.go:84-149 | Every step keeps at most one message in flight per ID |
| RouterDelivery.ResponseReachesWaitingCaller | jsonrpc2/remote.go:138-149 | A waiting caller whose entry was never evicted can take its response once the read loop is done with it, whatever else the read loop is doing |
| RouterDelivery.EarlyResponseWaitsForCaller | jsonrpc2/remote.go:138-149 | A response read before its caller starts to receive is found in the slot when it does, unless the entry was evicted |
| RouterVerdict.ResponseReachesCallerExactly | jsonrpc2/remote.go:119-149 | In every run with distinct IDs, each answered at most once: a waiting caller whose response was read can take it, as soon as the read loop is done with it, if and only if the entry was still its own when the later of the two looked |
| RouterVerdict.ReadDecides | jsonrpc2/remote.go:128-129 | If the caller waits first, the response goes to its channel if and only if at the read the entry is there, is not evicted by that very look-up, and still has its channel |
| RouterVerdict.ReceiveDecides | jsonrpc2/remote.go:140-141 | If the response is read first, the caller finds its channel if and only if the entry still has the channel the response was read into |
| RouterVerdict.VerdictIsFinal | jsonrpc2/remote.go:138-149 | Whatever happens afterwards, evictions included: a response that is with its waiting caller stays there, and one that is not never comes |
| RouterVerdict.LosingRun | jsonrpc2/remote.go:84-111 | A run with room for one entry after which a caller waits on an empty slot while its response lies in another |
| RouterVerdict.NextHeld | jsonrpc2/remote.go:92-149 | Every step keeps each untaken response in, or on its way to, the channel it was read into |
| RouterDelivery.NextTracked | jsonrpc2/remote.go:92-149 | Every step keeps an untaken, unevicted response where its caller looks |
| PendingTable.SortByTimestamp | jsonrpc2/pending.go:24-42 | Sorting in place by swaps: ordered by timestamp, a permutation of the old contents |
| PendingTable.PendingOldest | jsonrpc2/pending.go:32-44 | Returns min(num, size) entries, none newer than any it leaves, oldest first |
| PendingTable.PrefixIsOldest | jsonrpc2/pending.go:42-43 | A prefix of a sorted listing of the table consists of its oldest entries |
| PendingTable.Remote.CleanPending | jsonrpc2/remote.go:84-90 | Deletes exactly the oldest entries, min(num, size) many |
| PendingTable.Remote.GetPendingChan | jsonrpc2/remote.go:92-111 | Cleans a full table, then finds or makes the one channel of the key |
| RequestIDs.Client.NextID | jsonrpc2/client.go:20-22 | The counter is the request number, wrapped to 32 bits |
| RequestIDs.Client.NextRequestID | jsonrpc2/client.go:24-34 | The ID written into the n-th request is the decimal text of the wrapped counter |
| RequestIDs.WrapsExactly | jsonrpc2/client.go:20-22 | The counter is the one 32-bit integer congruent to the request number |
| RequestIDs.RequestIDSpells | jsonrpc2/client.go:32-34 | Up to 2^31 - 1 the ID of a request is nothing but digits that spell its number |
| RequestIDs.IDsRepeatExactly | jsonrpc2/client.go:20-38 | Two requests of a connection share an ID exactly if their numbers differ by a multiple of 2^32 |
| RequestIDs.FirstIDsDistinct | jsonrpc2/client.go:24-39 | The first 2^32 request IDs are pairwise distinct |
| RequestIDs.NumberedCallsAreAnsweredExactly | jsonrpc2/remote.go:152-168 | With the IDs of the client counter and up to 2^32 requests, the exact delivery condition holds of every call |
| BalanceCache.ProbeFindsLastGoodValue | pool/payment/cache.go:34-80 | In every history a look-up finds the last value stored since the last reset exactly while it is good, also when its getter was in flight across the reset |
| BalanceCache.RunIsFaithful | pool/payment/cache.go:41-71 | The cache holds the last stored value with its expiry, or that value has expired |
| BalanceCache.ProbeFindsFreshValue | pool/payment/cache.go:34-80 | For any 64-bit duration and any clock later than the longest one: a value is found exactly if no expiry was set or it was stored less than the duration ago |
| BalanceCache.OutlivesDurationExactly | pool/payment/cache.go:62-62 | A value outlives its duration if and only if its expiry is computed to be the zero instant |
| BalanceCache.ZeroExpiryNeverExpires | pool/payment/cache.go:47-50 | For every duration: a value stored that long before the zero instant is found for ever |
| BalanceCache.Cache.Reset | pool/payment/cache.go:34-39 | Empties the cache and sets the duration |
| BalanceCache.Cache.Set | pool/payment/cache.go:41-55 | Stores the value with its expiry |
| BalanceCache.Cache.Get | pool/payment/cache.go:57-80 | A hit returns the value; a miss clears an expired item, asks the getter and stores what it returned, unless that is an error |
| Migration.Database.Migrate | pool/store/badger/migration.go:47-87 | The version loop terminates and computes the specified outcome; anything but success leaves the database as it was |
| Migration.MigrationReachesLatest | pool/store/badger/migration.go:69-85 | A successful migration ends at the latest version or beyond |
| Migration.EndsAtLatestExactly | pool/store/badger/migration.go:69-83 | For arbitrary steps: every successful migration ends at exactly the latest version if and only if no single step overshoots it |
| Migration.PanicsExactly | pool/store/badger/migration.go:70-70 | Some database makes the step index go out of range if and only if there are fewer steps than versions to climb |
| Migration.RefusedAtOnce | pool/store/badger/migration.go:50-66 | Which versions a migration refuses before the first step, and how; every later failure is explained |
| Migration.FailuresAreExplained | pool/store/badger/migration.go:69-83 | A failed upgrade names a version from which its step really fails that way |
| Migration.ShippedMigration | pool/store/badger/versions.go:9-34 | What the shipped migration does to every database, by the version it finds; it never goes out of range |
| Migration.NoncesGoOthersStay | pool/store/badger/versions.go:24-32 | The second step deletes every nonce and keeps every other cell |
| Migration.MigratedTables | pool/store/badger/versions.go:9-34 | On the tables of the store: from version 0 or 1 the nonces are emptied, the version becomes 2, nothing else changes |
| Migration.SecondMigrationIsNoOp | pool/store/badger/migration.go:55-58 | Migrating again changes nothing |
| Migration.DeleteNonces | pool/store/badger/versions.go:24-30 | The iterator loop deletes exactly the keys under the nonce prefix |
| StatusCache.OneRefreshPerSnapshot | pool/status/status.go:138-162 | In every interleaving exactly one of the callers with one stale snapshot recomputes; the others return a newer response |
| StatusCache.FirstRefreshes | pool/status/status.go:154-156 | The caller that finds its snapshot still cached is the first of its kind to take the lock |
| StatusCache.SecondCallerIsServedExactly | pool/status/status.go:153-161 | A second caller with the same snapshot is served without recomputing if and only if the first recomputation yielded a response |
| StatusCache.NoResultIsRecomputed | pool/status/status.go:158-161 | With an empty cache and no result every caller recomputes |
| StatusCache.NoResultIsReturned | pool/status/status.go:154-156 | With a full cache and no result the second caller returns no response and no error |
| StatusCache.PoolStatus.Peek | pool/status/status.go:139-147 | The read-locked half is the check step of the protocol, for every set of other callers |
| StatusCache.CallersAreAccounted | pool/status/status.go:138-162 | In every interleaving: whoever got a response at once checked while it was younger than the duration, whoever did not checked when it was too old or missing, and a recomputed response is of the moment of recomputing |
| StatusCache.ResponsesAreComputed | pool/status/status.go:138-162 | In every interleaving, with any failures, each response returned or cached was computed by some caller, and hits are never empty |
| StatusCache.PoolStatus.Refresh | pool/status/status.go:149-161 | The write-locked half is the recheck step of the protocol |
| Preimage.PreimageInjective | request/address.go:26-28 | Prefix, decimal length and message determine the message, even one that begins with digits |
| Preimage.LengthDetermined | request/address.go:28-28 | The length plus the number of its digits determines the length |
| Preimage.PreimageSpellsLength | request/address.go:26-28 | The bytes are 0x19, the text of EIP-191, digits that spell exactly the length of the message, and the message |
| Preimage.MethodEndsAtBracket | request/request.go:25-26 | A bracket-free method is recovered from the assembled payload |
| Preimage.SignedBytesDetermineRequest | request/address.go:20-28 | The signed bytes determine the method and the arguments |
| Decimal.DigitsRoundTrip | request/address.go:28-28 | Reading back a written number gives the number |
| Decimal.SignedInjective | jsonrpc2/client.go:32-34 | Different integers are encoded differently |

## Left out

- Command line, start-up, signals, agents and Ethereum node clients: input, output and configuration.
- Codecs, websockets, HTTP and reflection-based dispatch: the router assumes only that a response carries the ID of its request.
- Cryptography: whether a signature is valid is a parameter; the signature's recovery byte is not modelled.
- JSON and gob: the argument encoder is assumed injective and array-shaped, stored values are typed and decode as encoded, so the stores' decoding errors do not occur.
- Badger itself: a transaction is one atomic change of the flat map, iterators visit every key of their prefix once, keys passed to it are not overwritten later, and commits do not fail.
- Sharing of big.Int backing arrays when balances are copied: amounts are mathematical integers.
- Overflow of nanosecond clock readings and of 64-bit nonces: both are unbounded integers.
- PaymentService.Withdraw: it writes no store credit.
- Ether formatting, enode URIs, the skipWhitelist switch, disconnectPeers after a low balance, logging and the informational fields of responses.
- The contents of a status response: getStatus only reads the store; the protocol around it is modelled.
- Negative limits and host counts: ActiveHosts and requestHosts are modelled for counts of zero or more.
- Pool.VipnodePool.Update: its store calls run one after the other here; their interleaving with other requests is the subject of Conservation.
- Pool.VipnodePool.Connect: how an address is normalised is not modelled, its outcome is a parameter; neither are the texts of the response.
- Pool.VipnodePool.RequestHosts: a host's acknowledgement is a parameter; its call over the connection is the subject of Router.
- Conservation.BalancedAtRest: deposits that live in an external contract are not store credit and are not counted.
- PendingTable.SortByTimestamp: the library's sorting algorithm is not shown; an insertion sort through the same Swap stands for it, and entries of equal age may come out in any order.
- PendingTable.Remote.GetPendingChan: a channel is its number; sending and receiving are steps of Router.
- RouterVerdict.ResponseReachesCallerExactly: says that the message is there to be taken; that a waiting caller is eventually scheduled is not modelled.
- Choices.Shuffle: the distribution of the random choice is not modelled.
- Earnings.EarningsIndependentOfRate: the requests of one run come one after the other; interleaved updates are the subject of Conservation.
