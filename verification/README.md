# Allocators, accounting and small protocols of hummingbot

A Dafny model of eight parts of hummingbot and its gateway, with proofs about
every input, every run or every reachable state of them.

- **EVM nonces** (`Text`, `NonceStore`, `EvmNonce`, `NonceManager`). `NonceManager`
  has the mutable manager, its stores and its nonce records; each method is
  proved to perform a step of the run model in `EvmNonce`. Over whole runs, with
  restarts anywhere, a nonce is not reissued within its time to live, pending
  lists are consecutive, bursts come out as n, n+1, ..., and the string-encoded
  store always mirrors memory.
- **Shared closeables** (`RefCounting`, `Registry`). The two static maps and the
  close cascade from `EthereumBase` down to the database. A database is open
  exactly while something has a claim on it, and which databases a run leaves
  open is read off its opens and closes: two managers with one key leak one.
- **Performance** (`Performance`, `AggregateValue`, `PerformanceMetrics`). Grouping
  with in-place aggregation of fill objects, what that does to their value, the
  pairing loop that empties two lists, and the profit identities of spot and
  derivative trades, over exact numbers.
- **Hanging orders** (`HangingOrders`, `HangingOrdersTracker`). The event handlers
  over sets whose equality ignores the order id, against an arbitrary strategy.
- **Configuration** (`ConfigTree`, `ConfigManager`). The recursive merge into a
  template, reading and writing along paths, and the two manager classes.
- **Decimal text** (`DecimalPrinter`). Printing by double reversal, the number
  grammars, and the gas cost text.
- **Two loops** (`Warnings`, `Sampling`). The round-robin listing of warnings and
  strided sampling over a bounded price history, each equal to a closed form.
- **Two protocols** (`MetricsCollector`, `TimeSynchronizer`). Event collection
  with retry over every interleaving, and the windowed median of clock offsets.

`Basics` and `Sorting` serve the others. Clock readings, node transaction counts,
rates, server answers, new order ids and schema verdicts are parameters.

Where the code and its own text disagree the model follows the code:

- The header of the nonce manager says a commit may move the cached nonce back
  (evm.nonce.ts:153-161); the code refuses every nonce that is not greater
  (427-448). The message speaks of "<", but an equal nonce is refused too.
- `isValidNonce` reads like a test but issues the nonce it compares with.
- The class comment of the closeables promises that a shared object is closed at
  the last close; two managers with one key break this
  (`RefCounting.SharedKeyLeaks`), and `RefCounting.ClosedAtLastCloseIff` says when
  it holds.
- Merging a config into its template is to fill it up, but a key left blank in the
  config erases the mapping of the template under it (`ConfigTree.NullLosesKeys`);
  `ConfigTree.TemplateKeysKeptIff` says which keys survive.
- The mean price of an aggregated order is not weighted by amount
  (performance.py:107-111), so an aggregated order may be worth more or less than
  its fills (`AggregateValue.MergingLosesValue`), and `AggregateValue.MergedValueIff`
  says when it is worth the same.
- An order that completes while it is being renewed stays in
  `orders_being_renewed`; a later cancel event for it may raise
  (`HangingOrders.CancelAfterCompleteRaises`), in exactly the case of
  `HangingOrders.CancelRaisesOnlyAfterComplete`.
- `round_by_step` says it rounds down; it rounds towards zero
  (`Sampling.RoundByStepRoundsUp`, `Sampling.RoundByStepTowardsZero`).

## Model

| member | source | states |
|---|---|---|
| Text.ParseIntText | gateway/src/services/evm.nonce.ts:40-46 | Every integer, negative ones included, survives String() and parseInt, and its text holds no separator of the store |
| Text.ParseIntStops | gateway/src/services/evm.nonce.ts:60-66 | Parsing stops at the first character after the number, whatever follows |
| Text.ParseIntOfOther | gateway/src/services/evm.nonce.ts:60-66 | A text that starts with neither a digit nor a sign is no number |
| Text.SplitJoin | gateway/src/services/config-manager-v2.ts:335-355 | Splitting a joined list of separator-free parts gives the parts back |
| Text.JoinSplit | gateway/src/services/config-manager-v2.ts:335-355 | Joining the split parts gives the text back, and no part holds the separator |
| NonceStore.DecodeEncodeNonce | gateway/src/services/evm.nonce.ts:40-66 | The text of one nonce with its expiry reads back exactly and holds no comma |
| NonceStore.DecodeEncodeList | gateway/src/services/evm.nonce.ts:78-115 | The text of a pending list reads back exactly, the empty list and the nonce -1 included |
| NonceStore.StoredFormat | gateway/src/services/evm.nonce.ts:34-90 | The keys and texts of the store, literally, on an example |
| NonceStore.CurrentKeyRecognised | gateway/src/services/evm.nonce.ts:43-59 | The three-part test recognises the key written for an address if and only if the address is free of a slash, and then gives the address back |
| NonceStore.PendingKeyRecognised | gateway/src/services/evm.nonce.ts:86-104 | The four-part test recognises a pending key, gives the address back, and the two kinds of key are never mistaken for each other |
| NonceStore.SlashedAddressCollides | gateway/src/services/evm.nonce.ts:43-46 | With a slash in an address the current key of one address is the pending key of another |
| NonceStore.KeyOfAddress | gateway/src/services/evm.nonce.ts:55-61 | A key that either test accepts is the key written for the address read from it |
| NonceStore.LoadAfterSaveCurrent | gateway/src/services/evm.nonce.ts:34-70 | Saving a current nonce changes exactly that entry of what a reload gives, and no pending list |
| NonceStore.LoadAfterSavePending | gateway/src/services/evm.nonce.ts:72-119 | Saving a pending list changes exactly that entry of what a reload gives, and no current nonce |
| EvmNonce.NoReissueWithinTTL | gateway/src/services/evm.nonce.ts:246-293 | In every run of next, merge, get, get-from-node, commit and restart in which the node counts never decrease, two issues of one nonce for one address are more than pendingNonceTTL apart; nothing is asked of the clock |
| EvmNonce.NextIsNewUnlessExpired | gateway/src/services/evm.nonce.ts:369-401 | After every run the issued nonce lies above the node nonce of the last refreshing merge; it exceeds everything issued before when nothing in the list has expired, else it is the first expired entry |
| EvmNonce.PendingIsConsecutive | gateway/src/services/evm.nonce.ts:279-293 | Every reachable pending list is a run of consecutive nonces above the node nonce seen at the last refreshing merge, and nothing issued lies beyond its end |
| EvmNonce.RestartIsInvisible | gateway/src/services/evm.nonce.ts:219-235 | At every operation boundary of every run, loading the store gives exactly the maps held in memory |
| EvmNonce.BurstIsConsecutive | gateway/src/services/evm.nonce.ts:360-417 | From a live list, k calls during which nothing expires issue last+1, last+2, ..., last+k, even while the node confirms nonces of the burst, as long as it confirms none that has not gone out |
| EvmNonce.BurstFromEmpty | gateway/src/services/evm.nonce.ts:360-417 | The same for a burst that starts with an empty list |
| EvmNonce.NextFromEmpty | gateway/src/services/evm.nonce.ts:395-401 | A call that finds the list empty issues one more than the nonce cached at its first reading if that is still cached at its second, else the count of the second reading |
| EvmNonce.CommitThenNext | gateway/src/services/evm.nonce.ts:419-461 | After an accepted commit the next nonce of an empty list is the committed one plus one while the commit is remembered |
| EvmNonce.CommitRemembered | gateway/src/services/evm.nonce.ts:419-461 | In every run an accepted commit is remembered, restarts included, through every operation that does not replace it |
| EvmNonce.NextAfterCommit | gateway/src/services/evm.nonce.ts:360-417 | In every run the first nonce of an empty list after a commit is the committed one plus one while the commit is remembered |
| EvmNonce.GetNonceIs | gateway/src/services/evm.nonce.ts:352-358 | What is cached while it lasts; for a new address the count less one, cached for the pending time to live |
| EvmNonce.RestartRefreshes | gateway/src/services/evm.nonce.ts:237-241 | A restart shows the count of the node for every visited address whose cached nonce has run out and keeps the others |
| EvmNonce.ReusedOnceExpired | gateway/src/services/evm.nonce.ts:379-394 | An unconfirmed nonce goes out again exactly once its pending time to live has passed; before that the next one goes out |
| EvmNonce.CachedNonceLives | gateway/src/services/evm.nonce.ts:149-152 | A cached nonce stands until exactly the local time to live after a merge or commit, or the pending one after a first look at the node; from then on a merge shows the count of the node |
| EvmNonce.CommitOnlyForward | gateway/src/services/evm.nonce.ts:419-461 | A commit never moves a cached nonce back, keeps every pending list and touches no other address |
| EvmNonce.AboveOfConsecutive | gateway/src/services/evm.nonce.ts:283-285 | On a consecutive list the filter is a cut: it drops a prefix and keeps the rest |
| EvmNonce.IssueKeeps | gateway/src/services/evm.nonce.ts:379-400 | Each of the three ways to issue a nonce keeps reissues apart and every earlier issue covered by an expiry or below the list |
| EvmNonce.FirstExpired | gateway/src/services/evm.nonce.ts:379-385 | The index of the first expired entry, or the length |
| EvmNonce.StepKeeps | gateway/src/services/evm.nonce.ts:246-461 | Every operation keeps the invariant of every address, its own and all others |
| EvmNonce.StepKeepsSync | gateway/src/services/evm.nonce.ts:267-292 | Every operation keeps the store equal to memory |
| EvmNonce.Reachable | gateway/src/services/evm.nonce.ts:163-483 | Both invariants hold after every run from a store the chain has not written to |
| NonceManager.LocalStorage.Save | gateway/src/services/local-storage.ts:47-50 | The store is the old one with this entry |
| NonceManager.LocalStorage.Get | gateway/src/services/local-storage.ts:57-77 | Every entry that reads as something appears under its name, and every result is the reading of an entry |
| NonceManager.NonceLocalStorage.SaveCurrentNonce | gateway/src/services/evm.nonce.ts:34-47 | Writes the encoded nonce under the current key of the address |
| NonceManager.NonceLocalStorage.SavePendingNonces | gateway/src/services/evm.nonce.ts:72-90 | Writes the encoded list, built entry by entry, under the pending key of the address |
| NonceManager.NonceLocalStorage.GetCurrentNonces | gateway/src/services/evm.nonce.ts:49-70 | Returns the current nonces that the store holds for the chain |
| NonceManager.NonceLocalStorage.GetPendingNonces | gateway/src/services/evm.nonce.ts:92-119 | Returns the pending lists that the store holds for the chain |
| NonceManager.EVMNonceManager.constructor | gateway/src/services/evm.nonce.ts:177-192 | A new manager is uninitialised and remembers nothing |
| NonceManager.EVMNonceManager.Init | gateway/src/services/evm.nonce.ts:196-244 | Refuses a negative TTL and changes nothing then; the first success loads the store over memory and merges every known address once, later ones change no nonce; with empty memory it is the restart step of the run model |
| NonceManager.EVMNonceManager.MergeNonceFromEVMNode | gateway/src/services/evm.nonce.ts:246-305 | Performs the merge of the run model on memory and store, or fails and changes nothing |
| NonceManager.EVMNonceManager.GetNonceFromMemory | gateway/src/services/evm.nonce.ts:307-324 | None for an unknown address, else the nonce after a merge; every failure changes nothing |
| NonceManager.EVMNonceManager.GetNonceFromNode | gateway/src/services/evm.nonce.ts:326-350 | The node count less one, cached with the pending TTL in memory and store |
| NonceManager.EVMNonceManager.GetNonce | gateway/src/services/evm.nonce.ts:352-358 | From memory when known, else from the node, as in the run model |
| NonceManager.EVMNonceManager.Reuse | gateway/src/services/evm.nonce.ts:379-385 | Overwrites the expiry of one entry in place and changes no other entry of any address |
| NonceManager.EVMNonceManager.GetNextNonce | gateway/src/services/evm.nonce.ts:360-417 | New memory, new store and the nonce are those of the next-nonce step of the run model |
| NonceManager.EVMNonceManager.CommitNonce | gateway/src/services/evm.nonce.ts:419-469 | Accepted exactly when the address is unknown or the nonce is greater than the cached one; a refusal changes nothing |
| NonceManager.EVMNonceManager.IsValidNonce | gateway/src/services/evm.nonce.ts:471-475 | True exactly for the next nonce, which the call itself issues |
| RefCounting.OpenExactlyWhileInUse | gateway/src/services/refcounting-closeable.ts:101-178 | In every run of opening and closing EthereumBase objects the database of a path is open if and only if some object has a claim on it, and never through two objects at once |
| RefCounting.ClosedOnceAllOwnersClosed | gateway/src/services/refcounting-closeable.ts:3-42 | With distinct manager keys the database of a path is open if and only if an open EthereumBase uses the path |
| RefCounting.RepeatedCloseIsNoop | gateway/src/services/refcounting-closeable.ts:169-178 | With distinct manager keys closing an object again changes nothing |
| RefCounting.DatabaseOpenIff | gateway/src/services/refcounting-closeable.ts:101-178 | In every run, repeated closes included, the database of a path is open if and only if some object reached it through its manager and was never closed without an open object of the same manager key, or through its transaction store and was never closed |
| RefCounting.AllClosedIff | gateway/src/services/refcounting-closeable.ts:3-42 | Every database is closed if and only if every object was closed at some time when no other open one shared its manager key |
| RefCounting.ClosedAtLastCloseIff | gateway/src/services/refcounting-closeable.ts:23-29 | When each object has been closed once, every database is closed if and only if no close found an open object with the same manager key |
| RefCounting.LeftBehind | gateway/src/services/evm.nonce.ts:477-482 | What a run leaves open and what it leaves claimed on the nonce store, read off its opens and closes |
| RefCounting.SharedKeyLeaks | gateway/src/services/ethereum-base.ts:78-92 | Two objects with one manager key, each closed once, leave the database open with nobody left to close it |
| RefCounting.DistinctKeysNeverStrand | gateway/src/services/ethereum-base.ts:78-84 | Under distinct keys nothing is stranded and open objects keep distinct manager keys |
| RefCounting.Reachable | gateway/src/services/refcounting-closeable.ts:101-178 | The registry invariant holds after every run |
| RefCounting.OpenKeeps | gateway/src/services/ethereum-base.ts:78-92 | The constructor, with its four registrations, keeps the registry invariant |
| RefCounting.CloseKeeps | gateway/src/services/ethereum-base.ts:399-402 | A close keeps the registry invariant; a repeated close moves the registry if and only if it frees a stranded claim |
| RefCounting.CloseOwnKeeps | gateway/src/services/evm.nonce.ts:121-126 | Closing a store gives up exactly one claim and, with the last one, the claim of the store on its database |
| RefCounting.StaleClose | gateway/src/services/refcounting-closeable.ts:169-178 | A claim that is gone is not given up twice: the registry does not move |
| RefCounting.GetStoreKeeps | gateway/src/services/refcounting-closeable.ts:101-117 | getInstance adds exactly one claim and returns the registered store |
| RefCounting.DisownEffect | gateway/src/services/refcounting-closeable.ts:169-178 | One owner leaves one key and every other key keeps its object and owners |
| RefCounting.AlreadyOwned | gateway/src/services/ethereum-base.ts:87-91 | The second declaration of ownership in the constructor adds nothing |
| Registry.Closeables.RefCount | gateway/src/services/refcounting-closeable.ts:79-85 | The number of owners of a key, 0 for an unknown key |
| Registry.Closeables.DeclareOwnership | gateway/src/services/refcounting-closeable.ts:139-149 | The registry becomes the one of the run model after declaring ownership |
| Registry.Closeables.Close | gateway/src/services/refcounting-closeable.ts:169-178 | The registry becomes the one of the run model after one owner leaves |
| Registry.Closeables.GetStorageInstance | gateway/src/services/refcounting-closeable.ts:101-117 | Shares the database object of a path or creates and opens it |
| Registry.Closeables.GetStoreInstance | gateway/src/services/evm.tx-storage.ts:10-13 | Shares the store of a path or creates it, taking ownership of its database |
| Registry.Closeables.CloseLocalStorage | gateway/src/services/local-storage.ts:79-86 | Gives up one owner and closes the database when none is left |
| Registry.Closeables.CloseStoreInstance | gateway/src/services/evm.tx-storage.ts:64-69 | Gives up one owner and, when none is left, its claim on the database |
| Registry.Closeables.CloseNonceManager | gateway/src/services/evm.nonce.ts:477-482 | Gives up one owner and, when none is left, its claim on the nonce store |
| Registry.Closeables.CloseEthereumBase | gateway/src/services/ethereum-base.ts:399-402 | Both closes, in order, as in the run model; the registry stays where its history leads |
| Registry.Closeables.OpenEthereumBase | gateway/src/services/ethereum-base.ts:78-92 | The constructor registrations, in order, as in the run model; the registry stays where its history leads |
| Registry.Closeables.DbIsOpen | gateway/src/services/local-storage.ts:25-27 | Whether the database of a path is open: in a registry that follows its history, if and only if some object has a claim on it, read off that history |
| Performance.OneOrderPerId | hummingbot/client/performance.py:96-115 | Aggregation gives one order per distinct id, in first-appearance order |
| Performance.AggregateKeepsFirst | hummingbot/client/performance.py:110-113 | An aggregated order is the first fill of its id in everything but price and amount |
| Performance.AggregateConserves | hummingbot/client/performance.py:104-113 | The total amount is conserved |
| Performance.AmountsById | hummingbot/client/performance.py:97-101 | One more fill adds its amount to its own order and to no other |
| Performance.MeanIsBetween | hummingbot/client/performance.py:105-112 | The price of an order lies between two fill prices of its id |
| Performance.PnlIsCashFlowPlusMismatch | hummingbot/client/performance.py:131-144 | Derivative profit is the net quote cash flow of the paired orders plus the exact mismatch of their amounts, which is nothing when amounts agree |
| Performance.DerivativePnlIsCashFlow | hummingbot/client/performance.py:247-267 | Reported derivative profit with agreeing paired amounts is the net cash flow of the paired aggregated orders |
| AggregateValue.MergedValue | hummingbot/client/performance.py:104-113 | A merged order is worth what its fills were, less the sum over all pairs of fills of price difference times amount difference, divided by their number |
| AggregateValue.MergedValueIff | hummingbot/client/performance.py:104-113 | Merging keeps the quote value if and only if that sum is 0 |
| AggregateValue.TwoFillsIff | hummingbot/client/performance.py:104-113 | Two fills keep their value if and only if prices or amounts are equal |
| AggregateValue.MergingLosesValue | hummingbot/client/performance.py:104-113 | Fills of 1 at price 1 and 3 at price 3 are worth 10, the merged order 8 |
| AggregateValue.AggregateConservesValueBut | hummingbot/client/performance.py:96-115 | The quote value of a list is conserved but for the shortfalls of its orders |
| AggregateValue.ClosedPnlOfFills | hummingbot/client/performance.py:247-267 | Once every position is closed in equal amounts, derivative profit is the net cash flow of the fills corrected by the shortfalls of both sides |
| Performance.MeanPriceIsBetween | hummingbot/client/performance.py:200-205 | The average price of one side lies between the least and the greatest price paid |
| Performance.MeanPriceOfNone | hummingbot/client/performance.py:167-172 | A side without fills has average price 0 |
| Performance.MeanPriceOfOne | hummingbot/client/performance.py:200-205 | The average price of one fill is its price |
| Performance.TotalMeanPriceIs | hummingbot/client/performance.py:202-203 | The average over both sides is that of all their fills together |
| Performance.ShareOfWorth | hummingbot/client/performance.py:296-299 | The base ratio of the worth is base, the rest is quote |
| Performance.MeanPriceOfVolumes | hummingbot/client/performance.py:200-205 | The signs of the accumulated volumes do not matter to it |
| Performance.ShareIsFraction | hummingbot/client/performance.py:296-299 | With no negative balance or price the base ratios lie between 0 and 1 |
| Performance.SpotIdentity | hummingbot/client/performance.py:287-303 | Value today less value without trading is the sum of the gains of the trades, whatever the balances |
| Performance.GainsBySide | hummingbot/client/performance.py:184-198 | The gains by side add up to the gains over the whole list in any order of buys and sells |
| Performance.SpotPnlIsTotalGain | hummingbot/client/performance.py:247-248 | Spot profit is the sum over buys of amount*(price - trade price) and over sells of the negation |
| Performance.TradePnlByTrades | hummingbot/client/performance.py:177-182 | When each side is empty, starts with no stored fill or has a trade without a position, the profit is the gain of every trade; else it is the paired cash flow and the mismatches |
| Performance.SpotFillGains | hummingbot/client/performance.py:247-251 | One fill without a position, bought at 100 and valued at 110, gains 10 |
| PerformanceMetricsModule.FindFirst | hummingbot/client/performance.py:85-86 | The first order in a position, or the end |
| PerformanceMetricsModule.PositionOrder | hummingbot/client/performance.py:75-93 | Takes the first open order and the first close order out of their lists, or leaves both lists alone |
| PerformanceMetricsModule.PairOrders | hummingbot/client/performance.py:253-265 | The loop ends; the pairs are OPEN buys zipped with CLOSE sells and OPEN sells zipped with CLOSE buys; both lists keep exactly their unpaired orders in order |
| PerformanceMetricsModule.RemoveFirstAt | hummingbot/client/performance.py:87-88 | Removing the order found by position is removing the first order of that position |
| PerformanceMetricsModule.AllPaired | hummingbot/client/performance.py:264-265 | When neither side finds a pair the pairs are the two complete zips |
| PerformanceMetricsModule.GroupOrders | hummingbot/client/performance.py:97-101 | The dictionary of groups, keys in first-appearance order |
| PerformanceMetricsModule.MergeGroup | hummingbot/client/performance.py:104-113 | The first fill takes the mean price and the total amount in place; no fill of another order changes |
| PerformanceMetricsModule.AggregateOrders | hummingbot/client/performance.py:96-115 | The result is the aggregation of the old fills and every fill that is not a first one is unchanged |
| PerformanceMetricsModule.DerivativePnl | hummingbot/client/performance.py:131-144 | One profit per closed position, and their sum |
| PerformanceMetricsModule.IsDerivativeList | hummingbot/client/performance.py:177-182 | Whether a list of one side counts as derivatives |
| PerformanceMetricsModule.PositionProfit | hummingbot/client/performance.py:253-267 | The profit of the positions that two aggregated lists close |
| PerformanceMetricsModule.PerformanceMetrics.SplitBySide | hummingbot/client/performance.py:185-195 | Splits by side and accumulates signed volumes |
| PerformanceMetricsModule.PerformanceMetrics.PreprocessTrades | hummingbot/client/performance.py:184-207 | The two sides, their volumes and totals, and the three average prices |
| PerformanceMetricsModule.PerformanceMetrics.CalculateTradePnl | hummingbot/client/performance.py:247-267 | Spot or derivative profit, by the test on the two lists |
| PerformanceMetricsModule.PerformanceMetrics.InitializeMetrics | hummingbot/client/performance.py:280-303 | Counts, average prices, base ratios, current price and trade profit of a list of trades; an empty list fails on its first trade |
| HangingOrders.RenewingStaysCurrent | hummingbot/strategy/hanging_orders_tracker.py:233-243 | After every run, cancels of completed orders and raising handlers included, every order being renewed and not completed is in the current set |
| HangingOrders.CancelRaisesOnlyAfterComplete | hummingbot/strategy/hanging_orders_tracker.py:172-178 | After every run the cancel handler raises if and only if the order it names is being renewed, has been reported complete, and its key has left the current set |
| HangingOrders.RenewalReplacesId | hummingbot/strategy/hanging_orders_tracker.py:172-193 | After every run the cancel of an order being renewed raises, in exactly that case, or replaces the element of its key with a new id and time and changes no other element; the key survives if and only if the amount is positive |
| HangingOrders.CancelAfterCompleteRaises | hummingbot/strategy/hanging_orders_tracker.py:143-158 | An order that completes while being renewed, and whose cancel is then confirmed, makes the handler raise |
| HangingOrders.CancelKeeps | hummingbot/strategy/hanging_orders_tracker.py:98-115 | A cancel event, of a completed order too, keeps the invariant unless it raises |
| HangingOrders.CompleteKeeps | hummingbot/strategy/hanging_orders_tracker.py:129-158 | A completion keeps the invariant with its order recorded as completed |
| HangingOrders.UpdateKeeps | hummingbot/strategy/hanging_orders_tracker.py:283-307 | An update of the strategy orders keeps the invariant |
| HangingOrders.UpdateCovers | hummingbot/strategy/hanging_orders_tracker.py:283-343 | After an update every original order has its hanging order, nothing hanging is dropped or replaced, and the cancel requests are exactly those for active current orders no original order equals |
| HangingOrders.UpdateOriginals | hummingbot/strategy/hanging_orders_tracker.py:357-379 | An update makes the active unfilled half of every half-filled pair an original, adds no other, and forgets the pairs |
| HangingOrders.UpdateAdds | hummingbot/strategy/hanging_orders_tracker.py:351-369 | What an update adds is some original of its key, with its id and its creation time in seconds |
| HangingOrders.HalfBecomesHanging | hummingbot/strategy/hanging_orders_tracker.py:283-307 | In every run, when one half of a pair has completed outside the hanging orders and the other is active, the next update gives the other a hanging order |
| HangingOrders.PlainCancel | hummingbot/strategy/hanging_orders_tracker.py:105-115 | A cancel of an order not being renewed takes its hanging order, its original and its request away and changes nothing else |
| HangingOrders.RenewalOriginals | hummingbot/strategy/hanging_orders_tracker.py:187-193 | A renewal makes the new order an original, if active, in place of the old one |
| HangingOrders.CompleteMoves | hummingbot/strategy/hanging_orders_tracker.py:129-158 | A completed hanging order moves to the completed ones and loses its original; any other completion marks its pairs |
| HangingOrders.RenewalStarts | hummingbot/strategy/hanging_orders_tracker.py:225-243 | Exactly which orders a tick starts to renew, by creation time and greatest age, and which cancels it asks for on that account |
| HangingOrders.TickCancelsFar | hummingbot/strategy/hanging_orders_tracker.py:160-170 | At a positive price a tick has asked for the cancel of every active original too far from it, and newly asks only for those and for current orders not being renewed |
| HangingOrders.UnfilledIsOtherHalf | hummingbot/strategy/hanging_orders_tracker.py:129-141 | Over every run without an update, the candidate of a pair is its other half if and only if exactly one half has been reported complete while it was no hanging order |
| HangingOrders.FindIsNext | hummingbot/strategy/data_types.py:73-81 | With one order per id, the search by id is determined although the set is unordered and equality ignores the id |
| HangingOrdersTrackerModule.HangingOrdersTracker.DidCancelOrder | hummingbot/strategy/hanging_orders_tracker.py:98-115 | The state after a cancel event; a raise leaves it as it was |
| HangingOrdersTrackerModule.HangingOrdersTracker.ProcessCancelAsPartOfRenew | hummingbot/strategy/hanging_orders_tracker.py:172-193 | The renewal part of a cancel event |
| HangingOrdersTrackerModule.HangingOrdersTracker.DidCompleteOrder | hummingbot/strategy/hanging_orders_tracker.py:129-158 | The state after a completion: of a hanging order, or of a half of a pair |
| HangingOrdersTrackerModule.HangingOrdersTracker.RenewHangingOrdersPastMaxOrderAge | hummingbot/strategy/hanging_orders_tracker.py:233-243 | Asks for the cancel of over-age orders and marks them as being renewed |
| HangingOrdersTrackerModule.HangingOrdersTracker.RemoveOrdersFarFromPrice | hummingbot/strategy/hanging_orders_tracker.py:245-255 | Asks for the cancel of originals too far from the price; a zero price raises if some original is not being cancelled yet, and changes nothing then |
| HangingOrdersTrackerModule.HangingOrdersTracker.ProcessTick | hummingbot/strategy/hanging_orders_tracker.py:160-170 | Both of the above, in that order; a raise in the first leaves everything as it was |
| HangingOrdersTrackerModule.HangingOrdersTracker.AddHangingOrdersFromPairs | hummingbot/strategy/hanging_orders_tracker.py:357-379 | The active unfilled halves of half-filled pairs become originals and the pairs are cleared |
| HangingOrdersTrackerModule.HangingOrdersTracker.EquivalentOrders | hummingbot/strategy/hanging_orders_tracker.py:351-369 | One hanging order per key of the originals |
| HangingOrdersTrackerModule.HangingOrdersTracker.UpdateStrategyOrders | hummingbot/strategy/hanging_orders_tracker.py:283-307 | The state after an update |
| ConfigTree.MergeLaw | gateway/src/services/config-manager-v2.ts:45-60 | At every path of any two trees whose merge does not raise: what the config has is merged with what the template has at that path, and the rest of the template is kept except below a null |
| ConfigTree.ConfigKeysKept | gateway/src/services/config-manager-v2.ts:45-60 | Every key of the config survives at every level |
| ConfigTree.ClashesIff | gateway/src/services/config-manager-v2.ts:45-60 | A merge raises if and only if at some path the config has a container with entries and the template a truthy scalar |
| ConfigTree.SlotsOneByOne | gateway/src/services/config-manager-v2.ts:53-58 | Each falsy template slot gives way to any scalar; truthy ones by typeof, one by one |
| ConfigTree.ReadIs | gateway/src/services/config-manager-v2.ts:186-198 | Reading gives what is at the path, raises below a null, and is undefined otherwise |
| ConfigTree.TemplateKeysKeptIff | gateway/src/services/config-manager-v2.ts:53-58 | A key of the template survives if and only if the config has no null above it |
| ConfigTree.NullLosesKeys | gateway/src/services/config-manager-v2.ts:53-58 | A blank key of the config erases the mapping of the template under it, and nothing raises |
| ConfigTree.TemplateKept | gateway/src/services/config-manager-v2.ts:45-60 | Everything of the template below a path that the config lacks, with no null above, is kept |
| ConfigTree.ScalarRule | gateway/src/services/config-manager-v2.ts:53-58 | At every path where the config has a scalar, it wins if and only if the template has nothing there, or something falsy, of the same typeof, or equal; otherwise the template value stays |
| ConfigTree.CopyIsExact | gateway/src/services/config-manager-v2.ts:47-52 | A container copied into an empty slot is copied exactly |
| ConfigTree.MergeIsIdempotent | gateway/src/services/config-manager-v2.ts:45-60 | Merging a second time changes nothing and raises nothing new |
| ConfigTree.ReadAfterWrite | gateway/src/services/config-manager-v2.ts:186-229 | Reading the path just written gives the value |
| ConfigTree.WriteElsewhere | gateway/src/services/config-manager-v2.ts:208-218 | Every path that is neither a prefix nor an extension of the written one reads as before |
| ConfigTree.WriteSame | gateway/src/services/config-manager-v2.ts:208-218 | Writing what is there changes nothing |
| ConfigTree.WriteRaisesIff | gateway/src/services/config-manager-v2.ts:208-218 | Writing raises if and only if a scalar stands at a proper prefix of the path |
| ConfigManager.DeepCopy | gateway/src/services/config-manager-v2.ts:45-60 | In whatever order the entries come, the result is the merge, and it raises if and only if a container meets a truthy scalar |
| ConfigManager.WalkPath | gateway/src/services/config-manager-v2.ts:190-197 | The cursor loop reads the tree along the path |
| ConfigManager.ConfigurationNamespace.Load | gateway/src/services/config-manager-v2.ts:152-180 | Whatever the two files hold, empty and scalar ones included: a valid config is taken as it is, any other is copied into the template and judged again; the exact cases of failure |
| ConfigManager.CopyIntoTemplate | gateway/src/services/config-manager-v2.ts:156-161 | What deepCopy makes of the template, for any two documents |
| ConfigManager.RepairedContainer | gateway/src/services/config-manager-v2.ts:156-161 | For two containers this is the merge, or a raise exactly when a container meets a truthy scalar |
| ConfigManager.RepairedOddDocuments | gateway/src/services/config-manager-v2.ts:156-161 | Empty and null configs raise, numbers and truth values leave the template, a text is copied character by character, entries need a template to hold them |
| ConfigManager.ConfigurationNamespace.Get | gateway/src/services/config-manager-v2.ts:186-198 | Reads the configuration along the split path |
| ConfigManager.ConfigurationNamespace.Set | gateway/src/services/config-manager-v2.ts:200-229 | Accepted if and only if the written tree exists and satisfies the schema; a refused or raising set leaves the configuration as it was |
| ConfigManager.ConfigManagerV2.SetDefaults | gateway/src/services/config-manager-v2.ts:283-285 | Replaces the default tree of one namespace: from then on a path where that namespace has nothing stands for the default, and all else for what it stood for |
| ConfigManager.ConfigManagerV2.GetFromDefaults | gateway/src/services/config-manager-v2.ts:287-303 | Reads the defaults of a namespace, undefined without any |
| ConfigManager.ConfigManagerV2.UnpackFullConfigPath | gateway/src/services/config-manager-v2.ts:335-355 | Two error cases, else the namespace and the rest of the path |
| ConfigManager.ConfigManagerV2.Get | gateway/src/services/config-manager-v2.ts:357-364 | Found, undefined or raised exactly by what the namespace has at the path and, if and only if it has nothing there, by what its defaults have |
| ConfigManager.ConfigManagerV2.Set | gateway/src/services/config-manager-v2.ts:366-369 | Changes at most the addressed namespace, and only on success; the path then stands for the value, never the default, and every separate path for what it stood for |
| ConfigManager.RestOfPath | gateway/src/services/config-manager-v2.ts:350-352 | Joining and splitting the rest of a path gives its components back |
| DecimalPrinter.PrintShape | gateway/src/services/base.ts:9-43 | Two reversals and an insertion put the point before the last d places, for every n and d |
| DecimalPrinter.PrintedReadsBack | gateway/src/services/base.ts:30-43 | For every n >= 0 and d >= 0 there is a digit before the point and exactly d after it, and the digits read back scaled by 10^d give n |
| DecimalPrinter.PrintedIsFloatIff | gateway/src/services/validators.ts:13-32 | For every integer, the printed text is a float string if and only if d >= 1 and a negative number has more than d digits |
| DecimalPrinter.IntegerStringIff | gateway/src/services/validators.ts:13-19 | Digits, at least one, after at most one sign |
| DecimalPrinter.FloatStringIff | gateway/src/services/validators.ts:21-32 | An integer string, or an integer string, a point and digits |
| DecimalPrinter.GasCostIsCeiling | gateway/src/services/base.ts:45-55 | The gas cost string reads back as a whole number of gwei, in wei, not below the exact cost and less than 10^9 above it, and is a float string |
| Warnings.ExpiryIsExactIff | hummingbot/client/command/status_command.py:27-32 | Popping from the old end removes exactly the expired warnings if and only if none of them is queued behind a fresh one |
| Warnings.ListingIsPermutation | hummingbot/client/command/status_command.py:53-64 | The round-by-round listing holds every warning exactly as often as it was raised |
| Warnings.LiveWhileUnlisted | hummingbot/client/command/status_command.py:54-59 | While something is unlisted some queue is left, so the loop ends and never pops an empty queue |
| Warnings.RoundsAreListing | hummingbot/client/command/status_command.py:53-64 | However many rounds run, what they list is a prefix of the listing |
| Warnings.ListingIsFair | hummingbot/client/command/status_command.py:53-64 | At every cut each module shows its newest warnings, and a module with something hidden is at most one line behind any other |
| Warnings.ReportCounts | hummingbot/client/command/status_command.py:46-64 | The report shows the smaller of the number of warnings and the limit, and no warning more often than it was raised |
| Warnings.ReportShowsNewest | hummingbot/client/command/status_command.py:42-64 | What the report shows of a module are its newest warnings, newest first |
| Warnings.RoundAt | hummingbot/client/command/status_command.py:55-63 | The i-th line of round r is the r-th newest warning of the i-th module that has so many |
| Warnings.ModulesInOrder | hummingbot/client/command/status_command.py:45-51 | The modules come in the order of their newest warnings |
| Warnings.Group | hummingbot/client/command/status_command.py:45-51 | One queue per module, modules ordered by newest appearance |
| Warnings.OneRound | hummingbot/client/command/status_command.py:55-63 | One warning from every queue, emptied queues deleted |
| Warnings.RoundRobin | hummingbot/client/command/status_command.py:45-64 | For a limit not above the number of warnings the lines are exactly the first `limit` entries of the listing, for negative limits none |
| Warnings.StatusCommand.ExpireOldApplicationWarnings | hummingbot/client/command/status_command.py:27-32 | The warnings become what is left after the expired prefix |
| Warnings.StatusCommand.FormatApplicationWarnings | hummingbot/client/command/status_command.py:34-66 | Nothing, all newest first, or the cut listing, by the number of warnings and the limit |
| Sampling.TakeSamplesIff | hummingbot/pmm_script/pmm_script_base.py:182-201 | For interval and length >= 1 sampling fails if and only if (length-1)*interval reaches the length of the list, and sample i is the entry at len-1-(length-1-i)*interval |
| Sampling.SortedCountDown | hummingbot/pmm_script/pmm_script_base.py:193-194 | The sorted index list is the ascending list of all strided places down to the first |
| Sampling.ZeroLengthTakesAll | hummingbot/pmm_script/pmm_script_base.py:193-201 | A length of zero takes as many samples as the list has |
| Sampling.HistoryIsLatest | hummingbot/pmm_script/pmm_script_base.py:71-74 | After any run of ticks the kept prices are the newest of all ticks, up to the limit |
| Sampling.SamplesOfHistoryIff | hummingbot/pmm_script/pmm_script_base.py:71-74 | Sampling the bounded history agrees with sampling all ticks if and only if the oldest sample is within the limit or older than every tick |
| Sampling.VolatilityOfHistory | hummingbot/pmm_script/pmm_script_base.py:150-169 | The volatility over the bounded history is that over all ticks when the samples reach back less than the limit |
| Sampling.VolatilityIs | hummingbot/pmm_script/pmm_script_base.py:163-169 | With enough history the centre is asked of exactly `length` changes, each between two samples an interval apart; with less there is no answer |
| Sampling.TakeSamplesOtherwise | hummingbot/pmm_script/pmm_script_base.py:193-201 | What zero and negative intervals do |
| Sampling.ChangesCoverMove | hummingbot/pmm_script/pmm_script_base.py:166-168 | For positive prices the compounded changes bound the whole move from the first sample to the last, up or down |
| Sampling.ChangesScale | hummingbot/pmm_script/pmm_script_base.py:166-168 | The changes do not depend on the unit of the price |
| Sampling.ChangeOrder | hummingbot/pmm_script/pmm_script_base.py:166-168 | A change is symmetric, never negative, zero if and only if the prices are equal, and exactly the factor from one price to the other |
| Sampling.RoundByStepTowardsZero | hummingbot/pmm_script/pmm_script_base.py:172-179 | The result is a multiple of the step, less than a step away and towards zero; it is rounded down if and only if the number is not negative or itself a multiple |
| Sampling.RoundByStepRoundsUp | hummingbot/pmm_script/pmm_script_base.py:172-179 | At -1.8 and step 0.25 the result is -1.75, above the number |
| Sampling.PMMScriptBase.OnTick | hummingbot/pmm_script/pmm_script_base.py:71-74 | Appending and trimming keeps the history the newest part of all ticks |
| Sampling.PMMScriptBase.LocateCentralPriceVolatility | hummingbot/pmm_script/pmm_script_base.py:163-169 | Hands the changes between length+1 samples to the chosen centre; too few samples and a zero price are told apart |
| Sorting.SortedIsAscending | hummingbot/pmm_script/pmm_script_base.py:193-194 | Sorting gives the same elements in ascending order |
| MetricsCollector.EventsConserved | hummingbot/connector/connector_metrics_collector.py:104-141 | In every interleaving of register, trigger, tick, rate answers, completion, failure and cancellation the registered events are exactly the waiting, in-flight, counted and cancelled ones |
| MetricsCollector.StepConserves | hummingbot/connector/connector_metrics_collector.py:110-141 | Each step conserves the events, a registration adding its one |
| MetricsCollector.CountedAtMostOnce | hummingbot/connector/connector_metrics_collector.py:134-141 | An event registered once is counted in at most one finished collection, once, and is then nowhere else |
| MetricsCollector.IdleMeansCounted | hummingbot/connector/connector_metrics_collector.py:134-141 | With nothing in flight and nothing cancelled every registered event is counted or waiting |
| MetricsCollector.DispatchedIsWorth | hummingbot/connector/connector_metrics_collector.py:116-135 | Whatever is dispatched is a positive total of some events, each at the rates given for it |
| MetricsCollector.WorthIs | hummingbot/connector/connector_metrics_collector.py:119-132 | A fill is worth its quote volume at the quote rate, whatever the base rate, without that its amount at the base rate, else nothing; a base rate of price times q is a quote rate of q |
| MetricsCollector.OneFill | hummingbot/connector/connector_metrics_collector.py:122-123 | One fill of 1 at 20000 in the valuation token is worth 20000 |
| MetricsCollector.ReportAtOneRate | hummingbot/connector/connector_metrics_collector.py:116-135 | In every run a finished collection whose events all had quote rate q reports q times the sum of amount times price |
| MetricsCollector.DispatchedIs | hummingbot/connector/connector_metrics_collector.py:134-135 | A total is dispatched if and only if a finished collection has it and it is positive |
| MetricsCollector.TicksSpaced | hummingbot/connector/connector_metrics_collector.py:104-108 | Collections started by ticks are at least the activation interval apart |
| MetricsCollector.TickCollects | hummingbot/connector/connector_metrics_collector.py:104-114 | A tick an interval or more after the last one that collected hands all that waits to one new task; an earlier one changes nothing |
| MetricsCollector.NothingWaitsLong | hummingbot/connector/connector_metrics_collector.py:104-114 | After every run that ends in a tick nothing waits, or a tick has collected less than an interval ago |
| MetricsCollector.UninterruptedCollection | hummingbot/connector/connector_metrics_collector.py:116-135 | A collection whose rates arrive without another step in between reports the worth of all its events |
| MetricsCollector.TradeVolumeMetricCollector.RegisterFillEvent | hummingbot/connector/connector_metrics_collector.py:168-169 | The event waits |
| MetricsCollector.TradeVolumeMetricCollector.TriggerMetricsCollectionProcess | hummingbot/connector/connector_metrics_collector.py:110-114 | The waiting events become one new task |
| MetricsCollector.TradeVolumeMetricCollector.ProcessTick | hummingbot/connector/connector_metrics_collector.py:104-108 | Triggers if and only if the interval has passed since the last tick that did |
| MetricsCollector.TradeVolumeMetricCollector.Resume | hummingbot/connector/connector_metrics_collector.py:119-132 | One awaited rate: the quote rate, else the base rate, else no worth |
| MetricsCollector.TradeVolumeMetricCollector.Complete | hummingbot/connector/connector_metrics_collector.py:134-135 | Dispatches the total if and only if it is positive |
| MetricsCollector.TradeVolumeMetricCollector.PutBack | hummingbot/connector/connector_metrics_collector.py:138-141 | A failed collection puts all its events back |
| MetricsCollector.TradeVolumeMetricCollector.CollectMetrics | hummingbot/connector/connector_metrics_collector.py:116-141 | All events counted at their rates, or all put back if a rate raises |
| TimeSynchronizerModule.OffsetErrsByHalfRoundTrip | hummingbot/connector/time_synchronizer.py:58-63 | The server clock was read within the request if and only if the sample errs by at most half its round trip |
| TimeSynchronizerModule.MedianIsNear | hummingbot/connector/time_synchronizer.py:32-35 | If more than half of the samples are within e of the truth the median is, whatever the others are |
| TimeSynchronizerModule.HalfIsNotEnough | hummingbot/connector/time_synchronizer.py:32-35 | Half of the samples within e is not enough |
| TimeSynchronizerModule.MedianOfFew | hummingbot/connector/time_synchronizer.py:32-35 | One sample gives itself, two give their mean |
| TimeSynchronizerModule.MedianNegated | hummingbot/connector/time_synchronizer.py:32-35 | The median of the negated samples is the negated median |
| TimeSynchronizerModule.NoSamplesIsWallClock | hummingbot/connector/time_synchronizer.py:31-48 | Without samples the reported time is that of the wall clock |
| TimeSynchronizerModule.RunIsLatest | hummingbot/connector/time_synchronizer.py:23-23 | After every run the window holds the latest five answers since the last clear |
| TimeSynchronizerModule.ReportErrsByHalfRoundTrip | hummingbot/connector/time_synchronizer.py:31-63 | After every run of honest answers the reported offset errs by at most half the longest round trip in the window |
| TimeSynchronizerModule.ReportFollowsMajority | hummingbot/connector/time_synchronizer.py:31-48 | After every run with a majority of the window within e, the reported offset and the reported time err by at most e |
| TimeSynchronizerModule.TimeSynchronizer.UpdateServerTimeOffset | hummingbot/connector/time_synchronizer.py:50-68 | An answer adds the sample of its exchange, a failure changes nothing |
| TimeSynchronizerModule.TimeSynchronizer.UpdateServerTimeIfNotInitialized | hummingbot/connector/time_synchronizer.py:70-81 | Asks only when there is no sample |
| TimeSynchronizerModule.TimeSynchronizer.ClearTimeOffsetMsSamples | hummingbot/connector/time_synchronizer.py:40-41 | Empties the window |
| TimeSynchronizerModule.TimeSynchronizer.TimeOffsetMs | hummingbot/connector/time_synchronizer.py:31-35 | The median, or without samples the wall clock less the counter |

## Left out

- Every public method of the nonce manager is one step. Overlapping calls of `getNextNonce` on an empty list can both pass its test (evm.nonce.ts:373-400) and may then issue the same nonce; no claim covers them.
- A nonce whose time to live has passed may be issued again; the code means to.
- Stored text that is not a decimal integer: `parseInt` would give NaN, skip blanks or read a hexadecimal prefix; the model drops such an entry.
- JavaScript number precision, Python `Decimal` precision and float rounding; numbers are exact.
- NonceManager.LocalStorage.Save: the reopening of a closed database on access (local-storage.ts:29-45) is not modelled, and the store is a map.
- NonceManager.LocalStorage.Get: the same reopening is not modelled.
- The overlap of asynchronous closes, and the collision of random handles; handles are numbered.
- Registry.Closeables.GetStoreInstance: class names are a data type, not text, so two classes with one name are not modelled.
- PerformanceMetricsModule.PerformanceMetrics.InitializeMetrics: fees, the profit after fees and the return percentage are not modelled; fee totals need the fee records of the fills and are computed after the in-place aggregation. `smart_round` is left out too.
- PerformanceMetricsModule.IsDerivativeList: the test of the Python type of the first trade is a flag of the fill.
- The order in which Python walks a set; the hanging order handlers are proved for every order or, where the result depends on it, for whichever equal element is kept.
- HangingOrders.FindIsNext: an order id names one order for good; a strategy that reuses ids for different orders is not modelled.
- Several events for one order of the strategy inside one handler; a handler is one step.
- ConfigManager.DeepCopy: works on values, so writing into the template object in place, and sharing of subtrees between the config and the merged tree, are not captured.
- ConfigManager.ConfigurationNamespace.Set: the JSON clone and the moving cursor are a recursive write on values; index keys of strings, prototype properties, values that JSON alters and the save to the file are not modelled.
- ConfigManager.ConfigurationNamespace.Load: the schema is an arbitrary predicate that never accepts an empty file, as every schema of the repository demands an object; reading, writing and copying the files is not modelled.
- Warnings.StatusCommand.FormatApplicationWarnings: the text of a heading, a line and its timestamp; the report is the list of the warnings shown.
- Sampling.PMMScriptBase.OnTick: the other fields copied from the message and the user callback are not modelled.
- The message queue of the script, notifications and commands.
- The text of trading pairs in the metrics collector; a malformed pair is one of the failures.
- MetricsCollector.TradeVolumeMetricCollector.Complete: dispatching puts a request into a queue; sending it over the network is not modelled.
- TimeSynchronizerModule.TimeSynchronizer.UpdateServerTimeOffset: two overlapping requests are two answers in the order in which they end; cancellation adds no sample, like a failure.
- HTTP routes, connectors, wallets, the command line, databases and the exchange order trackers.
