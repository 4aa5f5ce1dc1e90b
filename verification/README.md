# Order admission of the broker's order monitor, in Dafny

This project models the decision logic of the broker's order monitor
(`crates/broker/src/order_monitor.rs`). The monitor holds priced orders in two caches:
`lock_and_prove_cache` for orders we lock and then prove, and `prove_cache` for orders we prove
without locking. On each iteration it decides which orders to lock or prove now, which to skip
and which to leave waiting. The model covers:

- **Capacity** (`capacity.dfy`). `Capacity::request_capacity` grants a batch size. The proving
  capacity is unlimited without `max_concurrent_proofs` and is the free slots otherwise.
  `log_capacity` logs, and remembers a status key, only when that key changes.
- **Validity** (`validity.dfy`). `get_valid_orders` with `is_within_deadline` and
  `is_target_time_reached`. Every cached order gets exactly one verdict: skip (recorded as
  skipped and evicted), candidate, or wait (left in its cache).
- **Selection** (`selection.dfy`). `apply_capacity_limits` sorts orders stably: primary orders
  first, then by ascending expiration. A greedy pass then admits orders while the granted batch
  size and the wallet balance allow.
- **Locking** (`locking.dfy`). The pre-checks and error mapping of `lock_order`, the error codes,
  and the per-order outcome of `lock_and_prove_orders`.
- **Orders** (`orders.dfy`). Orders, the caches (maps from id to order), the database records
  (a map from id to `Skipped` or `Accepted(lock price)`) and `skip_order`.
- **Text** (`text.dfy`). The string operations the monitor applies to addresses and error texts.
- **Wrappers** (`wrappers.dfy`). `Option` and `Result`.

Some results come from outside the monitor: RPC results, database lookups, gas estimates, the
wall clock, and the order accessors `expiry()`, `lock_expires_at()`, `is_primary()` and
`expiration()`. The model takes all of them as inputs, either as fields of `Order` or as
parameters. Integers are unbounded naturals.

Two points follow the code exactly:

- The lock-owner comparison in `get_valid_orders` lower-cases both addresses. It then strips
  every leading repetition of `0x` (`trim_start_matches`), not just one.
- The prover-address search in `lock_order` deletes every `0x` in the address (`replace`).

## Model

| member | source | states |
|---|---|---|
| Capacity.RequestCapacity | crates/broker/src/order_monitor.rs:102-113 | the grant is the largest batch that exceeds none of: the request, the cap of 10, the free slots |
| Capacity.ProvingCapacity | crates/broker/src/order_monitor.rs:350-365 | unlimited exactly when no maximum is configured; otherwise max minus committed, floored at zero |
| Capacity.GrantRespectsMaximum | crates/broker/src/order_monitor.rs:345-366 | committed orders plus a nonzero grant never exceed the configured maximum |
| Capacity.GetProvingOrderCapacity | crates/broker/src/order_monitor.rs:345-366 | no maximum returns Unlimited before any logging; otherwise free slots plus one capacity-log step |
| Capacity.LogCapacity | crates/broker/src/order_monitor.rs:368-392 | logs exactly when the status/id key differs from the remembered one; the remembered key is then the current one |
| Capacity.LogCapacityQuietWhenUnchanged | crates/broker/src/order_monitor.rs:388-391 | a second call over the same committed orders does not log |
| Capacity.RequestCapacityExamples | crates/broker/src/order_monitor.rs:966-980 | the unit-test values for Unlimited and Available(50) |
| Capacity.OneCommittedOfThreeGrantsTwo | crates/broker/src/order_monitor.rs:1190-1194 | maximum 3 with 1 committed grants 2 of 5 ready orders |
| Orders.SkipOrder | crates/broker/src/order_monitor.rs:395-408 | records the order as skipped; evicts it from the lock-and-prove cache for LockAndFulfill, from the prove cache otherwise; the other cache is unchanged |
| Selection.FulfillCostUndercountsLocking | crates/broker/src/order_monitor.rs:587-618 | the balance check's per-order charge (fulfil gas, lines 683-691) never exceeds `calculate_order_gas_cost_wei`; equal without locking; strictly less for a LockAndFulfill order whose lock gas costs anything |
| Validity.IsWithinDeadline | crates/broker/src/order_monitor.rs:417-432 | true iff not expired at the block time and (minimum deadline is 0 or now + minimum deadline ≤ expiry) |
| Validity.IsTargetTimeReached | crates/broker/src/order_monitor.rs:434-457 | true iff a target timestamp is set and the block time is at or past it |
| Validity.ProveVerdict | crates/broker/src/order_monitor.rs:459-477 | prove-cache order: skip iff fulfilled or out of deadline; candidate iff neither and target reached; wait otherwise |
| Validity.LockVerdict | crates/broker/src/order_monitor.rs:479-506 | lock-and-prove order: lock expired means skip; locked in DB means skip iff the normalized locker differs from us, candidate otherwise; else the deadline and target checks decide |
| Validity.NormalizeIgnoresCaseAndPrefix | crates/broker/src/order_monitor.rs:487-493 | the normalized address ignores upper case and a "0x" or "0X" prefix |
| Validity.ClassifyCache | crates/broker/src/order_monitor.rs:459-506 | one cache's pass returns exactly its candidates in iteration order and skips exactly the orders with verdict Skip |
| Validity.GetValidOrders | crates/broker/src/order_monitor.rs:410-523 | candidates are the prove-cache candidates then the lock-and-prove candidates; the state is the input with exactly the skipped ids evicted by type and recorded as skipped |
| Validity.CandidatesAreTheCandidateVerdicts | crates/broker/src/order_monitor.rs:459-506 | an order is returned iff it is in the pass with verdict Candidate |
| Validity.SkippedIdsAreTheSkipVerdicts | crates/broker/src/order_monitor.rs:459-506 | an id is skipped iff some order of the pass with that id has verdict Skip and belongs to that cache |
| Validity.UnskippedOrderStays | crates/broker/src/order_monitor.rs:459-506 | with unique ids, an order not skipped keeps its cache entries and its database record unchanged |
| Validity.LockedByOtherProverIsSkipped | crates/broker/src/order_monitor.rs:1038-1064 | an order locked by the zero address is skipped before any deadline check |
| Validity.ProveCacheWaitsForTarget | crates/broker/src/order_monitor.rs:1464-1525 | a prove-cache order that is unfulfilled and within its deadline waits before its target and is a candidate from the target to its expiry, whatever lock the database records |
| Validity.LockCacheWaitsForTarget | crates/broker/src/order_monitor.rs:1451-1525 | an unlocked lock-and-prove order waits before its target and is a candidate from the target until its lock expires |
| Selection.SortForCommitment | crates/broker/src/order_monitor.rs:630-636 | sorted by (non-primary flag, expiration), a permutation of the input, and equal keys keep their input order (stable) |
| Selection.PrimaryOrdersFirst | crates/broker/src/order_monitor.rs:630-636 | in that order every primary order precedes every non-primary one, and each group ascends by expiration |
| Selection.GreedyIsBoundedSubsequence | crates/broker/src/order_monitor.rs:677-697 | the greedy pass takes at most the granted number of orders, as a subsequence of its input |
| Selection.GreedyWithinBalance | crates/broker/src/order_monitor.rs:677-697 | committed cost plus the admitted orders' cost stays within the balance |
| Selection.GreedyLeavesOnlyUnaffordable | crates/broker/src/order_monitor.rs:677-697 | below the cap, every order left out (with multiplicity) would push the final cost above the balance |
| Selection.GreedyTakesPrefixWhenAffordable | crates/broker/src/order_monitor.rs:677-697 | when the balance covers every order, the pass takes the first granted orders |
| Selection.GreedyTakesNoneUnaffordable | crates/broker/src/order_monitor.rs:690-693 | when no order fits the balance left after committed work, the pass admits nothing |
| Selection.GreedyTakesOneWhenEachCostsOverHalf | crates/broker/src/order_monitor.rs:677-697 | when each order costs more than half the balance left, at most one is admitted |
| Selection.HalfFulfilEstimateAdmitsBoth | crates/broker/src/order_monitor.rs:1381-1421 | with fulfil gas set to half the gas the balance buys, the fulfil-only charge admits both of two orders |
| Selection.LockAndFulfillChargeExceedsHalf | crates/broker/src/order_monitor.rs:587-618 | with fulfil gas a half and lock gas a third of what the balance buys (at least 5 units), the lock-plus-fulfil cost of a LockAndFulfill order exceeds half the balance |
| Selection.SelectAffordable | crates/broker/src/order_monitor.rs:677-697 | the loop computes the greedy reference; at most the granted count; within the balance |
| Selection.ApplyCapacityLimits | crates/broker/src/order_monitor.rs:620-699 | at most 10 orders, and within the maximum after committed; within the balance, and empty when committed cost exceeds it; sorted; a subsequence of the sorted input |
| Locking.Code | crates/broker/src/order_monitor.rs:74-84 | every code has the form "[B-OM-nnn]" with three decimal digits |
| Locking.CodesIdentifyKind | crates/broker/src/order_monitor.rs:74-84 | two errors have the same code iff they are the same variant (the six codes are pairwise distinct) |
| Locking.MapLockError | crates/broker/src/order_monitor.rs:264-313 | RequestIsLocked forms map to AlreadyLocked; InsufficientBalance iff the text names it and our normalized address; that check comes before RequestIsLocked; only a confirmation error maps to LockTxNotConfirmed |
| Locking.LockOrder | crates/broker/src/order_monitor.rs:224-342 | succeeds iff open on chain, not locked in the DB, config read, lock tx, block and price all succeed; the value is the price at the lock block's time; a status RPC failure is RpcErr, a closed or DB-locked request AlreadyLocked, a failed lock transaction its mapped error, and a failed DB lock read, config read, block fetch or price UnexpectedError |
| Locking.LockOrderDecidesBeforeTransaction | crates/broker/src/order_monitor.rs:233-248 | if a pre-check fails, the result is an error that no transaction, block or price outcome can change |
| Locking.JobOutcome | crates/broker/src/order_monitor.rs:525-579 | LockAndFulfill: accepted at the lock price iff locking succeeds, skipped otherwise; any other type: accepted at price 0 |
| Locking.LockAndProveOrders | crates/broker/src/order_monitor.rs:525-584 | each cache loses exactly the ids of the processed orders of its type; other entries are unchanged |
| Locking.LockAndProveRecords | crates/broker/src/order_monitor.rs:525-584 | each processed id is recorded with the outcome of its last job; other records are unchanged |
| Locking.ProcessedOrdersLeaveTheirCache | crates/broker/src/order_monitor.rs:566-576 | every processed order is gone from the cache of its fulfillment type |
| Locking.FulfillAfterLockExpireIsAcceptedAtZero | crates/broker/src/order_monitor.rs:1069-1083 | a FulfillAfterLockExpire order ends accepted at price 0 and out of the prove cache |
| Text.Contains | crates/broker/src/order_monitor.rs:292-309 | `str::contains`: true iff the pattern occurs at some index |
| Text.TrimLeading0x | crates/broker/src/order_monitor.rs:490-491 | `trim_start_matches("0x")`: the result does not start with "0x" and what was removed is "0x" repeated |
| Text.Remove0x | crates/broker/src/order_monitor.rs:290-291 | `replace("0x", "")`: shortens by an even count and leaves a string without "0x" unchanged |
| Text.Remove0xAddress | crates/broker/src/order_monitor.rs:290-291 | on "0x" followed by characters other than 'x', `replace("0x", "")` deletes exactly the prefix |
| Locking.ProverNeedleOfAddress | crates/broker/src/order_monitor.rs:290-291 | our address "0x" + digits (no 'x' or 'X') gives the lower-cased digits as the search needle |
| Locking.InsufficientBalanceNamesUs | crates/broker/src/order_monitor.rs:286-297 | a generic error naming InsufficientBalance whose lower-cased text contains our lower-cased digits maps to InsufficientBalance |
| Text.ToLower | crates/broker/src/order_monitor.rs:487-488 | lower-cases ASCII letters position by position; the result has no upper-case letter |

## Left out

- Concurrency: the async runtime and `join_all` in `lock_and_prove_orders` are not modelled. The
  jobs run one after another. `lock_order`'s result for each order is a function of the order.
- Iteration of the moka caches: each pass reads a snapshot sequence of one cache. Evictions made
  during iteration do not change what that pass visits.
- Time-based cache eviction (`OrderExpiry`) is not modelled. When `expire_timestamp` is set, its TTL is
  `expire_timestamp ⊖ now`; otherwise the entry has no TTL.
- Chain and RPC calls are inputs: `get_status`, `lock_request`, `get_block_by_number` with its
  retries, `get_balance` and `current_gas_price`.
- Functions of other files are also inputs: `estimate_gas_to_lock`, `estimate_gas_to_fulfill`,
  `Offer::price_at` and the order accessors.
- Validity.IsWithinDeadline: `now_timestamp()` is read afresh for every order (line 426). The
  model reads the clock once per iteration (`Env.now`) and shares it across both passes.
- Selection.ApplyCapacityLimits: failures of `get_proving_order_capacity`, `current_gas_price`
  and `get_balance` make `apply_capacity_limits` return an error (lines 638-661). The model
  takes the gas price and balance as plain naturals and has no error result.
- Selection.ApplyCapacityLimits: `get_committed_orders` is read twice, once for the capacity
  (lines 355-359) and once for the committed cost (line 663). The model uses one `committed`
  sequence for both reads, so a change between the reads is not modelled.
- Orders.OrderGasCostWei: `calculate_order_gas_cost_wei` is not called by the admission steps
  above. The balance check charges fulfil gas only (lines 683-691), while the comments of the
  test at lines 1394-1411 speak of lock and fulfil gas. Selection.FulfillCostUndercountsLocking
  states the gap.
- Selection.GreedyTakesOneWhenEachCostsOverHalf: it does not cover the insufficient-balance test
  (lines 1381-1444). That test sets fulfil gas to half and lock gas to a third of the gas the
  balance buys (lines 1386-1388), and expects one of two orders to be admitted (line 1421).
  With the fulfil-only charge of lines 683-691, Selection.HalfFulfilEstimateAdmitsBoth shows
  that both orders are admitted. Selection.LockAndFulfillChargeExceedsHalf shows that charging
  lock plus fulfil gas would meet the lemma's requires and admit one. Which holds depends on
  `estimate_gas_to_fulfill`, which is not part of this model: it may add gas beyond the
  configured estimate. The model follows the code as written.
- Failures of database reads and gas estimates are not modelled. In `get_valid_orders`,
  `get_committed_orders` and `apply_capacity_limits` these reads are infallible here. The
  source returns early with an error at that point.
- Failed database writes (`insert_skipped_request`, `insert_accepted_request`) are not modelled.
  The source only logs them. The cache eviction happens either way.
- `new()`, configuration locking, `parse_units` and the stake-balance alerts: set-up, not
  admission logic.
- `RetryTask::spawn` is not part of this model, and `start_monitor` is not part of this model,
  so the iteration that chains the three steps is not modelled.
- The log and trace output is not modelled, except the rule that `log_capacity` updates the
  remembered key only when it changes.
- Capacity.RequestCapacity: the 32-bit widths of counts, and the panics of `try_into` for more
  than 2^32−1 orders or committed orders, are not modelled. Naturals are unbounded.
- Selection.ApplyCapacityLimits: U256 and u64 overflow of costs and gas sums is not modelled.
- Text.ToLower: handles ASCII only, while `to_lowercase` is Unicode-aware. Line 293 lower-cases
  the whole error text, which may hold any characters, but only to search it for our address's
  lower-cased hex digits. Unicode lower-casing turns no non-ASCII character into an ASCII hex
  digit: the only ASCII results are 'k' (from the Kelvin sign) and 'i' (from a dotted capital I).
  It also agrees with ASCII lower-casing on ASCII letters, so the search has the same outcome.
- Locking.MapLockError: `MarketError` variants the mapping treats alike are one case,
  `OtherMarketError`. Error payloads are plain strings, not the wrapped error values.
- Proving-time filtering by `peak_prove_khz` is not modelled. Three tests at
  crates/broker/src/order_monitor.rs:1199-1242, 1245-1292 and 1341-1377 expect it, but
  `apply_capacity_limits` as written contains no such filtering.
- The Anvil-based integration tests are not modelled. Only the expectations that concern the
  logic above appear here, as lemmas.
