/** The entities the order monitor works on: a priced order waiting to be
    locked and/or proved, the two in-memory caches that hold such orders, and
    the database's record of what became of each order. Values the broker
    computes elsewhere (`expiry()`, `lock_expires_at()`, `is_primary()`,
    `expiration()`, the gas estimates) are carried as fields of the order. */
module Orders {
  import opened Wrappers

  /** How the broker intends to earn the order's reward. */
  datatype FulfillmentType = LockAndFulfill | FulfillAfterLockExpire | FulfillWithoutLocking

  datatype Order = Order(
    id: string,                       // `order.id()`, the key of both caches and of the database
    requestId: nat,                   // `order.request.id`, the key of the database's lock and fulfilment records
    fulfillmentType: FulfillmentType,
    targetTimestamp: Option<nat>,     // block time from which the order may be locked or proved
    expiry: nat,                      // `order.expiry()`
    lockExpiresAt: nat,               // `order.request.lock_expires_at()`
    isPrimary: bool,                  // `order.is_primary()`
    expiration: nat,                  // `order.expiration()`, the sort key of capacity admission
    lockGas: nat,                     // `estimate_gas_to_lock`
    fulfillGas: nat                   // `estimate_gas_to_fulfill`
  )

  /** An order the database reports as committed (being proved, aggregated or
      submitted): its status name as printed by `{:?}`, its id, and the gas
      its fulfilment is estimated to need. */
  datatype CommittedOrder = CommittedOrder(status: string, id: string, fulfillGas: nat)

  /** What the database records for an order the monitor has decided on:
      skipped, or accepted for proving at the given lock price. */
  datatype DbStatus = Skipped | Accepted(lockPrice: nat)

  /** A moka cache keyed by order id (time-based eviction is not modelled). */
  type Cache = map<string, Order>

  /** The monitor's mutable state: the two caches and the database's order
      records. */
  datatype Broker = Broker(lockAndProveCache: Cache, proveCache: Cache, db: map<string, DbStatus>)

  /** Orders to be locked by us live in `lock_and_prove_cache`; orders to be
      proved without locking live in `prove_cache`. */
  predicate UsesLockCache(o: Order) {
    o.fulfillmentType == LockAndFulfill
  }

  /** The cache an order of this fulfillment type is evicted from. */
  function MatchingCache(b: Broker, o: Order): Cache {
    if UsesLockCache(o) then b.lockAndProveCache else b.proveCache
  }

  /** The cache an order of this fulfillment type is never evicted from. */
  function OtherCache(b: Broker, o: Order): Cache {
    if UsesLockCache(o) then b.proveCache else b.lockAndProveCache
  }

  /** Drops `o`'s id from the cache that matches its fulfillment type and
      records `status` for it in the database. Everything else is kept. */
  function Settle(b: Broker, o: Order, status: DbStatus): (r: Broker)
    ensures o.id !in MatchingCache(r, o)
    ensures MatchingCache(r, o).Keys == MatchingCache(b, o).Keys - {o.id}
    ensures forall k :: k in MatchingCache(r, o) ==> MatchingCache(r, o)[k] == MatchingCache(b, o)[k]
    ensures OtherCache(r, o) == OtherCache(b, o)
    ensures r.db.Keys == b.db.Keys + {o.id} && r.db[o.id] == status
    ensures forall k :: k in b.db && k != o.id ==> r.db[k] == b.db[k]
  {
    var db := b.db[o.id := status];
    if UsesLockCache(o) then
      Broker(b.lockAndProveCache - {o.id}, b.proveCache, db)
    else
      Broker(b.lockAndProveCache, b.proveCache - {o.id}, db)
  }

  /** `skip_order`: the order is recorded as skipped (a failing database
      write is only logged, so the eviction happens either way) and evicted
      from `lock_and_prove_cache` when it is `LockAndFulfill`, from
      `prove_cache` otherwise. */
  function SkipOrder(b: Broker, o: Order): (r: Broker)
    ensures r.db.Keys == b.db.Keys + {o.id} && r.db[o.id] == Skipped
    ensures forall k :: k in b.db && k != o.id ==> r.db[k] == b.db[k]
    ensures o.fulfillmentType == LockAndFulfill ==>
              r.lockAndProveCache == b.lockAndProveCache - {o.id} && r.proveCache == b.proveCache
    ensures o.fulfillmentType != LockAndFulfill ==>
              r.proveCache == b.proveCache - {o.id} && r.lockAndProveCache == b.lockAndProveCache
  {
    Settle(b, o, Skipped)
  }

  /** `calculate_order_gas_cost_wei`: a `LockAndFulfill` order pays for the
      lock and the fulfilment, any other order for the fulfilment only. */
  function OrderGasCostWei(o: Order, gasPrice: nat): (r: nat)
    ensures r >= gasPrice * o.fulfillGas
    ensures UsesLockCache(o) ==> r == gasPrice * o.lockGas + gasPrice * o.fulfillGas
    ensures !UsesLockCache(o) ==> r == gasPrice * o.fulfillGas
  {
    var units := if o.fulfillmentType == LockAndFulfill then o.lockGas + o.fulfillGas else o.fulfillGas;
    gasPrice * units
  }

  /** Rust's `saturating_sub` on the unsigned counters and timestamps of the
      monitor, on unbounded naturals: the difference, or 0 below zero. */
  function SaturatingSub(a: nat, b: nat): (r: nat)
    ensures a >= b ==> r + b == a
    ensures a < b ==> r == 0
  {
    if a >= b then a - b else 0
  }
}
