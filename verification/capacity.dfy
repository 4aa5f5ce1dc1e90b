/** How many orders one iteration of the monitor may commit to: the proving
    capacity left under `max_concurrent_proofs`, the per-iteration batch cap,
    and the change detection of the capacity log line. */
module Capacity {
  import opened Wrappers
  import opened Orders
  import Text

  /** Hard limit on the number of orders proving work is kicked off for at once. */
  const MaxProvingBatchSize: nat := 10

  /** Proving slots left given the configuration: a number of free slots,
      or no concurrency limit at all. */
  datatype Capacity = Available(slots: nat) | Unlimited

  /** The bound the capacity itself places on a batch. */
  predicate Admits(c: Capacity, n: nat) {
    c.Unlimited? || n <= c.slots
  }

  /** `Capacity::request_capacity`: the batch size granted for `request`
      orders is the largest size that exceeds neither the request, the batch
      cap, nor the free slots. */
  function RequestCapacity(c: Capacity, request: nat): (r: nat)
    ensures r <= request && r <= MaxProvingBatchSize && Admits(c, r)
    ensures forall n: nat :: n <= request && n <= MaxProvingBatchSize && Admits(c, n) ==> n <= r
  {
    match c
    case Available(capacity) =>
      if request > capacity then Min(capacity, MaxProvingBatchSize) else Min(request, MaxProvingBatchSize)
    case Unlimited => Min(MaxProvingBatchSize, request)
  }

  function Min(a: nat, b: nat): nat {
    if a <= b then a else b
  }

  /** The capacity rule of `get_proving_order_capacity`: no configured maximum
      means no limit; otherwise the free slots are the maximum minus the
      committed orders, never below zero. */
  function ProvingCapacity(maxConcurrentProofs: Option<nat>, committedCount: nat): (r: Capacity)
    ensures r.Unlimited? <==> maxConcurrentProofs.None?
    ensures r.Available? ==> r.slots <= maxConcurrentProofs.value
    ensures r.Available? && committedCount <= maxConcurrentProofs.value ==>
              r.slots + committedCount == maxConcurrentProofs.value
    ensures r.Available? && committedCount >= maxConcurrentProofs.value ==> r.slots == 0
  {
    match maxConcurrentProofs
    case None => Unlimited
    case Some(max) => Available(SaturatingSub(max, committedCount))
  }

  /** Whatever is committed, the orders granted in one iteration never take
      the committed total past the configured maximum. */
  lemma GrantRespectsMaximum(max: nat, committed: nat, request: nat)
    ensures var granted := RequestCapacity(ProvingCapacity(Some(max), committed), request);
            granted == 0 || committed + granted <= max
  {
    var c := ProvingCapacity(Some(max), committed);
    assert Admits(c, RequestCapacity(c, request));
  }

  /** The entry `log_capacity` keeps per committed order, `{status:?}-{id}`,
      joined with commas. */
  function StatusKey(committed: seq<CommittedOrder>): string {
    Text.Join(seq(|committed|, i requires 0 <= i < |committed| => committed[i].status + "-" + committed[i].id), ",")
  }

  /** The outcome of one `log_capacity` call: the new value of
      `prev_orders_by_status`, and whether the capacity line was logged. */
  datatype LogStep = LogStep(prev: string, logged: bool)

  /** `log_capacity`: the line is logged, and the remembered key replaced,
      exactly when the status/id key differs from the remembered one;
      otherwise the remembered key is left as it was. */
  function LogCapacity(prev: string, committed: seq<CommittedOrder>): (r: LogStep)
    ensures r.logged <==> prev != StatusKey(committed)
    ensures r.prev == StatusKey(committed)
    ensures !r.logged ==> r.prev == prev
  {
    var cur := StatusKey(committed);
    if prev != cur then LogStep(cur, true) else LogStep(prev, false)
  }

  /** Logging twice in a row over the same committed orders logs at most once. */
  lemma LogCapacityQuietWhenUnchanged(prev: string, committed: seq<CommittedOrder>)
    ensures !LogCapacity(LogCapacity(prev, committed).prev, committed).logged
  {
  }

  /** `get_proving_order_capacity`: with no maximum it returns `Unlimited`
      before any database read or log; otherwise it logs (on change) and
      returns the free slots. */
  function GetProvingOrderCapacity(maxConcurrentProofs: Option<nat>, committed: seq<CommittedOrder>, prev: string)
    : (r: (Capacity, LogStep))
    ensures maxConcurrentProofs.None? ==> r.0 == Unlimited && r.1 == LogStep(prev, false)
    ensures maxConcurrentProofs.Some? ==>
              r.0 == Available(SaturatingSub(maxConcurrentProofs.value, |committed|))
              && r.1 == LogCapacity(prev, committed)
  {
    if maxConcurrentProofs.None? then
      (Unlimited, LogStep(prev, false))
    else
      (ProvingCapacity(maxConcurrentProofs, |committed|), LogCapacity(prev, committed))
  }

  /** The capacity unit tests: unlimited capacity grants 0, 10 and 10 for
      requests of 0, 15 and 10; fifty free slots grant 0, 4 and 10 for
      requests of 0, 4 and 10. */
  lemma RequestCapacityExamples()
    ensures RequestCapacity(Unlimited, 0) == 0
    ensures RequestCapacity(Unlimited, 15) == MaxProvingBatchSize
    ensures RequestCapacity(Unlimited, MaxProvingBatchSize) == MaxProvingBatchSize
    ensures RequestCapacity(Available(50), 0) == 0
    ensures RequestCapacity(Available(50), 4) == 4
    ensures RequestCapacity(Available(50), 10) == MaxProvingBatchSize
  {
  }

  /** Five ready orders, a maximum of three concurrent proofs and one order
      already committed: two are granted. */
  lemma OneCommittedOfThreeGrantsTwo()
    ensures RequestCapacity(ProvingCapacity(Some(3), 1), 5) == 2
  {
  }
}
