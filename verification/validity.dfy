/** `get_valid_orders`: every cached order is sorted into exactly one of
    three buckets. It is skipped (recorded as skipped and evicted), it becomes
    a candidate for locking or proving in this iteration, or it waits in its
    cache untouched. */
module Validity {
  import opened Wrappers
  import opened Orders
  import Text

  /** What one pass decides for one cached order. */
  datatype Verdict = Skip | Candidate | Wait

  /** The facts a pass reads from outside: the current block's timestamp,
      the wall clock, the minimum deadline, the database's fulfilment and lock
      records (by request id), and our signer address as printed. */
  datatype Env = Env(
    blockTimestamp: nat,
    now: nat,
    minDeadline: nat,
    fulfilled: set<nat>,
    lockedBy: map<nat, string>,
    ourAddress: string
  )

  /** `is_within_deadline`: the order has not expired at the current block,
      and the wall-clock time left until its expiry is at least the minimum
      deadline (time left counts as zero once expiry has passed). */
  function IsWithinDeadline(o: Order, blockTimestamp: nat, now: nat, minDeadline: nat): (r: bool)
    ensures r <==> blockTimestamp <= o.expiry && (minDeadline == 0 || now + minDeadline <= o.expiry)
  {
    if o.expiry < blockTimestamp then false
    else if SaturatingSub(o.expiry, now) < minDeadline then false
    else true
  }

  /** `is_target_time_reached`: the target timestamp is set and the current
      block is at or past it; an order without a target waits forever. */
  function IsTargetTimeReached(o: Order, blockTimestamp: nat): (r: bool)
    ensures r <==> o.targetTimestamp.Some? && o.targetTimestamp.value <= blockTimestamp
  {
    match o.targetTimestamp
    case Some(target) => !(blockTimestamp < target)
    case None => false
  }

  /** The deadline check followed by the target check, shared by both caches. */
  function TimingVerdict(env: Env, o: Order): (r: Verdict)
    ensures r == Skip <==> !IsWithinDeadline(o, env.blockTimestamp, env.now, env.minDeadline)
    ensures r == Candidate <==>
              IsWithinDeadline(o, env.blockTimestamp, env.now, env.minDeadline)
              && IsTargetTimeReached(o, env.blockTimestamp)
  {
    if !IsWithinDeadline(o, env.blockTimestamp, env.now, env.minDeadline) then Skip
    else if IsTargetTimeReached(o, env.blockTimestamp) then Candidate
    else Wait
  }

  /** A `prove_cache` order is skipped when someone already fulfilled it or it
      fails the deadline check; it is a candidate once its target time is
      reached, and waits otherwise. */
  function ProveVerdict(env: Env, o: Order): (r: Verdict)
    ensures r == Skip <==>
              o.requestId in env.fulfilled || !IsWithinDeadline(o, env.blockTimestamp, env.now, env.minDeadline)
    ensures r == Candidate <==>
              o.requestId !in env.fulfilled
              && IsWithinDeadline(o, env.blockTimestamp, env.now, env.minDeadline)
              && IsTargetTimeReached(o, env.blockTimestamp)
  {
    if o.requestId in env.fulfilled then Skip else TimingVerdict(env, o)
  }

  /** The address comparison of the lock-and-prove pass: lower-cased, with
      leading "0x" stripped. */
  function NormalizeAddress(a: string): string {
    Text.TrimLeading0x(Text.ToLower(a))
  }

  /** Upper-case letters and a "0x" or "0X" prefix do not change an
      address's normal form. */
  lemma {:induction false} NormalizeIgnoresCaseAndPrefix(a: string)
    ensures NormalizeAddress(Text.ToLower(a)) == NormalizeAddress(a)
    ensures NormalizeAddress("0x" + a) == NormalizeAddress(a)
    ensures NormalizeAddress("0X" + a) == NormalizeAddress(a)
  {
    var l := Text.ToLower(a);
    Text.ToLowerIdempotent(a);
    Text.TrimLeading0xPrefix(l);
    assert Text.LowerChar('X') == 'x';
    assert Text.ToLower("0x") == "0x" && Text.ToLower("0X") == "0x";
    Text.ToLowerAppend("0x", a);
    Text.ToLowerAppend("0X", a);
  }

  /** A `lock_and_prove_cache` order is skipped once its lock has expired.
      If the database says the request is locked, it is skipped when another
      prover holds the lock and is a candidate, with no deadline or target
      check, when we hold it. Otherwise the deadline and target checks decide. */
  function LockVerdict(env: Env, o: Order): (r: Verdict)
    ensures o.lockExpiresAt < env.blockTimestamp ==> r == Skip
    ensures o.lockExpiresAt >= env.blockTimestamp && o.requestId in env.lockedBy ==>
              (r == Candidate <==> NormalizeAddress(env.lockedBy[o.requestId]) == NormalizeAddress(env.ourAddress))
              && r != Wait
    ensures o.lockExpiresAt >= env.blockTimestamp && o.requestId !in env.lockedBy ==>
              (r == Skip <==> !IsWithinDeadline(o, env.blockTimestamp, env.now, env.minDeadline))
              && (r == Candidate <==>
                    IsWithinDeadline(o, env.blockTimestamp, env.now, env.minDeadline)
                    && IsTargetTimeReached(o, env.blockTimestamp))
  {
    if o.lockExpiresAt < env.blockTimestamp then
      Skip
    else if o.requestId in env.lockedBy then
      if NormalizeAddress(env.lockedBy[o.requestId]) != NormalizeAddress(env.ourAddress) then Skip else Candidate
    else
      TimingVerdict(env, o)
  }

  /** The verdict for an order found in the given cache. */
  function VerdictIn(env: Env, o: Order, fromLockCache: bool): Verdict {
    if fromLockCache then LockVerdict(env, o) else ProveVerdict(env, o)
  }

  /** The candidates among `orders`, in iteration order (reference definition). */
  function Candidates(env: Env, orders: seq<Order>, fromLockCache: bool): seq<Order> {
    if |orders| == 0 then []
    else
      var last := orders[|orders| - 1];
      Candidates(env, orders[..|orders| - 1], fromLockCache)
      + (if VerdictIn(env, last, fromLockCache) == Candidate then [last] else [])
  }

  /** The candidates are exactly the orders of the pass whose verdict is
      `Candidate`, in the order the pass met them. */
  lemma {:induction false} CandidatesAreTheCandidateVerdicts(env: Env, orders: seq<Order>, fromLockCache: bool)
    ensures forall o :: o in Candidates(env, orders, fromLockCache) <==>
                        o in orders && VerdictIn(env, o, fromLockCache) == Candidate
    ensures |Candidates(env, orders, fromLockCache)| <= |orders|
  {
    if |orders| > 0 {
      var init := orders[..|orders| - 1];
      CandidatesAreTheCandidateVerdicts(env, init, fromLockCache);
      assert orders == init + [orders[|orders| - 1]];
    }
  }

  /** Ids of the orders among `orders` that are skipped and are evicted from
      the lock-and-prove cache (`toLockCache`) or from the prove cache. */
  function SkippedIds(env: Env, orders: seq<Order>, fromLockCache: bool, toLockCache: bool): set<string> {
    if |orders| == 0 then {}
    else
      var last := orders[|orders| - 1];
      SkippedIds(env, orders[..|orders| - 1], fromLockCache, toLockCache)
      + (if VerdictIn(env, last, fromLockCache) == Skip && UsesLockCache(last) == toLockCache then {last.id} else {})
  }

  /** An id is skipped by the pass exactly when some order of the pass with
      that id gets the `Skip` verdict and belongs to that cache. */
  lemma {:induction false} SkippedIdsAreTheSkipVerdicts(env: Env, orders: seq<Order>, fromLockCache: bool, toLockCache: bool)
    ensures forall k :: k in SkippedIds(env, orders, fromLockCache, toLockCache) <==>
                        exists o :: o in orders && o.id == k && VerdictIn(env, o, fromLockCache) == Skip
                                    && UsesLockCache(o) == toLockCache
  {
    if |orders| > 0 {
      var init := orders[..|orders| - 1];
      SkippedIdsAreTheSkipVerdicts(env, init, fromLockCache, toLockCache);
      assert orders == init + [orders[|orders| - 1]];
    }
  }

  /** The broker state after skipping exactly the orders with ids in
      `toLock` (evicted from the lock-and-prove cache) and `toProve` (evicted
      from the prove cache). */
  predicate SkippedExactly(b: Broker, b': Broker, toLock: set<string>, toProve: set<string>) {
    && b'.lockAndProveCache == b.lockAndProveCache - toLock
    && b'.proveCache == b.proveCache - toProve
    && b'.db.Keys == b.db.Keys + toLock + toProve
    && (forall k :: k in toLock + toProve ==> b'.db[k] == Skipped)
    && (forall k :: k in b.db && k !in toLock + toProve ==> b'.db[k] == b.db[k])
  }

  /** Adding one more order to a pass adds its id to the skipped set that
      matches its fulfillment type exactly when it is skipped. */
  lemma SkippedIdsSnoc(env: Env, orders: seq<Order>, o: Order, fromLockCache: bool, toLockCache: bool)
    ensures SkippedIds(env, orders + [o], fromLockCache, toLockCache)
            == SkippedIds(env, orders, fromLockCache, toLockCache)
               + (if VerdictIn(env, o, fromLockCache) == Skip && UsesLockCache(o) == toLockCache then {o.id} else {})
  {
  }

  /** Adding one more order to a pass appends it to the candidates exactly
      when it is a candidate. */
  lemma CandidatesSnoc(env: Env, orders: seq<Order>, o: Order, fromLockCache: bool)
    ensures Candidates(env, orders + [o], fromLockCache)
            == Candidates(env, orders, fromLockCache) + (if VerdictIn(env, o, fromLockCache) == Candidate then [o] else [])
  {
    assert (orders + [o])[..|orders|] == orders;
  }

  /** Skipping one more order extends the skipped sets by its id. */
  lemma SkipStep(b: Broker, b': Broker, toLock: set<string>, toProve: set<string>, o: Order)
    requires SkippedExactly(b, b', toLock, toProve)
    ensures UsesLockCache(o) ==> SkippedExactly(b, SkipOrder(b', o), toLock + {o.id}, toProve)
    ensures !UsesLockCache(o) ==> SkippedExactly(b, SkipOrder(b', o), toLock, toProve + {o.id})
  {
  }

  /** Handling one order, skipped or not, extends the skipped sets by its
      id exactly when it is skipped. */
  lemma SkipOrKeepStep(b: Broker, b': Broker, toLock: set<string>, toProve: set<string>,
                       toLock': set<string>, toProve': set<string>, o: Order, skip: bool)
    requires SkippedExactly(b, b', toLock, toProve)
    requires toLock' == toLock + (if skip && UsesLockCache(o) then {o.id} else {})
    requires toProve' == toProve + (if skip && !UsesLockCache(o) then {o.id} else {})
    ensures SkippedExactly(b, if skip then SkipOrder(b', o) else b', toLock', toProve')
  {
    if skip {
      SkipStep(b, b', toLock, toProve, o);
    }
  }

  /** One more order of a pass keeps the broker state equal to skipping
      exactly the pass's skipped ids. */
  lemma ClassifyStep(b: Broker, b': Broker, env: Env, prefix: seq<Order>, o: Order, fromLockCache: bool)
    requires SkippedExactly(b, b', SkippedIds(env, prefix, fromLockCache, true),
                            SkippedIds(env, prefix, fromLockCache, false))
    ensures SkippedExactly(b, if VerdictIn(env, o, fromLockCache) == Skip then SkipOrder(b', o) else b',
                           SkippedIds(env, prefix + [o], fromLockCache, true),
                           SkippedIds(env, prefix + [o], fromLockCache, false))
  {
    SkippedIdsSnoc(env, prefix, o, fromLockCache, true);
    SkippedIdsSnoc(env, prefix, o, fromLockCache, false);
    SkipOrKeepStep(b, b', SkippedIds(env, prefix, fromLockCache, true), SkippedIds(env, prefix, fromLockCache, false),
                   SkippedIds(env, prefix + [o], fromLockCache, true), SkippedIds(env, prefix + [o], fromLockCache, false),
                   o, VerdictIn(env, o, fromLockCache) == Skip);
  }

  /** The loop step of `ClassifyCache`, with the order's verdict given. */
  lemma ClassifyLoopStep(b: Broker, b': Broker, env: Env, prefix: seq<Order>, o: Order, fromLockCache: bool,
                         candidates: seq<Order>, verdict: Verdict)
    requires verdict == VerdictIn(env, o, fromLockCache)
    requires candidates == Candidates(env, prefix, fromLockCache)
    requires SkippedExactly(b, b', SkippedIds(env, prefix, fromLockCache, true),
                            SkippedIds(env, prefix, fromLockCache, false))
    ensures (if verdict == Candidate then candidates + [o] else candidates) == Candidates(env, prefix + [o], fromLockCache)
    ensures SkippedExactly(b, if verdict == Skip then SkipOrder(b', o) else b',
                           SkippedIds(env, prefix + [o], fromLockCache, true),
                           SkippedIds(env, prefix + [o], fromLockCache, false))
  {
    CandidatesSnoc(env, prefix, o, fromLockCache);
    ClassifyStep(b, b', env, prefix, o, fromLockCache);
  }

  /** Two passes one after the other skip the union of what each skipped. */
  lemma SkipCompose(b0: Broker, b1: Broker, b2: Broker, l1: set<string>, p1: set<string>, l2: set<string>, p2: set<string>)
    requires SkippedExactly(b0, b1, l1, p1) && SkippedExactly(b1, b2, l2, p2)
    ensures SkippedExactly(b0, b2, l1 + l2, p1 + p2)
  {
  }

  /** The pass over one cache's snapshot: each order is classified by the
      checks of its cache and skipped, kept as a candidate, or left waiting. */
  method ClassifyCache(b: Broker, env: Env, orders: seq<Order>, fromLockCache: bool)
    returns (candidates: seq<Order>, b': Broker)
    ensures candidates == Candidates(env, orders, fromLockCache)
    ensures SkippedExactly(b, b', SkippedIds(env, orders, fromLockCache, true),
                           SkippedIds(env, orders, fromLockCache, false))
  {
    candidates := [];
    b' := b;
    var i := 0;
    while i < |orders|
      invariant 0 <= i <= |orders|
      invariant candidates == Candidates(env, orders[..i], fromLockCache)
      invariant SkippedExactly(b, b', SkippedIds(env, orders[..i], fromLockCache, true),
                               SkippedIds(env, orders[..i], fromLockCache, false))
    {
      var o := orders[i];
      var verdict := VerdictIn(env, o, fromLockCache);
      assert orders[..i + 1] == orders[..i] + [o];
      ClassifyLoopStep(b, b', env, orders[..i], o, fromLockCache, candidates, verdict);
      if verdict == Skip {
        b' := SkipOrder(b', o);
      } else if verdict == Candidate {
        candidates := candidates + [o];
      }
      i := i + 1;
    }
    assert orders[..i] == orders;
  }

  /** One iteration's classification pass over a snapshot of each cache
      (`proveOrders` is the prove cache's iteration, `lockOrders` the
      lock-and-prove cache's). Returns the candidates, prove-cache candidates
      first, and the broker state after the skips. */
  method GetValidOrders(b: Broker, env: Env, proveOrders: seq<Order>, lockOrders: seq<Order>)
    returns (candidates: seq<Order>, b': Broker)
    ensures candidates == Candidates(env, proveOrders, false) + Candidates(env, lockOrders, true)
    ensures SkippedExactly(b, b',
              SkippedIds(env, proveOrders, false, true) + SkippedIds(env, lockOrders, true, true),
              SkippedIds(env, proveOrders, false, false) + SkippedIds(env, lockOrders, true, false))
  {
    var fromProve, afterProve := ClassifyCache(b, env, proveOrders, false);
    var fromLock, afterLock := ClassifyCache(afterProve, env, lockOrders, true);
    SkipCompose(b, afterProve, afterLock,
                SkippedIds(env, proveOrders, false, true), SkippedIds(env, proveOrders, false, false),
                SkippedIds(env, lockOrders, true, true), SkippedIds(env, lockOrders, true, false));
    candidates := fromProve + fromLock;
    b' := afterLock;
  }

  /** Ids are unique across the two snapshots (each cache is keyed by id). */
  predicate UniqueIds(orders: seq<Order>) {
    forall i, j :: 0 <= i < j < |orders| ==> orders[i].id != orders[j].id
  }

  /** An id none of whose orders in the pass is skipped into the given
      cache is not among the pass's skipped ids. */
  lemma {:induction false} NotSkippedId(env: Env, orders: seq<Order>, fromLockCache: bool, toLockCache: bool, k: string)
    requires forall j :: 0 <= j < |orders| && orders[j].id == k ==>
                         VerdictIn(env, orders[j], fromLockCache) != Skip || UsesLockCache(orders[j]) != toLockCache
    ensures k !in SkippedIds(env, orders, fromLockCache, toLockCache)
  {
    if |orders| > 0 {
      NotSkippedId(env, orders[..|orders| - 1], fromLockCache, toLockCache, k);
    }
  }

  /** With unique ids, an order of either pass that is not skipped stays in
      its cache, and the database is not touched for it. */
  lemma {:induction false} UnskippedOrderStays(b: Broker, b': Broker, env: Env,
                                              proveOrders: seq<Order>, lockOrders: seq<Order>, i: nat)
    requires SkippedExactly(b, b',
               SkippedIds(env, proveOrders, false, true) + SkippedIds(env, lockOrders, true, true),
               SkippedIds(env, proveOrders, false, false) + SkippedIds(env, lockOrders, true, false))
    requires UniqueIds(proveOrders + lockOrders)
    requires i < |proveOrders + lockOrders|
    requires i < |proveOrders| ==> ProveVerdict(env, proveOrders[i]) != Skip
    requires i >= |proveOrders| ==> LockVerdict(env, lockOrders[i - |proveOrders|]) != Skip
    ensures var k := (proveOrders + lockOrders)[i].id;
            && (k in b.proveCache ==> k in b'.proveCache && b'.proveCache[k] == b.proveCache[k])
            && (k in b.lockAndProveCache ==>
                  k in b'.lockAndProveCache && b'.lockAndProveCache[k] == b.lockAndProveCache[k])
            && (k in b'.db <==> k in b.db)
            && (k in b.db ==> b'.db[k] == b.db[k])
  {
    var all := proveOrders + lockOrders;
    var k := all[i].id;
    forall j | 0 <= j < |proveOrders| && proveOrders[j].id == k
      ensures VerdictIn(env, proveOrders[j], false) != Skip
    {
      assert all[j] == proveOrders[j];
    }
    forall j | 0 <= j < |lockOrders| && lockOrders[j].id == k
      ensures VerdictIn(env, lockOrders[j], true) != Skip
    {
      assert all[|proveOrders| + j] == lockOrders[j];
    }
    NotSkippedId(env, proveOrders, false, true, k);
    NotSkippedId(env, proveOrders, false, false, k);
    NotSkippedId(env, lockOrders, true, true, k);
    NotSkippedId(env, lockOrders, true, false, k);
  }

  /** An address printed with a single "0x" prefix normalizes to its
      lower-cased hex digits. */
  lemma NormalizeSinglePrefix(a: string)
    requires |a| >= 3 && a[..2] == "0x" && Text.LowerChar(a[2]) != '0'
    ensures |NormalizeAddress(a)| > 0 && NormalizeAddress(a)[0] == Text.LowerChar(a[2])
  {
    var l := Text.ToLower(a);
    assert l[..2] == "0x" && l[2..][0] != '0';
    assert Text.TrimLeading0x(l[2..]) == l[2..];
  }

  /** An address printed as "0x00…" normalizes to a string starting with '0'. */
  lemma NormalizeZeroPrefix(a: string)
    requires |a| >= 4 && a[..4] == "0x00"
    ensures |NormalizeAddress(a)| > 0 && NormalizeAddress(a)[0] == '0'
  {
    var l := Text.ToLower(a);
    assert l[..2] == "0x" && l[2..][0] == '0' && l[2..][1] == '0';
    assert Text.TrimLeading0x(l[2..]) == l[2..];
  }

  /** A `LockAndFulfill` order whose lock is recorded for another prover is
      skipped even when its deadline would also have ruled it out: the lock
      check comes first. Here the locker is printed as the all-zero address
      and our address's first hex digit is not zero. */
  lemma LockedByOtherProverIsSkipped(o: Order, env: Env, locker: string)
    requires o.lockExpiresAt >= env.blockTimestamp
    requires o.requestId in env.lockedBy && env.lockedBy[o.requestId] == locker
    requires |locker| >= 4 && locker[..4] == "0x00"
    requires |env.ourAddress| >= 3 && env.ourAddress[..2] == "0x" && Text.LowerChar(env.ourAddress[2]) != '0'
    ensures LockVerdict(env, o) == Skip
  {
    NormalizeSinglePrefix(env.ourAddress);
    NormalizeZeroPrefix(locker);
  }

  /** A prove-cache order that is not fulfilled and meets its deadline waits
      while its target time lies ahead, and is a candidate at any block time
      from the target up to its expiry. Whether the database records a lock,
      and when that lock expires, plays no part in this cache. */
  lemma ProveCacheWaitsForTarget(o: Order, env: Env, target: nat, later: nat)
    requires o.targetTimestamp == Some(target) && env.blockTimestamp < target <= later <= o.expiry
    requires o.requestId !in env.fulfilled && o.expiry >= env.now + env.minDeadline
    ensures ProveVerdict(env, o) == Wait
    ensures ProveVerdict(env.(blockTimestamp := later), o) == Candidate
  {
  }

  /** A lock-and-prove order that nobody has locked and whose lock window is
      still open waits while its target time lies ahead, and is a candidate
      at any block time from the target until its lock expires. */
  lemma LockCacheWaitsForTarget(o: Order, env: Env, target: nat, later: nat)
    requires o.targetTimestamp == Some(target) && env.blockTimestamp < target <= later
    requires later <= o.lockExpiresAt && later <= o.expiry
    requires o.requestId !in env.lockedBy && o.expiry >= env.now + env.minDeadline
    ensures LockVerdict(env, o) == Wait
    ensures LockVerdict(env.(blockTimestamp := later), o) == Candidate
  {
  }
}
