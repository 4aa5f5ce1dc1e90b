/** `apply_capacity_limits`: the candidates of one iteration are ordered with
    primary orders first and, within each group, by ascending expiration; a
    greedy pass over that order then admits orders while the granted batch
    size is not reached and the wallet balance still covers the gas of the
    committed orders plus the admitted ones. */
module Selection {
  import opened Wrappers
  import opened Orders
  import opened Capacity

  /** The sort key of the admission order: 0 for a primary order and 1
      otherwise, then the order's expiration. */
  datatype SortKey = SortKey(rank: nat, expiration: nat)

  function KeyOf(o: Order): SortKey {
    SortKey(if o.isPrimary then 0 else 1, o.expiration)
  }

  /** Lexicographic comparison of sort keys. */
  predicate KeyLe(a: SortKey, b: SortKey) {
    a.rank < b.rank || (a.rank == b.rank && a.expiration <= b.expiration)
  }

  predicate Sorted(s: seq<Order>) {
    forall i, j :: 0 <= i < j < |s| ==> KeyLe(KeyOf(s[i]), KeyOf(s[j]))
  }

  /** The orders of `s` with sort key `k`, in their order in `s`. */
  function WithKey(s: seq<Order>, k: SortKey): seq<Order> {
    if |s| == 0 then []
    else (if KeyOf(s[0]) == k then [s[0]] else []) + WithKey(s[1..], k)
  }

  /** Inserts `x` in front of the first element whose key is not below its
      own, so `x` precedes every element with an equal key. */
  function Insert(x: Order, s: seq<Order>): (r: seq<Order>)
    ensures multiset(r) == multiset(s) + multiset{x}
  {
    if |s| == 0 then
      [x]
    else if KeyLe(KeyOf(x), KeyOf(s[0])) then
      [x] + s
    else
      assert s == [s[0]] + s[1..];
      [s[0]] + Insert(x, s[1..])
  }

  /** Insertion keeps a sorted sequence sorted. */
  lemma {:induction false} InsertSorted(x: Order, s: seq<Order>)
    requires Sorted(s)
    ensures Sorted(Insert(x, s))
  {
    if |s| > 0 && !KeyLe(KeyOf(x), KeyOf(s[0])) {
      InsertSorted(x, s[1..]);
      var r := Insert(x, s);
      var rest := Insert(x, s[1..]);
      assert r == [s[0]] + rest;
      assert multiset(rest) == multiset(s[1..]) + multiset{x};
      forall j | 0 < j < |r|
        ensures KeyLe(KeyOf(r[0]), KeyOf(r[j]))
      {
        assert r[j] == rest[j - 1];
        assert r[j] in multiset(rest);
        if r[j] != x {
          assert r[j] in multiset(s[1..]);
          var m :| 0 <= m < |s[1..]| && s[1..][m] == r[j];
          assert s[m + 1] == r[j];
        }
      }
    }
  }

  /** Insertion puts `x` in front of the elements that share its key. */
  lemma {:induction false} InsertWithKey(x: Order, s: seq<Order>, k: SortKey)
    ensures WithKey(Insert(x, s), k) == (if KeyOf(x) == k then [x] else []) + WithKey(s, k)
  {
    if |s| == 0 {
    } else if KeyLe(KeyOf(x), KeyOf(s[0])) {
      var r := [x] + s;
      assert r[1..] == s;
    } else {
      InsertWithKey(x, s[1..], k);
      InsertPastHead(x, s, k);
    }
  }

  /** Putting the same head in front of two sequences whose `k`-elements
      differ by a prefix `mine` keeps them differing by `mine`, provided the
      head itself does not have key `k` whenever `mine` is non-empty. */
  lemma WithKeyConsBoth(a: Order, rest: seq<Order>, tail: seq<Order>, mine: seq<Order>, k: SortKey)
    requires WithKey(rest, k) == mine + WithKey(tail, k)
    requires KeyOf(a) == k ==> mine == []
    ensures WithKey([a] + rest, k) == mine + WithKey([a] + tail, k)
  {
    assert ([a] + rest)[0] == a && ([a] + rest)[1..] == rest;
    assert ([a] + tail)[0] == a && ([a] + tail)[1..] == tail;
  }

  /** The step of `InsertWithKey` where `x` goes past the head of `s`. */
  lemma InsertPastHead(x: Order, s: seq<Order>, k: SortKey)
    requires |s| > 0 && !KeyLe(KeyOf(x), KeyOf(s[0]))
    requires WithKey(Insert(x, s[1..]), k) == (if KeyOf(x) == k then [x] else []) + WithKey(s[1..], k)
    ensures WithKey(Insert(x, s), k) == (if KeyOf(x) == k then [x] else []) + WithKey(s, k)
  {
    assert Insert(x, s) == [s[0]] + Insert(x, s[1..]);
    assert s == [s[0]] + s[1..];
    WithKeyConsBoth(s[0], Insert(x, s[1..]), s[1..], if KeyOf(x) == k then [x] else [], k);
  }

  /** The admission order of `apply_capacity_limits` (Rust's `sort_by`,
      which is stable): the result is sorted by key, is a permutation of the
      input, and orders with equal keys keep their relative input order. */
  function SortForCommitment(s: seq<Order>): (r: seq<Order>)
    ensures Sorted(r)
    ensures multiset(r) == multiset(s)
    ensures forall k :: WithKey(r, k) == WithKey(s, k)
  {
    if |s| == 0 then
      []
    else
      var rest := SortForCommitment(s[1..]);
      InsertSorted(s[0], rest);
      assert s == [s[0]] + s[1..];
      assert forall k :: WithKey(Insert(s[0], rest), k) == WithKey(s, k) by {
        forall k
          ensures WithKey(Insert(s[0], rest), k) == WithKey(s, k)
        {
          InsertWithKey(s[0], rest, k);
        }
      }
      Insert(s[0], rest)
  }

  /** In a sorted sequence every primary order precedes every non-primary
      one, and orders of the same group appear by ascending expiration. */
  lemma PrimaryOrdersFirst(s: seq<Order>, i: nat, j: nat)
    requires Sorted(s) && i < j < |s|
    ensures s[j].isPrimary ==> s[i].isPrimary
    ensures s[i].isPrimary == s[j].isPrimary ==> s[i].expiration <= s[j].expiration
  {
    assert KeyLe(KeyOf(s[i]), KeyOf(s[j]));
  }

  /** The wei the fulfilment of `o` is estimated to cost at `gasPrice`. */
  function FulfillCost(o: Order, gasPrice: nat): nat {
    gasPrice * o.fulfillGas
  }

  /** The balance check of `apply_capacity_limits` charges each order its
      fulfil gas only; `calculate_order_gas_cost_wei` would also charge the
      lock gas of a LockAndFulfill order. The check's charge is never more,
      equal for orders proved without locking, and strictly less when a
      LockAndFulfill order's lock gas costs anything. */
  lemma FulfillCostUndercountsLocking(o: Order, gasPrice: nat)
    ensures FulfillCost(o, gasPrice) <= OrderGasCostWei(o, gasPrice)
    ensures !UsesLockCache(o) ==> FulfillCost(o, gasPrice) == OrderGasCostWei(o, gasPrice)
    ensures UsesLockCache(o) && gasPrice * o.lockGas > 0 ==> FulfillCost(o, gasPrice) < OrderGasCostWei(o, gasPrice)
  {
  }

  /** Sum of the fulfilment costs of `s`. */
  function TotalCost(s: seq<Order>, gasPrice: nat): nat {
    if |s| == 0 then 0 else FulfillCost(s[0], gasPrice) + TotalCost(s[1..], gasPrice)
  }

  lemma {:induction false} TotalCostAppend(a: seq<Order>, b: seq<Order>, gasPrice: nat)
    ensures TotalCost(a + b, gasPrice) == TotalCost(a, gasPrice) + TotalCost(b, gasPrice)
  {
    if |a| > 0 {
      assert (a + b)[1..] == a[1..] + b;
      TotalCostAppend(a[1..], b, gasPrice);
    } else {
      assert a + b == b;
    }
  }

  /** Sum of the fulfilment gas of the committed orders. */
  function CommittedGas(committed: seq<CommittedOrder>): nat {
    if |committed| == 0 then 0 else committed[0].fulfillGas + CommittedGas(committed[1..])
  }

  /** `a` can be obtained from `b` by deleting elements. */
  predicate IsSubsequence(a: seq<Order>, b: seq<Order>)
    decreases |b|
  {
    |a| == 0 || (|b| > 0 && if a[0] == b[0] then IsSubsequence(a[1..], b[1..]) else IsSubsequence(a, b[1..]))
  }

  /** Dropping the first element of a subsequence leaves a subsequence. */
  lemma {:induction false} SubsequenceDropHead(a: seq<Order>, b: seq<Order>)
    requires |a| > 0 && IsSubsequence(a, b)
    ensures IsSubsequence(a[1..], b)
    decreases |b|
  {
    if a[0] == b[0] {
      if |a| > 1 {
        SubsequenceDropHead(a[1..], b[1..]);
        assert a[1..][1..] == a[2..];
        SubsequenceExtendPlain(a[1..], b);
      }
    } else {
      SubsequenceDropHead(a, b[1..]);
      SubsequenceExtendPlain(a[1..], b);
    }
  }

  /** A subsequence of `b[1..]` is a subsequence of `b`. */
  lemma {:induction false} SubsequenceExtendPlain(a: seq<Order>, b: seq<Order>)
    requires |b| > 0 && IsSubsequence(a, b[1..])
    ensures IsSubsequence(a, b)
    decreases |b|, 0
  {
    if |a| > 0 && a[0] == b[0] {
      SubsequenceDropHead(a, b[1..]);
    }
  }

  /** A subsequence takes no element more often than the sequence has it. */
  lemma {:induction false} SubsequenceMultiset(a: seq<Order>, b: seq<Order>)
    requires IsSubsequence(a, b)
    ensures multiset(a) <= multiset(b)
    decreases |b|
  {
    if |a| > 0 {
      assert b == [b[0]] + b[1..];
      if a[0] == b[0] {
        SubsequenceMultiset(a[1..], b[1..]);
        assert a == [a[0]] + a[1..];
      } else {
        SubsequenceMultiset(a, b[1..]);
      }
    }
  }

  /** A subsequence of a sorted sequence is sorted. */
  lemma {:induction false} SubsequenceSorted(a: seq<Order>, b: seq<Order>)
    requires IsSubsequence(a, b) && Sorted(b)
    ensures Sorted(a)
    decreases |b|
  {
    if |a| > 0 {
      if a[0] == b[0] {
        SubsequenceSorted(a[1..], b[1..]);
        SubsequenceMultiset(a[1..], b[1..]);
        forall j | 0 < j < |a|
          ensures KeyLe(KeyOf(a[0]), KeyOf(a[j]))
        {
          assert a[j] == a[1..][j - 1];
          assert a[j] in multiset(b[1..]);
          var m :| 0 <= m < |b[1..]| && b[1..][m] == a[j];
          assert b[m + 1] == a[j];
        }
      } else {
        SubsequenceSorted(a, b[1..]);
      }
    }
  }

  /** The greedy admission of `apply_capacity_limits` as a reference
      definition: walking `s` in order with `running` wei already committed,
      stop after `slots` orders; take an order whose cost keeps the running
      total within `balance`, and pass over (without stopping) one that does
      not. */
  function Greedy(s: seq<Order>, slots: nat, gasPrice: nat, running: nat, balance: nat): seq<Order> {
    if |s| == 0 || slots == 0 then
      []
    else if running + FulfillCost(s[0], gasPrice) > balance then
      Greedy(s[1..], slots, gasPrice, running, balance)
    else
      [s[0]] + Greedy(s[1..], slots - 1, gasPrice, running + FulfillCost(s[0], gasPrice), balance)
  }

  /** When no order fits what is left of the balance, nothing is taken. */
  lemma {:induction false} GreedyTakesNoneUnaffordable(s: seq<Order>, slots: nat, gasPrice: nat, running: nat, balance: nat)
    requires forall o | o in s :: running + FulfillCost(o, gasPrice) > balance
    ensures Greedy(s, slots, gasPrice, running, balance) == []
  {
    if |s| > 0 && slots > 0 {
      assert s[0] in s;
      assert forall o | o in s[1..] :: o in s;
      GreedyTakesNoneUnaffordable(s[1..], slots, gasPrice, running, balance);
    }
  }

  /** When every order costs more than half of what is left of the balance,
      the greedy pass takes at most one order: after the first, no second
      fits. */
  lemma {:induction false} GreedyTakesOneWhenEachCostsOverHalf(s: seq<Order>, slots: nat, gasPrice: nat,
                                                              running: nat, balance: nat)
    requires forall o | o in s :: running + 2 * FulfillCost(o, gasPrice) > balance
    ensures |Greedy(s, slots, gasPrice, running, balance)| <= 1
  {
    if |s| > 0 && slots > 0 {
      assert s[0] in s;
      assert forall o | o in s[1..] :: o in s;
      var cost := FulfillCost(s[0], gasPrice);
      if running + cost > balance {
        GreedyTakesOneWhenEachCostsOverHalf(s[1..], slots, gasPrice, running, balance);
      } else {
        GreedyTakesNoneUnaffordable(s[1..], slots - 1, gasPrice, running + cost, balance);
      }
    }
  }

  /** Multiplying by a natural keeps order. */
  lemma MulMono(c: nat, x: nat, y: nat)
    requires x <= y
    ensures c * x <= c * y
  {
    var d: nat := y - x;
    assert c * y == c * x + c * d;
  }

  /** `n` units at price `g`, for `n` the units `balance` buys, cost at most
      `balance`, and one unit more costs more than `balance`. */
  lemma UnitsBalanceBuys(g: nat, balance: nat, n: nat)
    requires g > 0 && n == balance / g
    ensures g * n <= balance < g * (n + 1)
  {
    assert balance == g * n + balance % g;
    assert g * (n + 1) == g * n + g;
  }

  /** With each order's fulfil gas set to half the gas the balance buys, as
      the insufficient-balance test at lines 1381-1444 configures it, the
      fulfil-only charge admits two orders, not one. */
  lemma HalfFulfilEstimateAdmitsBoth(a: Order, b: Order, gasPrice: nat, balance: nat, slots: nat)
    requires gasPrice > 0 && slots >= 2
    requires a.fulfillGas == (balance / gasPrice) / 2 && b.fulfillGas == (balance / gasPrice) / 2
    ensures Greedy([a, b], slots, gasPrice, 0, balance) == [a, b]
  {
    var n := balance / gasPrice;
    var c := gasPrice * (n / 2);
    UnitsBalanceBuys(gasPrice, balance, n);
    MulMono(gasPrice, 2 * (n / 2), n);
    assert c + c == gasPrice * (2 * (n / 2));
    assert FulfillCost(a, gasPrice) == c && FulfillCost(b, gasPrice) == c;
    assert [a, b][0] == a && [a, b][1..] == [b];
    assert [b][0] == b && [b][1..] == [];
    assert Greedy([b], slots - 1, gasPrice, c, balance) == [b] + Greedy([], slots - 2, gasPrice, c + c, balance);
  }

  /** On the same configuration, charging a LockAndFulfill order its lock
      gas (a third of what the balance buys) as well, as
      `calculate_order_gas_cost_wei` does, makes each order cost more than
      half the balance, so only one is admitted (see
      `GreedyTakesOneWhenEachCostsOverHalf`). */
  lemma LockAndFulfillChargeExceedsHalf(o: Order, gasPrice: nat, balance: nat)
    requires gasPrice > 0 && UsesLockCache(o) && balance / gasPrice >= 5
    requires o.fulfillGas == (balance / gasPrice) / 2 && o.lockGas == (balance / gasPrice) / 3
    ensures 2 * OrderGasCostWei(o, gasPrice) > balance
  {
    var n := balance / gasPrice;
    var units := o.lockGas + o.fulfillGas;
    assert 2 * units >= n + 1;
    UnitsBalanceBuys(gasPrice, balance, n);
    MulMono(gasPrice, n + 1, 2 * units);
    assert 2 * OrderGasCostWei(o, gasPrice) == gasPrice * (2 * units);
  }

  /** The greedy pass takes at most `slots` orders, and only orders of `s`,
      in their order in `s`. */
  lemma {:induction false} GreedyIsBoundedSubsequence(s: seq<Order>, slots: nat, gasPrice: nat, running: nat, balance: nat)
    ensures var r := Greedy(s, slots, gasPrice, running, balance);
            |r| <= slots && |r| <= |s| && IsSubsequence(r, s)
  {
    if |s| > 0 && slots > 0 {
      var cost := FulfillCost(s[0], gasPrice);
      if running + cost > balance {
        GreedyIsBoundedSubsequence(s[1..], slots, gasPrice, running, balance);
        SubsequenceExtendPlain(Greedy(s[1..], slots, gasPrice, running, balance), s);
      } else {
        var rest := Greedy(s[1..], slots - 1, gasPrice, running + cost, balance);
        GreedyIsBoundedSubsequence(s[1..], slots - 1, gasPrice, running + cost, balance);
        var r := [s[0]] + rest;
        assert r[1..] == rest;
      }
    }
  }

  /** The admitted orders, added to what was already committed, never cost
      more than the balance. */
  lemma {:induction false} GreedyWithinBalance(s: seq<Order>, slots: nat, gasPrice: nat, running: nat, balance: nat)
    ensures var r := Greedy(s, slots, gasPrice, running, balance);
            |r| > 0 ==> running + TotalCost(r, gasPrice) <= balance
  {
    if |s| > 0 && slots > 0 {
      if running + FulfillCost(s[0], gasPrice) > balance {
        GreedyWithinBalance(s[1..], slots, gasPrice, running, balance);
      } else {
        GreedyWithinBalance(s[1..], slots - 1, gasPrice, running + FulfillCost(s[0], gasPrice), balance);
        var r := Greedy(s, slots, gasPrice, running, balance);
        assert r[1..] == Greedy(s[1..], slots - 1, gasPrice, running + FulfillCost(s[0], gasPrice), balance);
      }
    }
  }

  /** When fewer orders than the slots were admitted, every order left out
      (counted with multiplicity) would have taken the final running cost
      above the balance: an unaffordable order is passed over, never a
      cheaper later one instead. */
  lemma {:induction false} GreedyLeavesOnlyUnaffordable(s: seq<Order>, slots: nat, gasPrice: nat, running: nat, balance: nat)
    ensures var r := Greedy(s, slots, gasPrice, running, balance);
            |r| < slots ==>
              forall o :: o in multiset(s) - multiset(r) ==>
                running + TotalCost(r, gasPrice) + FulfillCost(o, gasPrice) > balance
  {
    var r := Greedy(s, slots, gasPrice, running, balance);
    if |s| > 0 && slots > 0 {
      assert s == [s[0]] + s[1..];
      if running + FulfillCost(s[0], gasPrice) > balance {
        GreedyLeavesOnlyUnaffordable(s[1..], slots, gasPrice, running, balance);
      } else {
        var cost := FulfillCost(s[0], gasPrice);
        var rest := Greedy(s[1..], slots - 1, gasPrice, running + cost, balance);
        GreedyLeavesOnlyUnaffordable(s[1..], slots - 1, gasPrice, running + cost, balance);
        assert r == [s[0]] + rest;
        assert multiset(s) - multiset(r) == multiset(s[1..]) - multiset(rest);
      }
    }
  }

  /** When the balance covers every candidate, the greedy pass takes the
      first `slots` of them. */
  lemma {:induction false} GreedyTakesPrefixWhenAffordable(s: seq<Order>, slots: nat, gasPrice: nat, running: nat, balance: nat)
    requires running + TotalCost(s, gasPrice) <= balance
    ensures Greedy(s, slots, gasPrice, running, balance) == s[..Min(slots, |s|)]
  {
    if |s| > 0 && slots > 0 {
      GreedyTakesPrefixWhenAffordable(s[1..], slots - 1, gasPrice, running + FulfillCost(s[0], gasPrice), balance);
      assert s[..Min(slots, |s|)] == [s[0]] + s[1..][..Min(slots - 1, |s| - 1)];
    }
  }

  /** One step of the greedy walk, as the loop takes it. */
  lemma GreedyStep(s: seq<Order>, i: nat, slots: nat, gasPrice: nat, running: nat, balance: nat)
    requires i < |s| && slots > 0
    ensures running + FulfillCost(s[i], gasPrice) > balance ==>
              Greedy(s[i..], slots, gasPrice, running, balance)
              == Greedy(s[i + 1..], slots, gasPrice, running, balance)
    ensures running + FulfillCost(s[i], gasPrice) <= balance ==>
              Greedy(s[i..], slots, gasPrice, running, balance)
              == [s[i]] + Greedy(s[i + 1..], slots - 1, gasPrice, running + FulfillCost(s[i], gasPrice), balance)
  {
    assert s[i..][1..] == s[i + 1..];
  }

  /** The greedy loop of `apply_capacity_limits` over `sorted`, with the
      committed orders' cost as the starting running total. */
  method SelectAffordable(sorted: seq<Order>, granted: nat, gasPrice: nat, committedCost: nat, balance: nat)
    returns (selected: seq<Order>)
    ensures selected == Greedy(sorted, granted, gasPrice, committedCost, balance)
    ensures |selected| <= granted && IsSubsequence(selected, sorted)
    ensures |selected| > 0 ==> committedCost + TotalCost(selected, gasPrice) <= balance
  {
    selected := [];
    var running := committedCost;
    var i := 0;
    ghost var goal := Greedy(sorted, granted, gasPrice, committedCost, balance);
    while i < |sorted|
      invariant 0 <= i <= |sorted|
      invariant |selected| <= granted
      invariant running == committedCost + TotalCost(selected, gasPrice)
      invariant selected + Greedy(sorted[i..], granted - |selected|, gasPrice, running, balance) == goal
    {
      if |selected| >= granted {
        break;
      }
      ghost var slots := granted - |selected|;
      GreedyStep(sorted, i, slots, gasPrice, running, balance);
      var cost := FulfillCost(sorted[i], gasPrice);
      if running + cost > balance {
        i := i + 1;
      } else {
        ghost var rest := Greedy(sorted[i + 1..], slots - 1, gasPrice, running + cost, balance);
        assert selected + ([sorted[i]] + rest) == (selected + [sorted[i]]) + rest;
        TotalCostAppend(selected, [sorted[i]], gasPrice);
        assert TotalCost([sorted[i]], gasPrice) == cost;
        running := running + cost;
        selected := selected + [sorted[i]];
        i := i + 1;
      }
    }
    GreedyWithinBalance(sorted, granted, gasPrice, committedCost, balance);
    GreedyIsBoundedSubsequence(sorted, granted, gasPrice, committedCost, balance);
  }

  /** `apply_capacity_limits`. The granted batch size comes from the proving
      capacity and the number of candidates; the committed cost is the gas
      price times the committed orders' fulfilment gas. Returns the orders to
      lock and/or prove this iteration and the capacity log step. */
  method ApplyCapacityLimits(orders: seq<Order>, maxConcurrentProofs: Option<nat>, committed: seq<CommittedOrder>,
                             prev: string, gasPrice: nat, balance: nat)
    returns (final: seq<Order>, log: LogStep)
    ensures |final| <= MaxProvingBatchSize && |final| <= |orders|
    ensures maxConcurrentProofs.Some? ==> |final| == 0 || |committed| + |final| <= maxConcurrentProofs.value
    ensures |final| > 0 ==> gasPrice * CommittedGas(committed) + TotalCost(final, gasPrice) <= balance
    ensures gasPrice * CommittedGas(committed) > balance ==> final == []
    ensures final == Greedy(SortForCommitment(orders),
                            RequestCapacity(GetProvingOrderCapacity(maxConcurrentProofs, committed, prev).0, |orders|),
                            gasPrice, gasPrice * CommittedGas(committed), balance)
    ensures IsSubsequence(final, SortForCommitment(orders))
    ensures Sorted(final)
    ensures multiset(final) <= multiset(orders)
    ensures log == GetProvingOrderCapacity(maxConcurrentProofs, committed, prev).1
  {
    var sorted := SortForCommitment(orders);
    var (capacity, step) := GetProvingOrderCapacity(maxConcurrentProofs, committed, prev);
    var granted := RequestCapacity(capacity, |orders|);
    var committedCost := gasPrice * CommittedGas(committed);
    final := SelectAffordable(sorted, granted, gasPrice, committedCost, balance);
    log := step;
    SubsequenceSorted(final, sorted);
    SubsequenceMultiset(final, sorted);
    if maxConcurrentProofs.Some? {
      GrantRespectsMaximum(maxConcurrentProofs.value, |committed|, |orders|);
    }
  }
}
