/** Locking an order in the market contract and settling each admitted order:
    the error type of the order monitor and its codes, the pre-checks and
    error mapping of `lock_order`, and the per-order outcome of
    `lock_and_prove_orders`. */
module Locking {
  import opened Wrappers
  import opened Orders
  import Text

  /** `OrderMonitorErr`; the payload strings stand for the wrapped error's text. */
  datatype OrderMonitorErr =
    | LockTxFailed(message: string)
    | LockTxNotConfirmed(message: string)
    | InsufficientBalance
    | AlreadyLocked
    | RpcErr(message: string)
    | UnexpectedError(message: string)

  /** `CodedError::code` for `OrderMonitorErr`. */
  function Code(e: OrderMonitorErr): (r: string)
    ensures |r| == 10 && r[..6] == "[B-OM-" && r[9] == ']'
    ensures forall i | 6 <= i < 9 :: '0' <= r[i] <= '9'
  {
    match e
    case LockTxNotConfirmed(_) => "[B-OM-006]"
    case LockTxFailed(_) => "[B-OM-007]"
    case AlreadyLocked => "[B-OM-009]"
    case InsufficientBalance => "[B-OM-010]"
    case RpcErr(_) => "[B-OM-011]"
    case UnexpectedError(_) => "[B-OM-500]"
  }

  /** The same kind of error, whatever the payload. */
  predicate SameKind(a: OrderMonitorErr, b: OrderMonitorErr) {
    match a
    case LockTxFailed(_) => b.LockTxFailed?
    case LockTxNotConfirmed(_) => b.LockTxNotConfirmed?
    case InsufficientBalance => b.InsufficientBalance?
    case AlreadyLocked => b.AlreadyLocked?
    case RpcErr(_) => b.RpcErr?
    case UnexpectedError(_) => b.UnexpectedError?
  }

  /** The six codes are pairwise distinct: a code identifies the kind of error. */
  lemma CodesIdentifyKind(a: OrderMonitorErr, b: OrderMonitorErr)
    ensures Code(a) == Code(b) <==> SameKind(a, b)
  {
    if !SameKind(a, b) {
      var ca, cb := Code(a), Code(b);
      assert ca[7] != cb[7] || ca[8] != cb[8];
    }
  }

  /** The request's on-chain status as `get_status` reports it; only
      `Unknown` means the request is still open for locking. */
  datatype RequestStatus = Unknown | Locked | Fulfilled | Expired

  /** A transaction error, either the market contract's decoded
      `RequestIsLocked` revert or any other (with its text). */
  datatype TxnErr = RequestIsLockedRevert | OtherTxnErr(text: string)

  /** `MarketError` as `lock_request` returns it. `OtherMarketError` stands
      for every variant the mapping treats alike, with its display text. */
  datatype MarketError =
    | TxnError(txn: TxnErr)
    | RequestAlreadyLocked
    | TxnConfirmationError(text: string)
    | LockRevert(txHash: string)
    | Error(text: string)
    | OtherMarketError(text: string)

  function TxnErrText(t: TxnErr): string {
    match t
    case RequestIsLockedRevert => "RequestIsLocked"
    case OtherTxnErr(text) => text
  }

  /** The prover address as `lock_order` searches for it in an error text:
      lower-cased, with every "0x" removed. */
  function ProverNeedle(proverAddress: string): string {
    Text.Remove0x(Text.ToLower(proverAddress))
  }

  /** For our address written "0x" followed by digits without an 'x' or
      'X', the needle is the lower-cased digits. */
  lemma ProverNeedleOfAddress(h: string)
    requires forall i :: 0 <= i < |h| ==> h[i] != 'x' && h[i] != 'X'
    ensures ProverNeedle("0x" + h) == Text.ToLower(h)
  {
    Text.ToLowerAppend("0x", h);
    assert Text.ToLower("0x") == "0x";
    var l := Text.ToLower(h);
    assert forall i :: 0 <= i < |l| ==> l[i] != 'x' by {
      forall i | 0 <= i < |l| ensures l[i] != 'x' {
        assert l[i] == Text.LowerChar(h[i]);
      }
    }
    Text.Remove0xAddress(l);
  }

  /** A generic market error naming InsufficientBalance and, in any case,
      the digits of our "0x"-address is our own insufficient balance. */
  lemma InsufficientBalanceNamesUs(text: string, h: string)
    requires forall i :: 0 <= i < |h| ==> h[i] != 'x' && h[i] != 'X'
    requires Text.Contains(text, "InsufficientBalance")
    requires Text.Contains(Text.ToLower(text), Text.ToLower(h))
    ensures MapLockError(Error(text), "0x" + h) == InsufficientBalance
  {
    ProverNeedleOfAddress(h);
  }

  /** The error mapping of `lock_order`. A generic error mentioning
      `InsufficientBalance` is ours only when it also names our address;
      that check comes before the `RequestIsLocked` one. */
  function MapLockError(e: MarketError, proverAddress: string): (r: OrderMonitorErr)
    ensures e.RequestAlreadyLocked? || e == TxnError(RequestIsLockedRevert) ==> r == AlreadyLocked
    ensures e.TxnError? && e.txn.OtherTxnErr? ==> r == LockTxFailed(e.txn.text)
    ensures r.LockTxNotConfirmed? <==> e.TxnConfirmationError?
    ensures e.LockRevert? ==> r == LockTxFailed("Tx hash 0x" + e.txHash)
    ensures r == InsufficientBalance <==>
              e.Error? && Text.Contains(e.text, "InsufficientBalance")
              && Text.Contains(Text.ToLower(e.text), ProverNeedle(proverAddress))
    ensures e.Error? && Text.Contains(e.text, "InsufficientBalance") ==> r.InsufficientBalance? || r.LockTxFailed?
    ensures e.Error? ==>
              (r == AlreadyLocked <==> !Text.Contains(e.text, "InsufficientBalance") && Text.Contains(e.text, "RequestIsLocked"))
              && (r.UnexpectedError? <==>
                    !Text.Contains(e.text, "InsufficientBalance") && !Text.Contains(e.text, "RequestIsLocked"))
    ensures e.OtherMarketError? ==>
              (r == AlreadyLocked <==> Text.Contains(e.text, "RequestIsLocked"))
              && (r.UnexpectedError? <==> !Text.Contains(e.text, "RequestIsLocked"))
    ensures !r.RpcErr?
  {
    match e
    case TxnError(txn) =>
      if txn == RequestIsLockedRevert then AlreadyLocked else LockTxFailed(TxnErrText(txn))
    case RequestAlreadyLocked => AlreadyLocked
    case TxnConfirmationError(text) => LockTxNotConfirmed(text)
    case LockRevert(hash) => LockTxFailed("Tx hash 0x" + hash)
    case Error(text) =>
      var needle := ProverNeedle(proverAddress);
      if Text.Contains(text, "InsufficientBalance") then
        if Text.Contains(Text.ToLower(text), needle) then InsufficientBalance
        else LockTxFailed("Requestor has insufficient balance at lock time: " + text)
      else if Text.Contains(text, "RequestIsLocked") then AlreadyLocked
      else UnexpectedError(text)
    case OtherMarketError(text) =>
      if Text.Contains(text, "RequestIsLocked") then AlreadyLocked else UnexpectedError(text)
  }

  /** What `lock_order` reads from outside, in the order it reads it: the
      request's status, the database's lock record, the configured priority
      gas (its value only goes to the transaction), the lock transaction's
      outcome (the block it landed in), that block's timestamp after the
      retries, and the offer's price at a given time. */
  datatype LockInputs = LockInputs(
    status: Result<RequestStatus, string>,
    dbLocked: Result<bool, string>,
    config: Result<Option<nat>, string>,
    lockTx: Result<nat, MarketError>,
    lockBlockTimestamp: Result<nat, string>,
    priceAt: nat -> Option<nat>
  )

  /** The two pre-checks of `lock_order` pass: the request is open on chain
      and the database records no lock. */
  predicate PreChecksPass(inp: LockInputs) {
    inp.status == Ok(Unknown) && inp.dbLocked == Ok(false)
  }

  /** `lock_order`: the lock price on success, the error it maps to otherwise. */
  function LockOrder(inp: LockInputs, proverAddress: string): (r: Result<nat, OrderMonitorErr>)
    ensures r.Ok? <==>
              PreChecksPass(inp) && inp.config.Ok? && inp.lockTx.Ok? && inp.lockBlockTimestamp.Ok?
              && inp.priceAt(inp.lockBlockTimestamp.value).Some?
    ensures r.Ok? ==> r.value == inp.priceAt(inp.lockBlockTimestamp.value).value
    ensures inp.status.Err? ==> r.Err? && r.error.RpcErr?
    ensures inp.status.Ok? && inp.status.value != Unknown ==> r == Err(AlreadyLocked)
    ensures inp.status == Ok(Unknown) && inp.dbLocked == Ok(true) ==> r == Err(AlreadyLocked)
    ensures PreChecksPass(inp) && inp.config.Ok? && inp.lockTx.Err? ==>
              r == Err(MapLockError(inp.lockTx.error, proverAddress))
    ensures r.Err? && r.error.RpcErr? ==> inp.status.Err?
    ensures inp.status == Ok(Unknown) && inp.dbLocked.Err? ==> r.Err? && r.error.UnexpectedError?
    ensures PreChecksPass(inp) && inp.config.Err? ==> r.Err? && r.error.UnexpectedError?
    ensures PreChecksPass(inp) && inp.config.Ok? && inp.lockTx.Ok?
            && (inp.lockBlockTimestamp.Err? || inp.priceAt(inp.lockBlockTimestamp.value).None?) ==>
              r.Err? && r.error.UnexpectedError?
  {
    match inp.status
    case Err(_) => Err(RpcErr("Failed to get request status"))
    case Ok(status) =>
      if status != Unknown then
        Err(AlreadyLocked)
      else
        match inp.dbLocked
        case Err(_) => Err(UnexpectedError("Failed to check if request is locked"))
        case Ok(isLocked) =>
          if isLocked then
            Err(AlreadyLocked)
          else if inp.config.Err? then
            Err(UnexpectedError("Failed to lock config"))
          else
            match inp.lockTx
            case Err(e) => Err(MapLockError(e, proverAddress))
            case Ok(_) =>
              match inp.lockBlockTimestamp
              case Err(e) => Err(UnexpectedError(e))
              case Ok(timestamp) =>
                match inp.priceAt(timestamp)
                case None => Err(UnexpectedError("Failed to calculate lock price"))
                case Some(price) => Ok(price)
  }

  /** When a pre-check rules the order out, `lock_order` returns before any
      transaction: nothing the transaction, its block or the price would
      yield changes the result. */
  lemma LockOrderDecidesBeforeTransaction(inp: LockInputs, proverAddress: string,
                                          tx: Result<nat, MarketError>, ts: Result<nat, string>,
                                          price: nat -> Option<nat>)
    requires !PreChecksPass(inp)
    ensures LockOrder(inp, proverAddress)
            == LockOrder(inp.(lockTx := tx, lockBlockTimestamp := ts, priceAt := price), proverAddress)
    ensures LockOrder(inp, proverAddress).Err?
  {
  }

  /** What the database records for an order `lock_and_prove_orders`
      processes: a `LockAndFulfill` order is accepted at the lock price when
      `lock_order` succeeds and skipped when it fails; any other order is
      accepted at price zero without locking. */
  function JobOutcome(o: Order, lockResult: Result<nat, OrderMonitorErr>): (r: DbStatus)
    ensures o.fulfillmentType != LockAndFulfill ==> r == Accepted(0)
    ensures o.fulfillmentType == LockAndFulfill ==> (r.Accepted? <==> lockResult.Ok?)
    ensures r.Accepted? && o.fulfillmentType == LockAndFulfill ==> r.lockPrice == lockResult.value
  {
    if o.fulfillmentType == LockAndFulfill then
      match lockResult
      case Ok(price) => Accepted(price)
      case Err(_) => Skipped
    else
      Accepted(0)
  }

  /** Ids of the `LockAndFulfill` orders (`lockCache`) or of the others. */
  function IdsFor(orders: seq<Order>, lockCache: bool): set<string> {
    if |orders| == 0 then {}
    else
      var last := orders[|orders| - 1];
      IdsFor(orders[..|orders| - 1], lockCache) + (if UsesLockCache(last) == lockCache then {last.id} else {})
  }

  /** No later order in `orders` shares the id of `orders[i]`. */
  predicate LastWithId(orders: seq<Order>, i: nat)
    requires i < |orders|
  {
    forall j :: i < j < |orders| ==> orders[j].id != orders[i].id
  }

  /** `lock_and_prove_orders`, with the jobs applied one after the other and
      `lockOrder` giving the result of `lock_order` for each order. Every
      processed order leaves the cache of its fulfillment type and nothing
      else leaves either cache. */
  function LockAndProveOrders(b: Broker, orders: seq<Order>, lockOrder: Order -> Result<nat, OrderMonitorErr>)
    : (r: Broker)
    ensures r.lockAndProveCache.Keys == b.lockAndProveCache.Keys - IdsFor(orders, true)
    ensures r.proveCache.Keys == b.proveCache.Keys - IdsFor(orders, false)
    ensures forall k :: k in r.lockAndProveCache ==> r.lockAndProveCache[k] == b.lockAndProveCache[k]
    ensures forall k :: k in r.proveCache ==> r.proveCache[k] == b.proveCache[k]
  {
    if |orders| == 0 then
      b
    else
      var last := orders[|orders| - 1];
      Settle(LockAndProveOrders(b, orders[..|orders| - 1], lockOrder), last, JobOutcome(last, lockOrder(last)))
  }

  /** The database after `lock_and_prove_orders`: every processed id gets a
      record, the record of an id is the outcome of the last job for it, and
      the records of other ids are untouched. */
  lemma {:induction false} LockAndProveRecords(b: Broker, orders: seq<Order>, lockOrder: Order -> Result<nat, OrderMonitorErr>)
    ensures var r := LockAndProveOrders(b, orders, lockOrder);
            && r.db.Keys == b.db.Keys + IdsFor(orders, true) + IdsFor(orders, false)
            && (forall k :: k in b.db && k !in IdsFor(orders, true) + IdsFor(orders, false) ==> r.db[k] == b.db[k])
            && (forall i :: 0 <= i < |orders| && LastWithId(orders, i) ==>
                  orders[i].id in r.db && r.db[orders[i].id] == JobOutcome(orders[i], lockOrder(orders[i])))
  {
    if |orders| > 0 {
      var n := |orders|;
      var last := orders[n - 1];
      var init := orders[..n - 1];
      LockAndProveRecords(b, init, lockOrder);
      var before := LockAndProveOrders(b, init, lockOrder);
      var r := LockAndProveOrders(b, orders, lockOrder);
      assert r == Settle(before, last, JobOutcome(last, lockOrder(last)));
      forall i | 0 <= i < n && LastWithId(orders, i)
        ensures orders[i].id in r.db && r.db[orders[i].id] == JobOutcome(orders[i], lockOrder(orders[i]))
      {
        if i < n - 1 {
          assert orders[i] == init[i];
          assert LastWithId(init, i);
          assert orders[i].id != last.id;
        }
      }
    }
  }

  /** Every processed order is gone from the cache of its fulfillment type. */
  lemma {:induction false} ProcessedOrdersLeaveTheirCache(b: Broker, orders: seq<Order>,
                                                         lockOrder: Order -> Result<nat, OrderMonitorErr>, i: nat)
    requires i < |orders|
    ensures orders[i].id !in MatchingCache(LockAndProveOrders(b, orders, lockOrder), orders[i])
  {
    var n := |orders|;
    if i < n - 1 {
      ProcessedOrdersLeaveTheirCache(b, orders[..n - 1], lockOrder, i);
    }
    IdsForContains(orders, i);
  }

  /** `IdsFor` holds the id of each order of the matching kind. */
  lemma {:induction false} IdsForContains(orders: seq<Order>, i: nat)
    requires i < |orders|
    ensures orders[i].id in IdsFor(orders, UsesLockCache(orders[i]))
  {
    if i < |orders| - 1 {
      IdsForContains(orders[..|orders| - 1], i);
    }
  }

  /** A `FulfillAfterLockExpire` order is recorded as accepted at price zero
      and evicted from the prove cache, whatever locking would have done. */
  lemma FulfillAfterLockExpireIsAcceptedAtZero(b: Broker, o: Order, lockOrder: Order -> Result<nat, OrderMonitorErr>)
    requires o.fulfillmentType == FulfillAfterLockExpire
    ensures var r := LockAndProveOrders(b, [o], lockOrder);
            r.db[o.id] == Accepted(0) && o.id !in r.proveCache && r.lockAndProveCache == b.lockAndProveCache
  {
    assert [o][..0] == [];
    assert IdsFor([o], true) == {};
  }
}
