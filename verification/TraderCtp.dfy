/** The CTP trader as the object it is: the query queue and the order maps, changed in
    place by its ticks, requests and callbacks. */
module TraderCtpService {
  import Q = QueryPump
  import R = OrderRefs

  datatype Input = Input(id: R.OrderId, instrument: string, exchange: string, supportedSide: bool, volume: int,
                         limit: bool, limitPrice: int)

  class TraderCtp {
    var hasApi: bool
    var loggedIn: bool
    var ready: bool
    var queryQueue: seq<Q.Query>
    var queryInFlight: bool
    var queryStartedAt: int
    var orderRefCounter: nat
    var orderIdToRefInfo: map<R.OrderId, R.Info>
    var refToOrderId: map<string, R.OrderId>

    constructor ()
      ensures Pump() == Q.IDLE && Refs() == R.START
    {
      hasApi, loggedIn, ready := false, false, false;
      queryQueue, queryInFlight, queryStartedAt := [], false, 0;
      orderRefCounter, orderIdToRefInfo, refToOrderId := 0, map[], map[];
    }

    ghost function Pump(): Q.Pump
      reads this
    {
      Q.Pump(queryQueue, queryInFlight, queryStartedAt)
    }

    ghost function Refs(): R.Refs
      reads this
    {
      R.Refs(orderRefCounter, orderIdToRefInfo, refToOrderId)
    }

    predicate IsReadyForRequests()
      reads this
    {
      hasApi && loggedIn && ready
    }

    method PushQuery(q: Q.Query)
      modifies this`queryQueue
      ensures Pump() == Q.Next(old(Pump()), Q.Push(q))
    {
      queryQueue := queryQueue + [q];
    }

    method FinishInFlightQuery(q: Q.Query)
      modifies this`queryInFlight
      ensures Pump() == Q.Next(old(Pump()), Q.Finish(q))
    {
      queryInFlight := false;
    }

    /** One tick: wait, give up a query past its timeout, drop the queue when not ready,
        or run one query. */
    method PumpQueryQueue(now: int, submits: bool, after: int) returns (did: Q.Outcome)
      modifies this`queryQueue, this`queryInFlight, this`queryStartedAt
      ensures Pump() == Q.Next(old(Pump()), Q.Tick(now, IsReadyForRequests(), submits, after))
      ensures did == Q.TickOutcome(old(Pump()), now, IsReadyForRequests(), submits)
    {
      if queryInFlight {
        if now - queryStartedAt < Q.QUERY_TIMEOUT_NS {
          return Q.Nothing;
        }
        queryInFlight := false;
      }
      if queryQueue == [] {
        return Q.Nothing;
      }
      if !IsReadyForRequests() {
        did := Q.Dropped(queryQueue);
        queryQueue := [];
        return;
      }
      var query := queryQueue[0];
      queryQueue := queryQueue[1..];
      if submits {
        queryInFlight := true;
        queryStartedAt := after;
      }
      did := Q.Ran(query, submits);
    }

    /** An order that fails a check changes nothing; one that passes spends a ref, and is
        mapped when the request was sent. */
    method InsertOrder(input: Input, source: nat, ret: int) returns (ok: bool)
      modifies this`orderRefCounter, this`orderIdToRefInfo, this`refToOrderId
      ensures var accepted := IsReadyForRequests() && input.supportedSide && input.volume > 0
                              && !(input.limit && input.limitPrice <= 0);
              && ok == (accepted && ret == 0)
              && Refs() == if accepted then R.Next(old(Refs()), R.Insert(input.id, input.instrument, input.exchange, source, ok))
                           else old(Refs())
    {
      if !IsReadyForRequests() || !input.supportedSide || input.volume <= 0 || (input.limit && input.limitPrice <= 0) {
        return false;
      }
      orderRefCounter := orderRefCounter + 1;
      var ref := R.Decimal(orderRefCounter);
      if ret != 0 {
        return false;
      }
      orderIdToRefInfo := orderIdToRefInfo[input.id := R.Info(ref, input.instrument, input.exchange, source)];
      refToOrderId := refToOrderId[ref := input.id];
      return true;
    }

    /** Only a mapped order can be cancelled; the action itself takes the next ref. */
    method CancelOrder(id: R.OrderId, ret: int) returns (ok: bool)
      modifies this`orderRefCounter
      ensures ok == (id in orderIdToRefInfo && IsReadyForRequests() && ret == 0)
      ensures Refs() == if id in orderIdToRefInfo && IsReadyForRequests() then R.Next(old(Refs()), R.CancelSent)
                        else old(Refs())
    {
      if id !in orderIdToRefInfo || !IsReadyForRequests() {
        return false;
      }
      orderRefCounter := orderRefCounter + 1;
      return ret == 0;
    }

    method EraseOrderMapping(id: R.OrderId)
      modifies this`orderIdToRefInfo, this`refToOrderId
      ensures Refs() == R.Next(old(Refs()), R.Erase(id))
    {
      if id in orderIdToRefInfo {
        refToOrderId := refToOrderId - {orderIdToRefInfo[id].ref};
        orderIdToRefInfo := orderIdToRefInfo - {id};
      }
    }

    /** An order notification: resolved, attributed to its source, and forgotten when it
        has reached a final status. */
    method OnRtnOrder(ownSession: bool, sysId: string, ref: string, final: bool,
                      bySysId: string -> R.OrderId, byRef: string -> R.OrderId)
      returns (id: R.OrderId, source: nat)
      modifies this`orderIdToRefInfo, this`refToOrderId
      ensures id == R.ResolveOrderId(old(Refs()), ownSession, sysId, ref, bySysId, byRef)
      ensures source == R.ResolveSource(old(Refs()), id)
      ensures Refs() == if final then R.Next(old(Refs()), R.Erase(id)) else old(Refs())
    {
      if ownSession && ref != "" && ref in refToOrderId {
        id := refToOrderId[ref];
      } else if sysId != "" && sysId != "0" {
        id := bySysId(sysId);
      } else {
        id := byRef(ref);
      }
      source := if id in orderIdToRefInfo && orderIdToRefInfo[id].source != 0 then orderIdToRefInfo[id].source
                else R.PUBLIC;
      if final {
        EraseOrderMapping(id);
      }
    }

    /** A trade notification: resolved by its ref alone, and attributed to its source. */
    method OnRtnTrade(sysId: string, ref: string, bySysId: string -> R.OrderId, byTrade: R.OrderId)
      returns (id: R.OrderId, source: nat)
      ensures id == R.ResolveTradeId(Refs(), sysId, ref, bySysId, byTrade)
      ensures source == R.ResolveSource(Refs(), id)
    {
      if ref in refToOrderId {
        id := refToOrderId[ref];
      } else if sysId != "" && sysId != "0" {
        id := bySysId(sysId);
      } else {
        id := byTrade;
      }
      source := if id in orderIdToRefInfo && orderIdToRefInfo[id].source != 0 then orderIdToRefInfo[id].source
                else R.PUBLIC;
    }

    /** Rebuilds the maps from the stored orders, in whatever order they are listed. */
    method OnRecover(orders: seq<R.Stored>)
      modifies this`orderIdToRefInfo, this`refToOrderId
      ensures Refs() == R.Next(old(Refs()), R.Recover(orders))
    {
      var i := 0;
      while i < |orders|
        invariant 0 <= i <= |orders|
        invariant Refs() == R.RecoverNext(old(Refs()), orders[..i])
      {
        var o := orders[i];
        assert orders[..i + 1][..i] == orders[..i];
        if o.ref != "" && o.ref !in refToOrderId {
          refToOrderId := refToOrderId[o.ref := o.id];
          orderIdToRefInfo := orderIdToRefInfo[o.id := R.Info(o.ref, o.instrument, o.exchange, o.dest)];
        }
        i := i + 1;
      }
      assert orders[..|orders|] == orders;
    }
  }
}
