/** The basket order engine and its basket states, updated in place. */
module BasketEngine {
  import opened OrderStatuses
  import opened Baskets

  class BasketOrderState {
    const mode: Mode
    var volume: int
    var volumeLeft: int
    var status: BasketStatus
    var orders: Orders
    var lastOrders: LastOrders

    constructor (b: Basket)
      ensures View() == b.(orders := map[], last := map[])
    {
      mode, volume, volumeLeft, status := b.mode, b.volume, b.volumeLeft, b.status;
      orders, lastOrders := map[], map[];
    }

    ghost function View(): Basket
      reads this
    {
      Basket(mode, volume, volumeLeft, status, orders, lastOrders)
    }

    method UpdateLatestOrder(o: Order)
      modifies this`orders, this`lastOrders
      ensures orders == old(orders)[o.id := o] && lastOrders == LastNext(old(lastOrders), o)
    {
      orders := orders[o.id := o];
      if o.key !in lastOrders {
        lastOrders := lastOrders[o.key := o];
        return;
      }
      var oldLast := lastOrders[o.key];
      if oldLast.insertTime > o.insertTime {
        return;
      }
      lastOrders := lastOrders[o.key := o];
    }

    /** The loop over the orders, in whatever order the map lists them. */
    method GetTotalVolume() returns (total: int)
      ensures total == TotalVolume(orders, lastOrders)
    {
      total := 0;
      var todo := orders.Keys;
      while todo != {}
        invariant todo <= orders.Keys
        invariant total + Sum(orders, todo, CountedOf(lastOrders)) == TotalVolume(orders, lastOrders)
        decreases todo
      {
        var id :| id in todo;
        SumTake(orders, todo, CountedOf(lastOrders), id);
        var o := orders[id];
        var isLast := o.key in lastOrders && lastOrders[o.key].id == o.id;
        total := total + if isLast then o.volume else if IsFinal(o.status) then o.volume - o.volumeLeft else o.volume;
        todo := todo - {id};
      }
    }

    method GetTotalTradedVolume() returns (total: int)
      ensures total == TotalTraded(orders)
    {
      total := 0;
      var todo := orders.Keys;
      while todo != {}
        invariant todo <= orders.Keys
        invariant total + Sum(orders, todo, TradedOf) == TotalTraded(orders)
        decreases todo
      {
        var id :| id in todo;
        SumTake(orders, todo, TradedOf, id);
        total := total + (orders[id].volume - orders[id].volumeLeft);
        todo := todo - {id};
      }
    }

    method IsAllOrderEnd() returns (ended: bool)
      ensures ended == AllEnded(orders)
    {
      var todo := orders.Keys;
      while todo != {}
        invariant todo <= orders.Keys
        invariant forall id :: id in orders && id !in todo ==> IsFinal(orders[id].status)
        decreases todo
      {
        var id :| id in todo;
        if !IsFinal(orders[id].status) {
          return false;
        }
        todo := todo - {id};
      }
      return true;
    }

    method Update(o: Order)
      modifies this
      ensures View() == UpdateNext(old(View()), o)
    {
      UpdateLatestOrder(o);
      if mode != Static {
        volume := GetTotalVolume();
      }
      var traded := GetTotalTradedVolume();
      volumeLeft := volume - traded;
      var ended := IsAllOrderEnd();
      if ended && volumeLeft == 0 {
        status := BasketFilled;
      } else if ended {
        status := BasketPartialNotActive;
      } else if volumeLeft < volume {
        status := BasketPartialActive;
      } else {
        status := BasketPending;
      }
    }
  }

  class BasketOrderEngine {
    var states: map<nat, BasketOrderState>

    constructor ()
      ensures states == map[]
    {
      states := map[];
    }

    ghost function Objects(): set<object>
      reads this
    {
      set id | id in states :: states[id]
    }

    /** Each basket has an object of its own, none of them the engine. */
    ghost predicate Valid()
      reads this
    {
      && (forall a, b :: a in states && b in states && a != b ==> states[a] != states[b])
      && this !in Objects()
    }

    ghost function View(): map<nat, Basket>
      reads this, Objects()
    {
      map id | id in states :: states[id].View()
    }

    /** A basket already known is returned as it is. */
    method MakeBasketOrderState(id: nat, b: Basket) returns (s: BasketOrderState)
      requires Valid()
      modifies this`states
      ensures Valid() && id in states && s == states[id] && fresh(Objects() - old(Objects()))
      ensures View() == EngineNext(old(View()), Created(id, b))
    {
      if id in states {
        return states[id];
      }
      s := new BasketOrderState(b);
      states := states[id := s];
    }

    /** Orders without a basket, or of an unknown one, are ignored. */
    method TryUpdateBasketOrder(o: Order) returns (ok: bool)
      requires Valid()
      modifies Objects()
      ensures Valid() && states == old(states)
      ensures ok == (o.parentId != 0 && o.parentId in states)
      ensures View() == EngineNext(old(View()), Updated(o))
    {
      if o.parentId == 0 {
        return false;
      }
      if o.parentId !in states {
        return false;
      }
      states[o.parentId].Update(o);
      return true;
    }

    /** The restore of the stored orders: every known basket ends as the replay of its
        own orders, in the order listed. */
    method RestoreOrders(listing: seq<Order>)
      requires Valid()
      modifies Objects()
      ensures Valid() && states == old(states)
      ensures forall id :: id in states && id != 0 ==> View()[id] == Replay(old(View())[id], Of(listing, id))
      ensures 0 in states ==> View()[0] == old(View())[0]
    {
      hide Replay, Of, UpdateNext;
      var i := 0;
      forall b, id ensures Replay(b, Of(listing[..0], id)) == b {
        ReplayNothing(b, id);
        assert listing[..0] == [];
      }
      while i < |listing|
        invariant 0 <= i <= |listing| && Valid() && states == old(states)
        invariant forall id :: id in states && id != 0 ==> View()[id] == Replay(old(View())[id], Of(listing[..i], id))
        invariant 0 in states ==> View()[0] == old(View())[0]
      {
        ghost var before := View();
        var ok := TryUpdateBasketOrder(listing[i]);
        forall id | id in states && id != 0
          ensures View()[id] == Replay(old(View())[id], Of(listing[..i + 1], id))
        {
          ReplayOfNext(old(View())[id], listing, i, id);
        }
        i := i + 1;
      }
      assert listing[..|listing|] == listing;
    }
  }

  lemma {:induction false} ReplayNothing(b: Basket, basket: nat)
    ensures Replay(b, Of([], basket)) == b
  {
  }

  lemma {:induction false} ReplayOfNext(b: Basket, us: seq<Order>, i: nat, basket: nat)
    requires i < |us|
    ensures Replay(b, Of(us[..i + 1], basket)) ==
            if us[i].parentId == basket then UpdateNext(Replay(b, Of(us[..i], basket)), us[i])
            else Replay(b, Of(us[..i], basket))
  {
    assert us[..i + 1][..i] == us[..i];
    var before, after := Of(us[..i], basket), Of(us[..i + 1], basket);
    if us[i].parentId == basket {
      assert after[..|after| - 1] == before;
    }
  }
}
