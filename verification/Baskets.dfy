/** Basket order state as a function of its order updates: the latest-order index, the
    volumes and the derived status, and why a restore in any order agrees with the live
    run. */
module Baskets {
  import opened OrderStatuses

  type OrderId = nat
  type InstrumentKey = nat

  datatype BasketStatus = BasketUnknown | BasketPending | BasketPartialNotActive | BasketPartialActive | BasketFilled

  datatype Mode = Static | Dynamic

  datatype Order = Order(id: OrderId, parentId: nat, key: InstrumentKey, insertTime: int, volume: int,
                         volumeLeft: int, status: OrderStatus)

  type Orders = map<OrderId, Order>
  type LastOrders = map<InstrumentKey, Order>

  /** The state of one basket: its own fields, its orders, and per instrument the order
      inserted last. */
  datatype Basket = Basket(mode: Mode, volume: int, volumeLeft: int, status: BasketStatus,
                           orders: Orders, last: LastOrders)

  /** A sum over the orders of a map, which does not depend on the listing. */
  ghost function Sum(orders: Orders, keys: set<OrderId>, f: Order -> int): int
    requires keys <= orders.Keys
  {
    if keys == {} then 0
    else
      var k :| k in keys;
      f(orders[k]) + Sum(orders, keys - {k}, f)
  }

  lemma {:induction false} SumTake(orders: Orders, keys: set<OrderId>, f: Order -> int, k: OrderId)
    requires keys <= orders.Keys && k in keys
    ensures Sum(orders, keys, f) == f(orders[k]) + Sum(orders, keys - {k}, f)
    decreases keys
  {
    var j :| j in keys && Sum(orders, keys, f) == f(orders[j]) + Sum(orders, keys - {j}, f);
    if j != k {
      SumTake(orders, keys - {j}, f, k);
      SumTake(orders, keys - {k}, f, j);
      assert keys - {j} - {k} == keys - {k} - {j};
    }
  }

  lemma {:induction false} SumAtMost(orders: Orders, keys: set<OrderId>, f: Order -> int, g: Order -> int)
    requires keys <= orders.Keys && forall k :: k in keys ==> f(orders[k]) <= g(orders[k])
    ensures Sum(orders, keys, f) <= Sum(orders, keys, g)
    decreases keys
  {
    if keys != {} {
      var k :| k in keys;
      SumTake(orders, keys, f, k);
      SumTake(orders, keys, g, k);
      SumAtMost(orders, keys - {k}, f, g);
    }
  }

  function TradedOf(o: Order): int { o.volume - o.volumeLeft }

  /** A superseded order that has ended counts for what it traded, any other for all. */
  function CountedOf(last: LastOrders): Order -> int {
    (o: Order) =>
      if o.key in last && last[o.key].id == o.id then o.volume
      else if IsFinal(o.status) then TradedOf(o)
      else o.volume
  }

  ghost function TotalTraded(orders: Orders): int { Sum(orders, orders.Keys, TradedOf) }

  ghost function TotalVolume(orders: Orders, last: LastOrders): int { Sum(orders, orders.Keys, CountedOf(last)) }

  predicate AllEnded(orders: Orders) {
    forall id :: id in orders ==> IsFinal(orders[id].status)
  }

  function StatusOf(ended: bool, volume: int, volumeLeft: int): BasketStatus {
    if ended && volumeLeft == 0 then BasketFilled
    else if ended then BasketPartialNotActive
    else if volumeLeft < volume then BasketPartialActive
    else BasketPending
  }

  /** The index keeps the order inserted last; an equal time replaces. */
  function LastNext(last: LastOrders, o: Order): LastOrders {
    if o.key in last && last[o.key].insertTime > o.insertTime then last else last[o.key := o]
  }

  ghost function Summary(b: Basket): Basket {
    var volume := if b.mode == Static then b.volume else TotalVolume(b.orders, b.last);
    var left := volume - TotalTraded(b.orders);
    Basket(b.mode, volume, left, StatusOf(AllEnded(b.orders), volume, left), b.orders, b.last)
  }

  ghost function UpdateNext(b: Basket, o: Order): Basket {
    Summary(b.(orders := b.orders[o.id := o], last := LastNext(b.last, o)))
  }

  /** The index and the orders after a sequence of updates. */
  function OrdersAfter(us: seq<Order>): Orders {
    if us == [] then map[] else OrdersAfter(us[..|us| - 1])[us[|us| - 1].id := us[|us| - 1]]
  }

  function LastAfter(us: seq<Order>): LastOrders {
    if us == [] then map[] else LastNext(LastAfter(us[..|us| - 1]), us[|us| - 1])
  }

  ghost function Replay(b: Basket, us: seq<Order>): Basket {
    if us == [] then b else UpdateNext(Replay(b, us[..|us| - 1]), us[|us| - 1])
  }

  predicate Empty(b: Basket) {
    b.orders == map[] && b.last == map[]
  }

  lemma {:induction false} ReplayParts(b: Basket, us: seq<Order>)
    requires Empty(b)
    ensures var r := Replay(b, us);
            && r.orders == OrdersAfter(us) && r.last == LastAfter(us) && r.mode == b.mode
            && (b.mode == Static ==> r.volume == b.volume)
            && (us != [] ==> r == Summary(r))
  {
    if us != [] {
      ReplayParts(b, us[..|us| - 1]);
    }
  }

  /** No order changes its instrument or its insert time between updates. */
  predicate Stable(us: seq<Order>) {
    forall i, j :: 0 <= i < |us| && 0 <= j < |us| && us[i].id == us[j].id ==>
      us[i].key == us[j].key && us[i].insertTime == us[j].insertTime
  }

  /** The index agrees with the orders: under each key that occurs it holds the current
      version of an order of that key with the greatest insert time. */
  predicate IndexAgrees(orders: Orders, last: LastOrders) {
    && (forall id :: id in orders ==> orders[id].id == id)
    && (forall k :: k in last ==> last[k].key == k && last[k].id in orders && orders[last[k].id] == last[k])
    && (forall id :: id in orders ==> orders[id].key in last && orders[id].insertTime <= last[orders[id].key].insertTime)
  }

  lemma {:induction false} OrdersAfterLatest(us: seq<Order>, id: OrderId)
    requires id in OrdersAfter(us)
    ensures exists i :: 0 <= i < |us| && us[i].id == id && us[i] == OrdersAfter(us)[id]
                        && forall j :: i < j < |us| ==> us[j].id != id
  {
    var n := |us| - 1;
    if us[n].id != id {
      OrdersAfterLatest(us[..n], id);
      var i :| 0 <= i < n && us[..n][i].id == id && us[..n][i] == OrdersAfter(us[..n])[id]
               && forall j :: i < j < n ==> us[..n][j].id != id;
      assert us[i] == us[..n][i];
      forall j | i < j < |us| ensures us[j].id != id {
        if j < n { assert us[j] == us[..n][j]; }
      }
    }
  }

  /** The index agrees with the orders after every update of a live run, ties included. */
  lemma {:induction false} IndexStaysAgreed(us: seq<Order>)
    requires Stable(us)
    ensures IndexAgrees(OrdersAfter(us), LastAfter(us))
  {
    if us != [] {
      var n := |us| - 1;
      var orders, last, o := OrdersAfter(us[..n]), LastAfter(us[..n]), us[n];
      IndexStaysAgreed(us[..n]);
      if o.id in orders {
        OrdersAfterLatest(us[..n], o.id);
        var i :| 0 <= i < n && us[..n][i].id == o.id && us[..n][i] == orders[o.id];
        assert us[i] == us[..n][i];
        assert orders[o.id].key == o.key && orders[o.id].insertTime == o.insertTime;
      }
      IndexStep(orders, last, o);
    }
  }

  lemma {:induction false} IndexStep(orders: Orders, last: LastOrders, o: Order)
    requires IndexAgrees(orders, last)
    requires o.id in orders ==> orders[o.id].key == o.key && orders[o.id].insertTime == o.insertTime
    ensures IndexAgrees(orders[o.id := o], LastNext(last, o))
  {
  }

  /** Per instrument, one order alone has the greatest insert time. */
  predicate UniqueLast(orders: Orders) {
    forall a, b :: a in orders && b in orders && a != b && orders[a].key == orders[b].key
                   && orders[a].insertTime == orders[b].insertTime ==>
      exists c :: c in orders && orders[c].key == orders[a].key && orders[c].insertTime > orders[a].insertTime
  }

  /** The order in last place, wherever the index came from, is one with no later rival. */
  lemma {:induction false} LastIsGreatest(orders: Orders, x: LastOrders, k: InstrumentKey)
    requires IndexAgrees(orders, x) && k in x
    ensures var a := x[k].id;
            && a in orders && orders[a] == x[k] && orders[a].key == k
            && forall c :: c in orders && orders[c].key == k ==> orders[c].insertTime <= orders[a].insertTime
  {
  }

  lemma {:induction false} OneGreatest(orders: Orders, a: OrderId, b: OrderId, k: InstrumentKey)
    requires UniqueLast(orders) && a in orders && b in orders && orders[a].key == k == orders[b].key
    requires forall c :: c in orders && orders[c].key == k ==>
               orders[c].insertTime <= orders[a].insertTime && orders[c].insertTime <= orders[b].insertTime
    ensures a == b
  {
  }

  /** The agreement fixes the index when the last order of each instrument is unique. */
  lemma {:induction false} IndexDetermined(orders: Orders, x: LastOrders, y: LastOrders)
    requires IndexAgrees(orders, x) && IndexAgrees(orders, y) && UniqueLast(orders)
    ensures x == y
  {
    hide IndexAgrees, UniqueLast;
    IndexCovers(orders, x, y);
    IndexCovers(orders, y, x);
    forall k | k in x ensures k in y && x[k] == y[k] {
      LastIsGreatest(orders, x, k);
      LastIsGreatest(orders, y, k);
      OneGreatest(orders, x[k].id, y[k].id, k);
    }
  }

  lemma {:induction false} IndexCovers(orders: Orders, x: LastOrders, y: LastOrders)
    requires IndexAgrees(orders, x) && IndexAgrees(orders, y)
    ensures x.Keys <= y.Keys
  {
    forall k | k in x ensures k in y {
      assert orders[x[k].id].key in y;
    }
  }

  predicate Distinct(us: seq<Order>) {
    forall i, j :: 0 <= i < j < |us| ==> us[i].id != us[j].id
  }

  /** A restore lists each stored order once, in some order. */
  predicate Lists(us: seq<Order>, orders: Orders) {
    && Distinct(us)
    && (forall i :: 0 <= i < |us| ==> us[i].id in orders && orders[us[i].id] == us[i])
    && (forall id :: id in orders ==> exists i :: 0 <= i < |us| && us[i].id == id)
  }

  lemma {:induction false} OrdersAfterDomain(us: seq<Order>)
    ensures forall i :: 0 <= i < |us| ==> us[i].id in OrdersAfter(us)
  {
    if us != [] {
      OrdersAfterDomain(us[..|us| - 1]);
      forall i | 0 <= i < |us| ensures us[i].id in OrdersAfter(us) {
        if i < |us| - 1 { assert us[i] == us[..|us| - 1][i]; }
      }
    }
  }

  lemma {:induction false} ListsRebuild(us: seq<Order>, orders: Orders)
    requires Lists(us, orders)
    ensures OrdersAfter(us) == orders && Stable(us)
  {
    OrdersAfterDomain(us);
    forall id | id in OrdersAfter(us) ensures id in orders && OrdersAfter(us)[id] == orders[id] {
      OrdersAfterLatest(us, id);
    }
    assert forall id :: id in orders ==> id in OrdersAfter(us);
  }

  /** Restoring from the stored orders in any order gives the same orders, index,
      volumes and status as the whole live run did. */
  lemma {:induction false} RestoreAgreesWithLive(live: Basket, restored: Basket, us: seq<Order>, listing: seq<Order>)
    requires Empty(live) && Empty(restored) && live.mode == restored.mode
    requires live.mode == Static ==> live.volume == restored.volume
    requires us != [] && Stable(us) && UniqueLast(OrdersAfter(us)) && Lists(listing, OrdersAfter(us))
    ensures Replay(restored, listing) == Replay(live, us)
  {
    ListingNonEmpty(us, listing);
    hide IndexAgrees, UniqueLast, Lists, Stable, Replay, Summary, OrdersAfter, LastAfter;
    ReplayParts(live, us);
    ReplayParts(restored, listing);
    ListsRebuild(listing, OrdersAfter(us));
    IndexStaysAgreed(us);
    IndexStaysAgreed(listing);
    IndexDetermined(OrdersAfter(us), LastAfter(us), LastAfter(listing));
    SummaryDetermined(Replay(live, us), Replay(restored, listing));
  }

  lemma {:induction false} SummaryDetermined(x: Basket, y: Basket)
    requires x.orders == y.orders && x.last == y.last && x.mode == y.mode
    requires x.mode == Static ==> x.volume == y.volume
    ensures Summary(x) == Summary(y)
  {
  }

  lemma {:induction false} ListingNonEmpty(us: seq<Order>, listing: seq<Order>)
    requires us != [] && Lists(listing, OrdersAfter(us))
    ensures listing != []
  {
    OrdersAfterDomain(us);
    assert us[0].id in OrdersAfter(us);
  }

  /** Every listing of the orders gives one index. */
  ghost predicate Confluent(orders: Orders) {
    forall x, y :: Lists(x, orders) && Lists(y, orders) ==> LastAfter(x) == LastAfter(y)
  }

  /** The order of the restore cannot matter exactly when no two orders tie for the
      last place of an instrument. */
  lemma {:induction false} ConfluentExactly(orders: Orders)
    requires forall id :: id in orders ==> orders[id].id == id
    ensures Confluent(orders) <==> UniqueLast(orders)
  {
    if UniqueLast(orders) {
      hide UniqueLast, Lists, IndexAgrees;
      forall x, y | Lists(x, orders) && Lists(y, orders) ensures LastAfter(x) == LastAfter(y) {
        ListsRebuild(x, orders);
        ListsRebuild(y, orders);
        IndexStaysAgreed(x);
        IndexStaysAgreed(y);
        IndexDetermined(orders, LastAfter(x), LastAfter(y));
      }
    } else {
      TieDiffers(orders);
    }
  }

  /** Two orders share the last place of an instrument. */
  predicate Tied(orders: Orders, a: OrderId, b: OrderId) {
    && a in orders && b in orders && a != b && orders[a].id == a && orders[b].id == b
    && orders[a].key == orders[b].key && orders[a].insertTime == orders[b].insertTime
    && forall c :: c in orders && orders[c].key == orders[a].key ==> orders[c].insertTime <= orders[a].insertTime
  }

  lemma {:induction false} FindTie(orders: Orders) returns (a: OrderId, b: OrderId)
    requires (forall id :: id in orders ==> orders[id].id == id) && !UniqueLast(orders)
    ensures Tied(orders, a, b) && Tied(orders, b, a)
  {
    a, b :| a in orders && b in orders && a != b && orders[a].key == orders[b].key
            && orders[a].insertTime == orders[b].insertTime
            && !exists c :: c in orders && orders[c].key == orders[a].key && orders[c].insertTime > orders[a].insertTime;
  }

  lemma {:induction false} TieDiffers(orders: Orders)
    requires (forall id :: id in orders ==> orders[id].id == id) && !UniqueLast(orders)
    ensures !Confluent(orders)
  {
    hide Lists, UniqueLast, LastAfter;
    var a, b := FindTie(orders);
    var rest := SomeListing(orders - {a, b});
    TwoMore(rest, orders, a, b);
    assert orders - {a, b} == orders - {b, a};
    TwoMore(rest, orders, b, a);
    LastWins(rest, orders, a, b);
    LastWins(rest, orders, b, a);
    assert LastAfter(rest + [orders[a], orders[b]]) != LastAfter(rest + [orders[b], orders[a]]);
  }

  lemma {:induction false} SomeListing(orders: Orders) returns (us: seq<Order>)
    requires forall id :: id in orders ==> orders[id].id == id
    ensures Lists(us, orders)
    decreases orders.Keys
  {
    us := [];
    if orders.Keys != {} {
      var id :| id in orders;
      var before := SomeListing(orders - {id});
      us := before + [orders[id]];
      OneMore(before, orders, id);
    }
  }

  lemma {:induction false} OneMore(rest: seq<Order>, orders: Orders, a: OrderId)
    requires a in orders && orders[a].id == a && Lists(rest, orders - {a})
    ensures Lists(rest + [orders[a]], orders)
  {
    var us := rest + [orders[a]];
    forall id | id in orders ensures exists i :: 0 <= i < |us| && us[i].id == id {
      if id == a {
        assert us[|rest|].id == id;
      } else {
        assert id in orders - {a};
        var i :| 0 <= i < |rest| && rest[i].id == id;
        assert us[i].id == id;
      }
    }
  }

  lemma {:induction false} TwoMore(rest: seq<Order>, orders: Orders, a: OrderId, b: OrderId)
    requires a in orders && b in orders && a != b && orders[a].id == a && orders[b].id == b
    requires Lists(rest, orders - {a, b})
    ensures Lists(rest + [orders[a], orders[b]], orders)
  {
    hide Lists;
    assert orders - {a, b} == orders - {b} - {a};
    OneMore(rest, orders - {b}, a);
    OneMore(rest + [orders[a]], orders, b);
    assert rest + [orders[a]] + [orders[b]] == rest + [orders[a], orders[b]];
  }

  lemma {:induction false} LastAmong(us: seq<Order>, k: InstrumentKey)
    requires k in LastAfter(us)
    ensures exists i :: 0 <= i < |us| && us[i].key == k && LastAfter(us)[k] == us[i]
  {
    var n := |us| - 1;
    if LastAfter(us)[k] != us[n] || us[n].key != k {
      LastAmong(us[..n], k);
      var i :| 0 <= i < n && us[..n][i].key == k && LastAfter(us[..n])[k] == us[..n][i];
      assert us[i] == us[..n][i];
    }
  }

  /** Of two orders tied for the last place, the one listed last wins. */
  lemma {:induction false} LastWins(rest: seq<Order>, orders: Orders, a: OrderId, b: OrderId)
    requires Tied(orders, a, b)
    requires Lists(rest, orders - {a, b})
    ensures var last := LastAfter(rest + [orders[a], orders[b]]);
            orders[b].key in last && last[orders[b].key] == orders[b]
  {
    var us := rest + [orders[a], orders[b]];
    assert us[..|us| - 1] == rest + [orders[a]];
    assert (rest + [orders[a]])[..|rest|] == rest;
    var k, before := orders[a].key, LastAfter(rest);
    if k in before {
      LastAmong(rest, k);
      var i :| 0 <= i < |rest| && rest[i].key == k && before[k] == rest[i];
      assert rest[i].id in orders;
    }
  }

  /** The dynamic volume covers what was traded, so what is left is never negative. */
  lemma {:induction false} DynamicLeftNonNegative(b: Basket)
    requires b.mode == Dynamic
    requires forall id :: id in b.orders ==> 0 <= b.orders[id].volumeLeft <= b.orders[id].volume
    ensures TotalTraded(b.orders) <= TotalVolume(b.orders, b.last)
    ensures 0 <= Summary(b).volumeLeft <= Summary(b).volume
  {
    SumAtMost(b.orders, b.orders.Keys, TradedOf, CountedOf(b.last));
    SumAtMost(b.orders, b.orders.Keys, (o: Order) => 0, TradedOf);
    SumZero(b.orders, b.orders.Keys);
  }

  lemma {:induction false} SumZero(orders: Orders, keys: set<OrderId>)
    requires keys <= orders.Keys
    ensures Sum(orders, keys, (o: Order) => 0) == 0
    decreases keys
  {
    if keys != {} {
      var k :| k in keys;
      SumTake(orders, keys, (o: Order) => 0, k);
      SumZero(orders, keys - {k});
    }
  }

  /** The updates of one basket among those of all. */
  function Of(us: seq<Order>, basket: nat): (r: seq<Order>) {
    if us == [] then []
    else
      var before, o := Of(us[..|us| - 1], basket), us[|us| - 1];
      if o.parentId == basket then before + [o] else before
  }

  lemma {:induction false} OfMembers(us: seq<Order>, basket: nat)
    ensures forall o :: o in Of(us, basket) <==> o in us && o.parentId == basket
  {
    if us != [] {
      var n := |us| - 1;
      OfMembers(us[..n], basket);
      assert us == us[..n] + [us[n]];
    }
  }

  lemma {:induction false} OfStable(us: seq<Order>, basket: nat)
    requires Stable(us)
    ensures Stable(Of(us, basket))
  {
    var r := Of(us, basket);
    OfMembers(us, basket);
    forall i, j | 0 <= i < |r| && 0 <= j < |r| && r[i].id == r[j].id
      ensures r[i].key == r[j].key && r[i].insertTime == r[j].insertTime
    {
      assert r[i] in us && r[j] in us;
      var x :| 0 <= x < |us| && us[x] == r[i];
      var y :| 0 <= y < |us| && us[y] == r[j];
    }
  }

  /** No order moves between baskets. */
  predicate StableParents(us: seq<Order>) {
    forall i, j :: 0 <= i < |us| && 0 <= j < |us| && us[i].id == us[j].id ==> us[i].parentId == us[j].parentId
  }

  function Mine(orders: Orders, basket: nat): Orders {
    map id | id in orders && orders[id].parentId == basket :: orders[id]
  }

  lemma {:induction false} OrdersAfterOf(us: seq<Order>, basket: nat)
    requires StableParents(us)
    ensures OrdersAfter(Of(us, basket)) == Mine(OrdersAfter(us), basket)
  {
    if us != [] {
      var n := |us| - 1;
      OrdersAfterOf(us[..n], basket);
      var before, o := OrdersAfter(us[..n]), us[n];
      ParentStays(us);
      hide StableParents;
      var r := Of(us, basket);
      if o.parentId == basket {
        assert r[..|r| - 1] == Of(us[..n], basket) && r[|r| - 1] == o;
      }
      assert Mine(before[o.id := o], basket) ==
             if o.parentId == basket then Mine(before, basket)[o.id := o] else Mine(before, basket);
    }
  }

  lemma {:induction false} ParentStays(us: seq<Order>)
    requires StableParents(us) && us != []
    ensures var before, o := OrdersAfter(us[..|us| - 1]), us[|us| - 1];
            o.id in before ==> before[o.id].parentId == o.parentId
  {
    var n := |us| - 1;
    var before, o := OrdersAfter(us[..n]), us[n];
    if o.id in before {
      OrdersAfterLatest(us[..n], o.id);
      var i :| 0 <= i < n && us[..n][i].id == o.id && us[..n][i] == before[o.id];
      assert us[i] == us[..n][i];
    }
  }

  lemma {:induction false} DistinctAppend(us: seq<Order>, o: Order)
    requires Distinct(us) && forall u :: u in us ==> u.id != o.id
    ensures Distinct(us + [o])
  {
  }

  lemma {:induction false} OfDistinct(us: seq<Order>, basket: nat)
    requires Distinct(us)
    ensures Distinct(Of(us, basket))
  {
    if us != [] {
      var n := |us| - 1;
      OfDistinct(us[..n], basket);
      OfMembers(us[..n], basket);
      forall u | u in Of(us[..n], basket) ensures u.id != us[n].id {
        var x :| 0 <= x < n && us[..n][x] == u;
        assert us[x].id != us[n].id;
      }
      DistinctAppend(Of(us[..n], basket), us[n]);
    }
  }

  lemma {:induction false} OfLists(listing: seq<Order>, orders: Orders, basket: nat)
    requires Lists(listing, orders)
    ensures Lists(Of(listing, basket), Mine(orders, basket))
  {
    OfDistinct(listing, basket);
    OfMembers(listing, basket);
    var r := Of(listing, basket);
    var mine := Mine(orders, basket);
    forall id | id in mine ensures exists i :: 0 <= i < |r| && r[i].id == id {
      var i :| 0 <= i < |listing| && listing[i].id == id;
      assert listing[i] in r;
      var j :| 0 <= j < |r| && r[j] == listing[i];
    }
    forall i | 0 <= i < |r| ensures r[i].id in mine && mine[r[i].id] == r[i] {
      assert r[i] in listing;
    }
  }

  /** What the engine hears: a basket order, or an order. */
  datatype EngineEvent = Created(id: nat, basket: Basket) | Updated(order: Order)

  type Engine = map<nat, Basket>

  function Fresh(b: Basket): Basket {
    b.(orders := map[], last := map[])
  }

  /** A basket that is known stays as it is; an order of none, or of an unknown basket, is
      ignored. */
  ghost function EngineNext(s: Engine, e: EngineEvent): Engine {
    match e
    case Created(id, b) => if id in s then s else s[id := Fresh(b)]
    case Updated(o) => if o.parentId != 0 && o.parentId in s then s[o.parentId := UpdateNext(s[o.parentId], o)] else s
  }

  ghost function EngineRun(events: seq<EngineEvent>): Engine {
    if events == [] then map[] else EngineNext(EngineRun(events[..|events| - 1]), events[|events| - 1])
  }

  /** The orders the engine has heard of, counted or not. */
  function Heard(events: seq<EngineEvent>): seq<Order> {
    if events == [] then []
    else
      var before, e := Heard(events[..|events| - 1]), events[|events| - 1];
      if e.Updated? then before + [e.order] else before
  }

  predicate Known(events: seq<EngineEvent>, basket: nat) {
    exists i :: 0 <= i < |events| && events[i].Created? && events[i].id == basket
  }

  /** The basket as it was created. */
  function CreatedAs(events: seq<EngineEvent>, basket: nat): Basket
    requires Known(events, basket)
  {
    if Known(events[..|events| - 1], basket) then CreatedAs(events[..|events| - 1], basket)
    else Fresh(events[|events| - 1].basket)
  }

  /** The updates of the basket before it was known, which are dropped, and from then on. */
  function Dropped(events: seq<EngineEvent>, basket: nat): seq<Order> {
    if events == [] then []
    else
      var n := |events| - 1;
      var before, e := Dropped(events[..n], basket), events[n];
      if e.Updated? && e.order.parentId == basket && !Known(events[..n], basket) then before + [e.order] else before
  }

  function Counted(events: seq<EngineEvent>, basket: nat): seq<Order> {
    if events == [] then []
    else
      var n := |events| - 1;
      var before, e := Counted(events[..n], basket), events[n];
      if e.Updated? && e.order.parentId == basket && Known(events[..n], basket) then before + [e.order] else before
  }

  lemma {:induction false} KnownNext(events: seq<EngineEvent>, basket: nat)
    requires events != []
    ensures var n := |events| - 1;
            Known(events, basket) <==>
              Known(events[..n], basket) || (events[n].Created? && events[n].id == basket)
  {
    var n := |events| - 1;
    if Known(events[..n], basket) {
      var i :| 0 <= i < n && events[..n][i].Created? && events[..n][i].id == basket;
      assert events[i].Created? && events[i].id == basket;
    }
    if i :| 0 <= i < n && events[i].Created? && events[i].id == basket {
      assert events[..n][i].Created? && events[..n][i].id == basket;
    }
  }

  lemma {:induction false} UnknownCountsNothing(events: seq<EngineEvent>, basket: nat)
    requires !Known(events, basket)
    ensures Counted(events, basket) == []
  {
    if events != [] {
      KnownNext(events, basket);
      UnknownCountsNothing(events[..|events| - 1], basket);
    }
  }

  /** The engine's state of a basket is the replay of the updates it counted. */
  lemma {:induction false} EngineReplays(events: seq<EngineEvent>, basket: nat)
    requires basket != 0
    ensures basket in EngineRun(events) <==> Known(events, basket)
    ensures Known(events, basket) ==>
              EngineRun(events)[basket] == Replay(CreatedAs(events, basket), Counted(events, basket))
  {
    hide Known, UpdateNext;
    if events == [] {
      NothingKnown(basket);
    } else {
      var n := |events| - 1;
      EngineReplays(events[..n], basket);
      KnownNext(events, basket);
      if !Known(events[..n], basket) {
        UnknownCountsNothing(events[..n], basket);
      } else if events[n].Updated? && events[n].order.parentId == basket {
        var c := Counted(events, basket);
        assert c[..|c| - 1] == Counted(events[..n], basket);
      }
    }
  }

  lemma {:induction false} NothingKnown(basket: nat)
    ensures !Known([], basket)
  {
  }

  /** What was dropped comes first. */
  lemma {:induction false} DroppedThenCounted(events: seq<EngineEvent>, basket: nat)
    ensures Of(Heard(events), basket) == Dropped(events, basket) + Counted(events, basket)
  {
    hide Known;
    if events != [] {
      var n := |events| - 1;
      DroppedThenCounted(events[..n], basket);
      if events[n].Updated? {
        var h := Heard(events);
        assert h[..|h| - 1] == Heard(events[..n]);
        if !Known(events[..n], basket) { UnknownCountsNothing(events[..n], basket); }
      }
    }
  }

  lemma {:induction false} OrdersAfterBoth(a: seq<Order>, b: seq<Order>)
    ensures OrdersAfter(a + b) == OrdersAfter(a) + OrdersAfter(b)
    decreases |b|
  {
    if b == [] {
      assert a + b == a;
    } else {
      var n := |b| - 1;
      assert (a + b)[..|a| + n] == a + b[..n] && (a + b)[|a| + n] == b[n];
      OrdersAfterBoth(a, b[..n]);
    }
  }

  lemma {:induction false} OrdersAfterMentions(us: seq<Order>, id: OrderId)
    ensures id in OrdersAfter(us) <==> exists i :: 0 <= i < |us| && us[i].id == id
  {
    OrdersAfterDomain(us);
    if id in OrdersAfter(us) { OrdersAfterLatest(us, id); }
  }

  /** Every order dropped because its basket was not known yet was updated again later. */
  predicate HeardAgain(events: seq<EngineEvent>, basket: nat) {
    var dropped, counted := Dropped(events, basket), Counted(events, basket);
    forall i :: 0 <= i < |dropped| ==> exists j :: 0 <= j < |counted| && counted[j].id == dropped[i].id
  }

  lemma {:induction false} SameOrdersExactly(events: seq<EngineEvent>, basket: nat)
    ensures OrdersAfter(Of(Heard(events), basket)) == OrdersAfter(Counted(events, basket)) <==> HeardAgain(events, basket)
  {
    hide OrdersAfter, Dropped, Counted, Heard, Of;
    var dropped, counted := Dropped(events, basket), Counted(events, basket);
    DroppedThenCounted(events, basket);
    OrdersAfterBoth(dropped, counted);
    var all, c := OrdersAfter(dropped) + OrdersAfter(counted), OrdersAfter(counted);
    if HeardAgain(events, basket) {
      forall id | id in all ensures id in c && all[id] == c[id] {
        if id in OrdersAfter(dropped) {
          OrdersAfterMentions(dropped, id);
          var i :| 0 <= i < |dropped| && dropped[i].id == id;
          OrdersAfterMentions(counted, id);
        }
      }
    } else {
      var i :| 0 <= i < |dropped| && !exists j :: 0 <= j < |counted| && counted[j].id == dropped[i].id;
      OrdersAfterMentions(dropped, dropped[i].id);
      OrdersAfterMentions(counted, dropped[i].id);
      assert dropped[i].id in all && dropped[i].id !in c;
    }
  }

  /** The engine's restore, over the stored orders of all baskets in any order, brings a
      basket that has orders to the state of the live engine exactly when every order it
      dropped, because its basket was not known yet, was updated again afterwards. */
  lemma {:induction false} EngineRestoreExactly(events: seq<EngineEvent>, basket: nat, restored: Basket, listing: seq<Order>)
    requires basket != 0 && Known(events, basket) && Of(Heard(events), basket) != []
    requires Empty(restored) && restored.mode == CreatedAs(events, basket).mode
    requires restored.mode == Static ==> restored.volume == CreatedAs(events, basket).volume
    requires Stable(Heard(events)) && StableParents(Heard(events)) && Lists(listing, OrdersAfter(Heard(events)))
    requires UniqueLast(OrdersAfter(Of(Heard(events), basket)))
    ensures basket in EngineRun(events)
    ensures Replay(restored, Of(listing, basket)) == EngineRun(events)[basket] <==> HeardAgain(events, basket)
  {
    hide *;
    EngineReplays(events, basket);
    SameOrdersExactly(events, basket);
    var us, live, counted := Of(Heard(events), basket), CreatedAs(events, basket), Counted(events, basket);
    CreatedEmpty(events, basket);
    OfLists(listing, OrdersAfter(Heard(events)), basket);
    OrdersAfterOf(Heard(events), basket);
    OfStable(Heard(events), basket);
    if HeardAgain(events, basket) {
      CountedSomething(events, basket);
      CountedStable(events, basket);
      RestoreAgreesWithLive(live, restored, counted, Of(listing, basket));
    } else {
      ReplayParts(live, counted);
      ReplayParts(restored, Of(listing, basket));
      ListsRebuild(Of(listing, basket), OrdersAfter(us));
    }
  }

  /** So a basket that was known before its first order is restored to its live state. */
  lemma {:induction false} EngineRestoreAgrees(events: seq<EngineEvent>, basket: nat, restored: Basket, listing: seq<Order>)
    requires basket != 0 && Known(events, basket) && Of(Heard(events), basket) != [] && Dropped(events, basket) == []
    requires Empty(restored) && restored.mode == CreatedAs(events, basket).mode
    requires restored.mode == Static ==> restored.volume == CreatedAs(events, basket).volume
    requires Stable(Heard(events)) && StableParents(Heard(events)) && Lists(listing, OrdersAfter(Heard(events)))
    requires UniqueLast(OrdersAfter(Of(Heard(events), basket)))
    ensures basket in EngineRun(events) && Replay(restored, Of(listing, basket)) == EngineRun(events)[basket]
  {
    hide *;
    NothingDropped(events, basket);
    EngineRestoreExactly(events, basket, restored, listing);
  }

  lemma {:induction false} NothingDropped(events: seq<EngineEvent>, basket: nat)
    ensures Dropped(events, basket) == [] ==> HeardAgain(events, basket)
  {
  }

  lemma {:induction false} CreatedEmpty(events: seq<EngineEvent>, basket: nat)
    requires Known(events, basket)
    ensures Empty(CreatedAs(events, basket))
  {
    if Known(events[..|events| - 1], basket) { CreatedEmpty(events[..|events| - 1], basket); }
  }

  lemma {:induction false} CountedSomething(events: seq<EngineEvent>, basket: nat)
    requires HeardAgain(events, basket) && Of(Heard(events), basket) != []
    ensures Counted(events, basket) != []
  {
    hide Dropped, Counted, Of, Heard;
    DroppedThenCounted(events, basket);
    var dropped, counted := Dropped(events, basket), Counted(events, basket);
    if dropped != [] {
      var j :| 0 <= j < |counted| && counted[j].id == dropped[0].id;
    }
  }

  lemma {:induction false} CountedStable(events: seq<EngineEvent>, basket: nat)
    requires Stable(Of(Heard(events), basket))
    ensures Stable(Counted(events, basket))
  {
    hide Dropped, Counted, Of, Heard;
    DroppedThenCounted(events, basket);
    var d, c, us := Dropped(events, basket), Counted(events, basket), Of(Heard(events), basket);
    forall i, j | 0 <= i < |c| && 0 <= j < |c| && c[i].id == c[j].id
      ensures c[i].key == c[j].key && c[i].insertTime == c[j].insertTime
    {
      assert us[|d| + i] == c[i] && us[|d| + j] == c[j];
    }
  }

  lemma {:induction false} EarlyParts(o: Order, b: Basket)
    ensures var events, basket := [Updated(o), Created(o.parentId, b)], o.parentId;
            && Known(events, basket) && Heard(events) == [o]
            && Dropped(events, basket) == [o] && Counted(events, basket) == []
  {
    hide Known;
    var u, c := Updated(o), Created(o.parentId, b);
    var events, basket := [u, c], o.parentId;
    assert events[..1] == [u] && [u][..0] == [];
    KnownNext(events, basket);
    KnownNext([u], basket);
    NothingKnown(basket);
    assert Heard([u][..0]) == [];
    assert Heard([u]) == [u.order];
    UnknownCountsNothing([u], basket);
    assert Dropped([u], basket) == [o];
  }

  /** An order heard just before its basket: the live engine never counts it, a restore
      does. */
  lemma {:induction false} EarlyOrderShows(o: Order, b: Basket)
    requires o.parentId != 0
    ensures var events := [Updated(o), Created(o.parentId, b)];
            && Known(events, o.parentId) && !HeardAgain(events, o.parentId)
            && Of(Heard(events), o.parentId) == [o]
            && o.parentId in EngineRun(events) && EngineRun(events)[o.parentId].orders == map[]
  {
    hide Known, Heard, Dropped, Counted, EngineRun, CreatedAs, Of;
    var events, basket := [Updated(o), Created(o.parentId, b)], o.parentId;
    EarlyParts(o, b);
    assert Dropped(events, basket)[0].id == o.id;
    DroppedThenCounted(events, basket);
    EngineReplays(events, basket);
    CreatedEmpty(events, basket);
  }

  predicate SomeLive(orders: Orders) {
    exists id :: id in orders && !IsFinal(orders[id].status)
  }

  predicate SoundOrders(orders: Orders) {
    forall id :: id in orders ==> 0 <= orders[id].volumeLeft <= orders[id].volume
  }

  /** The status of a basket read off its orders: what was traded and what is left make up
      its volume; with a live order it is active or pending as something was traded or not,
      and without one it is filled or not as nothing is left or something. */
  ghost predicate StatusFits(b: Basket) {
    && b.volumeLeft + TotalTraded(b.orders) == b.volume
    && (b.status == BasketFilled <==> !SomeLive(b.orders) && TotalTraded(b.orders) == b.volume)
    && (b.status == BasketPartialNotActive <==> !SomeLive(b.orders) && TotalTraded(b.orders) != b.volume)
    && (b.status == BasketPartialActive <==> SomeLive(b.orders) && TotalTraded(b.orders) > 0)
    && (b.status == BasketPending <==> SomeLive(b.orders) && TotalTraded(b.orders) <= 0)
    && (SoundOrders(b.orders) ==>
          (TotalTraded(b.orders) > 0 <==> exists id :: id in b.orders && b.orders[id].volumeLeft < b.orders[id].volume))
  }

  lemma {:induction false} TradedSomething(orders: Orders, keys: set<OrderId>)
    requires keys <= orders.Keys && SoundOrders(orders)
    ensures Sum(orders, keys, TradedOf) >= 0
    ensures Sum(orders, keys, TradedOf) > 0 <==> exists id :: id in keys && orders[id].volumeLeft < orders[id].volume
    decreases keys
  {
    if keys != {} {
      var k :| k in keys;
      SumTake(orders, keys, TradedOf, k);
      TradedSomething(orders, keys - {k});
    }
  }

  lemma {:induction false} StatusExactly(b: Basket)
    ensures StatusFits(Summary(b))
  {
    if SoundOrders(b.orders) { TradedSomething(b.orders, b.orders.Keys); }
  }

  /** In every run, once the engine counted an order of a basket, the basket holds exactly
      the latest versions it counted and its status is the one that fits them. */
  lemma {:induction false} EngineStatusExactly(events: seq<EngineEvent>, basket: nat)
    requires basket != 0 && Known(events, basket) && Counted(events, basket) != []
    ensures basket in EngineRun(events)
    ensures var b := EngineRun(events)[basket];
            b.orders == OrdersAfter(Counted(events, basket)) && b.last == LastAfter(Counted(events, basket)) && StatusFits(b)
  {
    hide *;
    EngineReplays(events, basket);
    CreatedEmpty(events, basket);
    ReplayParts(CreatedAs(events, basket), Counted(events, basket));
    StatusExactly(EngineRun(events)[basket]);
  }

  /** Basket number 0 is no basket: orders that name it are not counted. */
  lemma {:induction false} ZeroUntouched(events: seq<EngineEvent>)
    ensures Known(events, 0) <==> 0 in EngineRun(events)
    ensures Known(events, 0) ==> EngineRun(events)[0] == CreatedAs(events, 0)
  {
    hide Known, UpdateNext;
    if events == [] {
      NothingKnown(0);
    } else {
      ZeroUntouched(events[..|events| - 1]);
      KnownNext(events, 0);
    }
  }

  lemma {:induction false} SumDifference(orders: Orders, keys: set<OrderId>, f: Order -> int, g: Order -> int, h: Order -> int)
    requires keys <= orders.Keys && forall k :: k in keys ==> f(orders[k]) - g(orders[k]) == h(orders[k])
    ensures Sum(orders, keys, f) - Sum(orders, keys, g) == Sum(orders, keys, h)
    decreases keys
  {
    if keys != {} {
      var k :| k in keys;
      SumTake(orders, keys, f, k);
      SumTake(orders, keys, g, k);
      SumTake(orders, keys, h, k);
      SumDifference(orders, keys - {k}, f, g, h);
    }
  }

  /** What an order has left counts while it is live, or the last of its instrument. */
  function OpenOf(last: LastOrders): Order -> int {
    (o: Order) => if !IsFinal(o.status) || (o.key in last && last[o.key].id == o.id) then o.volumeLeft else 0
  }

  /** What a dynamic basket has left is exactly what its live orders and the last order of
      each instrument have left: a superseded order that ended no longer counts. */
  lemma {:induction false} DynamicLeftExactly(b: Basket)
    requires b.mode == Dynamic
    ensures Summary(b).volumeLeft == Sum(b.orders, b.orders.Keys, OpenOf(b.last))
  {
    SumDifference(b.orders, b.orders.Keys, CountedOf(b.last), TradedOf, OpenOf(b.last));
  }
}
