/** The simulated trader: what each match mode writes for an order and what a cancel
    adds, over whole runs. */
module SimTrading {
  import opened Integers
  import opened OrderStatuses

  type OrderId = nat

  datatype MatchMode = Reject | Pend | Cancel | PartialFillAndCancel | PartialFill | Fill | Multiple

  datatype Kind = Stock | Repo | OtherKind

  datatype Input = Input(id: OrderId, kind: Kind, buy: bool, price: int, volume: int, block: nat)

  datatype Order = Order(id: OrderId, price: int, volume: int, volumeLeft: int, status: OrderStatus)

  datatype Trade = Trade(orderId: OrderId, price: int, volume: int)

  datatype Frame = OrderFrame(order: Order) | TradeFrame(trade: Trade)

  /** The orders kept for cancelling, and everything written. */
  datatype Sim = Sim(orders: map<OrderId, Order>, frames: seq<Frame>)

  const START := Sim(map[], [])

  function MinVolume(k: Kind): (v: int)
    ensures v > 0
  {
    if k.Stock? then 100 else 1
  }

  predicate Acceptable(i: Input) {
    !(i.kind.Repo? && i.buy) && i.volume >= MinVolume(i.kind)
  }

  /** What the mode trades at once, and the status it reports. */
  function VolumeTraded(mode: MatchMode, i: Input): int {
    match mode
    case Reject => 0
    case Pend => 0
    case Cancel => 0
    case PartialFillAndCancel => MinVolume(i.kind)
    case PartialFill => MinVolume(i.kind)
    case Fill => i.volume
    case Multiple => i.volume
  }

  function StatusFor(mode: MatchMode, i: Input): OrderStatus {
    match mode
    case Reject => Error
    case Pend => Pending
    case Cancel => Cancelled
    case PartialFillAndCancel => if MinVolume(i.kind) == i.volume then Filled else PartialFilledNotActive
    case PartialFill => if MinVolume(i.kind) == i.volume then Filled else PartialFilledActive
    case Fill => Filled
    case Multiple => Filled
  }

  function OrderFor(mode: MatchMode, i: Input): Order {
    Order(i.id, i.price, i.volume, i.volume - VolumeTraded(mode, i), StatusFor(mode, i))
  }

  /** `remaining` cut into slices of `slice`, the last one smaller when it must be. */
  function Slices(i: Input, slice: int, remaining: int): seq<Frame>
    requires slice > 0
    decreases remaining
  {
    if remaining <= 0 then []
    else [TradeFrame(Trade(i.id, i.price, Min(slice, remaining)))] + Slices(i, slice, remaining - Min(slice, remaining))
  }

  function TradesFor(mode: MatchMode, i: Input): seq<Frame> {
    if VolumeTraded(mode, i) <= 0 then []
    else if mode.Multiple? then Slices(i, MinVolume(i.kind), i.volume)
    else [TradeFrame(Trade(i.id, i.price, VolumeTraded(mode, i)))]
  }

  predicate BlockMissing(i: Input, blocks: set<nat>) {
    i.block != 0 && i.block !in blocks
  }

  function InsertNext(s: Sim, mode: MatchMode, i: Input, blocks: set<nat>): Sim {
    if !Acceptable(i) then
      s.(frames := s.frames + [OrderFrame(Order(i.id, i.price, i.volume, i.volume, Error))])
    else if BlockMissing(i, blocks) then
      s.(frames := s.frames + [OrderFrame(OrderFor(mode, i).(status := Error))])
    else
      var o := OrderFor(mode, i);
      Sim(s.orders[i.id := o], s.frames + [OrderFrame(o)] + TradesFor(mode, i))
  }

  function CancelledOrder(o: Order): Order {
    o.(status := if o.volume - o.volumeLeft == 0 then Cancelled else PartialFilledNotActive)
  }

  function CancelNext(s: Sim, id: OrderId): Sim {
    if id !in s.orders then s
    else
      var o := s.orders[id];
      Sim(s.orders - {id}, if o.volumeLeft == 0 then s.frames else s.frames + [OrderFrame(CancelledOrder(o))])
  }

  function TradedFor(frames: seq<Frame>, id: OrderId): int {
    if frames == [] then 0
    else
      var f := frames[|frames| - 1];
      TradedFor(frames[..|frames| - 1], id) + if f.TradeFrame? && f.trade.orderId == id then f.trade.volume else 0
  }

  datatype Latest = NoOrder | Is(order: Order)

  /** The last version of an order written. */
  function LatestFor(frames: seq<Frame>, id: OrderId): Latest {
    if frames == [] then NoOrder
    else
      var f := frames[|frames| - 1];
      if f.OrderFrame? && f.order.id == id then Is(f.order) else LatestFor(frames[..|frames| - 1], id)
  }

  lemma {:induction false} FramesAppend(xs: seq<Frame>, ys: seq<Frame>, id: OrderId)
    ensures TradedFor(xs + ys, id) == TradedFor(xs, id) + TradedFor(ys, id)
    ensures LatestFor(xs + ys, id) == if LatestFor(ys, id).Is? then LatestFor(ys, id) else LatestFor(xs, id)
    decreases |ys|
  {
    if ys == [] {
      assert xs + ys == xs;
    } else {
      var n := |ys| - 1;
      assert (xs + ys)[..|xs| + n] == xs + ys[..n];
      FramesAppend(xs, ys[..n], id);
    }
  }

  /** The slices add up to the volume, belong to the order, and number the volume divided
      by the slice, rounded up; all but the last are full. */
  lemma {:induction false} SlicesShape(i: Input, slice: int, remaining: int)
    requires slice > 0 && remaining >= 0
    ensures var fs := Slices(i, slice, remaining);
            && (forall id :: TradedFor(fs, id) == (if id == i.id then remaining else 0) && LatestFor(fs, id) == NoOrder)
            && (|fs| - 1) * slice < remaining <= |fs| * slice
            && (remaining == 0 ==> fs == [])
    ensures var fs := Slices(i, slice, remaining);
            forall k :: 0 <= k < |fs| ==>
              && fs[k].TradeFrame? && fs[k].trade.orderId == i.id && fs[k].trade.price == i.price
              && (k < |fs| - 1 ==> fs[k].trade.volume == slice) && 0 < fs[k].trade.volume <= slice
    decreases remaining
  {
    if remaining > 0 {
      var v := Min(slice, remaining);
      SlicesShape(i, slice, remaining - v);
      var first, rest := TradeFrame(Trade(i.id, i.price, v)), Slices(i, slice, remaining - v);
      forall id ensures TradedFor([first] + rest, id) == (if id == i.id then remaining else 0)
                        && LatestFor([first] + rest, id) == NoOrder
      {
        FramesAppend([first], rest, id);
        SingleFrame(first, id);
      }
      if remaining > slice {
        assert (|rest| + 1 - 1) * slice == (|rest| - 1) * slice + slice;
        assert (|rest| + 1) * slice == |rest| * slice + slice;
      }
    }
  }

  lemma {:induction false} SingleFrame(f: Frame, id: OrderId)
    ensures TradedFor([f], id) == if f.TradeFrame? && f.trade.orderId == id then f.trade.volume else 0
    ensures LatestFor([f], id) == if f.OrderFrame? && f.order.id == id then Is(f.order) else NoOrder
  {
    assert [f][..0] == [];
  }

  lemma {:induction false} TradesAddUp(mode: MatchMode, i: Input, id: OrderId)
    requires Acceptable(i)
    ensures TradedFor(TradesFor(mode, i), id) == if id == i.id then VolumeTraded(mode, i) else 0
    ensures LatestFor(TradesFor(mode, i), id) == NoOrder
  {
    if VolumeTraded(mode, i) > 0 {
      if mode.Multiple? {
        SlicesShape(i, MinVolume(i.kind), i.volume);
      } else {
        SingleFrame(TradesFor(mode, i)[0], id);
      }
    }
  }

  /** The trades written for an order account for what its last version says was traded. */
  predicate Balanced(frames: seq<Frame>, id: OrderId) {
    var l := LatestFor(frames, id);
    TradedFor(frames, id) == if l.Is? then l.order.volume - l.order.volumeLeft else 0
  }

  ghost predicate Inv(s: Sim) {
    && (forall id :: Balanced(s.frames, id))
    && (forall id :: id in s.orders ==> LatestFor(s.frames, id) == Is(s.orders[id]) && s.orders[id].id == id
                                        && 0 <= s.orders[id].volumeLeft <= s.orders[id].volume)
  }

  /** The order an insert writes, and whether trades follow it. */
  function InsertedOrder(mode: MatchMode, i: Input, blocks: set<nat>): Order {
    if !Acceptable(i) then Order(i.id, i.price, i.volume, i.volume, Error)
    else if BlockMissing(i, blocks) then OrderFor(mode, i).(status := Error)
    else OrderFor(mode, i)
  }

  predicate Trades(mode: MatchMode, i: Input, blocks: set<nat>) {
    Acceptable(i) && !BlockMissing(i, blocks) && VolumeTraded(mode, i) > 0
  }

  lemma {:induction false} InsertFrames(s: Sim, mode: MatchMode, i: Input, blocks: set<nat>, id: OrderId)
    ensures var t := InsertNext(s, mode, i, blocks);
            && TradedFor(t.frames, id) == TradedFor(s.frames, id) + (if id == i.id && Trades(mode, i, blocks) then VolumeTraded(mode, i) else 0)
            && LatestFor(t.frames, id) == if id == i.id then Is(InsertedOrder(mode, i, blocks)) else LatestFor(s.frames, id)
  {
    hide TradedFor, LatestFor;
    var t, o := InsertNext(s, mode, i, blocks), InsertedOrder(mode, i, blocks);
    var trades := if Trades(mode, i, blocks) then TradesFor(mode, i) else [];
    assert t.frames == s.frames + ([OrderFrame(o)] + trades);
    FramesAppend(s.frames, [OrderFrame(o)] + trades, id);
    FramesAppend([OrderFrame(o)], trades, id);
    SingleFrame(OrderFrame(o), id);
    NoFrames(id);
    if Trades(mode, i, blocks) { TradesAddUp(mode, i, id); }
  }

  lemma {:induction false} NoFrames(id: OrderId)
    ensures TradedFor([], id) == 0 && LatestFor([], id) == NoOrder
  {
  }

  /** The frames an insert writes balance exactly unless the order failed only for its
      block, in a mode that trades at once: then a traded volume is reported without a
      trade. */
  lemma {:induction false} InsertBalancesExactly(s: Sim, mode: MatchMode, i: Input, blocks: set<nat>)
    requires Inv(s) && LatestFor(s.frames, i.id) == NoOrder
    ensures Inv(InsertNext(s, mode, i, blocks)) <==>
              !(Acceptable(i) && BlockMissing(i, blocks) && VolumeTraded(mode, i) > 0)
  {
    hide InsertNext, TradedFor, LatestFor, Acceptable, VolumeTraded, InsertedOrder, Trades;
    forall id
      ensures id != i.id ==> Balanced(InsertNext(s, mode, i, blocks).frames, id)
      ensures LatestFor(InsertNext(s, mode, i, blocks).frames, id)
              == if id == i.id then Is(InsertedOrder(mode, i, blocks)) else LatestFor(s.frames, id)
    {
      assert Balanced(s.frames, id);
      InsertFrames(s, mode, i, blocks, id);
    }
    InsertKept(s, mode, i, blocks);
    InsertOwn(s, mode, i, blocks);
  }

  lemma {:induction false} InsertOwn(s: Sim, mode: MatchMode, i: Input, blocks: set<nat>)
    requires Balanced(s.frames, i.id) && LatestFor(s.frames, i.id) == NoOrder
    ensures Balanced(InsertNext(s, mode, i, blocks).frames, i.id) <==>
              !(Acceptable(i) && BlockMissing(i, blocks) && VolumeTraded(mode, i) > 0)
  {
    hide InsertNext, TradedFor, LatestFor;
    InsertFrames(s, mode, i, blocks, i.id);
  }

  /** What an insert keeps for cancelling. */
  lemma {:induction false} InsertKept(s: Sim, mode: MatchMode, i: Input, blocks: set<nat>)
    ensures var t, o := InsertNext(s, mode, i, blocks), InsertedOrder(mode, i, blocks);
            && o.id == i.id
            && (t.orders == s.orders
                || (t.orders == s.orders[i.id := o] && 0 <= o.volumeLeft <= o.volume))
  {
    hide TradesFor;
  }

  lemma {:induction false} CancelBalances(s: Sim, id: OrderId)
    requires Inv(s)
    ensures Inv(CancelNext(s, id))
  {
    var t := CancelNext(s, id);
    if id in s.orders && s.orders[id].volumeLeft != 0 {
      var o := CancelledOrder(s.orders[id]);
      forall k ensures TradedFor(t.frames, k) == TradedFor(s.frames, k)
                       && LatestFor(t.frames, k) == if k == id then Is(o) else LatestFor(s.frames, k)
      {
        FramesAppend(s.frames, [OrderFrame(o)], k);
        SingleFrame(OrderFrame(o), k);
      }
      forall k ensures Balanced(t.frames, k) {
        assert Balanced(s.frames, k);
      }
    }
  }

  datatype Event = Insert(i: Input, blocks: set<nat>) | CancelOf(id: OrderId)

  function Next(s: Sim, mode: MatchMode, e: Event): Sim {
    match e
    case Insert(i, blocks) => InsertNext(s, mode, i, blocks)
    case CancelOf(id) => CancelNext(s, id)
  }

  function Run(mode: MatchMode, events: seq<Event>): Sim {
    if events == [] then START else Next(Run(mode, events[..|events| - 1]), mode, events[|events| - 1])
  }

  predicate Inserts(e: Event, id: OrderId) {
    e.Insert? && e.i.id == id
  }

  predicate InsertedOnce(events: seq<Event>, id: OrderId) {
    forall j, k :: 0 <= j < k < |events| && Inserts(events[j], id) ==> !Inserts(events[k], id)
  }

  predicate NeverInserted(events: seq<Event>, id: OrderId) {
    forall k :: 0 <= k < |events| ==> !Inserts(events[k], id)
  }

  /** The order fails only for its block, in a mode that trades at once. */
  predicate Unbacked(mode: MatchMode, e: Event, id: OrderId) {
    Inserts(e, id) && Acceptable(e.i) && BlockMissing(e.i, e.blocks) && VolumeTraded(mode, e.i) > 0
  }

  predicate SomeUnbacked(mode: MatchMode, events: seq<Event>, id: OrderId) {
    exists k :: 0 <= k < |events| && Unbacked(mode, events[k], id)
  }

  /** What the simulator keeps of an order is its last version, and balances. */
  predicate KeptSound(s: Sim, id: OrderId) {
    id in s.orders ==>
      && LatestFor(s.frames, id) == Is(s.orders[id]) && Balanced(s.frames, id)
      && s.orders[id].id == id && 0 <= s.orders[id].volumeLeft <= s.orders[id].volume
  }

  lemma {:induction false} CancelFrames(s: Sim, c: OrderId, id: OrderId)
    requires c in s.orders ==> s.orders[c].id == c
    ensures var t := CancelNext(s, c);
            && TradedFor(t.frames, id) == TradedFor(s.frames, id)
            && LatestFor(t.frames, id) == (if c == id && id in s.orders && s.orders[id].volumeLeft != 0
                                           then Is(CancelledOrder(s.orders[id])) else LatestFor(s.frames, id))
            && (id in t.orders <==> id in s.orders && c != id)
            && (id in t.orders ==> t.orders[id] == s.orders[id])
  {
    hide TradedFor, LatestFor;
    if c in s.orders && s.orders[c].volumeLeft != 0 {
      FramesAppend(s.frames, [OrderFrame(CancelledOrder(s.orders[c]))], id);
      SingleFrame(OrderFrame(CancelledOrder(s.orders[c])), id);
    }
  }

  lemma {:induction false} CancelKeepsOrder(s: Sim, c: OrderId, id: OrderId)
    requires KeptSound(s, id) && (c in s.orders ==> s.orders[c].id == c)
    ensures var t := CancelNext(s, c); KeptSound(t, id) && (Balanced(t.frames, id) <==> Balanced(s.frames, id))
  {
    hide CancelNext, TradedFor, LatestFor;
    CancelFrames(s, c, id);
  }

  lemma {:induction false} InsertKeepsOther(s: Sim, mode: MatchMode, i: Input, blocks: set<nat>, id: OrderId)
    requires KeptSound(s, id) && i.id != id
    ensures var t := InsertNext(s, mode, i, blocks);
            KeptSound(t, id) && (Balanced(t.frames, id) <==> Balanced(s.frames, id))
  {
    hide InsertNext, TradedFor, LatestFor;
    InsertFrames(s, mode, i, blocks, id);
    InsertKept(s, mode, i, blocks);
  }

  lemma {:induction false} InsertStartsOrder(s: Sim, mode: MatchMode, i: Input, blocks: set<nat>)
    requires i.id !in s.orders && LatestFor(s.frames, i.id) == NoOrder && TradedFor(s.frames, i.id) == 0
    ensures var t := InsertNext(s, mode, i, blocks);
            && KeptSound(t, i.id)
            && (Balanced(t.frames, i.id) <==> !(Acceptable(i) && BlockMissing(i, blocks) && VolumeTraded(mode, i) > 0))
  {
    hide TradedFor, LatestFor, TradesFor;
    InsertFrames(s, mode, i, blocks, i.id);
    InsertKept(s, mode, i, blocks);
    InsertOwn(s, mode, i, blocks);
  }

  lemma {:induction false} NotYetInserted(mode: MatchMode, events: seq<Event>, id: OrderId)
    requires NeverInserted(events, id)
    ensures var s := Run(mode, events);
            id !in s.orders && LatestFor(s.frames, id) == NoOrder && TradedFor(s.frames, id) == 0
  {
    hide InsertNext, CancelNext;
    NoFrames(id);
    if events != [] {
      var n := |events| - 1;
      NotYetInserted(mode, events[..n], id);
      var s := Run(mode, events[..n]);
      match events[n] {
        case Insert(i, blocks) =>
          assert !Inserts(events[n], id);
          InsertFrames(s, mode, i, blocks, id);
          InsertKept(s, mode, i, blocks);
        case CancelOf(c) =>
          if c in s.orders { CancelledKeepsId(mode, events[..n], c); }
          CancelFrames(s, c, id);
      }
    }
  }

  lemma {:induction false} UnbackedNext(mode: MatchMode, events: seq<Event>, id: OrderId)
    requires events != []
    ensures SomeUnbacked(mode, events, id) <==>
              SomeUnbacked(mode, events[..|events| - 1], id) || Unbacked(mode, events[|events| - 1], id)
  {
    var n := |events| - 1;
    if SomeUnbacked(mode, events[..n], id) {
      var k :| 0 <= k < n && Unbacked(mode, events[..n][k], id);
      assert Unbacked(mode, events[k], id);
    }
    if k :| 0 <= k < n && Unbacked(mode, events[k], id) {
      assert Unbacked(mode, events[..n][k], id);
    }
  }

  /** In any run that inserts an order at most once, whatever happens to others, the trades
      written for it add up to what its last version says was traded exactly unless it
      failed only for its block in a mode that trades at once; for an order that is kept
      they always do. */
  lemma {:induction false} OrderConservedExactly(mode: MatchMode, events: seq<Event>, id: OrderId)
    requires InsertedOnce(events, id)
    ensures Balanced(Run(mode, events).frames, id) <==> !SomeUnbacked(mode, events, id)
    ensures KeptSound(Run(mode, events), id)
  {
    hide InsertNext, CancelNext, Balanced, KeptSound, Unbacked, SomeUnbacked, NeverInserted;
    if events == [] {
      NothingWritten(mode, id);
    } else {
      var n := |events| - 1;
      var s := Run(mode, events[..n]);
      OrderConservedExactly(mode, events[..n], id);
      UnbackedNext(mode, events, id);
      match events[n] {
        case Insert(i, blocks) =>
          if i.id == id {
            FirstInsert(mode, events, id);
            NotYetInserted(mode, events[..n], id);
            InsertStartsOrder(s, mode, i, blocks);
          } else {
            UnbackedElsewhere(mode, events[n], id);
            InsertKeepsOther(s, mode, i, blocks, id);
          }
        case CancelOf(c) =>
          UnbackedElsewhere(mode, events[n], id);
          if c in s.orders { CancelledKeepsId(mode, events[..n], c); }
          CancelKeepsOrder(s, c, id);
      }
    }
  }

  lemma {:induction false} NothingWritten(mode: MatchMode, id: OrderId)
    ensures Balanced(START.frames, id) && !SomeUnbacked(mode, [], id) && KeptSound(START, id)
  {
  }

  lemma {:induction false} UnbackedElsewhere(mode: MatchMode, e: Event, id: OrderId)
    ensures !Inserts(e, id) ==> !Unbacked(mode, e, id)
  {
  }

  lemma {:induction false} FirstInsert(mode: MatchMode, events: seq<Event>, id: OrderId)
    requires events != [] && InsertedOnce(events, id) && Inserts(events[|events| - 1], id)
    ensures NeverInserted(events[..|events| - 1], id) && !SomeUnbacked(mode, events[..|events| - 1], id)
    ensures var e := events[|events| - 1];
            Unbacked(mode, e, id) <==> Acceptable(e.i) && BlockMissing(e.i, e.blocks) && VolumeTraded(mode, e.i) > 0
  {
  }

  /** So in every run and mode without repeated ids, through any cancels, every kept order
      balances, and all orders do exactly when none was unbacked. */
  lemma {:induction false} VolumeConserved(mode: MatchMode, events: seq<Event>)
    requires forall id :: InsertedOnce(events, id)
    ensures forall id :: id in Run(mode, events).orders ==> Balanced(Run(mode, events).frames, id)
    ensures Inv(Run(mode, events)) <==> forall id :: !SomeUnbacked(mode, events, id)
  {
    hide Run, InsertedOnce, SomeUnbacked;
    forall id
      ensures Balanced(Run(mode, events).frames, id) <==> !SomeUnbacked(mode, events, id)
      ensures KeptSound(Run(mode, events), id)
    {
      assert InsertedOnce(events, id);
      OrderConservedExactly(mode, events, id);
    }
  }

  lemma {:induction false} RunNext(mode: MatchMode, events: seq<Event>, n: nat)
    requires n < |events|
    ensures Run(mode, events[..n + 1]) == Next(Run(mode, events[..n]), mode, events[n])
  {
    assert events[..n + 1][..n] == events[..n];
  }

  predicate Concerns(e: Event, id: OrderId) {
    if e.Insert? then e.i.id == id else e.id == id
  }

  lemma {:induction false} InsertElsewhere(s: Sim, mode: MatchMode, i: Input, blocks: set<nat>, id: OrderId)
    requires i.id != id
    ensures var t := InsertNext(s, mode, i, blocks);
            && LatestFor(t.frames, id) == LatestFor(s.frames, id)
            && (id in t.orders <==> id in s.orders) && (id in s.orders ==> t.orders[id] == s.orders[id])
  {
    hide InsertNext, LatestFor, TradedFor;
    InsertFrames(s, mode, i, blocks, id);
    InsertKept(s, mode, i, blocks);
  }

  /** Events about other orders leave an order as it was, kept or not. */
  lemma {:induction false} Undisturbed(mode: MatchMode, events: seq<Event>, n: nat, m: nat, id: OrderId)
    requires n <= m <= |events| && forall k :: n <= k < m ==> !Concerns(events[k], id)
    ensures var s, t := Run(mode, events[..n]), Run(mode, events[..m]);
            && LatestFor(t.frames, id) == LatestFor(s.frames, id)
            && (id in t.orders <==> id in s.orders) && (id in s.orders ==> t.orders[id] == s.orders[id])
    decreases m
  {
    hide InsertNext, LatestFor;
    if n < m {
      Undisturbed(mode, events, n, m - 1, id);
      assert events[..m][..m - 1] == events[..m - 1];
      var s, e := Run(mode, events[..m - 1]), events[m - 1];
      assert !Concerns(e, id);
      if e.Insert? {
        InsertElsewhere(s, mode, e.i, e.blocks, id);
      } else if e.id in s.orders {
        FramesAppend(s.frames, [OrderFrame(CancelledOrder(s.orders[e.id]))], id);
        CancelledKeepsId(mode, events[..m - 1], e.id);
        SingleFrame(OrderFrame(CancelledOrder(s.orders[e.id])), id);
      }
    }
  }

  lemma {:induction false} CancelledKeepsId(mode: MatchMode, events: seq<Event>, id: OrderId)
    requires id in Run(mode, events).orders
    ensures Run(mode, events).orders[id].id == id
  {
    if events != [] {
      var n := |events| - 1;
      if id in Run(mode, events[..n]).orders {
        CancelledKeepsId(mode, events[..n], id);
      }
    }
  }

  /** After a cancel of an order, a later one changes nothing at all, whatever happened
      to other orders in between. */
  lemma {:induction false} SecondCancelSilent(mode: MatchMode, events: seq<Event>, n: nat, m: nat, id: OrderId)
    requires n < m < |events| && events[n] == CancelOf(id) == events[m]
    requires forall k :: n < k < m ==> !Concerns(events[k], id)
    ensures Run(mode, events[..m + 1]) == Run(mode, events[..m])
  {
    hide Run, InsertNext, LatestFor;
    Undisturbed(mode, events, n + 1, m, id);
    RunNext(mode, events, n);
    RunNext(mode, events, m);
  }

  lemma {:induction false} KeptInsert(s: Sim, mode: MatchMode, i: Input, blocks: set<nat>)
    requires Acceptable(i) && !BlockMissing(i, blocks)
    ensures var t := InsertNext(s, mode, i, blocks);
            i.id in t.orders && t.orders[i.id] == OrderFor(mode, i) && LatestFor(t.frames, i.id) == Is(OrderFor(mode, i))
  {
    FramesAppend(s.frames + [OrderFrame(OrderFor(mode, i))], TradesFor(mode, i), i.id);
    FramesAppend(s.frames, [OrderFrame(OrderFor(mode, i))], i.id);
    SingleFrame(OrderFrame(OrderFor(mode, i)), i.id);
    TradesAddUp(mode, i, i.id);
  }

  lemma {:induction false} KeptCancel(t: Sim, mode: MatchMode, i: Input)
    requires Acceptable(i) && i.id in t.orders && t.orders[i.id] == OrderFor(mode, i)
    requires LatestFor(t.frames, i.id) == Is(OrderFor(mode, i))
    ensures var u, o := CancelNext(t, i.id), OrderFor(mode, i); var after := LatestFor(u.frames, i.id);
            && (u.frames != t.frames <==> o.volumeLeft != 0)
            && (IsFinal(o.status) && u.frames != t.frames <==>
                  mode.Reject? || mode.Cancel? || (mode.PartialFillAndCancel? && i.volume > MinVolume(i.kind)))
            && after.Is? && after.order.status == if o.volumeLeft == 0 then o.status
                                                  else if VolumeTraded(mode, i) == 0 then Cancelled else PartialFilledNotActive
  {
    var f := OrderFrame(CancelledOrder(OrderFor(mode, i)));
    FramesAppend(t.frames, [f], i.id);
    SingleFrame(f, i.id);
  }

  /** The first cancel of a kept order replaces a status that was already final exactly
      when the mode ended the order with volume left. */
  lemma {:induction false} CancelOverwritesFinalExactly(mode: MatchMode, events: seq<Event>, n: nat, m: nat, id: OrderId)
    requires n < m < |events| && events[n].Insert? && events[n].i.id == id && events[m] == CancelOf(id)
    requires Acceptable(events[n].i) && !BlockMissing(events[n].i, events[n].blocks)
    requires forall k :: n < k < m ==> !Concerns(events[k], id)
    ensures var i := events[n].i;
            var before, after := LatestFor(Run(mode, events[..m]).frames, id), LatestFor(Run(mode, events[..m + 1]).frames, id);
            && before == Is(OrderFor(mode, i)) && after.Is?
            && (IsFinal(before.order.status) && Run(mode, events[..m + 1]).frames != Run(mode, events[..m]).frames <==>
                  mode.Reject? || mode.Cancel? || (mode.PartialFillAndCancel? && i.volume > MinVolume(i.kind)))
            && after.order.status == (if before.order.volumeLeft == 0 then before.order.status
                                      else if VolumeTraded(mode, i) == 0 then Cancelled else PartialFilledNotActive)
  {
    var i, s, t := events[n].i, Run(mode, events[..n]), Run(mode, events[..m]);
    RunNext(mode, events, n);
    RunNext(mode, events, m);
    KeptInsert(s, mode, i, events[n].blocks);
    hide LatestFor, InsertNext, CancelNext, Run, OrderFor, VolumeTraded, Acceptable;
    Undisturbed(mode, events, n + 1, m, id);
    KeptCancel(t, mode, i);
  }

  /** What each mode makes of a new order that passes the checks, whatever came before: the
      volume written as traded at once, the status reported, and that it is kept. A partial
      fill trades the smallest lot, 100 of a stock and 1 of anything else. */
  lemma {:induction false} ModeDecidesExactly(s: Sim, mode: MatchMode, i: Input, blocks: set<nat>)
    requires TradedFor(s.frames, i.id) == 0 && i.id !in s.orders
    ensures var t := InsertNext(s, mode, i, blocks); var lot := if i.kind == Stock then 100 else 1;
            var refused := (i.kind == Repo && i.buy) || i.volume < lot || (i.block != 0 && i.block !in blocks);
            var traded, trades := TradedFor(t.frames, i.id), |t.frames| - |s.frames| - 1;
            && (i.id in t.orders <==> !refused)
            && (refused || traded == 0 ==> trades == 0)
            && (traded > 0 && mode != Multiple ==> trades == 1)
            && (traded > 0 && mode == Multiple ==> (trades - 1) * lot < i.volume <= trades * lot)
            && LatestFor(t.frames, i.id).Is?
            && var o := LatestFor(t.frames, i.id).order;
               && o.price == i.price && o.volume == i.volume
               && (refused ==> o.status == Error && traded == 0)
               && (!refused ==>
                     && o.volumeLeft == i.volume - traded
                     && (mode == Fill || mode == Multiple ==> traded == i.volume)
                     && (mode == PartialFill || mode == PartialFillAndCancel ==> traded == lot)
                     && (traded == 0 <==> mode == Reject || mode == Pend || mode == Cancel)
                     && (o.status == Error <==> mode == Reject)
                     && (o.status == Pending <==> mode == Pend)
                     && (o.status == Cancelled <==> mode == Cancel)
                     && (o.status == Filled <==> traded == i.volume)
                     && (o.status == PartialFilledActive <==> mode == PartialFill && lot < i.volume)
                     && (o.status == PartialFilledNotActive <==> mode == PartialFillAndCancel && lot < i.volume)
                     && (IsFinal(o.status) <==> mode != Pend && !(mode == PartialFill && lot < i.volume)))
  {
    hide TradedFor, LatestFor, TradesFor;
    InsertFrames(s, mode, i, blocks, i.id);
    InsertKept(s, mode, i, blocks);
    TradesNumber(mode, i);
  }

  /** How many trades follow an order. */
  lemma {:induction false} TradesNumber(mode: MatchMode, i: Input)
    ensures var n := |TradesFor(mode, i)|;
            && (VolumeTraded(mode, i) <= 0 ==> n == 0)
            && (VolumeTraded(mode, i) > 0 && mode != Multiple ==> n == 1)
            && (VolumeTraded(mode, i) > 0 && mode == Multiple ==>
                  (n - 1) * MinVolume(i.kind) < i.volume <= n * MinVolume(i.kind))
  {
    if VolumeTraded(mode, i) > 0 && mode == Multiple {
      SlicesShape(i, MinVolume(i.kind), i.volume);
    }
  }

  /** Every trade comes after its order, at the price and for no more than the order's
      latest version at that moment says was traded. */
  predicate TradesFollow(frames: seq<Frame>) {
    forall k :: 0 <= k < |frames| && frames[k].TradeFrame? ==>
      var l, t := LatestFor(frames[..k], frames[k].trade.orderId), frames[k].trade;
      l.Is? && t.price == l.order.price && 0 < t.volume <= l.order.volume - l.order.volumeLeft
  }

  lemma {:induction false} OrderThenTrades(frames: seq<Frame>, o: Order, trades: seq<Frame>)
    requires TradesFollow(frames)
    requires forall k :: 0 <= k < |trades| ==>
               trades[k].TradeFrame? && trades[k].trade.orderId == o.id && trades[k].trade.price == o.price
               && 0 < trades[k].trade.volume <= o.volume - o.volumeLeft
    requires forall k :: 0 <= k <= |trades| ==> LatestFor(trades[..k], o.id) == NoOrder
    ensures TradesFollow(frames + [OrderFrame(o)] + trades)
  {
    hide LatestFor;
    var all := frames + [OrderFrame(o)] + trades;
    forall k | 0 <= k < |all| && all[k].TradeFrame?
      ensures var l, t := LatestFor(all[..k], all[k].trade.orderId), all[k].trade;
              l.Is? && t.price == l.order.price && 0 < t.volume <= l.order.volume - l.order.volumeLeft
    {
      if k < |frames| {
        assert all[..k] == frames[..k] && all[k] == frames[k];
      } else {
        var m := k - |frames| - 1;
        assert all[k] == trades[m];
        assert all[..k] == frames + ([OrderFrame(o)] + trades[..m]);
        FramesAppend(frames, [OrderFrame(o)] + trades[..m], o.id);
        FramesAppend([OrderFrame(o)], trades[..m], o.id);
        SingleFrame(OrderFrame(o), o.id);
      }
    }
  }

  lemma {:induction false} TradesShape(mode: MatchMode, i: Input, k: nat)
    requires Acceptable(i) && k <= |TradesFor(mode, i)|
    ensures LatestFor(TradesFor(mode, i)[..k], i.id) == NoOrder
    ensures forall m :: 0 <= m < |TradesFor(mode, i)| ==>
              var f := TradesFor(mode, i)[m];
              f.TradeFrame? && f.trade.orderId == i.id && f.trade.price == i.price && 0 < f.trade.volume <= VolumeTraded(mode, i)
  {
    var fs := TradesFor(mode, i);
    if VolumeTraded(mode, i) > 0 && mode.Multiple? {
      SlicesShape(i, MinVolume(i.kind), i.volume);
      SlicesWithin(i, MinVolume(i.kind), i.volume);
    }
    OnlyTrades(fs[..k], i.id);
  }

  lemma {:induction false} SlicesWithin(i: Input, slice: int, remaining: int)
    requires slice > 0
    ensures forall m :: 0 <= m < |Slices(i, slice, remaining)| ==>
              Slices(i, slice, remaining)[m].TradeFrame? && Slices(i, slice, remaining)[m].trade.volume <= remaining
    decreases remaining
  {
    if remaining > 0 { SlicesWithin(i, slice, remaining - Min(slice, remaining)); }
  }

  lemma {:induction false} OnlyTrades(fs: seq<Frame>, id: OrderId)
    requires forall m :: 0 <= m < |fs| ==> fs[m].TradeFrame?
    ensures LatestFor(fs, id) == NoOrder
  {
    if fs != [] { OnlyTrades(fs[..|fs| - 1], id); }
  }

  lemma {:induction false} InsertTradesFollow(s: Sim, mode: MatchMode, i: Input, blocks: set<nat>)
    requires TradesFollow(s.frames)
    ensures TradesFollow(InsertNext(s, mode, i, blocks).frames)
  {
    hide TradesFollow, LatestFor, TradesFor;
    var o := InsertedOrder(mode, i, blocks);
    var trades := if Acceptable(i) && !BlockMissing(i, blocks) then TradesFor(mode, i) else [];
    if Acceptable(i) && !BlockMissing(i, blocks) {
      forall k | 0 <= k <= |trades| ensures LatestFor(trades[..k], o.id) == NoOrder {
        TradesShape(mode, i, k);
      }
      TradesShape(mode, i, 0);
    } else {
      NoFrames(o.id);
    }
    OrderThenTrades(s.frames, o, trades);
    assert s.frames + [OrderFrame(o)] + [] == s.frames + [OrderFrame(o)];
  }

  /** In every run and mode, ids repeated or not. */
  lemma {:induction false} TradesFollowOrders(mode: MatchMode, events: seq<Event>)
    ensures TradesFollow(Run(mode, events).frames)
  {
    hide TradesFollow, InsertNext;
    if events == [] {
      NothingFollows();
    } else {
      var n := |events| - 1;
      TradesFollowOrders(mode, events[..n]);
      var s := Run(mode, events[..n]);
      match events[n] {
        case Insert(i, blocks) => InsertTradesFollow(s, mode, i, blocks);
        case CancelOf(id) =>
          if id in s.orders {
            OrderThenNothing(s.frames, CancelledOrder(s.orders[id]));
          }
      }
    }
  }

  lemma {:induction false} NothingFollows()
    ensures TradesFollow([])
  {
  }

  lemma {:induction false} OrderThenNothing(frames: seq<Frame>, o: Order)
    requires TradesFollow(frames)
    ensures TradesFollow(frames + [OrderFrame(o)])
  {
    var all := frames + [OrderFrame(o)];
    forall k | 0 <= k < |all| && all[k].TradeFrame? ensures all[..k] == frames[..k] && all[k] == frames[k] {
    }
  }
}
