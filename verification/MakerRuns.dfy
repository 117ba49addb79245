/** Whole samples and timer ticks of the simulator, and what they show on its own
    configuration: sweeps that are not filled, and two ticks that build a level as large as
    any can get. */
module MakerRuns {
  import opened Integers
  import opened Levels
  import opened Matching
  import opened Placing
  import opened BookTheorems
  import opened SimOrderBook
  import opened Maker
  import opened MarketDataSim

  const LOT := 100

  lemma {:induction false} InvOrdered(b: Book)
    ensures Inv(b) ==> Ordered(b) && Positive(b.bids) && Positive(b.offers)
  {
  }

  /** A price on `side` that trades with nothing of the opposite side. */
  predicate Short(side: Side, price: int, opposite: seq<Level>) {
    opposite == [] || Ahead(Other(side), price, opposite[0].price)
  }

  /** Orders that fall short of the opposite side leave it alone. */
  lemma {:induction false} AllRest(side: Side, b: Book, os: seq<Request>)
    requires Inv(b)
    requires forall i :: 0 <= i < |os| ==> os[i].side == side && os[i].qty > 0 && Short(side, os[i].price, b.Opposite(side))
    ensures Ordered(b) && Inv(Run(b, os)) && Run(b, os).Opposite(side) == b.Opposite(side)
    decreases |os|
  {
    hide Inv, Place, Short;
    InvOrdered(b);
    if os != [] {
      var n := |os| - 1;
      AllRest(side, b, os[..n]);
      InvOrdered(Run(b, os[..n]));
      OneRests(Run(b, os[..n]), os[n]);
    }
  }

  lemma {:induction false} OneRests(b: Book, o: Request)
    requires Inv(b) && o.qty > 0 && Short(o.side, o.price, b.Opposite(o.side))
    ensures var b' := Place(b, o.side, o.price, o.qty).0;
            && Inv(b') && b'.Opposite(o.side) == b.Opposite(o.side)
            && b'.Own(o.side) == Evict(Join(o.side, b.Own(o.side), o.price, o.qty))
  {
    hide Place, Within, Join, Evict;
    WithinBounds(Other(o.side), b.Opposite(o.side), o.price);
    OrderRests(b, o.side, o.price, o.qty);
  }

  /** The sweep of a sample, placed on a book whose own side is all worse: what it leaves is
      the best of that side. */
  lemma {:induction false} SweepRests(side: Side, b: Book, price: int, qty: int)
    requires Inv(b) && 0 < qty && (b.Own(side) != [] ==> Ahead(side, price, b.Own(side)[0].price))
    ensures var (b', trades) := Place(b, side, price, qty); var t := Min(qty, Reachable(b, side, price));
            && Inv(b') && Traded(trades) == t
            && b'.Own(side) == Leftover(Level(price, qty, 1), t) + Trim(b.Own(side))
            && b'.Opposite(side) == Remove(b.Opposite(side), t)
  {
    hide Inv, Place, Join, Fills, Remove, Total, Within, Sorted, Positive;
    var own := b.Own(side);
    InvSide(b, side);
    InvSide(b, Other(side));
    WithinBounds(Other(side), b.Opposite(side), price);
    OrderTradesWhatItReaches(b, side, price, qty);
    JoinFront(side, own, price, qty);
    assert Evict([Level(price, qty, 1)] + own) == [Level(price, qty, 1)] + Trim(own);
  }

  /** A rising sample sweeps with a buy, a falling one with a sell; its small order is on the
      other side. */
  function DirectionOf(sweeper: Side): int { if sweeper == Buy then 1 else -1 }

  /** A sample's buy at one tick under its mid, and its sell at one tick over it. */
  function PriceAt(side: Side, mid: int): int { if side == Buy then mid - 1 else mid + 1 }

  /** The sweep of a sample computed on `gen`, in units. */
  function Sweep(side: Side, gen: Book, mid: int, lot: int): int {
    (Min(Reachable(gen, side, PriceAt(side, mid)), MAX_QTY) + 1) * lot
  }

  /** The requests of a sample, in lots, on a book without room on the sweeper's side. */
  lemma {:induction false} SampleRequests(side: Side, secid: string, gen: Book, mid: int, d: Draws, lot: int)
    requires ValidPads(d.buyPads) && ValidPads(d.sellPads) && |gen.Own(side)| >= MAX_DEPTH && lot >= 1
    ensures var rs := Requests(SampleOrders(secid, gen, Walk(mid, DirectionOf(side)), d), lot); var o := Other(side);
            && |rs| >= 2
            && rs[0] == Request(side, PriceAt(side, mid), Sweep(side, gen, mid, lot))
            && rs[1] == Request(o, PriceAt(o, mid), lot)
            && (|gen.Own(o)| >= MAX_DEPTH ==> |rs| == 2)
            && forall i :: 2 <= i < |rs| ==> rs[i].side == o && rs[i].qty > 0 && Ahead(o, PriceAt(o, mid), rs[i].price)
  {
    var o := Other(side);
    var pads := PadOrders(secid, |gen.Own(o)|, PriceAt(o, mid), o, if o == Buy then d.buyPads else d.sellPads);
    PadsApart(secid, |gen.Own(o)|, PriceAt(o, mid), o, if o == Buy then d.buyPads else d.sellPads);
    var os := SampleOrders(secid, gen, Walk(mid, DirectionOf(side)), d);
    SampleIsSweepAndPads(side, secid, gen, mid, d);
    var rs := Requests(os, lot);
    hide SampleOrders, PadOrders, Reachable;
    forall i | 2 <= i < |rs| ensures rs[i].side == o && rs[i].qty > 0 && Ahead(o, PriceAt(o, mid), rs[i].price) {
      assert os[i] == pads[i - 2];
      Lots(pads[i - 2].qty, lot);
    }
  }

  lemma {:induction false} Lots(qty: int, lot: int)
    requires qty >= 1 && lot >= 1
    ensures qty * lot > 0
  {
  }

  lemma {:induction false} SampleIsSweepAndPads(side: Side, secid: string, gen: Book, mid: int, d: Draws)
    requires ValidPads(d.buyPads) && ValidPads(d.sellPads) && |gen.Own(side)| >= MAX_DEPTH
    ensures var os := SampleOrders(secid, gen, Walk(mid, DirectionOf(side)), d); var o := Other(side);
            var pads := PadOrders(secid, |gen.Own(o)|, PriceAt(o, mid), o, if o == Buy then d.buyPads else d.sellPads);
            && os == [Order(secid, side, PriceAt(side, mid), Min(Reachable(gen, side, PriceAt(side, mid)), MAX_QTY) + 1),
                      Order(secid, o, PriceAt(o, mid), 1)] + pads
            && forall i :: 0 <= i < |pads| ==> pads[i].qty >= 1
  {
    hide Within;
  }

  lemma {:induction false} SweepPositive(side: Side, gen: Book, mid: int, lot: int)
    requires lot >= 1
    ensures Inv(gen) ==> Sweep(side, gen, mid, lot) > 0
  {
    if Inv(gen) {
      WithinBounds(Other(side), gen.Opposite(side), PriceAt(side, mid));
      Lots(Min(Reachable(gen, side, PriceAt(side, mid)), MAX_QTY) + 1, lot);
    }
  }

  /** The book after a sample computed on `gen` and placed on `b`. */
  function Sampled(side: Side, secid: string, gen: Book, b: Book, mid: int, d: Draws, lot: int): Book
    requires Ordered(b) && ValidPads(d.buyPads) && ValidPads(d.sellPads)
  {
    Run(b, Requests(SampleOrders(secid, gen, Walk(mid, DirectionOf(side)), d), lot))
  }

  /** A rising or falling sample, on a book whose own side is worse than its sweep: what is
      left of the sweep is the best of that side. When there are no pads, the other side is
      what the sweep left of it, and the one-lot order. */
  lemma {:induction false} WholeSample(side: Side, secid: string, gen: Book, b: Book, mid: int, d: Draws, lot: int)
    requires Inv(gen) && Inv(b) && ValidPads(d.buyPads) && ValidPads(d.sellPads) && lot >= 1
    requires |gen.Own(side)| >= MAX_DEPTH && |b.Own(side)| > 1 && Ahead(side, PriceAt(side, mid), b.Own(side)[0].price)
    ensures Ordered(b)
    ensures var q, b' := Sweep(side, gen, mid, lot), Sampled(side, secid, gen, b, mid, d, lot);
            var price, o := PriceAt(side, mid), Other(side); var t := Min(q, Reachable(b, side, price));
            && q > 0 && Inv(b')
            && Traded(Place(b, side, price, q).1) == t
            && b'.Own(side) == Leftover(Level(price, q, 1), t) + Trim(b.Own(side))
            && (|gen.Own(o)| >= MAX_DEPTH ==>
                  && Sorted(o, Remove(b.Own(o), t))
                  && b'.Own(o) == Evict(Join(o, Remove(b.Own(o), t), PriceAt(o, mid), lot)))
  {
    hide Inv, Place, SampleOrders, Requests, Reachable, Trim, Sweep, Join, Remove, Short;
    var q, price, o := Sweep(side, gen, mid, lot), PriceAt(side, mid), Other(side);
    var rs := Requests(SampleOrders(secid, gen, Walk(mid, DirectionOf(side)), d), lot);
    SampleRequests(side, secid, gen, mid, d, lot);
    SweepPositive(side, gen, mid, lot);
    InvOrdered(b);
    SweepRests(side, b, price, q);
    var b1 := Place(b, side, price, q).0;
    InvSide(b1, o);
    WorseLeft(side, b, Level(price, q, 1), Min(q, Reachable(b, side, price)), mid);
    OneRests(b1, rs[1]);
    var b2 := Place(b1, o, PriceAt(o, mid), lot).0;
    RunTwo(b, rs);
    AllShort(side, b2, rs[2..], mid);
    AllRest(o, b2, rs[2..]);
    assert |rs| == 2 ==> rs[2..] == [];
    assert Run(b2, []) == b2;
  }

  /** Nothing on the sweeper's side is better than its price, so the small order and what
      lies behind it fall short. */
  lemma {:induction false} WorseLeft(side: Side, b: Book, l: Level, t: int, mid: int)
    requires Inv(b) && |b.Own(side)| > 1 && Ahead(side, l.price, b.Own(side)[0].price) && l.price == PriceAt(side, mid)
    ensures var own := Leftover(l, t) + Trim(b.Own(side));
            own != [] && !Ahead(side, own[0].price, l.price) && Short(Other(side), PriceAt(Other(side), mid), own)
  {
  }

  lemma {:induction false} AllShort(side: Side, b: Book, os: seq<Request>, mid: int)
    requires b.Own(side) != [] && !Ahead(side, b.Own(side)[0].price, PriceAt(side, mid))
    requires forall i :: 0 <= i < |os| ==> Ahead(Other(side), PriceAt(Other(side), mid), os[i].price)
    ensures b.Own(side) == b.Opposite(Other(side))
    ensures forall i :: 0 <= i < |os| ==> Short(Other(side), os[i].price, b.Opposite(Other(side)))
  {
  }

  lemma {:induction false} RunTwo(b: Book, rs: seq<Request>)
    requires Inv(b) && |rs| >= 2
    ensures var b1 := Place(b, rs[0].side, rs[0].price, rs[0].qty).0;
            Ordered(b1) && Ordered(Place(b1, rs[1].side, rs[1].price, rs[1].qty).0)
            && Run(b, rs) == Run(Place(b1, rs[1].side, rs[1].price, rs[1].qty).0, rs[2..])
  {
    hide Place;
    PlaceOrdered(b, rs[0]);
    PlaceOrdered(Place(b, rs[0].side, rs[0].price, rs[0].qty).0, rs[1]);
    RunNext(b, rs, 0);
    RunNext(b, rs, 1);
    assert rs[..0] == [] && rs == rs[..2] + rs[2..];
    RunAppend(b, rs[..2], rs[2..]);
  }

  /** A timer tick up to its `n`-th sample. */
  function AfterSamples(secid: string, b: Book, c: MakerConfig, tick: Tick, n: nat, lot: int): (r: Book)
    requires Ordered(b) && ValidConfig(c) && ValidDraws(c, tick.start, tick.draws) && n <= |tick.draws|
    ensures Ordered(r)
  {
    if n == 0 then b
    else Run(AfterSamples(secid, b, c, tick, n - 1, lot),
             Requests(SampleOrders(secid, b, WalkAt(c, tick.start, tick.draws, n), tick.draws[n - 1]), lot))
  }

  lemma {:induction false} SamplesPrefix(secid: string, b: Book, c: MakerConfig, tick: Tick, n: nat, lot: int)
    requires Ordered(b) && ValidConfig(c) && ValidDraws(c, tick.start, tick.draws) && n <= |tick.draws|
    ensures |Samples(secid, b, c, tick.start, tick.draws, n)| == n
    ensures Run(b, Requests(Flatten(Samples(secid, b, c, tick.start, tick.draws, n)), lot))
            == AfterSamples(secid, b, c, tick, n, lot)
  {
    hide Run, SampleOrders, WalkAt, Requests;
    if n == 0 {
      RunNone(b, Flatten([]), lot);
    } else {
      SamplesPrefix(secid, b, c, tick, n - 1, lot);
      var before, s := Samples(secid, b, c, tick.start, tick.draws, n - 1), Samples(secid, b, c, tick.start, tick.draws, n);
      assert s[..n - 1] == before && s[..n] == s;
      FlattenNext(b, s, n - 1, lot);
    }
  }

  lemma {:induction false} RunNone(b: Book, os: seq<Order>, lot: int)
    requires Ordered(b)
    ensures os == [] ==> Run(b, Requests(os, lot)) == b
  {
  }

  /** A timer tick places its samples one after the other, all computed on the book it
      found, in lots of 100 units, or of one for a future. */
  lemma {:induction false} UpdateIsSamples(secid: string, b: Book, c: MakerConfig, future: bool, tick: Tick)
    requires Ordered(b) && ValidConfig(c) && ValidDraws(c, tick.start, tick.draws)
    ensures Update(secid, b, c, future, tick) == AfterSamples(secid, b, c, tick, |tick.draws|, if future then 1 else 100)
  {
    hide Run, Samples, AfterSamples, Requests, Flatten;
    SamplesPrefix(secid, b, c, tick, |tick.draws|, LotSize(future));
  }

  /** A falling draw of `step` ticks, with the smallest pads. */
  function Falling(step: int): (d: Draws)
    requires 1 <= step <= 10
    ensures !d.up && d.tick == step && ValidPads(d.buyPads) && ValidPads(d.sellPads)
  {
    Draws(false, step, seq(MAX_DEPTH, _ => 1), seq(MAX_DEPTH, _ => 1))
  }

  /** The simulator's own configuration, around any base. */
  function Shipped(base: int): MakerConfig { MakerConfig(base, 1000, 5, 4) }

  /** A tick whose samples all fall by `step`. */
  function Falls(start: int, step: int): (t: Tick)
    requires 1 <= step <= 10 && -1000 < start < 1000
    ensures t.start == start && |t.draws| == 5 && forall i :: 0 <= i < 5 ==> t.draws[i] == Falling(step)
    ensures forall base :: ValidConfig(Shipped(base)) && ValidDraws(Shipped(base), t.start, t.draws)
  {
    Tick(start, seq(5, _ => Falling(step)))
  }

  /** The coin is tossed at the first sample and the fifth, and fell both times as long as
      the lower bound was not reached. */
  lemma {:induction false} FallsWalk(base: int, start: int, step: int, n: nat)
    requires 1 <= step <= 10 && -1000 < start < 1000 && n <= 5 && (n == 5 ==> -1000 < start - 4 * step)
    ensures var t := Falls(start, step);
            WalkAt(Shipped(base), t.start, t.draws, n) == Walk(base + start - n * step, if n == 0 then 1 else -1)
  {
    if n > 0 {
      FallsWalk(base, start, step, n - 1);
      assert Falls(start, step).draws[n - 1] == Falling(step);
    }
  }

  /** How far a price of `side` goes past the base towards the opposite ladder. */
  function Past(side: Side, base: int, price: int): int {
    if side == Sell then base - price else price - base
  }

  lemma {:induction false} LadderTotals(side: Side, base: int, n: nat, price: int, k: nat)
    requires k <= n && Past(side, base, price) < 100 * (k + 1) && (k > 0 ==> 100 * k <= Past(side, base, price))
    ensures Within(Other(side), Ladder(Other(side), base, n), price) == k
    decreases n
  {
    if n > 0 {
      var next := if side == Sell then base - 100 else base + 100;
      assert Ladder(Other(side), base, n)[1..] == Ladder(Other(side), next, n - 1);
      if k > 0 {
        LadderTotals(side, next, n - 1, price, k - 1);
      } else {
        NothingBehind(Other(side), Ladder(Other(side), base, n), price);
      }
    }
  }

  /** On the initial ladder no sweep better than its own side is ever filled: with `k` levels
      of one unit within reach it is for `k + 1` lots, trades `k` units and rests the
      difference. */
  lemma {:induction false} SweepLeavesRemainder(side: Side, secid: string, base: int, mid: int, k: nat, d: Draws, lot: int)
    requires ValidPads(d.buyPads) && ValidPads(d.sellPads) && lot >= 1 && k <= MAX_DEPTH
    requires var past := Past(side, base, PriceAt(side, mid));
             -100 < past < 100 * (k + 1) && (k > 0 ==> 100 * k <= past)
    ensures var b := InitialBook(base); var o := SampleOrders(secid, b, Walk(mid, DirectionOf(side)), d)[0];
            var rest := (k + 1) * lot - k;
            && o.side == side && o.price == PriceAt(side, mid) && o.qty == k + 1 && rest > 0
            && Traded(Place(b, side, o.price, o.qty * lot).1) == k
            && Inv(Sampled(side, secid, b, b, mid, d, lot))
            && Sampled(side, secid, b, b, mid, d, lot).Own(side)
               == [Level(o.price, rest, 1)] + Ladder(side, base, MAX_DEPTH - 1)
  {
    hide Inv, Place, Run, Requests, SampleOrders, Within, Ladder, Trim, Remove, Join, Evict, ValidPads;
    var b := InitialBook(base);
    InitialBookReady(base);
    LadderTotals(side, base, MAX_DEPTH, PriceAt(side, mid), k);
    LadderTrim(side, base);
    WholeSample(side, secid, b, b, mid, d, lot);
    SweepFirst(side, secid, b, mid, d);
    MoreThanReached(k, lot);
  }

  lemma {:induction false} MoreThanReached(k: nat, lot: int)
    requires lot >= 1
    ensures (k + 1) * lot > k
  {
    assert k * (lot - 1) >= 0;
  }

  lemma {:induction false} LadderTrim(side: Side, base: int)
    ensures Trim(Ladder(side, base, MAX_DEPTH)) == Ladder(side, base, MAX_DEPTH - 1)
    ensures Ladder(side, base, MAX_DEPTH)[0].price == if side == Buy then base - 100 else base + 100
  {
  }

  /** So on the simulator's configuration: its lowest start and longest step make the first
      sample of a fresh book trade 10 of its 1100 and rest 1090, and for a future 10 of 11. */
  lemma {:induction false} FirstSweep(secid: string, base: int, future: bool)
    ensures var t, b, lot := Falls(-999, 10), InitialBook(base), LotSize(future);
            var w := WalkAt(Shipped(base), t.start, t.draws, 1);
            var o := SampleOrders(secid, b, w, t.draws[0])[0];
            && o.side == Sell && o.price == base - 1008 && o.qty * lot == (if future then 11 else 1100)
            && Traded(Place(b, Sell, o.price, o.qty * lot).1) == 10
            && var after := AfterSamples(secid, b, Shipped(base), t, 1, lot).offers;
               after != [] && after[0] == Level(base - 1008, if future then 1 else 1090, 1)
  {
    hide Place, Run, Requests, SampleOrders, Inv, WalkAt, Ladder;
    var t, b, lot := Falls(-999, 10), InitialBook(base), LotSize(future);
    FallsWalk(base, -999, 10, 1);
    SweepLeavesRemainder(Sell, secid, base, base - 1009, 10, Falling(10), lot);
    assert AfterSamples(secid, b, Shipped(base), t, 0, lot) == b;
  }

  lemma {:induction false} SweepFirst(side: Side, secid: string, b: Book, mid: int, d: Draws)
    requires ValidPads(d.buyPads) && ValidPads(d.sellPads)
    ensures var os, price := SampleOrders(secid, b, Walk(mid, DirectionOf(side)), d), PriceAt(side, mid);
            os != [] && os[0] == Order(secid, side, price, Min(Reachable(b, side, price), MAX_QTY) + 1)
  {
  }

  /** The bids of a book that falling samples left over the initial ladder: one lot, and the
      ladder without its first rung. */
  function LotOverLadder(base: int, price: int): seq<Level> {
    [Level(price, LOT, 1)] + Ladder(Buy, base, MAX_DEPTH)[1..]
  }

  lemma {:induction false} LotReach(base: int, price: int, limit: int)
    requires base - 200 < price && base - 200 < limit
    ensures Within(Buy, LotOverLadder(base, price), limit) == if limit <= price then LOT else 0
    ensures Remove(LotOverLadder(base, price), LOT) == Ladder(Buy, base, MAX_DEPTH)[1..]
  {
    var tail := Ladder(Buy, base, MAX_DEPTH)[1..];
    NothingBehind(Buy, tail, limit);
    assert LotOverLadder(base, price)[1..] == tail;
  }

  lemma {:induction false} LotRests(base: int, price: int)
    requires base - 200 < price
    ensures Sorted(Buy, Ladder(Buy, base, MAX_DEPTH)[1..])
    ensures Evict(Join(Buy, Ladder(Buy, base, MAX_DEPTH)[1..], price, LOT)) == LotOverLadder(base, price)
  {
    JoinFront(Buy, Ladder(Buy, base, MAX_DEPTH)[1..], price, LOT);
  }

  lemma {:induction false} LotDepth(base: int, price: int)
    ensures |LotOverLadder(base, price)| == MAX_DEPTH
  {
  }

  lemma {:induction false} LadderFront(base: int)
    ensures Remove(Ladder(Buy, base, MAX_DEPTH), 1) == Ladder(Buy, base, MAX_DEPTH)[1..]
  {
    assert Remove(Ladder(Buy, base, MAX_DEPTH)[1..], 0) == Ladder(Buy, base, MAX_DEPTH)[1..];
  }

  /** The first tick, ten ticks a step from 100 below the base: each sample sweeps the lot of
      the one before and leaves one of its own. */
  lemma {:induction false} FirstTick(secid: string, base: int, n: nat)
    requires 1 <= n <= 5
    ensures var b := AfterSamples(secid, InitialBook(base), Shipped(base), Falls(-100, 10), n, LOT);
            && Inv(b) && |b.offers| == MAX_DEPTH && b.offers[0].price == base - 99 - 10 * n
            && b.bids == LotOverLadder(base, base - 101 - 10 * n)
  {
    hide Inv, Run, SampleOrders, Requests, WalkAt, Place, Remove, Join, Within, LotOverLadder;
    var gen, t := InitialBook(base), Falls(-100, 10);
    var b := AfterSamples(secid, gen, Shipped(base), t, n - 1, LOT);
    var mid := base - 100 - 10 * n;
    InitialBookReady(base);
    FallsWalk(base, -100, 10, n);
    LadderTotals(Sell, base, MAX_DEPTH, mid + 1, 1);
    LotRests(base, mid - 1);
    if n == 1 {
      WholeSample(Sell, secid, gen, gen, mid, Falling(10), LOT);
      LadderFront(base);
    } else {
      FirstTick(secid, base, n - 1);
      LotReach(base, base - 91 - 10 * n, mid + 1);
      WholeSample(Sell, secid, gen, b, mid, Falling(10), LOT);
    }
  }

  /** The offers hold `l` among the first `k + 1`. */
  predicate HeldWithin(offers: seq<Level>, l: Level, k: nat) {
    exists i :: 0 <= i <= k && i < |offers| && offers[i] == l
  }

  lemma {:induction false} HeldAfter(offers: seq<Level>, front: seq<Level>, l: Level, k: nat)
    requires HeldWithin(offers, l, k) && |front| <= 1 && k < MAX_DEPTH - 1
    ensures HeldWithin(front + Trim(offers), l, k + 1)
  {
    var i :| 0 <= i <= k && i < |offers| && offers[i] == l;
    assert (front + Trim(offers))[i + |front|] == l;
  }

  /** The second tick, one tick a step from 160 below the base: every sample counts on the
      one lot the first tick left, so its sweep is 10100; the first sample takes that lot,
      and the second finds nothing to take. */
  lemma {:induction false} SecondTick(secid: string, base: int, gen: Book, n: nat)
    requires Inv(gen) && |gen.offers| == MAX_DEPTH && gen.offers[0].price == base - 149
    requires gen.bids == LotOverLadder(base, base - 151) && n <= 5
    ensures var b := AfterSamples(secid, gen, Shipped(base), Falls(-160, 1), n, LOT);
            && Inv(b) && |b.offers| >= MAX_DEPTH - n && b.offers[0].price > base - 160 - n
            && (n == 1 ==> b.bids == LotOverLadder(base, base - 162))
            && (n >= 2 ==> HeldWithin(b.offers, Level(base - 161, 10100, 1), n - 2))
  {
    hide Inv, Run, SampleOrders, Requests, WalkAt, Place, Remove, Join, Within, LotOverLadder, Trim, HeldWithin;
    InvOrdered(gen);
    if n > 0 {
      var t, mid := Falls(-160, 1), base - 160 - n;
      var b := AfterSamples(secid, gen, Shipped(base), t, n - 1, LOT);
      SecondTick(secid, base, gen, n - 1);
      FallsWalk(base, -160, 1, n);
      LotReach(base, base - 151, mid + 1);
      LotDepth(base, base - 151);
      assert AfterSamples(secid, gen, Shipped(base), t, 0, LOT) == gen;
      WholeSample(Sell, secid, gen, b, mid, Falling(1), LOT);
      SecondStep(base, gen, b, Sampled(Sell, secid, gen, b, mid, Falling(1), LOT), n);
    }
  }

  /** One sample of the second tick. */
  lemma {:induction false} SecondStep(base: int, gen: Book, b: Book, b': Book, n: nat)
    requires 1 <= n <= 5 && |gen.offers| == MAX_DEPTH && |gen.bids| == MAX_DEPTH
    requires Reachable(gen, Sell, base - 159 - n) == LOT
    requires Inv(b) && |b.offers| >= MAX_DEPTH + 1 - n && b.offers[0].price > base - 159 - n
    requires n == 1 ==> b == gen && b.bids == LotOverLadder(base, base - 151)
    requires n == 2 ==> b.bids == LotOverLadder(base, base - 162)
    requires n >= 3 ==> HeldWithin(b.offers, Level(base - 161, 10100, 1), n - 3)
    requires Inv(b')
    requires var q := Sweep(Sell, gen, base - 160 - n, LOT); var t := Min(q, Reachable(b, Sell, base - 159 - n));
             && b'.offers == Leftover(Level(base - 159 - n, q, 1), t) + Trim(b.offers)
             && Sorted(Buy, Remove(b.bids, t)) && b'.bids == Evict(Join(Buy, Remove(b.bids, t), base - 161 - n, LOT))
    ensures |b'.offers| >= MAX_DEPTH - n && b'.offers[0].price > base - 160 - n
    ensures n == 1 ==> b'.bids == LotOverLadder(base, base - 162)
    ensures n >= 2 ==> HeldWithin(b'.offers, Level(base - 161, 10100, 1), n - 2)
  {
    hide Inv, Remove, Join, Within, LotOverLadder, HeldWithin;
    var price := base - 159 - n;
    assert Sweep(Sell, gen, base - 160 - n, LOT) == 10100;
    if n == 1 {
      LotReach(base, base - 151, price);
      LotRests(base, base - 162);
    } else if n == 2 {
      LotReach(base, base - 162, price);
      HeldFirst(b'.offers, Level(base - 161, 10100, 1));
    } else {
      HeldAfter(b.offers, Leftover(Level(price, 10100, 1), Min(10100, Reachable(b, Sell, price))),
                Level(base - 161, 10100, 1), n - 3);
    }
  }

  lemma {:induction false} HeldFirst(offers: seq<Level>, l: Level)
    ensures offers != [] && offers[0] == l ==> HeldWithin(offers, l, 0)
  {
  }

  /** The bound on the levels is attained on the simulator's configuration: two ticks from a
      fresh book leave an offer of 10100, since every sweep of a tick counts on bids that
      the first of them takes. */
  lemma {:induction false} LargestLevelReached(secid: string, base: int)
    ensures var b := Updates(secid, InitialBook(base), Shipped(base), false, [Falls(-100, 10), Falls(-160, 1)]);
            exists i :: 0 <= i < |b.offers| && b.offers[i] == Level(base - 161, 10100, 1)
  {
    hide Inv, Run, AfterSamples, Update, Updates, LotOverLadder;
    var c, x, y := Shipped(base), Falls(-100, 10), Falls(-160, 1);
    InitialBookReady(base);
    InvOrdered(InitialBook(base));
    FirstTick(secid, base, 5);
    var gen := AfterSamples(secid, InitialBook(base), c, x, 5, LOT);
    UpdateIsSamples(secid, InitialBook(base), c, false, x);
    SecondTick(secid, base, gen, 5);
    UpdateIsSamples(secid, gen, c, false, y);
    TwoUpdates(secid, InitialBook(base), c, x, y);
  }

  lemma {:induction false} TwoUpdates(secid: string, b: Book, c: MakerConfig, x: Tick, y: Tick)
    requires Ordered(b) && ValidConfig(c) && ValidDraws(c, x.start, x.draws) && ValidDraws(c, y.start, y.draws)
    ensures Updates(secid, b, c, false, [x, y]) == Update(secid, Update(secid, b, c, false, x), c, false, y)
  {
    hide Update;
    var b' := Update(secid, Update(secid, b, c, false, x), c, false, y);
    assert Updates(secid, b', c, false, []) == b';
    assert [x, y][1..] == [y] && [y][1..] == [];
    assert Updates(secid, Update(secid, b, c, false, x), c, false, [y]) == b';
  }
}
