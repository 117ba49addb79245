/** The market maker that drives the simulated books: a bounded random walk of the mid
    price, the orders of each sample, the books they build and the quotes published.
    Random draws are arguments. */
module Maker {
  import opened Integers
  import opened Levels
  import opened Matching
  import opened Placing
  import opened BookTheorems
  import opened SimOrderBook

  const QUOTE_DEPTH := 10

  /** `base` and the prices below are in ticks, like `bound`. */
  datatype MakerConfig = MakerConfig(base: int, bound: int, samples: int, variation: int)

  /** The draws of one sample: the coin for a new direction, the step, the pad sizes. */
  datatype Draws = Draws(up: bool, tick: int, buyPads: seq<int>, sellPads: seq<int>)

  /** What the random distributions demand of the configuration. */
  predicate ValidConfig(c: MakerConfig) {
    c.bound >= 1 && c.variation >= 1
  }

  predicate ValidPads(pads: seq<int>) {
    |pads| == MAX_DEPTH && forall i :: 0 <= i < |pads| ==> 1 <= pads[i] <= 10
  }

  predicate ValidDraws(c: MakerConfig, start: int, draws: seq<Draws>) {
    && 1 - c.bound <= start <= c.bound - 1
    && |draws| == (if c.samples > 0 then c.samples else 0)
    && forall i :: 0 <= i < |draws| ==>
         1 <= draws[i].tick <= 10 && ValidPads(draws[i].buyPads) && ValidPads(draws[i].sellPads)
  }

  datatype Walk = Walk(mid: int, direction: int)

  /** Sample `i`: every `variation` samples the direction is chosen anew, away from a
      bound that was reached and by the coin otherwise. */
  function WalkStep(c: MakerConfig, w: Walk, i: nat, d: Draws): Walk
    requires ValidConfig(c)
  {
    var direction :=
      if i % c.variation != 0 then w.direction
      else if w.mid >= c.base + c.bound then -1
      else if w.mid <= c.base - c.bound then 1
      else if d.up then 1 else -1;
    Walk(w.mid + direction * d.tick, direction)
  }

  /** The walk after `n` samples. */
  function WalkAt(c: MakerConfig, start: int, draws: seq<Draws>, n: nat): Walk
    requires ValidConfig(c) && n <= |draws|
  {
    if n == 0 then Walk(c.base + start, 1)
    else WalkStep(c, WalkAt(c, start, draws, n - 1), n - 1, draws[n - 1])
  }

  lemma {:induction false} MulSign(d: int, v: int)
    requires v >= 1
    ensures d <= -1 ==> d * v <= -v
    ensures d >= 1 ==> d * v >= v
  {
    if d <= -1 { assert (-d) * v >= v; }
  }

  lemma {:induction false} ModUnique(n: nat, v: nat, q: int, r: nat)
    requires v >= 1 && n == q * v + r && r < v
    ensures n % v == r
  {
    var q', r' := n / v, n % v;
    assert n == q' * v + r';
    assert (q - q') * v == r' - r;
    MulSign(q - q', v);
  }

  lemma {:induction false} NextRemainder(n: nat, v: nat)
    requires v >= 1
    ensures (n + 1) % v == if n % v == v - 1 then 0 else n % v + 1
  {
    var q, r := n / v, n % v;
    if r == v - 1 {
      assert n + 1 == (q + 1) * v;
      ModUnique(n + 1, v, q + 1, 0);
    } else {
      ModUnique(n + 1, v, q, r + 1);
    }
  }

  /** However the draws fall, the mid stays within `bound - 1 + 10 * variation` ticks of
      the base; `k` samples into a direction it has drifted at most `10 * k` past the bound. */
  lemma {:induction false} MidBounded(c: MakerConfig, start: int, draws: seq<Draws>, n: nat)
    requires ValidConfig(c) && ValidDraws(c, start, draws) && n <= |draws|
    ensures var w := WalkAt(c, start, draws, n); var k := n % c.variation;
            && -(c.bound - 1 + 10 * c.variation) <= w.mid - c.base <= c.bound - 1 + 10 * c.variation
            && (w.direction == 1 || w.direction == -1)
            && (k > 0 && w.direction == 1 ==> w.mid - c.base <= c.bound - 1 + 10 * k)
            && (k > 0 && w.direction == -1 ==> -(c.bound - 1 + 10 * k) <= w.mid - c.base)
  {
    if n > 0 {
      MidBounded(c, start, draws, n - 1);
      NextRemainder(n - 1, c.variation);
      assert (n - 1) % c.variation < c.variation;
      assert 1 <= draws[n - 1].tick <= 10;
    }
  }

  /** The sample at which the direction in force after `n` samples was chosen. */
  function ChosenAt(c: MakerConfig, n: nat): (j: nat)
    requires ValidConfig(c) && n > 0
    ensures j < n && j % c.variation == 0 && n - j <= c.variation
  {
    ChosenArithmetic(n - 1, c.variation);
    n - 1 - (n - 1) % c.variation
  }

  lemma {:induction false} ChosenArithmetic(n: nat, v: nat)
    requires v >= 1
    ensures 0 <= n - n % v && (n - n % v) % v == 0
  {
    ModUnique(n - n % v, v, n / v, 0);
  }

  /** No multiple of `v` lies strictly between a multiple and the next. */
  lemma {:induction false} ChosenNext(c: MakerConfig, n: nat)
    requires ValidConfig(c) && n > 0
    ensures ChosenAt(c, n + 1) == if n % c.variation == 0 then n else ChosenAt(c, n)
  {
    NextRemainder(n - 1, c.variation);
  }

  /** Each sample moves the mid by its draw in the direction in force. That direction was
      chosen at the last multiple of `variation`: back towards the base when the mid was
      at a bound or beyond, and by that sample's coin otherwise. */
  lemma {:induction false} WalkMoves(c: MakerConfig, start: int, draws: seq<Draws>, n: nat)
    requires ValidConfig(c) && 0 < n <= |draws|
    ensures var before, after := WalkAt(c, start, draws, n - 1), WalkAt(c, start, draws, n);
            var j := ChosenAt(c, n); var there := WalkAt(c, start, draws, j).mid - c.base;
            && after.mid - before.mid == after.direction * draws[n - 1].tick
            && (after.direction == 1 || after.direction == -1)
            && (after.direction == 1 <==> there <= -c.bound || (there < c.bound && draws[j].up))
  {
    if n > 1 {
      WalkMoves(c, start, draws, n - 1);
      ChosenNext(c, n - 1);
    } else {
      assert ChosenAt(c, 1) == 0;
    }
  }

  /** Every step as long as can be, and in one direction. */
  function Steady(n: nat, up: bool): (draws: seq<Draws>)
    ensures |draws| == n
  {
    seq(n, _ => Draws(up, 10, seq(MAX_DEPTH, _ => 1), seq(MAX_DEPTH, _ => 1)))
  }

  /** The bound on the mid is attained at both ends. */
  lemma {:induction false} MidBoundReached(c: MakerConfig, n: nat, up: bool)
    requires ValidConfig(c) && n <= c.variation <= c.samples
    ensures var start, draws := if up then c.bound - 1 else 1 - c.bound, Steady(c.samples, up);
            && ValidDraws(c, start, draws)
            && var w := WalkAt(c, start, draws, n); var drift := c.bound - 1 + 10 * n;
               && w.mid == c.base + (if up then drift else -drift)
               && (n > 0 ==> w.direction == if up then 1 else -1)
  {
    if n > 0 {
      MidBoundReached(c, n - 1, up);
      ModUnique(n - 1, c.variation, 0, n - 1);
    }
  }

  /** Pads fill a side down to `MAX_DEPTH`, two ticks apart, away from `price`. */
  function PadOrders(secid: string, depth: nat, price: int, side: Side, pads: seq<int>): seq<Order>
    requires ValidPads(pads)
  {
    if depth >= MAX_DEPTH then []
    else seq(MAX_DEPTH - depth, i requires 0 <= i < MAX_DEPTH - depth =>
           Order(secid, side, price + (if side == Buy then -1 else 1) * (1 + 2 * i), pads[i]))
  }

  /** Pads never share a price, with each other or with the price they pad from, and lie
      on its outer side. */
  lemma {:induction false} PadsApart(secid: string, depth: nat, price: int, side: Side, pads: seq<int>)
    requires ValidPads(pads)
    ensures var os := PadOrders(secid, depth, price, side, pads);
            && |os| + (if depth < MAX_DEPTH then depth else MAX_DEPTH) == MAX_DEPTH
            && (forall i :: 0 <= i < |os| ==> os[i].side == side && Ahead(side, price, os[i].price) && os[i].qty == pads[i])
            && (os != [] ==> os[0].price == price + (if side == Buy then -1 else 1))
            && (forall i :: 0 < i < |os| ==> os[i].price - os[i - 1].price == if side == Buy then -2 else 2)
            && forall i, j :: 0 <= i < j < |os| ==> Ahead(side, os[i].price, os[j].price - (if side == Buy then -1 else 1))
  {
  }

  /** The orders of one sample, all computed against the same book. */
  function SampleOrders(secid: string, b: Book, w: Walk, d: Draws): seq<Order>
    requires ValidPads(d.buyPads) && ValidPads(d.sellPads)
  {
    var sellPrice, buyPrice := w.mid + 1, w.mid - 1;
    (if w.direction < 0 then
       [Order(secid, Sell, sellPrice, Min(Reachable(b, Sell, sellPrice), MAX_QTY) + 1), Order(secid, Buy, buyPrice, 1)]
     else
       [Order(secid, Buy, buyPrice, Min(Reachable(b, Buy, buyPrice), MAX_QTY) + 1), Order(secid, Sell, sellPrice, 1)])
    + PadOrders(secid, |b.bids|, buyPrice, Buy, d.buyPads)
    + PadOrders(secid, |b.offers|, sellPrice, Sell, d.sellPads)
  }

  /** An order of the maker: from 1 to `MAX_QTY + 1` lots of the security. */
  predicate Modest(o: Order, secid: string) {
    1 <= o.qty <= MAX_QTY + 1 && o.secid == secid
  }

  lemma {:induction false} PadsModest(secid: string, depth: nat, price: int, side: Side, pads: seq<int>)
    requires ValidPads(pads)
    ensures forall o :: o in PadOrders(secid, depth, price, side, pads) ==> Modest(o, secid)
  {
  }

  lemma {:induction false} SweepModest(secid: string, b: Book, side: Side, price: int)
    requires Inv(b)
    ensures Modest(Order(secid, side, price, Min(Reachable(b, side, price), MAX_QTY) + 1), secid)
  {
    WithinBounds(Other(side), b.Opposite(side), price);
  }

  /** Every generated quantity lies between 1 and `MAX_QTY + 1`. */
  lemma {:induction false} SampleQuantities(secid: string, b: Book, w: Walk, d: Draws)
    requires Inv(b) && ValidPads(d.buyPads) && ValidPads(d.sellPads)
    ensures forall o :: o in SampleOrders(secid, b, w, d) ==> 1 <= o.qty <= MAX_QTY + 1 && o.secid == secid
  {
    hide Inv, Within, PadOrders, Reachable, ValidPads;
    SweepModest(secid, b, Sell, w.mid + 1);
    SweepModest(secid, b, Buy, w.mid - 1);
    PadsModest(secid, |b.bids|, w.mid - 1, Buy, d.buyPads);
    PadsModest(secid, |b.offers|, w.mid + 1, Sell, d.sellPads);
    forall o | o in SampleOrders(secid, b, w, d) ensures Modest(o, secid) {
    }
  }

  /** A sample's two main orders lie one tick on either side of its mid, and its buys all
      below the mid, its sells all above. The one that sweeps moves with the price. */
  lemma {:induction false} SampleSides(secid: string, b: Book, w: Walk, d: Draws)
    requires ValidPads(d.buyPads) && ValidPads(d.sellPads)
    ensures var os := SampleOrders(secid, b, w, d);
            && |os| >= 2 && os[0].side != os[1].side
            && (os[0].side == Sell <==> w.direction < 0) && os[1].qty == 1
            && (forall i :: 0 <= i < 2 ==> os[i].price == if os[i].side == Buy then w.mid - 1 else w.mid + 1)
            && (forall o :: o in os ==> if o.side == Buy then o.price < w.mid else o.price > w.mid)
  {
    hide Within, Reachable, ValidPads, PadOrders;
    PadsApart(secid, |b.bids|, w.mid - 1, Buy, d.buyPads);
    PadsApart(secid, |b.offers|, w.mid + 1, Sell, d.sellPads);
  }

  /** So in a whole generation every buy is below the mid published with it, and every sell
      above. */
  lemma {:induction false} SamplesAroundMid(secid: string, b: Book, c: MakerConfig, start: int, draws: seq<Draws>, n: nat)
    requires ValidConfig(c) && ValidDraws(c, start, draws) && n <= |draws|
    ensures var s := Samples(secid, b, c, start, draws, n);
            && |s| == n
            && forall i :: 0 <= i < n ==> forall o :: o in s[i].0 ==> if o.side == Buy then o.price < s[i].1 else o.price > s[i].1
  {
    hide WalkAt, SampleOrders;
    if n > 0 {
      SamplesAroundMid(secid, b, c, start, draws, n - 1);
      SampleSides(secid, b, WalkAt(c, start, draws, n), draws[n - 1]);
    }
  }

  method PadBook(secid: string, depth: nat, price: int, side: Side, pads: seq<int>) returns (orders: seq<Order>)
    requires ValidPads(pads)
    ensures orders == PadOrders(secid, depth, price, side, pads)
  {
    orders := [];
    if depth >= MAX_DEPTH {
      return;
    }
    var sign := if side == Buy then -1 else 1;
    var num := MAX_DEPTH - depth;
    for i := 0 to num
      invariant orders == PadOrders(secid, depth, price, side, pads)[..i]
    {
      orders := orders + [Order(secid, side, price + sign * (1 + 2 * i), pads[i])];
    }
  }

  /** The first `n` samples: their orders, all against the same book, and their mids. */
  function Samples(secid: string, b: Book, c: MakerConfig, start: int, draws: seq<Draws>, n: nat)
    : seq<(seq<Order>, int)>
    requires ValidConfig(c) && ValidDraws(c, start, draws) && n <= |draws|
  {
    if n == 0 then []
    else
      var w := WalkAt(c, start, draws, n);
      Samples(secid, b, c, start, draws, n - 1) + [(SampleOrders(secid, b, w, draws[n - 1]), w.mid)]
  }

  method GenOrders(book: OrderBook, c: MakerConfig, start: int, draws: seq<Draws>)
    returns (result: seq<(seq<Order>, int)>)
    requires Ordered(book.View()) && ValidConfig(c) && ValidDraws(c, start, draws)
    ensures result == Samples(book.security, book.View(), c, start, draws, |draws|)
  {
    hide SampleOrders, Ordered, Sorted;
    result := [];
    var upperBound, lowerBound := c.base + c.bound, c.base - c.bound;
    var mid, direction := c.base + start, 1;
    var i := 0;
    while i < c.samples
      invariant 0 <= i <= |draws|
      invariant Walk(mid, direction) == WalkAt(c, start, draws, i)
      invariant result == Samples(book.security, book.View(), c, start, draws, i)
    {
      if i % c.variation == 0 {
        if mid >= upperBound {
          direction := -1;
        } else if mid <= lowerBound {
          direction := 1;
        } else {
          direction := if draws[i].up then 1 else -1;
        }
      }
      mid := mid + direction * draws[i].tick;
      var orders := Sample(book, mid, direction, draws[i]);
      result := result + [(orders, mid)];
      i := i + 1;
    }
  }

  method Sample(book: OrderBook, mid: int, direction: int, d: Draws) returns (orders: seq<Order>)
    requires Ordered(book.View()) && ValidPads(d.buyPads) && ValidPads(d.sellPads)
    ensures orders == SampleOrders(book.security, book.View(), Walk(mid, direction), d)
  {
    hide PadOrders, Within, Ordered;
    var sellPrice, buyPrice := mid + 1, mid - 1;
    if direction < 0 {
      var qty := book.AggregateBidQty(sellPrice);
      orders := [Order(book.security, Sell, sellPrice, Min(qty, MAX_QTY) + 1), Order(book.security, Buy, buyPrice, 1)];
    } else {
      var qty := book.AggregateOfferQty(buyPrice);
      orders := [Order(book.security, Buy, buyPrice, Min(qty, MAX_QTY) + 1), Order(book.security, Sell, sellPrice, 1)];
    }
    var buyPad := PadBook(book.security, |book.bids|, buyPrice, Buy, d.buyPads);
    var sellPad := PadBook(book.security, |book.offers|, sellPrice, Sell, d.sellPads);
    orders := orders + buyPad + sellPad;
  }

  /** The orders of one update as the book receives them: in lots of `lot`. */
  function Requests(orders: seq<Order>, lot: int): (r: seq<Request>)
    ensures |r| == |orders|
  {
    seq(|orders|, i requires 0 <= i < |orders| => Request(orders[i].side, orders[i].price, orders[i].qty * lot))
  }

  function Flatten(samples: seq<(seq<Order>, int)>): seq<Order> {
    if samples == [] then [] else Flatten(samples[..|samples| - 1]) + samples[|samples| - 1].0
  }

  /** Every mid handed out respects the bound and every quantity is small. */
  lemma {:induction false} SamplesBounded(secid: string, b: Book, c: MakerConfig, start: int, draws: seq<Draws>, n: nat)
    requires Inv(b) && ValidConfig(c) && ValidDraws(c, start, draws) && n <= |draws|
    ensures var s := Samples(secid, b, c, start, draws, n);
            && (forall o :: o in Flatten(s) ==> 1 <= o.qty <= MAX_QTY + 1 && o.secid == secid)
            && forall i :: 0 <= i < |s| ==>
                 -(c.bound - 1 + 10 * c.variation) <= s[i].1 - c.base <= c.bound - 1 + 10 * c.variation
  {
    hide WalkAt, SampleOrders, Inv;
    if n > 0 {
      SamplesBounded(secid, b, c, start, draws, n - 1);
      MidBounded(c, start, draws, n);
      SampleQuantities(secid, b, WalkAt(c, start, draws, n), draws[n - 1]);
      var s := Samples(secid, b, c, start, draws, n);
      assert s[..|s| - 1] == Samples(secid, b, c, start, draws, n - 1);
    }
  }

  /** One timer tick of the simulator on one book: 100 lots a unit unless a future. */
  datatype Tick = Tick(start: int, draws: seq<Draws>)

  function LotSize(future: bool): int { if future then 1 else 100 }

  const MAX_MAKER_QTY := (MAX_QTY + 1) * 100

  function Update(secid: string, b: Book, c: MakerConfig, future: bool, tick: Tick): (r: Book)
    requires Ordered(b) && ValidConfig(c) && ValidDraws(c, tick.start, tick.draws)
    ensures Ordered(r)
  {
    Run(b, Requests(Flatten(Samples(secid, b, c, tick.start, tick.draws, |tick.draws|)), LotSize(future)))
  }

  function Updates(secid: string, b: Book, c: MakerConfig, future: bool, ticks: seq<Tick>): (r: Book)
    requires Ordered(b) && ValidConfig(c)
    requires forall i :: 0 <= i < |ticks| ==> ValidDraws(c, ticks[i].start, ticks[i].draws)
    decreases |ticks|
  {
    if ticks == [] then b else Updates(secid, Update(secid, b, c, future, ticks[0]), c, future, ticks[1..])
  }

  /** The ladder a new instrument starts from: one unit every 100 ticks on both sides. */
  function Ladder(side: Side, base: int, n: nat): (s: seq<Level>)
    ensures Sorted(side, s) && Positive(s) && |s| == n
  {
    seq(n, i requires 0 <= i < n => Level(base + (if side == Buy then -100 else 100) * (i + 1), 1, 1))
  }

  function InitialBook(base: int): Book {
    Book(Ladder(Buy, base, MAX_DEPTH), Ladder(Sell, base, MAX_DEPTH), 0)
  }

  lemma {:induction false} UpdateKeepsBounds(secid: string, b: Book, c: MakerConfig, future: bool, tick: Tick)
    requires Inv(b) && BookAtMost(b, MAX_MAKER_QTY) && ValidConfig(c) && ValidDraws(c, tick.start, tick.draws)
    ensures Inv(Update(secid, b, c, future, tick)) && BookAtMost(Update(secid, b, c, future, tick), MAX_MAKER_QTY)
  {
    var orders := Flatten(Samples(secid, b, c, tick.start, tick.draws, |tick.draws|));
    SamplesBounded(secid, b, c, tick.start, tick.draws, |tick.draws|);
    forall i | 0 <= i < |orders| ensures 0 < Requests(orders, LotSize(future))[i].qty <= MAX_MAKER_QTY {
      assert orders[i] in orders;
    }
    RunKeepsInv(b, Requests(orders, LotSize(future)), MAX_MAKER_QTY);
  }

  lemma {:induction false} UpdatesKeepBounds(secid: string, c: MakerConfig, future: bool, b: Book, ticks: seq<Tick>)
    requires ValidConfig(c) && Inv(b) && BookAtMost(b, MAX_MAKER_QTY)
    requires forall i :: 0 <= i < |ticks| ==> ValidDraws(c, ticks[i].start, ticks[i].draws)
    ensures var r := Updates(secid, b, c, future, ticks); Inv(r) && BookAtMost(r, MAX_MAKER_QTY)
    decreases |ticks|
  {
    if ticks != [] {
      UpdateKeepsBounds(secid, b, c, future, ticks[0]);
      UpdatesKeepBounds(secid, c, future, Update(secid, b, c, future, ticks[0]), ticks[1..]);
    }
  }

  /** A future is dealt in single lots, so its levels never pass the merge cap. */
  lemma {:induction false} FutureKeepsCap(secid: string, c: MakerConfig, b: Book, ticks: seq<Tick>)
    requires ValidConfig(c) && Inv(b) && BookAtMost(b, MAX_LEVEL_QTY)
    requires forall i :: 0 <= i < |ticks| ==> ValidDraws(c, ticks[i].start, ticks[i].draws)
    ensures var r := Updates(secid, b, c, true, ticks); Inv(r) && BookAtMost(r, MAX_LEVEL_QTY)
    decreases |ticks|
  {
    hide Samples, Flatten, Requests, Run;
    if ticks != [] {
      FutureTick(secid, c, b, ticks[0]);
      FutureKeepsCap(secid, c, Update(secid, b, c, true, ticks[0]), ticks[1..]);
    }
  }

  lemma {:induction false} FutureTick(secid: string, c: MakerConfig, b: Book, tick: Tick)
    requires ValidConfig(c) && Inv(b) && BookAtMost(b, MAX_LEVEL_QTY) && ValidDraws(c, tick.start, tick.draws)
    ensures var r := Update(secid, b, c, true, tick); Inv(r) && BookAtMost(r, MAX_LEVEL_QTY)
  {
    var orders := Flatten(Samples(secid, b, c, tick.start, tick.draws, |tick.draws|));
    SamplesBounded(secid, b, c, tick.start, tick.draws, |tick.draws|);
    forall i | 0 <= i < |orders| ensures 0 < Requests(orders, 1)[i].qty <= MAX_LEVEL_QTY {
      assert orders[i] in orders;
    }
    RunKeepsInv(b, Requests(orders, 1), MAX_LEVEL_QTY);
  }

  lemma {:induction false} InitialBookReady(base: int)
    ensures Inv(InitialBook(base)) && BookAtMost(InitialBook(base), MAX_MAKER_QTY)
  {
  }
}
