/** The simulated market data source: it builds a book, drives it with the maker's
    orders on every timer tick, and publishes a quote of its ten best levels. */
module MarketDataSim {
  import opened Integers
  import opened Levels
  import opened Matching
  import opened Placing
  import opened BookTheorems
  import opened SimOrderBook
  import opened Maker

  /** Prices in ticks; a level past the book's depth reads zero. */
  datatype Quote = Quote(bidPrice: seq<int>, bidVolume: seq<int>, askPrice: seq<int>, askVolume: seq<int>,
                         lastPrice: int)

  /** `std::round` of half a sum of ticks: halves go away from zero. */
  function RoundHalf(sum: int): int {
    if sum >= 0 then (sum + 1) / 2 else -((1 - sum) / 2)
  }

  function LevelPrice(s: seq<Level>, i: nat): int { if i < |s| then s[i].price else 0 }

  function LevelQty(s: seq<Level>, i: nat): int { if i < |s| then s[i].qty else 0 }

  function QuoteOf(b: Book): Quote {
    Quote(seq(QUOTE_DEPTH, i requires 0 <= i => LevelPrice(b.bids, i)),
          seq(QUOTE_DEPTH, i requires 0 <= i => LevelQty(b.bids, i)),
          seq(QUOTE_DEPTH, i requires 0 <= i => LevelPrice(b.offers, i)),
          seq(QUOTE_DEPTH, i requires 0 <= i => LevelQty(b.offers, i)),
          if b.bids != [] && b.offers != [] then RoundHalf(b.offers[0].price + b.bids[0].price) else 0)
  }

  function Sum(s: seq<int>): int {
    if s == [] then 0 else Sum(s[..|s| - 1]) + s[|s| - 1]
  }

  /** The published prices and volumes of one side, best first: as many levels as the book
      has, up to ten, zero behind; each price is one of the book's, strictly worse than the
      one before, and the volumes up to it are all the book holds at that price or better. */
  predicate SideIsSound(side: Side, s: seq<Level>, price: seq<int>, volume: seq<int>) {
    var n := Min(|s|, QUOTE_DEPTH);
    && |price| == |volume| == QUOTE_DEPTH
    && (forall i :: 0 <= i < QUOTE_DEPTH ==> (volume[i] > 0 <==> i < n))
    && (forall i :: n <= i < QUOTE_DEPTH ==> price[i] == volume[i] == 0)
    && (forall i, j :: 0 <= i < j < n ==> Ahead(side, price[i], price[j]))
    && (forall i :: 0 <= i < n ==> HasPrice(s, price[i]) && Sum(volume[..i + 1]) == Within(side, s, price[i]))
  }

  /** Both sides are sound, the quote is uncrossed, and its last price is the mid, halves
      rounded away from zero. */
  predicate QuoteIsSound(b: Book) {
    var q := QuoteOf(b);
    && SideIsSound(Buy, b.bids, q.bidPrice, q.bidVolume)
    && SideIsSound(Sell, b.offers, q.askPrice, q.askVolume)
    && (b.bids == [] || b.offers == [] ==> q.lastPrice == 0)
    && (b.bids != [] && b.offers != [] ==>
          var twice := q.bidPrice[0] + q.askPrice[0];
          && q.bidPrice[0] < q.askPrice[0]
          && q.bidPrice[0] <= q.lastPrice <= q.askPrice[0]
          && 2 * q.lastPrice - twice == if twice % 2 == 0 then 0 else if twice > 0 then 1 else -1)
  }

  lemma {:induction false} WithinPrefix(side: Side, s: seq<Level>, i: nat)
    requires Sorted(side, s) && i < |s|
    ensures Within(side, s, s[i].price) == Total(s[..i + 1])
  {
    if i == 0 {
      NothingBehind(side, s[1..], s[0].price);
      assert s[..1][1..] == [];
    } else {
      assert s[..i + 1][1..] == s[1..][..i];
      WithinPrefix(side, s[1..], i - 1);
    }
  }

  lemma {:induction false} SumOfPrefix(s: seq<Level>, volume: seq<int>, n: nat)
    requires n <= |s| && n <= |volume| && forall i :: 0 <= i < n ==> volume[i] == s[i].qty
    ensures Sum(volume[..n]) == Total(s[..n])
  {
    if n > 0 {
      SumOfPrefix(s, volume, n - 1);
      assert volume[..n][..n - 1] == volume[..n - 1];
      TotalSplit(s[..n], n - 1);
      assert s[..n][..n - 1] == s[..n - 1] && s[..n][n - 1..] == [s[n - 1]];
      assert [s[n - 1]][1..] == [];
      assert Total([s[n - 1]]) == s[n - 1].qty;
    }
  }

  lemma {:induction false} SideSound(side: Side, s: seq<Level>)
    requires Sorted(side, s) && Positive(s)
    ensures SideIsSound(side, s, seq(QUOTE_DEPTH, i requires 0 <= i => LevelPrice(s, i)),
                        seq(QUOTE_DEPTH, i requires 0 <= i => LevelQty(s, i)))
  {
    hide Within, Total, Sum;
    var price, volume := seq(QUOTE_DEPTH, i requires 0 <= i => LevelPrice(s, i)), seq(QUOTE_DEPTH, i requires 0 <= i => LevelQty(s, i));
    forall i | 0 <= i < Min(|s|, QUOTE_DEPTH)
      ensures HasPrice(s, price[i]) && Sum(volume[..i + 1]) == Within(side, s, price[i])
    {
      assert s[i].price == price[i];
      SumOfPrefix(s, volume, i + 1);
      WithinPrefix(side, s, i);
    }
  }

  lemma {:induction false} QuoteSound(b: Book)
    requires Inv(b)
    ensures QuoteIsSound(b)
  {
    hide SideIsSound;
    SideSound(Buy, b.bids);
    SideSound(Sell, b.offers);
  }

  /** In every book the simulator can reach, whatever the draws and however many ticks,
      the book invariant holds, each level holds between 1 and 10100, or 2000 for a future,
      and the quote published from it is sound. */
  lemma {:induction false} EveryReachableBook(secid: string, c: MakerConfig, future: bool, ticks: seq<Tick>)
    requires ValidConfig(c) && forall i :: 0 <= i < |ticks| ==> ValidDraws(c, ticks[i].start, ticks[i].draws)
    ensures var b := Updates(secid, InitialBook(c.base), c, future, ticks);
            && Inv(b) && QuoteIsSound(b)
            && (forall i :: 0 <= i < |b.bids| ==> 1 <= b.bids[i].qty <= 10100)
            && (forall i :: 0 <= i < |b.offers| ==> 1 <= b.offers[i].qty <= 10100)
            && |b.bids| <= 20 && |b.offers| <= 20 && (future ==> BookAtMost(b, 2000))
  {
    hide QuoteIsSound;
    if future { FutureKeepsCap(secid, c, InitialBook(c.base), ticks); }
    InitialBookReady(c.base);
    UpdatesKeepBounds(secid, c, future, InitialBook(c.base), ticks);
    QuoteSound(Updates(secid, InitialBook(c.base), c, future, ticks));
  }

  /** The maker's sweep, computed on book `gen` and placed in lots of `lot` on book `b`,
      fills completely exactly when `b` holds one lot more than what `gen` held within its
      limit, up to `MAX_QTY + 1` lots; otherwise a remainder rests. On the book it was
      computed from, only the `MAX_QTY + 1` lots will do. */
  lemma {:induction false} SweepFillsExactly(secid: string, gen: Book, b: Book, w: Walk, d: Draws, lot: int)
    requires Inv(gen) && Inv(b) && ValidPads(d.buyPads) && ValidPads(d.sellPads) && lot >= 1
    ensures var o := SampleOrders(secid, gen, w, d)[0]; var q := o.qty * lot;
            var filled := Traded(Place(b, o.side, o.price, q).1) == q;
            && q > 0
            && (filled <==> Reachable(b, o.side, o.price) >= (Min(Reachable(gen, o.side, o.price), MAX_QTY) + 1) * lot)
            && (b == gen ==> (filled <==> Reachable(b, o.side, o.price) >= (MAX_QTY + 1) * lot))
  {
    hide Place, Inv, Within, Fills, Remove, Join, Evict, Leftover, PadOrders;
    var o := SampleOrders(secid, gen, w, d)[0];
    var r := Reachable(gen, o.side, o.price);
    InvSides(gen, o.side);
    assert o.qty == Min(r, MAX_QTY) + 1;
    WithinBounds(Other(o.side), gen.Opposite(o.side), o.price);
    SweepArithmetic(r, lot);
    OrderTradesWhatItReaches(b, o.side, o.price, o.qty * lot);
  }

  lemma {:induction false} InvSides(b: Book, side: Side)
    ensures Inv(b) ==> Ordered(b) && Positive(b.Opposite(side)) && Sorted(Other(side), b.Opposite(side))
  {
  }

  lemma {:induction false} SweepArithmetic(r: int, lot: int)
    requires r >= 0 && lot >= 1
    ensures var q := (Min(r, MAX_QTY) + 1) * lot; q > 0 && (q <= r <==> (MAX_QTY + 1) * lot <= r)
  {
    if r <= MAX_QTY {
      MulSign(lot, r + 1);
    }
  }

  method QuoteFromOrderBook(book: OrderBook) returns (quote: Quote)
    requires Ordered(book.View())
    ensures quote == QuoteOf(book.View())
  {
    var bidDepth, askDepth := Min(|book.bids|, QUOTE_DEPTH), Min(|book.offers|, QUOTE_DEPTH);
    var bidPrice, bidVolume := Fill(book.bids, bidDepth);
    var askPrice, askVolume := Fill(book.offers, askDepth);
    var last := 0;
    if bidDepth > 0 && askDepth > 0 {
      last := RoundHalf(askPrice[0] + bidPrice[0]);
    }
    quote := Quote(bidPrice[..], bidVolume[..], askPrice[..], askVolume[..], last);
  }

  /** The two loops over one side of the quote's arrays. */
  method Fill(side: seq<Level>, depth: nat) returns (price: array<int>, volume: array<int>)
    requires depth == Min(|side|, QUOTE_DEPTH)
    ensures fresh(price) && fresh(volume) && price.Length == volume.Length == QUOTE_DEPTH
    ensures forall i :: 0 <= i < QUOTE_DEPTH ==> price[i] == LevelPrice(side, i) && volume[i] == LevelQty(side, i)
  {
    price, volume := new int[QUOTE_DEPTH], new int[QUOTE_DEPTH];
    for i := 0 to depth
      invariant forall j :: 0 <= j < i ==> price[j] == LevelPrice(side, j) && volume[j] == LevelQty(side, j)
    {
      price[i] := side[i].price;
      volume[i] := side[i].qty;
    }
    for i := depth to QUOTE_DEPTH
      invariant forall j :: 0 <= j < i ==> price[j] == LevelPrice(side, j) && volume[j] == LevelQty(side, j)
    {
      price[i] := 0;
      volume[i] := 0;
    }
  }

  lemma {:induction false} LadderGrows(side: Side, base: int, i: nat, opposite: seq<Level>, last: int)
    requires i < MAX_DEPTH
    requires opposite == Ladder(if side == Buy then Sell else Buy, base, |opposite|) && |opposite| <= MAX_DEPTH
    ensures var b := if side == Buy then Book(Ladder(Buy, base, i), opposite, last)
                     else Book(opposite, Ladder(Sell, base, i), last);
            var (b', trades) := Place(b, side, base + (if side == Buy then -100 else 100) * (i + 1), 1);
            && Inv(b) && trades == [] && b'.lastPrice == last
            && b'.Own(side) == Ladder(side, base, i + 1) && b'.Opposite(side) == opposite
  {
    hide Inv, Place, Join, Ladder, Reachable;
    var b := if side == Buy then Book(Ladder(Buy, base, i), opposite, last)
             else Book(opposite, Ladder(Sell, base, i), last);
    var price := base + (if side == Buy then -100 else 100) * (i + 1);
    LadderReady(side, base, i, opposite, last);
    OrderRests(b, side, price, 1);
    LadderJoin(side, base, i, price);
  }

  lemma {:induction false} LadderReady(side: Side, base: int, i: nat, opposite: seq<Level>, last: int)
    requires i < MAX_DEPTH
    requires opposite == Ladder(if side == Buy then Sell else Buy, base, |opposite|) && |opposite| <= MAX_DEPTH
    ensures var b := if side == Buy then Book(Ladder(Buy, base, i), opposite, last)
                     else Book(opposite, Ladder(Sell, base, i), last);
            Inv(b) && Reachable(b, side, base + (if side == Buy then -100 else 100) * (i + 1)) == 0
  {
    hide Within;
    WithinBounds(Other(side), opposite, base + (if side == Buy then -100 else 100) * (i + 1));
  }

  lemma {:induction false} LadderJoin(side: Side, base: int, i: nat, price: int)
    requires price == base + (if side == Buy then -100 else 100) * (i + 1)
    ensures Join(side, Ladder(side, base, i), price, 1) == Ladder(side, base, i + 1)
  {
    var s := Ladder(side, base, i);
    PositionEnd(side, s, price);
    assert s[..i] == s && s[i..] == [];
    assert Ladder(side, base, i + 1) == s + [Level(price, 1, 1)];
  }

  lemma {:induction false} PositionEnd(side: Side, s: seq<Level>, price: int)
    requires Sorted(side, s) && forall i :: 0 <= i < |s| ==> Ahead(side, s[i].price, price)
    ensures Position(side, s, price) == |s|
  {
    if s != [] { PositionEnd(side, s[1..], price); }
  }

  method InitOrderBook(security: string, c: MakerConfig) returns (book: OrderBook)
    ensures fresh(book) && book.security == security && book.View() == InitialBook(c.base)
  {
    book := new OrderBook(security);
    for i := 0 to MAX_DEPTH
      invariant book.View() == Book(Ladder(Buy, c.base, i), Ladder(Sell, c.base, i), 0)
    {
      PlaceRung(book, Buy, c.base, i, i);
      PlaceRung(book, Sell, c.base, i + 1, i);
    }
  }

  /** The orders of one rung of the initial ladder. */
  method PlaceRung(book: OrderBook, side: Side, base: int, bids: nat, offers: nat)
    requires bids <= MAX_DEPTH && offers < MAX_DEPTH && (side == Buy ==> bids < MAX_DEPTH)
    requires book.View() == Book(Ladder(Buy, base, bids), Ladder(Sell, base, offers), 0)
    modifies book
    ensures book.View() == if side == Buy then Book(Ladder(Buy, base, bids + 1), Ladder(Sell, base, offers), 0)
                           else Book(Ladder(Buy, base, bids), Ladder(Sell, base, offers + 1), 0)
  {
    hide Place, Inv;
    var i, delta := if side == Buy then bids else offers, if side == Buy then -100 else 100;
    LadderGrows(side, base, i, if side == Buy then book.offers else book.bids, 0);
    var r := book.PlaceOrder(Order(book.security, side, base + delta * (i + 1), 1));
  }

  lemma {:induction false} RunAppend(b: Book, xs: seq<Request>, ys: seq<Request>)
    requires Ordered(b)
    ensures Run(b, xs + ys) == Run(Run(b, xs), ys)
    decreases |ys|
  {
    hide Place;
    if ys == [] {
      assert xs + ys == xs;
    } else {
      var n := |ys| - 1;
      assert (xs + ys)[..|xs| + n] == xs + ys[..n] && (xs + ys)[|xs| + n] == ys[n];
      RunAppend(b, xs, ys[..n]);
    }
  }

  lemma {:induction false} RunNext(b: Book, all: seq<Request>, i: nat)
    requires Ordered(b) && i < |all|
    ensures Run(b, all[..i + 1]) == Place(Run(b, all[..i]), all[i].side, all[i].price, all[i].qty).0
  {
    hide Place;
    assert all[..i + 1][..i] == all[..i];
  }

  lemma {:induction false} SampleNamed(secid: string, b: Book, w: Walk, d: Draws)
    requires ValidPads(d.buyPads) && ValidPads(d.sellPads)
    ensures forall i :: 0 <= i < |SampleOrders(secid, b, w, d)| ==> SampleOrders(secid, b, w, d)[i].secid == secid
  {
    hide Within;
  }

  lemma {:induction false} SampleSecid(secid: string, b: Book, c: MakerConfig, start: int, draws: seq<Draws>, n: nat)
    requires ValidConfig(c) && ValidDraws(c, start, draws) && n <= |draws|
    ensures var s := Samples(secid, b, c, start, draws, n);
            |s| == n && forall k, i :: 0 <= k < n && 0 <= i < |s[k].0| ==> s[k].0[i].secid == secid
  {
    hide WalkAt, SampleOrders;
    if n > 0 {
      SampleSecid(secid, b, c, start, draws, n - 1);
      SampleNamed(secid, b, WalkAt(c, start, draws, n), draws[n - 1]);
    }
  }

  /** One timer tick on one book: generate against the book as it stands, then place
      every order in turn, then publish. */
  method UpdateOrderBook(book: OrderBook, c: MakerConfig, future: bool, tick: Tick) returns (quote: Quote)
    requires Ordered(book.View()) && ValidConfig(c) && ValidDraws(c, tick.start, tick.draws)
    modifies book
    ensures book.View() == Update(book.security, old(book.View()), c, future, tick)
    ensures quote == QuoteOf(book.View())
  {
    ghost var b := book.View();
    var lists := GenOrders(book, c, tick.start, tick.draws);
    SampleSecid(book.security, b, c, tick.start, tick.draws, |tick.draws|);
    var k := 0;
    while k < |lists|
      invariant 0 <= k <= |lists| && Ordered(book.View())
      invariant book.View() == Run(b, Requests(Flatten(lists[..k]), LotSize(future)))
    {
      PlaceList(book, lists[k].0, future);
      FlattenNext(b, lists, k, LotSize(future));
      k := k + 1;
    }
    assert lists[..|lists|] == lists;
    quote := QuoteFromOrderBook(book);
  }

  lemma {:induction false} FlattenNext(b: Book, lists: seq<(seq<Order>, int)>, k: nat, lot: int)
    requires Ordered(b) && k < |lists|
    ensures Run(b, Requests(Flatten(lists[..k + 1]), lot))
            == Run(Run(b, Requests(Flatten(lists[..k]), lot)), Requests(lists[k].0, lot))
  {
    hide Place, Run;
    var before, next := Requests(Flatten(lists[..k]), lot), Requests(lists[k].0, lot);
    RunAppend(b, before, next);
    assert lists[..k + 1][..k] == lists[..k];
    assert Requests(Flatten(lists[..k + 1]), lot) == before + next;
  }

  method PlaceList(book: OrderBook, orders: seq<Order>, future: bool)
    requires Ordered(book.View()) && forall i :: 0 <= i < |orders| ==> orders[i].secid == book.security
    modifies book
    ensures Ordered(book.View())
    ensures book.View() == Run(old(book.View()), Requests(orders, LotSize(future)))
  {
    hide Place, Inv, Run, Ordered;
    ghost var b, all := book.View(), Requests(orders, LotSize(future));
    RunStart(b, all);
    var i := 0;
    while i < |orders|
      invariant 0 <= i <= |orders| && Ordered(book.View())
      invariant book.View() == Run(b, all[..i])
    {
      PlaceScaled(book, orders[i], future, b, all, i);
      i := i + 1;
    }
    assert all[..i] == all;
  }

  lemma {:induction false} RunStart(b: Book, all: seq<Request>)
    requires Ordered(b)
    ensures Run(b, all[..0]) == b
  {
  }

  method PlaceScaled(book: OrderBook, o: Order, future: bool, ghost b: Book, ghost all: seq<Request>, ghost i: nat)
    requires Ordered(b) && Ordered(book.View()) && o.secid == book.security
    requires i < |all| && all[i] == Request(o.side, o.price, o.qty * LotSize(future))
    requires book.View() == Run(b, all[..i])
    modifies book
    ensures Ordered(book.View()) && book.View() == Run(b, all[..i + 1])
  {
    var qty := if future then o.qty else o.qty * 100;
    RunNext(b, all, i);
    var r := book.PlaceOrder(Order(o.secid, o.side, o.price, qty));
  }
}
