/** The simulated order book as the object it is: two level sets and a last price. */
module SimOrderBook {
  import opened Integers
  import opened Levels
  import opened Matching
  import opened Placing
  import opened BookTheorems

  datatype Order = Order(secid: string, side: Side, price: int, qty: int)

  datatype Result<T> = Success(value: T) | Failure(error: string)

  lemma {:induction false} ReinsertFront(side: Side, s: seq<Level>, t: int)
    requires Sorted(side, s) && s != []
    ensures Sorted(side, s[1..])
    ensures SetInsert(side, s[1..], s[0].(qty := s[0].qty - t)) == [s[0].(qty := s[0].qty - t)] + s[1..]
  {
    InsertFirst(side, s[1..], s[0].(qty := s[0].qty - t));
  }

  class OrderBook {
    const security: string
    var bids: seq<Level>
    var offers: seq<Level>
    var lastPrice: int

    constructor (security: string)
      ensures this.security == security && View() == Book([], [], 0)
    {
      this.security := security;
      bids, offers, lastPrice := [], [], 0;
    }

    function View(): Book
      reads this
    {
      Book(bids, offers, lastPrice)
    }

    /** Removes `t` from the front bid as the set does: erase, then reinsert. */
    method FillBid(t: int)
      requires bids != [] && Sorted(Buy, bids)
      modifies this`bids
      ensures bids == Hit(old(bids), t) && Sorted(Buy, bids)
    {
      var bid := bids[0];
      ReinsertFront(Buy, bids, t);
      if bid.qty == t {
        bids := bids[1..];
      } else {
        bids := SetInsert(Buy, bids[1..], bid.(qty := bid.qty - t));
      }
    }

    method FillOffer(t: int)
      requires offers != [] && Sorted(Sell, offers)
      modifies this`offers
      ensures offers == Hit(old(offers), t) && Sorted(Sell, offers)
    {
      var offer := offers[0];
      ReinsertFront(Sell, offers, t);
      if offer.qty == t {
        offers := offers[1..];
      } else {
        offers := SetInsert(Sell, offers[1..], offer.(qty := offer.qty - t));
      }
    }

    /** One fill of the best bid against the best offer at the offer's price. */
    method Fill(aggressor: Side) returns (trade: Trade)
      requires Ordered(View()) && Crossed(bids, offers)
      modifies this
      ensures Ordered(View())
      ensures trade == Trade(old(offers[0].price), Min(old(bids[0].qty), old(offers[0].qty)), aggressor)
      ensures bids == Hit(old(bids), trade.qty) && offers == Hit(old(offers), trade.qty)
      ensures lastPrice == trade.price
    {
      var tradeQty := Min(bids[0].qty, offers[0].qty);
      trade := Trade(offers[0].price, tradeQty, aggressor);
      lastPrice := offers[0].price;
      FillBid(tradeQty);
      FillOffer(tradeQty);
    }

    /** The trades so far and the rest of the loop make up the whole match. */
    ghost predicate Progress(before: Book, trades: seq<Trade>, aggressor: Side)
      reads this
    {
      var m := Match(bids, offers, aggressor);
      && Ordered(View())
      && Match(before.bids, before.offers, aggressor) == Outcome(m.bids, m.offers, trades + m.trades)
      && lastPrice == LastPrice(before.lastPrice, trades)
    }

    /** The cross-and-fill loop, one copy per aggressor as in the source. It ends on any
        pair of sorted sides, whatever their quantities. */
    method MatchBook(aggressor: Side) returns (trades: seq<Trade>)
      requires Ordered(View())
      modifies this
      ensures Ordered(View())
      ensures Outcome(bids, offers, trades) == Match(old(bids), old(offers), aggressor)
      ensures lastPrice == LastPrice(old(lastPrice), trades)
    {
      trades := [];
      if aggressor == Buy {
        while offers != [] && bids != []
          invariant Progress(old(View()), trades, aggressor)
          decreases |bids| + |offers|
        {
          if bids[0].price >= offers[0].price {
            trades := FillAndRecord(old(View()), trades, Buy);
          } else {
            break;
          }
        }
      } else {
        while bids != [] && offers != []
          invariant Progress(old(View()), trades, aggressor)
          decreases |bids| + |offers|
        {
          if bids[0].price >= offers[0].price {
            trades := FillAndRecord(old(View()), trades, Sell);
          } else {
            break;
          }
        }
      }
      assert trades + [] == trades;
    }

    /** The body of either loop. */
    method FillAndRecord(ghost before: Book, trades: seq<Trade>, aggressor: Side) returns (r: seq<Trade>)
      requires Progress(before, trades, aggressor) && Crossed(bids, offers)
      modifies this
      ensures Progress(before, r, aggressor) && |bids| + |offers| < old(|bids| + |offers|)
    {
      hide Match, Hit, Traded;
      HitsShorten(bids, offers);
      ghost var _, rest := MatchStep(bids, offers, aggressor);
      var trade := Fill(aggressor);
      r := trades + [trade];
      assert r + rest.trades == trades + ([trade] + rest.trades);
    }

    /** Erases the level found at the price and reinserts it with the capped sum. */
    static method MergeLevel(side: Side, levels: seq<Level>, price: int, qty: int) returns (r: seq<Level>)
      requires Sorted(side, levels) && HasPrice(levels, price)
      ensures Sorted(side, r)
      ensures var k := FoundAt(side, levels, price); var l := levels[k];
              r == levels[k := Level(price, Min(l.qty + qty, MAX_LEVEL_QTY), l.orderCount + 1)]
    {
      hide Position, SetInsert;
      var k := FoundAt(side, levels, price);
      var merged := Level(price, Min(levels[k].qty + qty, MAX_LEVEL_QTY), levels[k].orderCount + 1);
      MergeReinserts(side, levels, k, merged);
      r := SetInsert(side, levels[..k] + levels[k + 1..], merged);
    }

    /** Adds a level to one side: insert or merge, then drop the worst level of a side
        that became too deep. */
    static method AddLevel(side: Side, levels: seq<Level>, price: int, qty: int) returns (r: seq<Level>)
      requires Sorted(side, levels)
      ensures r == Evict(Join(side, levels, price, qty)) && Sorted(side, r)
    {
      JoinCases(side, levels, price, qty);
      r := SetInsert(side, levels, Level(price, qty, 1));
      if r == levels {
        r := MergeLevel(side, levels, price, qty);
      }
      assert r == Join(side, levels, price, qty);
      if |r| > MAX_DEPTH {
        r := r[..|r| - 1];
      }
    }

    /** Adds the order and matches. An order for another security is refused and changes
        nothing; on a reachable book a positive order trades exactly what it reaches. */
    method PlaceOrder(o: Order) returns (r: Result<seq<Trade>>)
      requires Ordered(View())
      modifies this
      ensures Ordered(View())
      ensures o.secid != security ==> r.Failure? && View() == old(View())
      ensures o.secid == security ==>
                r.Success? && (View(), r.value) == Place(old(View()), o.side, o.price, o.qty)
      ensures o.secid == security && old(Inv(View())) && o.qty > 0 ==>
                Inv(View()) && Traded(r.value) == Min(o.qty, Reachable(old(View()), o.side, o.price))
    {
      if security != o.secid {
        return Failure("Cannot place order for security " + o.secid + " on book[" + security + "]");
      }
      if Inv(View()) && o.qty > 0 {
        OrderTradesWhatItReaches(View(), o.side, o.price, o.qty);
      }
      if o.side == Buy {
        bids := AddLevel(Buy, bids, o.price, o.qty);
      } else {
        offers := AddLevel(Sell, offers, o.price, o.qty);
      }
      var trades := MatchBook(o.side);
      return Success(trades);
    }

    /** Early exit is sound because the prices get strictly worse. */
    method AggregateBidQty(price: int) returns (qty: int)
      requires Ordered(View())
      ensures qty == Within(Buy, bids, price) == Reachable(View(), Sell, price)
    {
      qty := 0;
      var i := 0;
      while i < |bids|
        invariant 0 <= i <= |bids|
        invariant Within(Buy, bids, price) == qty + Within(Buy, bids[i..], price)
      {
        if bids[i].price >= price {
          qty := qty + bids[i].qty;
        } else {
          NothingBehind(Buy, bids[i..], price);
          return;
        }
        i := i + 1;
      }
    }

    method AggregateOfferQty(price: int) returns (qty: int)
      requires Ordered(View())
      ensures qty == Within(Sell, offers, price) == Reachable(View(), Buy, price)
    {
      qty := 0;
      var i := 0;
      while i < |offers|
        invariant 0 <= i <= |offers|
        invariant Within(Sell, offers, price) == qty + Within(Sell, offers[i..], price)
      {
        if offers[i].price <= price {
          qty := qty + offers[i].qty;
        } else {
          NothingBehind(Sell, offers[i..], price);
          return;
        }
        i := i + 1;
      }
    }
  }

  lemma {:induction false} NothingBehind(side: Side, s: seq<Level>, price: int)
    requires Sorted(side, s) && (s != [] ==> Ahead(side, price, s[0].price))
    ensures Within(side, s, price) == 0
  {
    if s != [] { NothingBehind(side, s[1..], price); }
  }

  /** The position of a price the set holds, as the iterator of a refused insert. */
  function FoundAt(side: Side, s: seq<Level>, price: int): (k: nat)
    requires Sorted(side, s) && HasPrice(s, price)
    ensures k < |s| && s[k].price == price && k == Position(side, s, price)
  {
    SetInsertRefuses(side, s, Level(price, 0, 0));
    Position(side, s, price)
  }

  lemma {:induction false} JoinCases(side: Side, s: seq<Level>, price: int, qty: int)
    requires Sorted(side, s)
    ensures var inserted := SetInsert(side, s, Level(price, qty, 1));
            inserted == s <==> HasPrice(s, price)
    ensures var inserted := SetInsert(side, s, Level(price, qty, 1));
            if HasPrice(s, price) then
              var k := FoundAt(side, s, price);
              Join(side, s, price, qty) == s[k := Level(price, Min(s[k].qty + qty, MAX_LEVEL_QTY), s[k].orderCount + 1)]
            else Join(side, s, price, qty) == inserted
  {
    SetInsertRefuses(side, s, Level(price, qty, 1));
  }

  /** Erasing a level and reinserting it with the same price updates it in place. */
  lemma {:induction false} MergeReinserts(side: Side, s: seq<Level>, k: nat, merged: Level)
    requires Sorted(side, s) && k < |s| && merged.price == s[k].price
    ensures Sorted(side, s[..k] + s[k + 1..])
    ensures SetInsert(side, s[..k] + s[k + 1..], merged) == s[k := merged]
  {
    hide Position;
    PositionErased(side, s, k);
    var erased := s[..k] + s[k + 1..];
    assert erased[..k] + [merged] + erased[k..] == s[k := merged];
  }

  lemma {:induction false} PositionErased(side: Side, s: seq<Level>, k: nat)
    requires Sorted(side, s) && k < |s|
    ensures var erased := s[..k] + s[k + 1..];
            && Sorted(side, erased) && Position(side, erased, s[k].price) == k
            && (k < |erased| ==> erased[k].price != s[k].price)
            && erased[..k] == s[..k] && erased[k..] == s[k + 1..]
  {
    var erased := s[..k] + s[k + 1..];
    var p := Position(side, erased, s[k].price);
    assert k < |erased| ==> erased[k] == s[k + 1] && !Ahead(side, erased[k].price, s[k].price);
    assert k > 0 ==> erased[k - 1] == s[k - 1] && Ahead(side, erased[k - 1].price, s[k].price);
  }
}
