/** What one order does to a reachable book, and what every run of orders keeps. */
module BookTheorems {
  import opened Integers
  import opened Levels
  import opened Matching
  import opened Placing

  /** The side without its worst level when it was full. */
  function Trim(s: seq<Level>): seq<Level> {
    if |s| < MAX_DEPTH then s else s[..|s| - 1]
  }

  lemma {:induction false} JoinFront(side: Side, s: seq<Level>, price: int, qty: int)
    requires Sorted(side, s) && (s != [] ==> Ahead(side, price, s[0].price))
    ensures Join(side, s, price, qty) == [Level(price, qty, 1)] + s
  {
    InsertFirst(side, s, Level(price, qty, 1));
  }

  lemma {:induction false} JoinKeeps(side: Side, s: seq<Level>, price: int, qty: int)
    requires Sorted(side, s) && Positive(s) && qty > 0
    ensures var r := Join(side, s, price, qty);
            && Positive(r) && r != [] && |s| <= |r| <= |s| + 1
            && (r[0].price == price || (s != [] && r[0].price == s[0].price))
  {
    var k := Position(side, s, price);
    if k < |s| && s[k].price == price {
    } else {
      assert Join(side, s, price, qty) == s[..k] + [Level(price, qty, 1)] + s[k..];
    }
  }

  lemma {:induction false} ReachesNothing(b: Book, side: Side, price: int)
    requires Inv(b) && Reachable(b, side, price) == 0
    ensures b.Opposite(side) == [] || Ahead(Other(side), price, b.Opposite(side)[0].price)
  {
    var opp := b.Opposite(side);
    if opp != [] {
      WithinBounds(Other(side), opp[1..], price);
    }
  }

  lemma {:induction false} EvictKeeps(side: Side, s: seq<Level>)
    requires Sorted(side, s) && Positive(s) && s != [] && |s| <= MAX_DEPTH + 1
    ensures var r := Evict(s);
            Sorted(side, r) && Positive(r) && r != [] && |r| <= MAX_DEPTH && r[0] == s[0]
  {
  }

  /** An order that reaches nothing rests: merged or inserted, then the depth is cut. */
  lemma {:induction false} OrderRests(b: Book, side: Side, price: int, qty: int)
    requires Inv(b) && qty > 0 && Reachable(b, side, price) == 0
    ensures var own' := Evict(Join(side, b.Own(side), price, qty)); var (b', trades) := Place(b, side, price, qty);
            && trades == [] && Inv(b') && b'.lastPrice == b.lastPrice
            && b'.Own(side) == own' && b'.Opposite(side) == b.Opposite(side)
  {
    ReachesNothing(b, side, price);
    JoinKeeps(side, b.Own(side), price, qty);
    EvictKeeps(side, Join(side, b.Own(side), price, qty));
  }

  /** An order that reaches something becomes the best level of its side and is filled
      against the opposite side. */
  lemma {:induction false} OrderCrosses(b: Book, side: Side, price: int, qty: int, t: int)
    requires Inv(b) && qty > 0 && Reachable(b, side, price) > 0
    requires t == Min(qty, Reachable(b, side, price))
    ensures var (b', trades) := Place(b, side, price, qty);
            && b'.Own(side) == Leftover(Level(price, qty, 1), t) + Trim(b.Own(side))
            && b'.Opposite(side) == Remove(b.Opposite(side), t)
            && trades == Fills(side, b.Opposite(side), price, t)
  {
    var own, opp, l := b.Own(side), b.Opposite(side), Level(price, qty, 1);
    WithinBounds(Other(side), opp, price);
    JoinFront(side, own, price, qty);
    assert Evict([l] + own) == [l] + Trim(own);
    assert forall i :: 0 <= i < |opp| && own != [] ==> Ahead(side, opp[i].price, own[0].price);
    FillAll(side, l, Trim(own), opp, t);
  }

  lemma {:induction false} TradedNone()
    ensures Traded([]) == 0
  {
  }

  lemma {:induction false} TradedFront(t: Trade, rest: seq<Trade>)
    ensures Traded([t] + rest) == t.qty + Traded(rest)
  {
    assert ([t] + rest)[1..] == rest;
  }

  /** The fills add up, and each is a positive quantity at a price within the limit:
      strictly increasing offer prices for a buy, the seller's limit for a sell. */
  lemma {:induction false} FillsShape(side: Side, opp: seq<Level>, limit: int, n: int)
    requires Sorted(Other(side), opp) && Positive(opp) && 0 <= n <= Within(Other(side), opp, limit)
    ensures var f := Fills(side, opp, limit, n);
            && Traded(f) == n && (n > 0 <==> f != [])
            && (forall i :: 0 <= i < |f| ==> f[i].qty > 0 && f[i].aggressor == side && f[i].price <= limit)
            && (side == Sell ==> forall i :: 0 <= i < |f| ==> f[i].price == limit)
            && (side == Buy ==> forall i, j :: 0 <= i < j < |f| ==> f[i].price < f[j].price)
            && (side == Buy ==> forall i :: 0 <= i < |f| ==> opp[0].price <= f[i].price)
  {
    hide Within, Total, Traded;
    WithinBounds(Other(side), opp, limit);
    if opp == [] || n == 0 {
      TradedNone();
    } else {
      WithinBounds(Other(side), opp[1..], limit);
      WithinFront(Other(side), opp, limit);
      var front := Trade(if side == Buy then opp[0].price else limit, Min(opp[0].qty, n), side);
      var rest := Fills(side, opp[1..], limit, n - opp[0].qty);
      TradedFront(front, rest);
      if n > opp[0].qty {
        FillsShape(side, opp[1..], limit, n - opp[0].qty);
      } else {
        TradedNone();
      }
    }
  }

  lemma {:induction false} LeftoverKeeps(side: Side, l: Level, t: int, s: seq<Level>)
    requires Sorted(side, s) && Positive(s) && |s| <= MAX_DEPTH && (s != [] ==> Ahead(side, l.price, s[0].price))
    ensures var r := Leftover(l, t) + Trim(s); Sorted(side, r) && Positive(r) && |r| <= MAX_DEPTH
  {
  }

  lemma {:induction false} PlaceUncrosses(b: Book, side: Side, price: int, qty: int)
    requires Ordered(b)
    ensures var b' := Place(b, side, price, qty).0; !Crossed(b'.bids, b'.offers)
  {
    var own := Evict(Join(side, b.Own(side), price, qty));
    if side == Buy { MatchUncrosses(own, b.offers, Buy); } else { MatchUncrosses(b.bids, own, Sell); }
  }

  lemma {:induction false} CrossingKeepsInv(b: Book, side: Side, price: int, qty: int, t: int)
    requires Inv(b) && qty > 0 && Reachable(b, side, price) > 0
    requires t == Min(qty, Reachable(b, side, price))
    ensures Inv(Place(b, side, price, qty).0)
  {
    OrderCrosses(b, side, price, qty, t);
    WithinBounds(Other(side), b.Opposite(side), price);
    RemoveKeeps(Other(side), b.Opposite(side), t);
    LeftoverKeeps(side, Level(price, qty, 1), t, b.Own(side));
    PlaceUncrosses(b, side, price, qty);
  }

  /** From any reachable book an order of quantity `qty` at `price` trades exactly the
      smaller of `qty` and the opposite quantity within its limit. The opposite side
      loses exactly that much best price first; the fills are the slices removed; the
      own side gains the leftover; the invariant is kept. */
  lemma {:induction false} OrderTradesWhatItReaches(b: Book, side: Side, price: int, qty: int)
    requires Inv(b) && qty > 0
    ensures var t := Min(qty, Reachable(b, side, price)); var (b', trades) := Place(b, side, price, qty);
            && Inv(b')
            && Traded(trades) == t
            && trades == Fills(side, b.Opposite(side), price, t)
            && b'.Opposite(side) == Remove(b.Opposite(side), t)
            && b'.Own(side) == (if t == 0 then Evict(Join(side, b.Own(side), price, qty))
                                else Leftover(Level(price, qty, 1), t) + Trim(b.Own(side)))
            && (forall i :: 0 <= i < |trades| ==> trades[i].price <= price && trades[i].qty > 0)
            && (side == Sell ==> forall i :: 0 <= i < |trades| ==> trades[i].price == price)
            && (side == Buy ==> forall i, j :: 0 <= i < j < |trades| ==> trades[i].price < trades[j].price)
            && b'.lastPrice == LastPrice(b.lastPrice, trades)
  {
    var opp := b.Opposite(side);
    WithinBounds(Other(side), opp, price);
    var t := Min(qty, Reachable(b, side, price));
    FillsShape(side, opp, price, t);
    if Reachable(b, side, price) == 0 {
      OrderRests(b, side, price, qty);
    } else {
      OrderCrosses(b, side, price, qty, t);
      CrossingKeepsInv(b, side, price, qty, t);
    }
  }

  /** The level the last of `n` units is taken from: the levels before it do not cover `n`,
      and with it they do. Its price is the last fill's for a buy; for a sell that is the
      limit. */
  lemma {:induction false} LastFill(side: Side, opp: seq<Level>, limit: int, n: int) returns (k: nat)
    requires Positive(opp) && 0 < n <= Total(opp)
    ensures k < |opp| && Total(opp[..k]) < n <= Total(opp[..k + 1])
    ensures var f := Fills(side, opp, limit, n);
            f != [] && f[|f| - 1].price == if side == Buy then opp[k].price else limit
  {
    var rest := Fills(side, opp[1..], limit, n - opp[0].qty);
    if n <= opp[0].qty {
      k := 0;
      assert rest == [];
      assert opp[..1] == [opp[0]] && opp[..0] == [];
    } else {
      k := LastFill(side, opp[1..], limit, n - opp[0].qty);
      assert opp[..k + 1][1..] == opp[1..][..k] && opp[..k + 2][1..] == opp[1..][..k + 1];
      k := k + 1;
    }
  }

  /** An order that trades nothing leaves the last price alone. Otherwise the last price is
      the worst price it traded at: its own limit for a sell, and for a buy the price of the
      offer at which the quantity traded was reached. */
  lemma {:induction false} LastPriceExactly(b: Book, side: Side, price: int, qty: int)
    requires Inv(b) && qty > 0
    ensures var (b', trades) := Place(b, side, price, qty); var t := Traded(trades);
            && (t == 0 ==> b'.lastPrice == b.lastPrice)
            && (t > 0 ==>
                  && (exists i :: 0 <= i < |trades| && trades[i].price == b'.lastPrice)
                  && (forall i :: 0 <= i < |trades| ==> trades[i].price <= b'.lastPrice)
                  && (side == Sell ==> b'.lastPrice == price)
                  && (side == Buy ==> exists k :: 0 <= k < |b.offers| && b.offers[k].price == b'.lastPrice
                                                  && Total(b.offers[..k]) < t <= Total(b.offers[..k + 1])))
  {
    hide Place, Inv, Fills, Total, Within, Traded, Remove, Sorted, Positive, LastPrice;
    var t := Min(qty, Reachable(b, side, price));
    InvSide(b, Other(side));
    OrderTradesWhatItReaches(b, side, price, qty);
    WithinBounds(Other(side), b.Opposite(side), price);
    LastPriceOfFills(side, b.Opposite(side), b.lastPrice, price, t);
  }

  lemma {:induction false} LastPriceOfFills(side: Side, opp: seq<Level>, before: int, limit: int, n: int)
    requires Sorted(Other(side), opp) && Positive(opp) && 0 <= n <= Within(Other(side), opp, limit)
    ensures var f := Fills(side, opp, limit, n); var last := LastPrice(before, f);
            && (n == 0 ==> last == before)
            && (n > 0 ==>
                  && (exists i :: 0 <= i < |f| && f[i].price == last)
                  && (forall i :: 0 <= i < |f| ==> f[i].price <= last)
                  && (side == Sell ==> last == limit)
                  && (side == Buy ==> exists k :: 0 <= k < |opp| && opp[k].price == last
                                                  && Total(opp[..k]) < n <= Total(opp[..k + 1])))
  {
    hide Fills, Total, Within, Traded, Positive, Sorted;
    WithinBounds(Other(side), opp, limit);
    FillsShape(side, opp, limit, n);
    if n > 0 {
      var k := LastFill(side, opp, limit, n);
    }
  }

  lemma {:induction false} InvSide(b: Book, side: Side)
    ensures b.Own(side) == b.Opposite(Other(side))
    ensures Inv(b) ==> Ordered(b) && Sorted(side, b.Own(side)) && Positive(b.Own(side))
  {
  }

  /** What an order that reaches nothing does to its side, price by price: its own price
      gains its quantity up to the cap and one order, or starts with both; every other
      level stays as it was, save the worst of a full side that had no level at the price. */
  lemma {:induction false} RestsByPrice(b: Book, side: Side, price: int, qty: int)
    requires Inv(b) && qty > 0 && Reachable(b, side, price) == 0
    ensures var own, own' := b.Own(side), Place(b, side, price, qty).0.Own(side);
            var full := |own| == MAX_DEPTH && !HasPrice(own, price);
            && (forall l :: l in own' && l.price != price ==> l in own)
            && (forall l :: l in own' && l.price == price && !HasPrice(own, price) ==> l == Level(price, qty, 1))
            && (forall l, l0 :: l in own' && l0 in own && l.price == price == l0.price ==>
                  && l.orderCount == l0.orderCount + 1
                  && l.qty == if l0.qty + qty <= MAX_LEVEL_QTY then l0.qty + qty else MAX_LEVEL_QTY)
            && (forall l :: l in own && l.price != price ==> l in own' || (full && l == own[MAX_DEPTH - 1]))
            && (HasPrice(own', price) <==> !full || !Ahead(side, own[MAX_DEPTH - 1].price, price))
            && (full ==> (own[MAX_DEPTH - 1] in own' <==> Ahead(side, own[MAX_DEPTH - 1].price, price)))
  {
    hide Place, Inv, Within;
    var own := b.Own(side);
    InvSide(b, side);
    InvDepth(b, side);
    OrderRests(b, side, price, qty);
    JoinByPrice(side, own, price, qty);
  }

  lemma {:induction false} InvDepth(b: Book, side: Side)
    ensures Inv(b) ==> |b.Own(side)| <= MAX_DEPTH
  {
  }

  lemma {:induction false} JoinByPrice(side: Side, s: seq<Level>, price: int, qty: int)
    requires Sorted(side, s) && |s| <= MAX_DEPTH
    ensures var r := Evict(Join(side, s, price, qty)); var full := |s| == MAX_DEPTH && !HasPrice(s, price);
            && (forall l :: l in r && l.price != price ==> l in s)
            && (forall l :: l in r && l.price == price && !HasPrice(s, price) ==> l == Level(price, qty, 1))
            && (forall l, l0 :: l in r && l0 in s && l.price == price == l0.price ==>
                  && l.orderCount == l0.orderCount + 1
                  && l.qty == if l0.qty + qty <= MAX_LEVEL_QTY then l0.qty + qty else MAX_LEVEL_QTY)
            && (forall l :: l in s && l.price != price ==> l in r || (full && l == s[MAX_DEPTH - 1]))
            && (HasPrice(r, price) <==> !full || !Ahead(side, s[MAX_DEPTH - 1].price, price))
            && (full ==> (s[MAX_DEPTH - 1] in r <==> Ahead(side, s[MAX_DEPTH - 1].price, price)))
  {
    if HasPrice(s, price) {
      MergeByPrice(side, s, price, qty);
    } else {
      NewByPrice(side, s, price, qty);
    }
  }

  lemma {:induction false} MergeByPrice(side: Side, s: seq<Level>, price: int, qty: int)
    requires Sorted(side, s) && |s| <= MAX_DEPTH && HasPrice(s, price)
    ensures var r := Evict(Join(side, s, price, qty));
            && HasPrice(r, price)
            && (forall l :: l in r && l.price != price ==> l in s)
            && (forall l, l0 :: l in r && l0 in s && l.price == price == l0.price ==>
                  && l.orderCount == l0.orderCount + 1
                  && l.qty == if l0.qty + qty <= MAX_LEVEL_QTY then l0.qty + qty else MAX_LEVEL_QTY)
            && (forall l :: l in s && l.price != price ==> l in r)
  {
    var k :| 0 <= k < |s| && s[k].price == price;
    PositionFound(side, s, k);
    var r := Evict(Join(side, s, price, qty));
    assert r[k].price == price;
    forall i | 0 <= i < |s| && s[i].price != price ensures s[i] in r { assert r[i] == s[i]; }
    forall i | 0 <= i < |s| && i != k ensures s[i].price != price {
      assert if i < k then Ahead(side, s[i].price, s[k].price) else Ahead(side, s[k].price, s[i].price);
    }
  }

  lemma {:induction false} NewByPrice(side: Side, s: seq<Level>, price: int, qty: int)
    requires Sorted(side, s) && |s| <= MAX_DEPTH && !HasPrice(s, price)
    ensures var r := Evict(Join(side, s, price, qty)); var full := |s| == MAX_DEPTH;
            && (forall l :: l in r && l.price != price ==> l in s)
            && (forall l :: l in r && l.price == price ==> l == Level(price, qty, 1))
            && (forall l :: l in s ==> l in r || (full && l == s[MAX_DEPTH - 1]))
            && (HasPrice(r, price) <==> !full || !Ahead(side, s[MAX_DEPTH - 1].price, price))
            && (full ==> (s[MAX_DEPTH - 1] in r <==> Ahead(side, s[MAX_DEPTH - 1].price, price)))
  {
    hide Position, Evict, Sorted, SetInsert;
    var k := Position(side, s, price);
    NewJoined(side, s, price, qty);
    if k < MAX_DEPTH {
      assert Evict(Join(side, s, price, qty))[k].price == price;
    }
    if k == MAX_DEPTH {
    } else if |s| == MAX_DEPTH {
      InsertedMembers(s[..MAX_DEPTH - 1], k, Level(price, qty, 1));
      WorstOnce(side, s);
      assert s[..MAX_DEPTH - 1][..k] == s[..k] && s[..MAX_DEPTH - 1][k..] == s[k..MAX_DEPTH - 1];
      assert s == s[..MAX_DEPTH - 1] + [s[MAX_DEPTH - 1]];
      assert s[MAX_DEPTH - 1].price != price;
    } else {
      InsertedMembers(s, k, Level(price, qty, 1));
    }
  }

  lemma {:induction false} NewJoined(side: Side, s: seq<Level>, price: int, qty: int)
    requires Sorted(side, s) && |s| <= MAX_DEPTH && !HasPrice(s, price)
    ensures var k, l := Position(side, s, price), Level(price, qty, 1); var r := Evict(Join(side, s, price, qty));
            && (k == MAX_DEPTH ==> r == s && |s| == MAX_DEPTH)
            && (k < MAX_DEPTH && |s| == MAX_DEPTH ==> r == s[..k] + [l] + s[k..MAX_DEPTH - 1])
            && (|s| < MAX_DEPTH ==> r == s[..k] + [l] + s[k..])
            && (|s| == MAX_DEPTH ==> (k == MAX_DEPTH <==> Ahead(side, s[MAX_DEPTH - 1].price, price)))
  {
    var k := Position(side, s, price);
    assert Join(side, s, price, qty) == s[..k] + [Level(price, qty, 1)] + s[k..];
  }

  lemma {:induction false} InsertedMembers(s: seq<Level>, k: nat, l: Level)
    requires k <= |s|
    ensures forall x :: x in s[..k] + [l] + s[k..] <==> x in s || x == l
  {
    assert s == s[..k] + s[k..];
  }

  lemma {:induction false} WorstOnce(side: Side, s: seq<Level>)
    requires Sorted(side, s) && |s| == MAX_DEPTH
    ensures s[MAX_DEPTH - 1] !in s[..MAX_DEPTH - 1]
  {
    var front, worst := s[..MAX_DEPTH - 1], s[MAX_DEPTH - 1];
    forall i | 0 <= i < |front| ensures front[i] != worst {
      assert Ahead(side, s[i].price, worst.price);
    }
  }

  lemma {:induction false} TotalUpdate(s: seq<Level>, k: nat, l: Level)
    requires k < |s|
    ensures Total(s[k := l]) == Total(s) - s[k].qty + l.qty
  {
    if k > 0 {
      assert s[k := l][1..] == s[1..][k - 1 := l];
      TotalUpdate(s[1..], k - 1, l);
    } else {
      assert s[0 := l][1..] == s[1..];
    }
  }

  lemma {:induction false} TotalSplit(s: seq<Level>, k: nat)
    requires k <= |s|
    ensures Total(s) == Total(s[..k]) + Total(s[k..])
  {
    if k > 0 {
      assert s[..k][1..] == s[1..][..k - 1] && s[k..] == s[1..][k - 1..];
      TotalSplit(s[1..], k - 1);
    } else {
      assert s[0..] == s;
    }
  }

  lemma {:induction false} TotalInsert(s: seq<Level>, k: nat, l: Level)
    requires k <= |s|
    ensures Total(s[..k] + [l] + s[k..]) == Total(s) + l.qty
  {
    var r := s[..k] + [l] + s[k..];
    TotalSplit(r, k);
    TotalSplit(s, k);
    assert r[..k] == s[..k] && r[k..][1..] == s[k..];
  }

  /** A level whose merge stays within the cap, or a new level with room for it. */
  predicate Absorbed(b: Book, side: Side, price: int, qty: int)
    requires Ordered(b)
  {
    var own := b.Own(side);
    var k := Position(side, own, price);
    if HasPrice(own, price) then k < |own| && own[k].qty + qty <= MAX_LEVEL_QTY
    else |own| < MAX_DEPTH
  }

  lemma {:induction false} JoinTotal(side: Side, s: seq<Level>, price: int, qty: int)
    requires Sorted(side, s) && Positive(s) && qty > 0 && |s| <= MAX_DEPTH
    ensures var k := Position(side, s, price); var r := Join(side, s, price, qty);
            if HasPrice(s, price) then
              k < |s| && s[k].price == price && |r| == |s|
              && Total(r) == Total(s) - s[k].qty + Min(s[k].qty + qty, MAX_LEVEL_QTY)
            else |r| == |s| + 1 && Total(r) == Total(s) + qty
  {
    var k := Position(side, s, price);
    if k < |s| && s[k].price == price {
      TotalUpdate(s, k, Level(price, Min(s[k].qty + qty, MAX_LEVEL_QTY), s[k].orderCount + 1));
    } else {
      assert !HasPrice(s, price) by {
        forall i | 0 <= i < |s| ensures s[i].price != price {
          if i > k { assert Ahead(side, s[k].price, s[i].price); }
        }
      }
      TotalInsert(s, k, Level(price, qty, 1));
    }
  }

  lemma {:induction false} EvictTotal(s: seq<Level>)
    requires Positive(s) && |s| <= MAX_DEPTH + 1
    ensures Total(Evict(s)) <= Total(s) && (Total(Evict(s)) == Total(s) <==> |s| <= MAX_DEPTH)
  {
    if |s| > MAX_DEPTH {
      TotalSplit(s, |s| - 1);
      assert s[|s| - 1..] == [s[|s| - 1]];
    }
  }

  /** Quantity is conserved by an order exactly when its level has room: otherwise the
      cap or the depth limit destroys some, even when the order fills completely. */
  lemma {:induction false} QuantityConservedExactly(b: Book, side: Side, price: int, qty: int)
    requires Inv(b) && qty > 0
    ensures var (b', trades) := Place(b, side, price, qty);
            var after := Total(b'.bids) + Total(b'.offers) + 2 * Traded(trades);
            var before := Total(b.bids) + Total(b.offers) + qty;
            after <= before && (after == before <==> Absorbed(b, side, price, qty))
  {
    var own, opp := b.Own(side), b.Opposite(side);
    var joined := Join(side, own, price, qty);
    JoinTotal(side, own, price, qty);
    JoinKeeps(side, own, price, qty);
    EvictTotal(joined);
    if side == Buy { MatchConserves(Evict(joined), opp, Buy); } else { MatchConserves(opp, Evict(joined), Sell); }
  }

  predicate LevelsAtMost(s: seq<Level>, cap: int) {
    forall i :: 0 <= i < |s| ==> s[i].qty <= cap
  }

  predicate BookAtMost(b: Book, cap: int) {
    LevelsAtMost(b.bids, cap) && LevelsAtMost(b.offers, cap)
  }

  lemma {:induction false} RemoveAtMost(s: seq<Level>, n: int, cap: int)
    requires Positive(s) && 0 <= n <= Total(s) && LevelsAtMost(s, cap)
    ensures LevelsAtMost(Remove(s, n), cap)
  {
    var k, x := RemoveShape(s, n);
  }

  /** The order's own side stays under `cap` unless its unfilled part becomes a new
      level above it; at the cap of 2000 that is the only way out. */
  lemma {:induction false} CapKeptExactly(b: Book, side: Side, price: int, qty: int, cap: int)
    requires Inv(b) && qty > 0 && BookAtMost(b, cap) && cap >= MAX_LEVEL_QTY
    ensures var own := b.Own(side);
            BookAtMost(Place(b, side, price, qty).0, cap) <==>
              || qty - Min(qty, Reachable(b, side, price)) <= cap
              || HasPrice(own, price)
              || (|own| == MAX_DEPTH && Ahead(side, own[MAX_DEPTH - 1].price, price))
  {
    var own, opp := b.Own(side), b.Opposite(side);
    var t := Min(qty, Reachable(b, side, price));
    OrderTradesWhatItReaches(b, side, price, qty);
    WithinBounds(Other(side), opp, price);
    RemoveAtMost(opp, t, cap);
    var own' := Place(b, side, price, qty).0.Own(side);
    if t == 0 {
      RestingCap(side, own, price, qty, cap);
      assert Remove(opp, 0) == opp;
    } else {
      CrossingAhead(b, side, price);
      LeftoverCap(Level(price, qty, 1), t, Trim(own), cap);
    }
  }

  /** A merge that reaches nothing changes its level alone, and lowers it exactly when the
      level held more than `MAX_LEVEL_QTY`. */
  lemma {:induction false} MergeLowersExactly(b: Book, side: Side, price: int, qty: int)
    requires Inv(b) && qty > 0 && HasPrice(b.Own(side), price)
    ensures var own, own' := b.Own(side), Place(b, side, price, qty).0.Own(side); var k := Position(side, own, price);
            && k < |own| == |own'| && own[k].price == price == own'[k].price && own' == own[k := own'[k]]
            && (own'[k].qty < own[k].qty <==> own[k].qty > MAX_LEVEL_QTY)
            && (own'[k].qty == own[k].qty + qty <==> own[k].qty + qty <= MAX_LEVEL_QTY)
  {
    hide Place, Within;
    var own, opp := b.Own(side), b.Opposite(side);
    var i :| 0 <= i < |own| && own[i].price == price;
    PositionFound(side, own, i);
    OwnReachesNothing(b, side, i);
    OrderRests(b, side, price, qty);
  }

  lemma {:induction false} OwnReachesNothing(b: Book, side: Side, i: nat)
    requires Inv(b) && i < |b.Own(side)|
    ensures Reachable(b, side, b.Own(side)[i].price) == 0
  {
    WithinBounds(Other(side), b.Opposite(side), b.Own(side)[i].price);
  }

  lemma {:induction false} CrossingAhead(b: Book, side: Side, price: int)
    requires Inv(b) && Reachable(b, side, price) > 0
    ensures forall i :: 0 <= i < |b.Own(side)| ==> Ahead(side, price, b.Own(side)[i].price)
  {
    WithinBounds(Other(side), b.Opposite(side), price);
  }

  lemma {:induction false} LeftoverCap(l: Level, t: int, s: seq<Level>, cap: int)
    requires LevelsAtMost(s, cap) && cap >= 0
    ensures LevelsAtMost(Leftover(l, t) + s, cap) <==> l.qty - t <= cap
  {
    var r := Leftover(l, t) + s;
    if l.qty > t { assert r[0].qty == l.qty - t; }
  }

  lemma {:induction false} RestingCap(side: Side, s: seq<Level>, price: int, qty: int, cap: int)
    requires Sorted(side, s) && Positive(s) && qty > 0 && |s| <= MAX_DEPTH
    requires LevelsAtMost(s, cap) && cap >= MAX_LEVEL_QTY
    ensures LevelsAtMost(Evict(Join(side, s, price, qty)), cap) <==>
              qty <= cap || HasPrice(s, price) || (|s| == MAX_DEPTH && Ahead(side, s[MAX_DEPTH - 1].price, price))
  {
    var k := Position(side, s, price);
    JoinTotal(side, s, price, qty);
    if HasPrice(s, price) {
      RestingMerge(side, s, price, qty, cap);
    } else {
      RestingNew(side, s, price, qty, cap);
    }
  }

  lemma {:induction false} RestingMerge(side: Side, s: seq<Level>, price: int, qty: int, cap: int)
    requires Sorted(side, s) && |s| <= MAX_DEPTH && LevelsAtMost(s, cap) && cap >= MAX_LEVEL_QTY
    requires var k := Position(side, s, price); k < |s| && s[k].price == price
    ensures LevelsAtMost(Evict(Join(side, s, price, qty)), cap)
  {
    hide Position, Sorted;
  }

  lemma {:induction false} RestingNew(side: Side, s: seq<Level>, price: int, qty: int, cap: int)
    requires Sorted(side, s) && |s| <= MAX_DEPTH && LevelsAtMost(s, cap) && !HasPrice(s, price)
    ensures LevelsAtMost(Evict(Join(side, s, price, qty)), cap) <==>
              qty <= cap || (|s| == MAX_DEPTH && Ahead(side, s[MAX_DEPTH - 1].price, price))
  {
    hide Sorted;
    var k := Position(side, s, price);
    var joined := s[..k] + [Level(price, qty, 1)] + s[k..];
    assert Join(side, s, price, qty) == joined;
    if k < MAX_DEPTH {
      assert Evict(joined)[k] == Level(price, qty, 1);
    } else {
      assert Evict(joined) == s;
    }
  }

  /** A limit order on the book of one security. */
  datatype Request = Request(side: Side, price: int, qty: int)

  function Run(b: Book, orders: seq<Request>): (r: Book)
    requires Ordered(b)
    ensures Ordered(r)
    decreases |orders|
  {
    if orders == [] then b
    else
      var before, o := Run(b, orders[..|orders| - 1]), orders[|orders| - 1];
      PlaceOrdered(before, o);
      Place(before, o.side, o.price, o.qty).0
  }

  lemma {:induction false} MatchOrdered(bids: seq<Level>, offers: seq<Level>, aggressor: Side)
    requires Sorted(Buy, bids) && Sorted(Sell, offers)
    ensures var r := Match(bids, offers, aggressor); Sorted(Buy, r.bids) && Sorted(Sell, r.offers)
    decreases |bids| + |offers|
  {
    if Crossed(bids, offers) {
      var t, rest := MatchStep(bids, offers, aggressor);
      MatchOrdered(Hit(bids, t), Hit(offers, t), aggressor);
    }
  }

  lemma {:induction false} PlaceOrdered(b: Book, o: Request)
    requires Ordered(b)
    ensures Ordered(Place(b, o.side, o.price, o.qty).0)
  {
    var own := Evict(Join(o.side, b.Own(o.side), o.price, o.qty));
    if o.side == Buy { MatchOrdered(own, b.offers, Buy); } else { MatchOrdered(b.bids, own, Sell); }
  }

  /** Every run of positive orders keeps the book invariant, and keeps every level at
      or under the larger of the cap and the largest order. */
  lemma {:induction false} RunKeepsInv(b: Book, orders: seq<Request>, cap: int)
    requires Inv(b) && BookAtMost(b, cap) && cap >= MAX_LEVEL_QTY
    requires forall i :: 0 <= i < |orders| ==> 0 < orders[i].qty <= cap
    ensures Inv(Run(b, orders)) && BookAtMost(Run(b, orders), cap)
    decreases |orders|
  {
    if orders != [] {
      var before, o := Run(b, orders[..|orders| - 1]), orders[|orders| - 1];
      RunKeepsInv(b, orders[..|orders| - 1], cap);
      OrderTradesWhatItReaches(before, o.side, o.price, o.qty);
      WithinBounds(Other(o.side), before.Opposite(o.side), o.price);
      CapKeptExactly(before, o.side, o.price, o.qty, cap);
    }
  }
}
