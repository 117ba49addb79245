/** Order placement as a function of the book: merge or insert, cap, evict, match. */
module Placing {
  import opened Integers
  import opened Levels
  import opened Matching

  datatype Book = Book(bids: seq<Level>, offers: seq<Level>, lastPrice: int) {
    function Own(side: Side): seq<Level> { if side == Buy then bids else offers }

    function Opposite(side: Side): seq<Level> { if side == Buy then offers else bids }
  }

  function Other(side: Side): Side { if side == Buy then Sell else Buy }

  /** The two sets behave as sets. */
  predicate Ordered(b: Book) {
    Sorted(Buy, b.bids) && Sorted(Sell, b.offers)
  }

  /** What every reachable book satisfies. */
  predicate Inv(b: Book) {
    && WellFormed(b.bids, b.offers)
    && |b.bids| <= MAX_DEPTH && |b.offers| <= MAX_DEPTH
    && !Crossed(b.bids, b.offers)
  }

  /** The order's own side after it is added: a new level, or a capped merge. */
  function Join(side: Side, s: seq<Level>, price: int, qty: int): (r: seq<Level>)
    requires Sorted(side, s)
    ensures Sorted(side, r)
  {
    var k := Position(side, s, price);
    if k < |s| && s[k].price == price then
      s[k := Level(price, Min(s[k].qty + qty, MAX_LEVEL_QTY), s[k].orderCount + 1)]
    else SetInsert(side, s, Level(price, qty, 1))
  }

  /** The worst level goes when the side is deeper than `MAX_DEPTH`. */
  function Evict(s: seq<Level>): seq<Level> {
    if |s| <= MAX_DEPTH then s else s[..|s| - 1]
  }

  /** `Match` seen from the aggressor: its own side first. */
  function MatchOwn(side: Side, own: seq<Level>, opposite: seq<Level>): Outcome {
    if side == Buy then Match(own, opposite, Buy) else Match(opposite, own, Sell)
  }

  function Place(b: Book, side: Side, price: int, qty: int): (r: (Book, seq<Trade>))
    requires Ordered(b)
  {
    var m := MatchOwn(side, Evict(Join(side, b.Own(side), price, qty)), b.Opposite(side));
    (Book(m.bids, m.offers, LastPrice(b.lastPrice, m.trades)), m.trades)
  }

  /** The opposite quantity an order at `price` can reach: `aggregate_offer_qty` for a
      buy, `aggregate_bid_qty` for a sell. */
  function Reachable(b: Book, side: Side, price: int): int {
    Within(Other(side), b.Opposite(side), price)
  }

  /** `n` units filled against the opposite side best price first: at the offers' own
      prices for a buy, at the seller's limit for a sell. */
  function Fills(side: Side, opposite: seq<Level>, limit: int, n: int): seq<Trade> {
    if opposite == [] || n <= 0 then []
    else [Trade(if side == Buy then opposite[0].price else limit, Min(opposite[0].qty, n), side)]
         + Fills(side, opposite[1..], limit, n - opposite[0].qty)
  }

  /** What is left of a level after `traded` units. */
  function Leftover(l: Level, traded: int): seq<Level> {
    if l.qty > traded then [l.(qty := l.qty - traded)] else []
  }

  function OutcomeFor(side: Side, own: seq<Level>, opposite: seq<Level>, trades: seq<Trade>): Outcome {
    if side == Buy then Outcome(own, opposite, trades) else Outcome(opposite, own, trades)
  }

  /** `l` could trade with the best opposite level. */
  predicate Crosses(side: Side, l: Level, opposite: seq<Level>) {
    opposite != [] && !Ahead(Other(side), l.price, opposite[0].price)
  }

  lemma {:induction false} FillStep(side: Side, l: Level, own: seq<Level>, opp: seq<Level>)
    requires Crosses(side, l, opp)
    ensures var t := Min(l.qty, opp[0].qty);
            var m := MatchOwn(side, Hit([l] + own, t), Hit(opp, t));
            MatchOwn(side, [l] + own, opp)
            == m.(trades := [Trade(if side == Buy then opp[0].price else l.price, t, side)] + m.trades)
  {
    if side == Buy {
      var t, rest := MatchStep([l] + own, opp, Buy);
    } else {
      var t, rest := MatchStep(opp, [l] + own, Sell);
    }
  }

  lemma {:induction false} FillRest(side: Side, l: Level, own: seq<Level>, opp: seq<Level>, t: int)
    requires Crosses(side, l, opp) && 0 < opp[0].qty < l.qty && opp[0].qty <= t
    requires var l', t' := l.(qty := l.qty - opp[0].qty), t - opp[0].qty;
             MatchOwn(side, [l'] + own, opp[1..])
             == OutcomeFor(side, Leftover(l', t') + own, Remove(opp[1..], t'), Fills(side, opp[1..], l.price, t'))
    ensures MatchOwn(side, [l] + own, opp)
            == OutcomeFor(side, Leftover(l, t) + own, Remove(opp, t), Fills(side, opp, l.price, t))
  {
    FillStep(side, l, own, opp);
    var l' := l.(qty := l.qty - opp[0].qty);
    assert Hit([l] + own, opp[0].qty) == [l'] + own;
    assert Leftover(l', t - opp[0].qty) == Leftover(l, t);
  }

  lemma {:induction false} FillLast(side: Side, l: Level, own: seq<Level>, opp: seq<Level>)
    requires Crosses(side, l, opp) && 0 < l.qty <= opp[0].qty
    requires MatchOwn(side, own, Hit(opp, l.qty)) == OutcomeFor(side, own, Hit(opp, l.qty), [])
    ensures MatchOwn(side, [l] + own, opp)
            == OutcomeFor(side, own, Remove(opp, l.qty), Fills(side, opp, l.price, l.qty))
  {
    hide MatchOwn, Remove, Fills;
    FillStep(side, l, own, opp);
    assert Hit([l] + own, l.qty) == own;
    OneSlice(side, opp, l.price, l.qty);
  }

  /** A fill within the best level takes one slice of it. */
  lemma {:induction false} OneSlice(side: Side, opp: seq<Level>, limit: int, n: int)
    requires opp != [] && 0 < n <= opp[0].qty
    ensures Remove(opp, n) == Hit(opp, n)
    ensures Fills(side, opp, limit, n) == [Trade(if side == Buy then opp[0].price else limit, n, side)]
  {
    assert opp[0].qty == n ==> Remove(opp[1..], 0) == opp[1..];
    assert Fills(side, opp[1..], limit, n - opp[0].qty) == [];
  }

  lemma {:induction false} NoCross(side: Side, l: Level, own: seq<Level>, opp: seq<Level>)
    requires !Crosses(side, l, opp)
    ensures MatchOwn(side, [l] + own, opp) == OutcomeFor(side, [l] + own, opp, [])
    ensures Remove(opp, 0) == opp && Fills(side, opp, l.price, 0) == []
  {
  }

  lemma {:induction false} NothingLeft(side: Side, own: seq<Level>, opp: seq<Level>)
    requires own != [] && opp != [] ==> Ahead(side, opp[0].price, own[0].price)
    ensures MatchOwn(side, own, opp) == OutcomeFor(side, own, opp, [])
  {
  }

  /** An aggressor on top of an uncrossed book is filled level by level. */
  lemma {:induction false} FillAll(side: Side, l: Level, own: seq<Level>, opp: seq<Level>, t: int)
    requires Sorted(Other(side), opp) && Positive(opp) && l.qty > 0
    requires forall i :: 0 <= i < |opp| && own != [] ==> Ahead(side, opp[i].price, own[0].price)
    requires t == Min(l.qty, Within(Other(side), opp, l.price))
    ensures MatchOwn(side, [l] + own, opp)
            == OutcomeFor(side, Leftover(l, t) + own, Remove(opp, t), Fills(side, opp, l.price, t))
    decreases |opp|
  {
    hide Within, Fills, Remove, Total, MatchOwn;
    WithinBounds(Other(side), opp, l.price);
    if !Crosses(side, l, opp) {
      NoCross(side, l, own, opp);
      assert t == 0 && Leftover(l, t) == [l];
    } else {
      WithinBounds(Other(side), opp[1..], l.price);
      WithinFront(Other(side), opp, l.price);
      if l.qty > opp[0].qty {
        FillAll(side, l.(qty := l.qty - opp[0].qty), own, opp[1..], t - opp[0].qty);
        FillRest(side, l, own, opp, t);
      } else {
        NothingLeft(side, own, Hit(opp, l.qty));
        FillLast(side, l, own, opp);
        assert Leftover(l, t) + own == own;
      }
    }
  }
}
