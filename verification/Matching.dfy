/** The cross-and-fill loop of the book, as a function of its two sides. */
module Matching {
  import opened Integers
  import opened Levels

  datatype Trade = Trade(price: int, qty: int, aggressor: Side)

  datatype Outcome = Outcome(bids: seq<Level>, offers: seq<Level>, trades: seq<Trade>)

  predicate Crossed(bids: seq<Level>, offers: seq<Level>) {
    bids != [] && offers != [] && bids[0].price >= offers[0].price
  }

  /** Repeatedly fills the best bid against the best offer at the offer's price. Each
      fill exhausts one of the two, so the recursion ends on every book. */
  function Match(bids: seq<Level>, offers: seq<Level>, aggressor: Side): Outcome
    decreases |bids| + |offers|
  {
    if !Crossed(bids, offers) then Outcome(bids, offers, [])
    else
      var t := Min(bids[0].qty, offers[0].qty);
      var rest := Match(Hit(bids, t), Hit(offers, t), aggressor);
      rest.(trades := [Trade(offers[0].price, t, aggressor)] + rest.trades)
  }

  function Traded(trades: seq<Trade>): int {
    if trades == [] then 0 else trades[0].qty + Traded(trades[1..])
  }

  /** The last trade price of a match, or the price before it. */
  function LastPrice(before: int, trades: seq<Trade>): int {
    if trades == [] then before else trades[|trades| - 1].price
  }

  /** One unfolding of the loop. */
  lemma {:induction false} MatchStep(bids: seq<Level>, offers: seq<Level>, aggressor: Side)
    returns (t: int, rest: Outcome)
    requires Crossed(bids, offers)
    ensures t == Min(bids[0].qty, offers[0].qty)
    ensures rest == Match(Hit(bids, t), Hit(offers, t), aggressor)
    ensures var r := Match(bids, offers, aggressor);
            && r.bids == rest.bids && r.offers == rest.offers
            && r.trades == [Trade(offers[0].price, t, aggressor)] + rest.trades
            && Traded(r.trades) == t + Traded(rest.trades)
  {
    t := Min(bids[0].qty, offers[0].qty);
    rest := Match(Hit(bids, t), Hit(offers, t), aggressor);
    assert Match(bids, offers, aggressor).trades[1..] == rest.trades;
  }

  /** Both sides lose exactly what was traded, on any book whatsoever. */
  lemma {:induction false} MatchConserves(bids: seq<Level>, offers: seq<Level>, aggressor: Side)
    ensures var r := Match(bids, offers, aggressor);
            Total(bids) - Total(r.bids) == Traded(r.trades) == Total(offers) - Total(r.offers)
    decreases |bids| + |offers|
  {
    if Crossed(bids, offers) {
      var t, rest := MatchStep(bids, offers, aggressor);
      HitTotal(bids, t);
      HitTotal(offers, t);
      MatchConserves(Hit(bids, t), Hit(offers, t), aggressor);
    }
  }

  function Tagged(trades: seq<Trade>, aggressor: Side): (r: seq<Trade>)
    ensures |r| == |trades|
    ensures forall i :: 0 <= i < |r| ==> r[i] == trades[i].(aggressor := aggressor)
  {
    seq(|trades|, i requires 0 <= i < |trades| => trades[i].(aggressor := aggressor))
  }

  /** The buy loop and the sell loop leave the same book and differ only in the tag. */
  lemma {:induction false} MatchSideOnlyTags(bids: seq<Level>, offers: seq<Level>, a: Side, b: Side)
    ensures var x, y := Match(bids, offers, a), Match(bids, offers, b);
            x.bids == y.bids && x.offers == y.offers && y.trades == Tagged(x.trades, b)
    decreases |bids| + |offers|
  {
    if Crossed(bids, offers) {
      var t, restA := MatchStep(bids, offers, a);
      var _, restB := MatchStep(bids, offers, b);
      MatchSideOnlyTags(Hit(bids, t), Hit(offers, t), a, b);
      hide Match, Hit;
    }
  }

  lemma {:induction false} MatchUncrosses(bids: seq<Level>, offers: seq<Level>, aggressor: Side)
    ensures var r := Match(bids, offers, aggressor); !Crossed(r.bids, r.offers)
    decreases |bids| + |offers|
  {
    if Crossed(bids, offers) {
      var t, rest := MatchStep(bids, offers, aggressor);
      MatchUncrosses(Hit(bids, t), Hit(offers, t), aggressor);
    }
  }

  /** Two sorted sides of positive levels. */
  predicate WellFormed(bids: seq<Level>, offers: seq<Level>) {
    Sorted(Buy, bids) && Positive(bids) && Sorted(Sell, offers) && Positive(offers)
  }

  lemma {:induction false} HitsKeep(bids: seq<Level>, offers: seq<Level>, t: int)
    requires WellFormed(bids, offers) && Crossed(bids, offers) && t == Min(bids[0].qty, offers[0].qty)
    ensures 0 < t && WellFormed(Hit(bids, t), Hit(offers, t))
    ensures Hit(bids, t) == Remove(bids, t) && Hit(offers, t) == Remove(offers, t)
  {
    HitKeeps(Buy, bids, t);
    HitKeeps(Sell, offers, t);
  }

  lemma {:induction false} WellFormedSides(bids: seq<Level>, offers: seq<Level>)
    ensures WellFormed(bids, offers) ==> Positive(bids) && Positive(offers)
  {
  }

  lemma {:induction false} HitsShorten(bids: seq<Level>, offers: seq<Level>)
    requires bids != [] && offers != []
    ensures var t := Min(bids[0].qty, offers[0].qty); |Hit(bids, t)| + |Hit(offers, t)| < |bids| + |offers|
  {
  }

  lemma {:induction false} MatchNothing(bids: seq<Level>, offers: seq<Level>, aggressor: Side)
    requires !Crossed(bids, offers)
    ensures Match(bids, offers, aggressor) == Outcome(bids, offers, []) && Traded([]) == 0
    ensures Remove(bids, 0) == bids && Remove(offers, 0) == offers
  {
  }

  /** On a book of positive levels the match removes the traded quantity best price
      first from both sides. */
  lemma {:induction false} MatchTakesBestFirst(bids: seq<Level>, offers: seq<Level>, aggressor: Side)
    requires WellFormed(bids, offers)
    ensures var r := Match(bids, offers, aggressor); var t := Traded(r.trades);
            && r.bids == Remove(bids, t) && r.offers == Remove(offers, t)
            && 0 <= t <= Total(bids) && t <= Total(offers)
    decreases |bids| + |offers|
  {
    hide Match, Hit, Remove, WellFormed, Total, Traded;
    WellFormedSides(bids, offers);
    if Crossed(bids, offers) {
      var t, rest := MatchStep(bids, offers, aggressor);
      HitsKeep(bids, offers, t);
      HitsShorten(bids, offers);
      MatchTakesBestFirst(Hit(bids, t), Hit(offers, t), aggressor);
      RemoveCompose(bids, t, Traded(rest.trades));
      RemoveCompose(offers, t, Traded(rest.trades));
      HitTotal(bids, t);
      HitTotal(offers, t);
    } else {
      MatchNothing(bids, offers, aggressor);
      TotalNonNegative(bids);
      TotalNonNegative(offers);
    }
  }

  /** What could change hands if everything cleared at the single price `p`. */
  function Crossable(bids: seq<Level>, offers: seq<Level>, p: int): int {
    Min(Within(Buy, bids, p), Within(Sell, offers, p))
  }

  /** A fill lowers what can cross at `p` by its quantity when `p` lies between the two
      prices; nothing crosses at any other price. */
  lemma {:induction false} OneHit(bids: seq<Level>, offers: seq<Level>, t: int, p: int)
    requires WellFormed(bids, offers) && Crossed(bids, offers) && t == Min(bids[0].qty, offers[0].qty)
    ensures var c, c' := Crossable(bids, offers, p), Crossable(Hit(bids, t), Hit(offers, t), p);
            if offers[0].price <= p <= bids[0].price then c == c' + t && c' >= 0
            else c == 0 == c'
  {
    HitsKeep(bids, offers, t);
    HitWithin(Buy, bids, t, p);
    HitWithin(Sell, offers, t, p);
    WithinBounds(Buy, bids, p);
    WithinBounds(Sell, offers, p);
    WithinBounds(Buy, Hit(bids, t), p);
    WithinBounds(Sell, Hit(offers, t), p);
  }

  /** The greedy loop is optimal: it trades the largest quantity that any single price
      could clear, and some price clears exactly that much. */
  lemma {:induction false} ClearingVolume(bids: seq<Level>, offers: seq<Level>, aggressor: Side)
    returns (best: int)
    requires WellFormed(bids, offers)
    ensures var t := Traded(Match(bids, offers, aggressor).trades);
            && t == Crossable(bids, offers, best)
            && forall p :: Crossable(bids, offers, p) <= t
    decreases |bids| + |offers|
  {
    if !Crossed(bids, offers) {
      forall p ensures Crossable(bids, offers, p) == 0 {
        WithinBounds(Buy, bids, p);
        WithinBounds(Sell, offers, p);
      }
      best := 0;
    } else {
      var t, rest := MatchStep(bids, offers, aggressor);
      HitsKeep(bids, offers, t);
      MatchTakesBestFirst(Hit(bids, t), Hit(offers, t), aggressor);
      var best' := ClearingVolume(Hit(bids, t), Hit(offers, t), aggressor);
      var t' := Traded(rest.trades);
      forall p ensures Crossable(bids, offers, p) <= t + t' {
        assert Crossable(Hit(bids, t), Hit(offers, t), p) <= t';
        OneHit(bids, offers, t, p);
      }
      best := if t' > 0 then best' else offers[0].price;
      assert Crossable(Hit(bids, t), Hit(offers, t), best) <= t';
      OneHit(bids, offers, t, best);
    }
  }
}
