/** One side of the simulated order book, listed best price first.
    `std::set<OrderBookLevel, LevelCompare>` holds unique prices in increasing order;
    `bids_` is used from `rbegin()` and `offers_` from `begin()`, so a side is a
    sequence of levels whose prices get strictly worse. Prices are integer ticks of
    `MIN_TICK`. */
module Levels {
  const MAX_DEPTH := 20
  const MAX_QTY := 100
  const MAX_LEVEL_QTY := 2000

  datatype Side = Buy | Sell

  datatype Level = Level(price: int, qty: int, orderCount: int)

  /** Price `p` is served before price `q` among the resting orders of `side`. */
  predicate Ahead(side: Side, p: int, q: int) {
    if side == Buy then p > q else p < q
  }

  predicate Sorted(side: Side, s: seq<Level>) {
    forall i, j :: 0 <= i < j < |s| ==> Ahead(side, s[i].price, s[j].price)
  }

  predicate Positive(s: seq<Level>) {
    forall i :: 0 <= i < |s| ==> s[i].qty > 0
  }

  /** The number of levels served before `price`: where the set inserts it. */
  function Position(side: Side, s: seq<Level>, price: int): (k: nat)
    requires Sorted(side, s)
    ensures k <= |s|
    ensures forall i :: 0 <= i < k ==> Ahead(side, s[i].price, price)
    ensures forall i :: k <= i < |s| ==> !Ahead(side, s[i].price, price)
  {
    if s == [] || !Ahead(side, s[0].price, price) then 0 else 1 + Position(side, s[1..], price)
  }

  predicate HasPrice(s: seq<Level>, price: int) {
    exists i :: 0 <= i < |s| && s[i].price == price
  }

  /** `std::set::insert`: refuses a level whose price is present. */
  function SetInsert(side: Side, s: seq<Level>, l: Level): (r: seq<Level>)
    requires Sorted(side, s)
    ensures Sorted(side, r)
  {
    var k := Position(side, s, l.price);
    if k < |s| && s[k].price == l.price then s else s[..k] + [l] + s[k..]
  }

  lemma {:induction false} PositionFound(side: Side, s: seq<Level>, i: nat)
    requires Sorted(side, s) && i < |s|
    ensures Position(side, s, s[i].price) == i
  {
    if i > 0 { PositionFound(side, s[1..], i - 1); }
  }

  /** The insert is refused exactly when the price is present. */
  lemma {:induction false} SetInsertRefuses(side: Side, s: seq<Level>, l: Level)
    requires Sorted(side, s)
    ensures HasPrice(s, l.price) <==> SetInsert(side, s, l) == s
    ensures HasPrice(s, l.price) <==>
              var k := Position(side, s, l.price); k < |s| && s[k].price == l.price
  {
    if HasPrice(s, l.price) {
      var i :| 0 <= i < |s| && s[i].price == l.price;
      PositionFound(side, s, i);
    }
  }

  /** A level ahead of every other goes first. */
  lemma {:induction false} InsertFirst(side: Side, s: seq<Level>, l: Level)
    requires Sorted(side, s) && (s != [] ==> Ahead(side, l.price, s[0].price))
    ensures Position(side, s, l.price) == 0
    ensures SetInsert(side, s, l) == [l] + s
  {
    assert s[..0] == [] && s[0..] == s;
  }

  function Total(s: seq<Level>): int {
    if s == [] then 0 else s[0].qty + Total(s[1..])
  }

  /** The quantity resting at `price` or better. */
  function Within(side: Side, s: seq<Level>, price: int): int {
    if s == [] then 0
    else (if Ahead(side, price, s[0].price) then 0 else s[0].qty) + Within(side, s[1..], price)
  }

  lemma {:induction false} TotalNonNegative(s: seq<Level>)
    requires Positive(s)
    ensures 0 <= Total(s)
  {
    if s != [] { TotalNonNegative(s[1..]); }
  }

  lemma {:induction false} WithinBounds(side: Side, s: seq<Level>, price: int)
    requires Sorted(side, s) && Positive(s)
    ensures 0 <= Within(side, s, price) <= Total(s)
    ensures s == [] || Ahead(side, price, s[0].price) ==> Within(side, s, price) == 0
  {
    if s != [] { WithinBounds(side, s[1..], price); }
  }

  lemma {:induction false} WithinFront(side: Side, s: seq<Level>, price: int)
    requires s != []
    ensures Within(side, s, price) == (if Ahead(side, price, s[0].price) then 0 else s[0].qty) + Within(side, s[1..], price)
  {
  }

  /** `n` units taken best price first. */
  function Remove(s: seq<Level>, n: int): (r: seq<Level>) {
    if s == [] || n <= 0 then s
    else if s[0].qty <= n then Remove(s[1..], n - s[0].qty)
    else [s[0].(qty := s[0].qty - n)] + s[1..]
  }

  /** Removal erases the first `k` levels and cuts the next one down to `x`; what it
      erases and cuts adds up to `n`, and the levels behind are untouched. */
  lemma {:induction false} RemoveShape(s: seq<Level>, n: int) returns (k: nat, x: int)
    requires Positive(s) && 0 <= n <= Total(s)
    ensures k <= |s| && (k < |s| ==> 0 < x <= s[k].qty)
    ensures Remove(s, n) == if k == |s| then [] else [s[k].(qty := x)] + s[k + 1..]
    ensures n == Total(s[..k]) + if k == |s| then 0 else s[k].qty - x
  {
    if s == [] {
      k, x := 0, 0;
    } else if s[0].qty <= n {
      k, x := RemoveShape(s[1..], n - s[0].qty);
      k := k + 1;
      assert s[..k][1..] == s[1..][..k - 1];
      assert k < |s| ==> s[1..][k..] == s[k + 1..];
    } else {
      k, x := 0, s[0].qty - n;
      assert n == 0 ==> s == [s[0].(qty := x)] + s[1..];
    }
  }

  lemma {:induction false} RemoveKeeps(side: Side, s: seq<Level>, n: int)
    requires Sorted(side, s) && Positive(s) && 0 <= n <= Total(s)
    ensures Sorted(side, Remove(s, n)) && Positive(Remove(s, n)) && |Remove(s, n)| <= |s|
    ensures Remove(s, n) != [] ==> !Ahead(side, Remove(s, n)[0].price, s[0].price)
  {
    var k, x := RemoveShape(s, n);
    hide Remove, Total;
    if k < |s| {
      CutKeeps(side, s, k, x);
    }
  }

  lemma {:induction false} CutKeeps(side: Side, s: seq<Level>, k: nat, x: int)
    requires Sorted(side, s) && Positive(s) && k < |s| && x > 0
    ensures var r := [s[k].(qty := x)] + s[k + 1..];
            Sorted(side, r) && Positive(r) && !Ahead(side, r[0].price, s[0].price)
  {
  }

  lemma {:induction false} RemoveCompose(s: seq<Level>, a: int, b: int)
    requires Positive(s) && 0 <= a && 0 <= b
    ensures Remove(Remove(s, a), b) == Remove(s, a + b)
  {
    if s != [] && a > 0 && s[0].qty <= a {
      RemoveCompose(s[1..], a - s[0].qty, b);
    } else if s != [] && a > 0 && b > 0 {
      assert Remove(s, a)[1..] == s[1..];
    }
  }

  /** The front level after a fill of `t`: erased when filled exactly, else reduced. */
  function Hit(s: seq<Level>, t: int): seq<Level>
    requires s != []
  {
    if s[0].qty == t then s[1..]
    else [s[0].(qty := s[0].qty - t)] + s[1..]
  }

  lemma {:induction false} HitTotal(s: seq<Level>, t: int)
    requires s != []
    ensures Total(Hit(s, t)) == Total(s) - t
  {
    assert s[0].qty != t ==> Hit(s, t)[1..] == s[1..];
  }

  lemma {:induction false} HitKeeps(side: Side, s: seq<Level>, t: int)
    requires Sorted(side, s) && Positive(s) && s != [] && 0 < t <= s[0].qty
    ensures Sorted(side, Hit(s, t)) && Positive(Hit(s, t)) && Hit(s, t) == Remove(s, t)
    ensures Hit(s, t) != [] ==> !Ahead(side, Hit(s, t)[0].price, s[0].price)
  {
    assert s[0].qty == t ==> Remove(s[1..], 0) == s[1..];
  }

  lemma {:induction false} HitWithin(side: Side, s: seq<Level>, t: int, p: int)
    requires s != []
    ensures Within(side, Hit(s, t), p) == Within(side, s, p) - if Ahead(side, p, s[0].price) then 0 else t
  {
    assert s[0].qty != t ==> Hit(s, t)[1..] == s[1..];
  }
}
