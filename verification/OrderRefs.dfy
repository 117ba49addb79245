/** The CTP trader's two order maps: from kungfu order ids to CTP order refs and back. */
module OrderRefs {
  type OrderId = nat

  datatype Info = Info(ref: string, instrument: string, exchange: string, source: nat)

  datatype Refs = Refs(counter: nat, infoOf: map<OrderId, Info>, idOf: map<string, OrderId>)

  const START := Refs(0, map[], map[])

  /** The ref string of a counter value. */
  function Decimal(n: nat): (s: string)
    ensures s != ""
  {
    var digit := [('0' as int + n % 10) as char];
    if n < 10 then digit else Decimal(n / 10) + digit
  }

  lemma {:induction false} DecimalInjective(m: nat, n: nat)
    requires Decimal(m) == Decimal(n)
    ensures m == n
  {
    var s := Decimal(m);
    assert s[|s| - 1] == ('0' as int + m % 10) as char;
    assert s[|s| - 1] == ('0' as int + n % 10) as char;
    assert m % 10 == n % 10;
    if m >= 10 && n >= 10 {
      assert Decimal(m)[..|s| - 1] == Decimal(m / 10) && Decimal(n)[..|s| - 1] == Decimal(n / 10);
      DecimalInjective(m / 10, n / 10);
    }
  }

  /** The maps are inverses of each other. */
  predicate Mutual(r: Refs) {
    && (forall id :: id in r.infoOf ==> r.infoOf[id].ref in r.idOf && r.idOf[r.infoOf[id].ref] == id)
    && (forall ref :: ref in r.idOf ==> r.idOf[ref] in r.infoOf && r.infoOf[r.idOf[ref]].ref == ref)
  }

  /** A stored order, as recovery finds it. */
  datatype Stored = Stored(id: OrderId, ref: string, instrument: string, exchange: string, dest: nat)

  /** `Insert` is an order that passed the checks; `sent` is the outcome of the request.
      `CancelSent` spends a counter value on the action. `Erase` is a final status or a
      rejected insert. `Recover` lists the stored orders in some order. */
  datatype Event =
    | Insert(id: OrderId, instrument: string, exchange: string, source: nat, sent: bool)
    | CancelSent
    | Erase(id: OrderId)
    | Recover(orders: seq<Stored>)

  function InsertNext(r: Refs, e: Event): Refs
    requires e.Insert?
  {
    var ref := Decimal(r.counter + 1);
    if !e.sent then r.(counter := r.counter + 1)
    else Refs(r.counter + 1, r.infoOf[e.id := Info(ref, e.instrument, e.exchange, e.source)], r.idOf[ref := e.id])
  }

  function EraseNext(r: Refs, id: OrderId): Refs {
    if id !in r.infoOf then r
    else Refs(r.counter, r.infoOf - {id}, r.idOf - {r.infoOf[id].ref})
  }

  function RecoverOne(r: Refs, o: Stored): Refs {
    if o.ref == "" || o.ref in r.idOf then r
    else Refs(r.counter, r.infoOf[o.id := Info(o.ref, o.instrument, o.exchange, o.dest)], r.idOf[o.ref := o.id])
  }

  function RecoverNext(r: Refs, orders: seq<Stored>): Refs {
    if orders == [] then r else RecoverOne(RecoverNext(r, orders[..|orders| - 1]), orders[|orders| - 1])
  }

  function Next(r: Refs, e: Event): Refs {
    match e
    case Insert(_, _, _, _, _) => InsertNext(r, e)
    case CancelSent => r.(counter := r.counter + 1)
    case Erase(id) => EraseNext(r, id)
    case Recover(orders) => RecoverNext(r, orders)
  }

  function Run(events: seq<Event>): Refs {
    if events == [] then START else Next(Run(events[..|events| - 1]), events[|events| - 1])
  }

  /** Order ids are new when they are mapped. */
  predicate NewIds(r: Refs, e: Event) {
    && (e.Insert? ==> e.id !in r.infoOf)
    && (e.Recover? ==>
          && (forall i, j :: 0 <= i < j < |e.orders| ==> e.orders[i].id != e.orders[j].id)
          && (forall i :: 0 <= i < |e.orders| ==> e.orders[i].id !in r.infoOf))
  }

  predicate NewIdsRun(events: seq<Event>) {
    forall i :: 0 <= i < |events| ==> NewIds(Run(events[..i]), events[i])
  }

  /** The ref that an insert at `i` takes. */
  function NextRef(events: seq<Event>, i: nat): string
    requires i < |events|
  {
    Decimal(Run(events[..i]).counter + 1)
  }

  /** No order is sent under a ref that is mapped at that moment. */
  predicate NoReuse(events: seq<Event>) {
    forall i :: 0 <= i < |events| && events[i].Insert? && events[i].sent ==> NextRef(events, i) !in Run(events[..i]).idOf
  }

  /** A sent insert of a new order keeps the maps inverse exactly when its ref is not
      mapped already. */
  lemma {:induction false} InsertMutualExactly(r: Refs, e: Event)
    requires Mutual(r) && e.Insert? && e.sent && e.id !in r.infoOf
    ensures Mutual(InsertNext(r, e)) <==> Decimal(r.counter + 1) !in r.idOf
  {
    var ref, s := Decimal(r.counter + 1), InsertNext(r, e);
    if ref in r.idOf {
      var other := r.idOf[ref];
      assert other in s.infoOf && s.infoOf[other].ref == ref && s.idOf[ref] == e.id;
    }
  }

  lemma {:induction false} EraseMutual(r: Refs, id: OrderId)
    requires Mutual(r)
    ensures Mutual(EraseNext(r, id))
  {
  }

  lemma {:induction false} RecoverOneMutual(r: Refs, o: Stored)
    requires Mutual(r) && o.id !in r.infoOf
    ensures Mutual(RecoverOne(r, o))
  {
  }

  lemma {:induction false} RecoverMutual(r: Refs, orders: seq<Stored>)
    requires Mutual(r) && NewIds(r, Recover(orders))
    ensures var s := RecoverNext(r, orders);
            && Mutual(s)
            && forall id :: id in s.infoOf ==> id in r.infoOf || exists i :: 0 <= i < |orders| && orders[i].id == id
  {
    hide Mutual;
    if orders != [] {
      var k := |orders| - 1;
      RecoverMutual(r, orders[..k]);
      var before := RecoverNext(r, orders[..k]);
      forall id | id in before.infoOf ensures id != orders[k].id {
        if id !in r.infoOf {
          var i :| 0 <= i < k && orders[..k][i].id == id;
          assert orders[i].id == id;
        }
      }
      RecoverOneMutual(before, orders[k]);
      forall id | id in RecoverNext(r, orders).infoOf
        ensures id in r.infoOf || exists i :: 0 <= i < |orders| && orders[i].id == id
      {
        if id == orders[k].id {
        } else if id !in r.infoOf {
          var i :| 0 <= i < k && orders[..k][i].id == id;
          assert orders[i].id == id;
        }
      }
    }
  }

  /** One event after maps that are inverses. */
  lemma {:induction false} NextMutualExactly(r: Refs, e: Event)
    requires Mutual(r) && NewIds(r, e)
    ensures Mutual(Next(r, e)) <==> (e.Insert? && e.sent ==> Decimal(r.counter + 1) !in r.idOf)
  {
    match e {
      case Insert(_, _, _, _, sent) => if sent { InsertMutualExactly(r, e); }
      case CancelSent =>
      case Erase(id) => EraseMutual(r, id);
      case Recover(orders) => RecoverMutual(r, orders);
    }
  }

  lemma {:induction false} RunAfter(events: seq<Event>, n: nat)
    requires n < |events|
    ensures Run(events[..n + 1]) == Next(Run(events[..n]), events[n])
  {
    assert events[..n + 1][..n] == events[..n];
  }

  lemma {:induction false} RunNothing(events: seq<Event>)
    ensures Run(events[..0]) == START && Mutual(START)
  {
  }

  lemma {:induction false} NoReuseMutual(events: seq<Event>, n: nat)
    requires NewIdsRun(events) && NoReuse(events) && n <= |events|
    ensures Mutual(Run(events[..n]))
  {
    hide Run, Next, Mutual;
    RunNothing(events);
    if n > 0 {
      NoReuseMutual(events, n - 1);
      RunAfter(events, n - 1);
      NextMutualExactly(Run(events[..n - 1]), events[n - 1]);
    }
  }

  /** Over every run of inserts, cancels, erasures and recoveries with new order ids, the
      two maps are inverses of each other at every moment exactly when no order is sent
      under a ref that is mapped at that moment. */
  lemma {:induction false} MutualExactly(events: seq<Event>)
    requires NewIdsRun(events)
    ensures (forall n :: 0 <= n <= |events| ==> Mutual(Run(events[..n]))) <==> NoReuse(events)
  {
    hide Run, Next, Mutual;
    if forall n :: 0 <= n <= |events| ==> Mutual(Run(events[..n])) {
      forall i | 0 <= i < |events| && events[i].Insert? && events[i].sent
        ensures NextRef(events, i) !in Run(events[..i]).idOf
      {
        RunAfter(events, i);
        assert Mutual(Run(events[..i + 1]));
        NextMutualExactly(Run(events[..i]), events[i]);
      }
    }
    if NoReuse(events) {
      forall n | 0 <= n <= |events| ensures Mutual(Run(events[..n])) {
        NoReuseMutual(events, n);
      }
    }
  }

  /** The orders and actions that took a ref, sent or not. */
  function Requests(events: seq<Event>): nat {
    if events == [] then 0
    else Requests(events[..|events| - 1]) + if events[|events| - 1].Insert? || events[|events| - 1].CancelSent? then 1 else 0
  }

  /** Refs are numbered by the requests made, whatever came of them: request number `k`
      takes ref `k`, and no two requests share one. */
  lemma {:induction false} RefsNumberRequests(events: seq<Event>)
    ensures Run(events).counter == Requests(events)
  {
    if events != [] {
      var n := |events| - 1;
      RefsNumberRequests(events[..n]);
      if events[n].Recover? { RecoverCounter(Run(events[..n]), events[n].orders); }
    }
  }

  /** The stored order is one that a recovery maps: it has a ref, which was not mapped
      before and which no order listed earlier has. */
  predicate Restorable(r: Refs, orders: seq<Stored>, k: nat)
    requires k < |orders|
  {
    orders[k].ref != "" && orders[k].ref !in r.idOf && forall j :: 0 <= j < k ==> orders[j].ref != orders[k].ref
  }

  predicate Lists(orders: seq<Stored>, ref: string) {
    exists k :: 0 <= k < |orders| && orders[k].ref == ref
  }

  lemma {:induction false} ListsNext(orders: seq<Stored>, ref: string)
    requires orders != []
    ensures var n := |orders| - 1; Lists(orders, ref) <==> Lists(orders[..n], ref) || orders[n].ref == ref
  {
    var n := |orders| - 1;
    if Lists(orders[..n], ref) {
      var k :| 0 <= k < n && orders[..n][k].ref == ref;
      assert orders[k].ref == ref;
    }
    if k :| 0 <= k < n && orders[k].ref == ref {
      assert orders[..n][k].ref == ref;
    }
  }

  lemma {:induction false} RecoverRefs(r: Refs, orders: seq<Stored>, ref: string)
    ensures ref in RecoverNext(r, orders).idOf <==> ref in r.idOf || (ref != "" && Lists(orders, ref))
  {
    hide Lists;
    if orders == [] {
      ListsNothing(ref);
    } else {
      ListsNext(orders, ref);
      RecoverRefs(r, orders[..|orders| - 1], ref);
    }
  }

  lemma {:induction false} ListsNothing(ref: string)
    ensures !Lists([], ref)
  {
  }

  /** A recovery leaves the orders it does not list as they were. */
  lemma {:induction false} RecoverElsewhere(r: Refs, orders: seq<Stored>, id: OrderId)
    requires forall k :: 0 <= k < |orders| ==> orders[k].id != id
    ensures var s := RecoverNext(r, orders);
            (id in s.infoOf <==> id in r.infoOf) && (id in r.infoOf ==> s.infoOf[id] == r.infoOf[id])
  {
    if orders != [] { RecoverElsewhere(r, orders[..|orders| - 1], id); }
  }

  /** A recovery maps exactly the restorable orders it lists, each to what was stored. */
  lemma {:induction false} RecoverMapsExactly(r: Refs, orders: seq<Stored>, k: nat)
    requires NewIds(r, Recover(orders)) && k < |orders|
    ensures var s, o := RecoverNext(r, orders), orders[k];
            && (o.id in s.infoOf <==> Restorable(r, orders, k))
            && (o.id in s.infoOf ==> s.infoOf[o.id] == Info(o.ref, o.instrument, o.exchange, o.dest))
  {
    hide RecoverNext, NewIds;
    RecoverUnfolds(r, orders);
    var n := |orders| - 1;
    var front, o := orders[..n], orders[n];
    DistinctIds(r, orders);
    if k < n {
      assert front[k] == orders[k];
      RecoverMapsExactly(r, front, k);
      assert Restorable(r, front, k) <==> Restorable(r, orders, k);
    } else {
      RecoverElsewhere(r, front, o.id);
      RecoverRefs(r, front, o.ref);
      assert Lists(front, o.ref) <==> exists j :: 0 <= j < n && orders[j].ref == o.ref by {
        if j :| 0 <= j < n && orders[j].ref == o.ref { assert front[j].ref == o.ref; }
      }
    }
  }

  lemma {:induction false} RecoverUnfolds(r: Refs, orders: seq<Stored>)
    requires orders != []
    ensures RecoverNext(r, orders) == RecoverOne(RecoverNext(r, orders[..|orders| - 1]), orders[|orders| - 1])
  {
  }

  lemma {:induction false} DistinctIds(r: Refs, orders: seq<Stored>)
    requires NewIds(r, Recover(orders)) && orders != []
    ensures var n := |orders| - 1;
            && NewIds(r, Recover(orders[..n])) && orders[n].id !in r.infoOf
            && forall k :: 0 <= k < n ==> orders[k].id != orders[n].id && orders[..n][k].id != orders[n].id
  {
  }

  /** Event `i` of a run maps the order: an insert that was sent, or a recovery that finds
      it restorable. */
  predicate Maps(events: seq<Event>, i: nat, id: OrderId)
    requires i < |events|
  {
    match events[i]
    case Insert(inserted, _, _, _, sent) => inserted == id && sent
    case Recover(orders) => exists k :: 0 <= k < |orders| && orders[k].id == id && Restorable(Run(events[..i]), orders, k)
    case _ => false
  }

  /** What event `i` says of the order it maps: its ref, instrument, exchange and source. */
  predicate Describes(events: seq<Event>, i: nat, id: OrderId, info: Info)
    requires i < |events|
  {
    match events[i]
    case Insert(_, instrument, exchange, source, _) => info == Info(NextRef(events, i), instrument, exchange, source)
    case Recover(orders) =>
      forall k :: 0 <= k < |orders| && orders[k].id == id ==>
        info == Info(orders[k].ref, orders[k].instrument, orders[k].exchange, orders[k].dest)
    case _ => false
  }

  predicate ErasedAfter(events: seq<Event>, i: nat, n: nat, id: OrderId)
    requires n <= |events|
  {
    exists j :: i < j < n && events[j] == Erase(id)
  }

  predicate MappedSince(events: seq<Event>, i: nat, n: nat, id: OrderId)
    requires n <= |events|
  {
    i < n && Maps(events, i, id) && !ErasedAfter(events, i, n, id)
  }

  /** One event, as an order sees it. */
  lemma {:induction false} NextForOrder(events: seq<Event>, n: nat, id: OrderId)
    requires n < |events| && NewIdsRun(events)
    ensures var r, s := Run(events[..n]), Run(events[..n + 1]);
            && (id in s.infoOf <==> Maps(events, n, id) || (id in r.infoOf && events[n] != Erase(id)))
            && (id in s.infoOf && Maps(events, n, id) ==> Describes(events, n, id, s.infoOf[id]))
            && (id in s.infoOf && !Maps(events, n, id) ==> s.infoOf[id] == r.infoOf[id])
            && (Maps(events, n, id) ==> id !in r.infoOf)
  {
    hide Run, NextRef, Restorable, Decimal;
    RunAfter(events, n);
    var r, e := Run(events[..n]), events[n];
    assert NewIds(r, e);
    match e {
      case Insert(_, _, _, _, _) => assert NextRef(events, n) == Decimal(r.counter + 1) by { NextRefIs(events, n); }
      case CancelSent =>
      case Erase(_) =>
      case Recover(orders) =>
        if k :| 0 <= k < |orders| && orders[k].id == id {
          RecoverMapsExactly(r, orders, k);
          OnlyListing(orders, k);
        } else {
          RecoverElsewhere(r, orders, id);
        }
    }
  }

  lemma {:induction false} NextRefIs(events: seq<Event>, n: nat)
    requires n < |events|
    ensures NextRef(events, n) == Decimal(Run(events[..n]).counter + 1)
  {
  }

  lemma {:induction false} OnlyListing(orders: seq<Stored>, k: nat)
    requires k < |orders| && forall i, j :: 0 <= i < j < |orders| ==> orders[i].id != orders[j].id
    ensures forall j :: 0 <= j < |orders| && orders[j].id == orders[k].id ==> j == k
  {
  }

  /** In every run with new ids, an order is mapped exactly when some event mapped it and
      nothing has erased it since, to what that event said of it: so its notifications are
      attributed to the source that sent it, or that a recovery found it was sent for. */
  lemma {:induction false} MappedExactly(events: seq<Event>, n: nat, id: OrderId)
    requires NewIdsRun(events) && n <= |events|
    ensures id in Run(events[..n]).infoOf <==> exists i :: MappedSince(events, i, n, id)
    ensures forall i :: MappedSince(events, i, n, id) && id in Run(events[..n]).infoOf ==>
              Describes(events, i, id, Run(events[..n]).infoOf[id])
  {
    hide Run, Maps, Describes;
    if n == 0 {
      RunNothing(events);
    } else {
      MappedExactly(events, n - 1, id);
      NextForOrder(events, n - 1, id);
      SinceNext(events, n, id);
      hide MappedSince;
      var m := n - 1;
      if i :| MappedSince(events, i, m, id) && events[m] != Erase(id) {
        assert MappedSince(events, i, n, id);
      }
      if Maps(events, n - 1, id) {
        assert MappedSince(events, n - 1, n, id);
      }
    }
  }

  lemma {:induction false} SinceNext(events: seq<Event>, n: nat, id: OrderId)
    requires 0 < n <= |events|
    ensures forall i :: MappedSince(events, i, n, id) <==>
                          (i == n - 1 && Maps(events, n - 1, id))
                          || (MappedSince(events, i, n - 1, id) && events[n - 1] != Erase(id))
  {
    hide Maps;
  }

  /** So in every such run a notification goes to the source that sent the order, or for
      which a recovery found it stored; one of an order that is not mapped is public. */
  lemma {:induction false} SourceFollowsOrder(events: seq<Event>, n: nat, i: nat, id: OrderId)
    requires NewIdsRun(events) && n <= |events|
    ensures MappedSince(events, i, n, id) && events[i].Insert? ==> ResolveSource(Run(events[..n]), id) == events[i].source
    ensures MappedSince(events, i, n, id) && events[i].Recover? ==>
              forall k :: 0 <= k < |events[i].orders| && events[i].orders[k].id == id ==>
                ResolveSource(Run(events[..n]), id) == events[i].orders[k].dest
    ensures (forall k: nat :: !MappedSince(events, k, n, id)) ==> ResolveSource(Run(events[..n]), id) == PUBLIC
  {
    hide Run, Maps, ErasedAfter;
    MappedExactly(events, n, id);
  }

  /** The maps do not reach the order notifications of other sessions, and where the maps do
      not know the ref, an order and its trades with an exchange id get the same id. */
  lemma {:induction false} UnmappedResolves(r: Refs, s: Refs, own: bool, ref: string, n: Notice)
    ensures ResolveOrderId(r, false, n.sysId, ref, n.bySysId, n.byRef) == ResolveOrderId(s, false, n.sysId, ref, n.bySysId, n.byRef)
    ensures ref !in r.idOf && n.sysId != "" && n.sysId != "0" ==>
              ResolveOrderId(r, own, n.sysId, ref, n.bySysId, n.byRef) == n.bySysId(n.sysId)
              == ResolveTradeId(r, n.sysId, ref, n.bySysId, n.byTrade)
    ensures ref !in r.idOf && (n.sysId == "" || n.sysId == "0") ==>
              && ResolveOrderId(r, own, n.sysId, ref, n.bySysId, n.byRef) == n.byRef(ref)
              && ResolveTradeId(r, n.sysId, ref, n.bySysId, n.byTrade) == n.byTrade
  {
  }

  /** Some order recovered before event `n` carried the ref. */
  predicate RecoveredBefore(events: seq<Event>, n: nat, ref: string)
    requires n <= |events|
  {
    exists j, k :: 0 <= j < n && events[j].Recover? && 0 <= k < |events[j].orders| && events[j].orders[k].ref == ref
  }

  lemma {:induction false} RecoveredRefs(r: Refs, orders: seq<Stored>, ref: string)
    requires ref in RecoverNext(r, orders).idOf
    ensures ref in r.idOf || exists k :: 0 <= k < |orders| && orders[k].ref == ref
  {
    if orders != [] {
      var n := |orders| - 1;
      if orders[n].ref != ref {
        RecoveredRefs(r, orders[..n], ref);
        if ref !in r.idOf {
          var k :| 0 <= k < n && orders[..n][k].ref == ref;
          assert orders[k].ref == ref;
        }
      }
    }
  }

  lemma {:induction false} RecoverCounter(r: Refs, orders: seq<Stored>)
    ensures RecoverNext(r, orders).counter == r.counter
  {
    if orders != [] { RecoverCounter(r, orders[..|orders| - 1]); }
  }

  /** The counter has issued the ref. */
  ghost predicate Issued(r: Refs, ref: string) {
    exists m: nat :: m <= r.counter && ref == Decimal(m)
  }

  lemma {:induction false} NextIssued(r: Refs, e: Event, ref: string)
    ensures Issued(r, ref) ==> Issued(Next(r, e), ref)
    ensures ref in Next(r, e).idOf && ref !in r.idOf && !e.Recover? ==> Issued(Next(r, e), ref)
    ensures ref in Next(r, e).idOf && ref !in r.idOf && e.Recover? ==>
              exists k :: 0 <= k < |e.orders| && e.orders[k].ref == ref
  {
    hide Decimal;
    if e.Recover? {
      RecoverCounter(r, e.orders);
      if ref in Next(r, e).idOf { RecoveredRefs(r, e.orders, ref); }
    }
    if m: nat :| m <= r.counter && ref == Decimal(m) {
      assert m <= Next(r, e).counter;
    }
  }

  /** Where a mapped ref comes from: the counter issued it, or a recovery brought it. */
  lemma {:induction false} RefOrigin(events: seq<Event>, n: nat, ref: string)
    requires n <= |events| && ref in Run(events[..n]).idOf
    ensures Issued(Run(events[..n]), ref) || RecoveredBefore(events, n, ref)
  {
    hide Run, Next, Issued;
    RunNothing(events);
    if n > 0 {
      var r, e := Run(events[..n - 1]), events[n - 1];
      RunAfter(events, n - 1);
      NextIssued(r, e, ref);
      if ref in r.idOf {
        RefOrigin(events, n - 1, ref);
      } else if e.Recover? {
        var k :| 0 <= k < |e.orders| && e.orders[k].ref == ref;
        assert events[n - 1].orders[k].ref == ref;
      }
    }
  }

  /** No order is sent under a ref that was recovered before. */
  predicate RecoveredApart(events: seq<Event>) {
    forall i :: 0 <= i < |events| && events[i].Insert? && events[i].sent ==> !RecoveredBefore(events, i, NextRef(events, i))
  }

  /** So the maps stay inverses whenever the refs sent were not recovered before: those the
      counter issued itself never come again. */
  lemma {:induction false} MapsStayMutual(events: seq<Event>)
    requires NewIdsRun(events) && RecoveredApart(events)
    ensures NoReuse(events) && forall n :: 0 <= n <= |events| ==> Mutual(Run(events[..n]))
  {
    forall i | 0 <= i < |events| && events[i].Insert? && events[i].sent
      ensures NextRef(events, i) !in Run(events[..i]).idOf
    {
      if NextRef(events, i) in Run(events[..i]).idOf {
        RefOrigin(events, i, NextRef(events, i));
        var m: nat :| m <= Run(events[..i]).counter && NextRef(events, i) == Decimal(m);
        DecimalInjective(m, Run(events[..i]).counter + 1);
      }
    }
    MutualExactly(events);
  }

  /** The kungfu id of a CTP notification: the mapped one for a ref of this session,
      otherwise one derived from the exchange's id or from the session and ref. */
  function ResolveOrderId(r: Refs, ownSession: bool, sysId: string, ref: string,
                          bySysId: string -> OrderId, byRef: string -> OrderId): OrderId {
    if ownSession && ref != "" && ref in r.idOf then r.idOf[ref]
    else if sysId != "" && sysId != "0" then bySysId(sysId)
    else byRef(ref)
  }

  /** The kungfu id of a trade: trades carry no session, so a mapped ref is taken for the
      order's whoever issued it. */
  function ResolveTradeId(r: Refs, sysId: string, ref: string, bySysId: string -> OrderId, byTrade: OrderId): OrderId {
    if ref in r.idOf then r.idOf[ref]
    else if sysId != "" && sysId != "0" then bySysId(sysId)
    else byTrade
  }

  /** `PUBLIC`, the source of orders nobody here issued. */
  const PUBLIC := 0

  function ResolveSource(r: Refs, id: OrderId): nat {
    if id in r.infoOf && r.infoOf[id].source != 0 then r.infoOf[id].source else PUBLIC
  }

  lemma {:induction false} RefsNonEmpty(events: seq<Event>)
    ensures "" !in Run(events).idOf
  {
    if events != [] {
      var n := |events| - 1;
      RefsNonEmpty(events[..n]);
      if events[n].Recover? {
        RecoverNonEmpty(Run(events[..n]), events[n].orders);
      }
    }
  }

  lemma {:induction false} RecoverNonEmpty(r: Refs, orders: seq<Stored>)
    requires "" !in r.idOf
    ensures "" !in RecoverNext(r, orders).idOf
  {
    if orders != [] { RecoverNonEmpty(r, orders[..|orders| - 1]); }
  }

  /** The ids and hashes a notification may come with, besides its ref. */
  datatype Notice = Notice(sysId: string, bySysId: string -> OrderId, byRef: string -> OrderId, byTrade: OrderId)

  /** The order's own notifications, and its trades, resolve to it. */
  predicate Resolves(r: Refs, id: OrderId, n: Notice)
    requires id in r.infoOf
  {
    && ResolveOrderId(r, true, n.sysId, r.infoOf[id].ref, n.bySysId, n.byRef) == id
    && ResolveTradeId(r, n.sysId, r.infoOf[id].ref, n.bySysId, n.byTrade) == id
  }

  predicate AllResolve(r: Refs, n: Notice) {
    forall id :: id in r.infoOf ==> Resolves(r, id, n)
  }

  lemma {:induction false} MutualResolves(r: Refs, n: Notice)
    requires Mutual(r) && "" !in r.idOf
    ensures AllResolve(r, n)
  {
  }

  /** An insert under a mapped ref takes the notifications of the order that had it. */
  lemma {:induction false} ReuseCrosses(r: Refs, e: Event, n: Notice)
    requires Mutual(r) && e.Insert? && e.sent && e.id !in r.infoOf && Decimal(r.counter + 1) in r.idOf
    ensures var s, other := InsertNext(r, e), r.idOf[Decimal(r.counter + 1)];
            && other in s.infoOf && other != e.id && s.infoOf[other].ref == Decimal(r.counter + 1)
            && ResolveTradeId(s, n.sysId, s.infoOf[other].ref, n.bySysId, n.byTrade) == e.id
            && !AllResolve(s, n)
  {
    var s, other := InsertNext(r, e), r.idOf[Decimal(r.counter + 1)];
    assert !Resolves(s, other, n);
  }

  lemma {:induction false} ResolveMutual(events: seq<Event>, n: nat, notice: Notice)
    requires NewIdsRun(events) && n <= |events|
    requires forall m :: 0 <= m <= |events| ==> AllResolve(Run(events[..m]), notice)
    ensures Mutual(Run(events[..n]))
  {
    hide Run, Mutual, AllResolve;
    RunNothing(events);
    if n > 0 {
      ResolveMutual(events, n - 1, notice);
      RunAfter(events, n - 1);
      var r, e := Run(events[..n - 1]), events[n - 1];
      NextMutualExactly(r, e);
      assert AllResolve(Run(events[..n]), notice);
      if e.Insert? && e.sent && Decimal(r.counter + 1) in r.idOf {
        ReuseCrosses(r, e, notice);
      }
    }
  }

  /** In every run with new order ids, the refs of the mapped orders resolve to their own
      ids at every moment, in order notifications of this session and in trades, exactly
      when no order is sent under a ref that is mapped at that moment. */
  lemma {:induction false} LiveOrderResolves(events: seq<Event>, notice: Notice)
    requires NewIdsRun(events)
    ensures (forall n :: 0 <= n <= |events| ==> AllResolve(Run(events[..n]), notice)) <==> NoReuse(events)
  {
    hide Run, Mutual, AllResolve, NoReuse, NewIdsRun;
    MutualExactly(events);
    if NoReuse(events) {
      forall n | 0 <= n <= |events| ensures AllResolve(Run(events[..n]), notice) {
        RefsNonEmpty(events[..n]);
        MutualResolves(Run(events[..n]), notice);
      }
    }
    if forall n :: 0 <= n <= |events| ==> AllResolve(Run(events[..n]), notice) {
      forall n | 0 <= n <= |events| ensures Mutual(Run(events[..n])) {
        ResolveMutual(events, n, notice);
      }
    }
  }

  /** Recovery does not advance the counter: after a restart that recovers an order with
      ref "1", the first order sent takes the same ref, and the trades of the recovered
      order, which come from an earlier session, are then booked to the new one. */
  lemma {:induction false} RestartCrossesOrders(earlier: OrderId, later: OrderId, n: Notice)
    requires earlier != later
    ensures var events := [Recover([Stored(earlier, "1", "", "", 0)]), Insert(later, "", "", 0, true)];
            var before, r := Run(events[..1]), Run(events);
            && NewIdsRun(events) && !NoReuse(events)
            && ResolveTradeId(before, n.sysId, "1", n.bySysId, n.byTrade) == earlier
            && earlier in r.infoOf && r.infoOf[earlier].ref == "1" && !Mutual(r)
            && ResolveTradeId(r, n.sysId, "1", n.bySysId, n.byTrade) == later
  {
    var recover, insert := Recover([Stored(earlier, "1", "", "", 0)]), Insert(later, "", "", 0, true);
    var events := [recover, insert];
    assert events[..0] == [] && events[..1] == [recover] && [recover][..0] == [];
    assert recover.orders[..0] == [];
    var r := Refs(0, map[earlier := Info("1", "", "", 0)], map["1" := earlier]);
    assert RecoverNext(START, recover.orders) == RecoverOne(START, recover.orders[0]) == r;
    assert Run([recover]) == r;
    assert Decimal(1) == "1";
    assert Run(events) == InsertNext(r, insert);
    InsertMutualExactly(r, insert);
    assert NextRef(events, 1) in Run(events[..1]).idOf;
  }
}
