/** The client's table of active orders: rows, and the map from order id to row that is
    renumbered whenever a row is removed. */
module ActiveOrders {
  import opened OrderStatuses

  type OrderId = nat

  datatype OrderInfo = OrderInfo(id: OrderId, status: OrderStatus, volume: int, volumeLeft: int)

  /** The client's own notion of a live order. */
  predicate IsActive(o: OrderInfo) {
    !(o.status.Filled? || o.status.Cancelled? || o.status.Error?) && o.volumeLeft > 0
  }

  datatype Table = Table(rows: seq<OrderInfo>, rowOf: map<OrderId, int>)

  /** The map is a bijection from the ids in it onto the row numbers, and each row shows
      the order that is mapped to it. */
  predicate Indexed(t: Table) {
    && (forall id :: id in t.rowOf ==> 0 <= t.rowOf[id] < |t.rows| && t.rows[t.rowOf[id]].id == id)
    && (forall r :: 0 <= r < |t.rows| ==> t.rows[r].id in t.rowOf && t.rowOf[t.rows[r].id] == r)
  }

  /** Every row number above the removed one moves down. */
  function Renumbered(rowOf: map<OrderId, int>, removed: int): map<OrderId, int> {
    map id | id in rowOf :: if rowOf[id] > removed then rowOf[id] - 1 else rowOf[id]
  }

  function Next(t: Table, o: OrderInfo): Table
    requires Indexed(t)
  {
    if IsActive(o) then
      if o.id in t.rowOf then t.(rows := t.rows[t.rowOf[o.id] := o])
      else Table(t.rows + [o], t.rowOf[o.id := |t.rows|])
    else if o.id in t.rowOf then
      var r := t.rowOf[o.id];
      Table(t.rows[..r] + t.rows[r + 1..], Renumbered(t.rowOf - {o.id}, r))
    else t
  }

  lemma {:induction false} NextIndexed(t: Table, o: OrderInfo)
    requires Indexed(t)
    ensures Indexed(Next(t, o))
  {
    if !IsActive(o) && o.id in t.rowOf {
      RemovalIndexed(t, o.id);
    }
  }

  lemma {:induction false} RemovalIndexed(t: Table, id: OrderId)
    requires Indexed(t) && id in t.rowOf
    ensures var r := t.rowOf[id]; Indexed(Table(t.rows[..r] + t.rows[r + 1..], Renumbered(t.rowOf - {id}, r)))
  {
    var r := t.rowOf[id];
    var s := Table(t.rows[..r] + t.rows[r + 1..], Renumbered(t.rowOf - {id}, r));
    forall k | k in s.rowOf ensures 0 <= s.rowOf[k] < |s.rows| && s.rows[s.rowOf[k]].id == k {
      assert t.rowOf[k] != r;
    }
    forall k | 0 <= k < |s.rows| ensures s.rows[k].id in s.rowOf && s.rowOf[s.rows[k].id] == k {
      var j := if k < r then k else k + 1;
      assert s.rows[k] == t.rows[j] && t.rowOf[t.rows[j].id] == j;
    }
  }

  function Run(pushes: seq<OrderInfo>): (t: Table)
    ensures Indexed(t)
  {
    if pushes == [] then Table([], map[])
    else
      NextIndexed(Run(pushes[..|pushes| - 1]), pushes[|pushes| - 1]);
      Next(Run(pushes[..|pushes| - 1]), pushes[|pushes| - 1])
  }

  /** The last push of each order. */
  function LatestPush(pushes: seq<OrderInfo>): (m: map<OrderId, OrderInfo>)
    ensures forall id :: id in m ==> m[id].id == id
  {
    if pushes == [] then map[]
    else LatestPush(pushes[..|pushes| - 1])[pushes[|pushes| - 1].id := pushes[|pushes| - 1]]
  }

  /** After any pushes, the table shows the latest version of exactly those orders whose
      latest push is active, each in the row its id maps to. */
  lemma {:induction false} TableShowsActiveOrders(pushes: seq<OrderInfo>)
    ensures var t, m := Run(pushes), LatestPush(pushes);
            && Indexed(t)
            && (forall id :: id in t.rowOf <==> id in m && IsActive(m[id]))
            && (forall id :: id in t.rowOf ==> t.rows[t.rowOf[id]] == m[id])
  {
    if pushes != [] {
      var n := |pushes| - 1;
      TableShowsActiveOrders(pushes[..n]);
      NextShows(Run(pushes[..n]), LatestPush(pushes[..n]), pushes[n]);
    }
  }

  ghost predicate Shows(t: Table, m: map<OrderId, OrderInfo>)
    requires Indexed(t)
  {
    && (forall id :: id in t.rowOf <==> id in m && IsActive(m[id]))
    && (forall id :: id in t.rowOf ==> t.rows[t.rowOf[id]] == m[id])
  }

  lemma {:induction false} RemovalShows(t: Table, m: map<OrderId, OrderInfo>, o: OrderInfo)
    requires Indexed(t) && Shows(t, m) && !IsActive(o) && o.id in t.rowOf
    ensures Indexed(Next(t, o)) && Shows(Next(t, o), m[o.id := o])
  {
    hide IsActive;
    NextIndexed(t, o);
    var s, r := Next(t, o), t.rowOf[o.id];
    forall id | id in s.rowOf ensures s.rows[s.rowOf[id]] == m[id] {
      assert t.rows[t.rowOf[id]].id == id && t.rows[r].id == o.id;
    }
  }

  lemma {:induction false} NextShows(t: Table, m: map<OrderId, OrderInfo>, o: OrderInfo)
    requires Indexed(t) && Shows(t, m)
    ensures Indexed(Next(t, o)) && Shows(Next(t, o), m[o.id := o])
  {
    NextIndexed(t, o);
    if !IsActive(o) && o.id in t.rowOf {
      RemovalShows(t, m, o);
    }
  }

  /** The push since which an order has been active without a break. */
  function Since(pushes: seq<OrderInfo>, id: OrderId): (n: nat)
    ensures pushes != [] ==> n < |pushes|
  {
    if pushes == [] then 0
    else
      var n, o := |pushes| - 1, pushes[|pushes| - 1];
      if o.id == id && IsActive(o) && id !in Run(pushes[..n]).rowOf then n
      else if n == 0 then 0 else Since(pushes[..n], id)
  }

  /** The rows stand in the order in which their orders became active, whatever was removed
      from between them. */
  predicate InOrder(rows: seq<OrderInfo>, pushes: seq<OrderInfo>) {
    forall i, j :: 0 <= i < j < |rows| ==> Since(pushes, rows[i].id) < Since(pushes, rows[j].id)
  }

  lemma {:induction false} RowsInOrder(pushes: seq<OrderInfo>)
    ensures InOrder(Run(pushes).rows, pushes)
  {
    if pushes != [] {
      var n := |pushes| - 1;
      var t, o := Run(pushes[..n]), pushes[n];
      RowsInOrder(pushes[..n]);
      forall id | id in t.rowOf ensures Since(pushes, id) == Since(pushes[..n], id) && n > 0 {
      }
      hide Run, Since;
      RowsStay(t, o, pushes);
    }
  }

  lemma {:induction false} RowsStay(t: Table, o: OrderInfo, pushes: seq<OrderInfo>)
    requires Indexed(t) && pushes != [] && o == pushes[|pushes| - 1] && t == Run(pushes[..|pushes| - 1])
    requires InOrder(t.rows, pushes[..|pushes| - 1])
    requires forall id :: id in t.rowOf ==> Since(pushes, id) == Since(pushes[..|pushes| - 1], id) && |pushes| > 1
    ensures InOrder(Next(t, o).rows, pushes)
  {
    var n := |pushes| - 1;
    assert IsActive(o) && o.id !in t.rowOf ==> Since(pushes, o.id) == n;
    hide Run, Since, IsActive;
    forall i | 0 <= i < |t.rows| ensures Since(pushes, t.rows[i].id) == Since(pushes[..n], t.rows[i].id) < n {
      assert t.rows[i].id in t.rowOf;
    }
    RowsKeepOrder(t, o, (id: OrderId) => Since(pushes, id));
  }

  /** One push keeps the rows in the order of any ranking that puts a new order last. */
  lemma {:induction false} RowsKeepOrder(t: Table, o: OrderInfo, rank: OrderId -> int)
    requires Indexed(t)
    requires forall i, j :: 0 <= i < j < |t.rows| ==> rank(t.rows[i].id) < rank(t.rows[j].id)
    requires IsActive(o) && o.id !in t.rowOf ==> forall i :: 0 <= i < |t.rows| ==> rank(t.rows[i].id) < rank(o.id)
    ensures var rows := Next(t, o).rows; forall i, j :: 0 <= i < j < |rows| ==> rank(rows[i].id) < rank(rows[j].id)
  {
    hide IsActive;
    var rows := Next(t, o).rows;
    if IsActive(o) {
    } else if o.id in t.rowOf {
      var r := t.rowOf[o.id];
      forall i, j | 0 <= i < j < |rows| ensures rank(rows[i].id) < rank(rows[j].id) {
        assert rows[i] == t.rows[if i < r then i else i + 1] && rows[j] == t.rows[if j < r then j else j + 1];
      }
    }
  }

  /** The client and the rest of the system agree on whether an order is live exactly when
      it has volume left and neither of the two final statuses the client takes for live,
      or has none left and a final status. */
  lemma {:induction false} AgreesWithFinalExactly(o: OrderInfo)
    ensures (IsActive(o) <==> !IsFinal(o.status)) <==>
              if o.volumeLeft > 0 then !(o.status.PartialFilledNotActive? || o.status.Lost?) else IsFinal(o.status)
  {
  }

  class LeftBottomTabs {
    var activeTable: seq<OrderInfo>
    var activeRowMap: map<OrderId, int>

    ghost function View(): Table
      reads this
    {
      Table(activeTable, activeRowMap)
    }

    constructor ()
      ensures View() == Run([])
    {
      activeTable, activeRowMap := [], map[];
    }

    /** The loop that decrements the row numbers above the removed row. */
    method Renumber(removed: int)
      modifies this`activeRowMap
      ensures activeRowMap == Renumbered(old(activeRowMap), removed)
    {
      var todo := activeRowMap.Keys;
      while todo != {}
        invariant todo <= activeRowMap.Keys == old(activeRowMap).Keys
        invariant forall id :: id in todo ==> activeRowMap[id] == old(activeRowMap)[id]
        invariant forall id :: id in activeRowMap && id !in todo ==>
                    activeRowMap[id] == Renumbered(old(activeRowMap), removed)[id]
        decreases todo
      {
        var id :| id in todo;
        todo := todo - {id};
        if activeRowMap[id] > removed {
          activeRowMap := activeRowMap[id := activeRowMap[id] - 1];
        }
      }
    }

    method OnOrderReceived(o: OrderInfo)
      requires Indexed(View())
      modifies this
      ensures Indexed(View()) && View() == Next(old(View()), o)
    {
      NextIndexed(View(), o);
      if IsActive(o) {
        var row := |activeTable|;
        if o.id in activeRowMap {
          row := activeRowMap[o.id];
        } else {
          activeTable := activeTable + [o];
          activeRowMap := activeRowMap[o.id := row];
        }
        activeTable := activeTable[row := o];
      } else if o.id in activeRowMap {
        var row := activeRowMap[o.id];
        activeTable := activeTable[..row] + activeTable[row + 1..];
        activeRowMap := activeRowMap - {o.id};
        Renumber(row);
      }
    }
  }
}
