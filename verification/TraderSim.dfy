/** The simulated trader as the object it is. */
module TraderSimService {
  import opened Integers
  import opened OrderStatuses
  import opened SimTrading

  class TraderSim {
    const matchMode: MatchMode
    var orders: map<OrderId, Order>
    var frames: seq<Frame>

    constructor (mode: MatchMode)
      ensures matchMode == mode && View() == START
    {
      matchMode := mode;
      orders, frames := map[], [];
    }

    ghost function View(): Sim
      reads this
    {
      Sim(orders, frames)
    }

    /** An order that fails a check is written as an error and not kept; any other is
        written, kept, and followed by its trades. */
    method InsertOrder(i: Input, blocks: set<nat>) returns (ok: bool)
      modifies this
      ensures ok == (Acceptable(i) && !BlockMissing(i, blocks))
      ensures View() == InsertNext(old(View()), matchMode, i, blocks)
    {
      var order := Order(i.id, i.price, i.volume, i.volume, Pending);
      var minVol := MinVolume(i.kind);
      if (i.kind.Repo? && i.buy) || i.volume < minVol {
        order := order.(status := Error);
        frames := frames + [OrderFrame(order)];
        return false;
      }
      var traded := 0;
      match matchMode {
        case Reject =>
          order := order.(status := Error);
        case Pend =>
          order := order.(status := Pending);
        case Cancel =>
          order := order.(status := Cancelled);
        case PartialFillAndCancel =>
          traded := minVol;
          order := order.(status := if traded == order.volume then Filled else PartialFilledNotActive);
        case PartialFill =>
          traded := minVol;
          order := order.(status := if traded == order.volume then Filled else PartialFilledActive);
        case Fill =>
          traded := i.volume;
          order := order.(status := Filled);
        case Multiple =>
          traded := i.volume;
          order := order.(status := Filled);
      }
      order := order.(volumeLeft := order.volume - traded);
      assert order == OrderFor(matchMode, i);
      if i.block != 0 && i.block !in blocks {
        frames := frames + [OrderFrame(order.(status := Error))];
        return false;
      }
      frames := frames + [OrderFrame(order)];
      orders := orders[order.id := order];
      WriteTrades(i, minVol, traded);
      return true;
    }

    /** One trade, or one per slice in `Multiple` mode. */
    method WriteTrades(i: Input, minVol: int, traded: int)
      requires minVol == MinVolume(i.kind) && traded == VolumeTraded(matchMode, i)
      modifies this`frames
      ensures frames == old(frames) + TradesFor(matchMode, i)
    {
      if traded > 0 && !matchMode.Multiple? {
        frames := frames + [TradeFrame(Trade(i.id, i.price, traded))];
      } else if traded > 0 {
        var remaining := traded;
        while remaining > 0
          invariant frames + Slices(i, minVol, remaining) == old(frames) + Slices(i, minVol, traded)
          decreases remaining
        {
          var volume := Min(minVol, remaining);
          ghost var rest := Slices(i, minVol, remaining - volume);
          assert frames + ([TradeFrame(Trade(i.id, i.price, volume))] + rest)
              == (frames + [TradeFrame(Trade(i.id, i.price, volume))]) + rest;
          frames := frames + [TradeFrame(Trade(i.id, i.price, volume))];
          remaining := remaining - volume;
        }
        assert frames + [] == frames;
      }
    }

    /** The order is forgotten; its cancellation is written if volume was left. */
    method CancelOrder(id: OrderId)
      modifies this
      ensures View() == CancelNext(old(View()), id)
    {
      if id !in orders {
        return;
      }
      var order := orders[id];
      orders := orders - {id};
      if order.volumeLeft == 0 {
        return;
      }
      if order.volume - order.volumeLeft == 0 {
        order := order.(status := Cancelled);
      } else {
        order := order.(status := PartialFilledNotActive);
      }
      frames := frames + [OrderFrame(order)];
    }
  }
}
