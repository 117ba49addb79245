/** The CTP market-data service with the deferred list it inherits. Every method is one
    event of `MdFeed`, applied in place. */
module MarketDataCtpService {
  import opened MdFeed

  class MarketDataCtp {
    var instrumentsToSubscribe: seq<InstrumentKey>
    var subscribed: set<string>
    var pendingSubscribes: seq<string>
    var loggedIn: bool
    /** What the front's current login session has been asked for and accepted. */
    var front: set<string>

    constructor ()
      ensures View() == START
    {
      instrumentsToSubscribe, subscribed, pendingSubscribes, loggedIn, front := [], {}, [], false, {};
    }

    ghost function View(): Feed
      reads this
    {
      Feed(instrumentsToSubscribe, subscribed, pendingSubscribes, loggedIn, front)
    }

    method AddInstrumentKey(k: InstrumentKey)
      modifies this
      ensures View() == Next(old(View()), Add(k))
    {
      instrumentsToSubscribe := instrumentsToSubscribe + [k];
    }

    /** One call to the front for a batch of ids. */
    method DoSubscribe(ids: seq<string>, accepted: bool) returns (ok: bool)
      modifies this`front
      ensures ok == accepted && front == if accepted then old(front) + Elements(ids) else old(front)
    {
      if !accepted {
        return false;
      }
      front := front + Elements(ids);
      return true;
    }

    method Subscribe(keys: seq<InstrumentKey>, accepted: bool) returns (ok: bool)
      modifies this
      ensures View() == SubscribeNext(old(View()), keys, accepted)
    {
      var ids: seq<string> := [];
      var i := 0;
      while i < |keys|
        invariant 0 <= i <= |keys|
        invariant ids == Inserted(old(subscribed), keys[..i])
        invariant subscribed == old(subscribed) + Elements(ids)
        invariant View() == old(View()).(subscribed := subscribed)
      {
        var id := keys[i].id;
        assert keys[..i + 1][..i] == keys[..i];
        assert id in ids <==> id in Elements(ids);
        if id != "" && id !in subscribed {
          subscribed := subscribed + {id};
          ElementsAppend(ids, [id]);
          ids := ids + [id];
        }
        i := i + 1;
      }
      assert keys[..|keys|] == keys;
      if ids == [] {
        return true;
      }
      if !loggedIn {
        pendingSubscribes := pendingSubscribes + ids;
        return true;
      }
      ok := DoSubscribe(ids, accepted);
    }

    method TrySubscribe(accepted: bool)
      modifies this
      ensures View() == Next(old(View()), Tick(accepted))
    {
      if instrumentsToSubscribe != [] {
        var _ := Subscribe(instrumentsToSubscribe, accepted);
      }
      instrumentsToSubscribe := [];
    }

    /** Drops every named id from the subscribed set and the queue, then makes one call to
        the front for all of them. */
    method Unsubscribe(keys: seq<InstrumentKey>, accepted: bool) returns (ok: bool)
      modifies this
      ensures View() == UnsubscribeNext(old(View()), keys, accepted)
    {
      hide Without, Ids;
      var ids: seq<string> := [];
      WithoutNothing(pendingSubscribes);
      var i := 0;
      while i < |keys|
        invariant 0 <= i <= |keys|
        invariant subscribed == old(subscribed) - Ids(keys[..i])
        invariant pendingSubscribes == Without(old(pendingSubscribes), Ids(keys[..i]))
        invariant Elements(ids) == if loggedIn then Ids(keys[..i]) else {}
        invariant View() == old(View()).(subscribed := subscribed, pending := pendingSubscribes)
      {
        var id := keys[i].id;
        assert keys[..i + 1] == keys[..i] + [keys[i]];
        IdsAppend(keys[..i], keys[i]);
        assert Ids(keys[..i + 1]) == Ids(keys[..i]) + if id == "" then {} else {id};
        assert id == "" ==> Ids(keys[..i + 1]) == Ids(keys[..i]);
        if id != "" {
          subscribed := subscribed - {id};
          WithoutBoth(old(pendingSubscribes), Ids(keys[..i]), {id});
          pendingSubscribes := Without(pendingSubscribes, {id});
          if loggedIn {
            ElementsAppend(ids, [id]);
            ids := ids + [id];
          }
        }
        i := i + 1;
      }
      assert keys[..|keys|] == keys;
      if ids == [] {
        return true;
      }
      assert ids[0] in Elements(ids);
      if !accepted {
        return false;
      }
      front := front - Elements(ids);
      return true;
    }

    /** Drops the key from the deferred list first, so the next tick cannot revive it. */
    method UnsubscribeKey(k: InstrumentKey, accepted: bool) returns (ok: bool)
      modifies this
      ensures View() == Next(old(View()), Drop(k, accepted))
    {
      instrumentsToSubscribe := DropKey(instrumentsToSubscribe, k.key);
      ok := Unsubscribe([k], accepted);
    }

    /** Flushes the queue, or, when it is empty, asks for everything again. */
    method OnLoginSuccess(accepted: bool)
      modifies this
      ensures View() == Next(old(View()), Login(accepted))
    {
      loggedIn := true;
      front := {};
      if pendingSubscribes != [] {
        var _ := DoSubscribe(pendingSubscribes, accepted);
        pendingSubscribes := [];
      } else if subscribed != {} {
        var all := Listed(subscribed);
        var _ := DoSubscribe(all, accepted);
      }
    }

    method OnLoginFailed()
      modifies this
      ensures View() == Next(old(View()), LoginFailed)
    {
      loggedIn := false;
    }

    method OnFrontDisconnected()
      modifies this
      ensures View() == Next(old(View()), FrontLost)
    {
      loggedIn := false;
    }
  }

  lemma {:induction false} WithoutNothing(s: seq<string>)
    ensures Ids([]) == {} && Without(s, {}) == s
  {
    if s != [] { WithoutNothing(s[1..]); }
  }

  lemma {:induction false} WithoutBoth(s: seq<string>, a: set<string>, b: set<string>)
    ensures Without(Without(s, a), b) == Without(s, a + b)
  {
    if s != [] { WithoutBoth(s[1..], a, b); }
  }

  /** The elements of a set in some order. */
  method Listed(s: set<string>) returns (r: seq<string>)
    ensures Elements(r) == s && NoRepeats(r)
  {
    var todo := s;
    r := [];
    while todo != {}
      invariant todo <= s && Elements(r) == s - todo && NoRepeats(r)
      decreases todo
    {
      var x :| x in todo;
      todo := todo - {x};
      ElementsAppend(r, [x]);
      r := r + [x];
    }
  }
}
