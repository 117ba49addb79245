/** The API service's session table, updated in place by each handler. */
module SubscriptionService {
  import opened Subscriptions

  class ApiService {
    var sessions: map<SessionId, Session>
    var sent: seq<(Md, Frame)>

    constructor ()
      ensures View() == State(map[], [])
    {
      sessions, sent := map[], [];
    }

    ghost function View(): State
      reads this
    {
      State(sessions, sent)
    }

    /** The scan for another holder of the key, in whatever order the table lists. */
    method AnyHolder(key: Key, except: set<SessionId>) returns (found: bool)
      ensures found == NeededBy(sessions, key, except)
    {
      found := false;
      var todo := sessions.Keys;
      while todo != {}
        invariant todo <= sessions.Keys && !found
        invariant forall id :: id in sessions && id !in todo && id !in except ==> key !in sessions[id].subscribed
        decreases todo
      {
        var id :| id in todo;
        if id !in except && key in sessions[id].subscribed {
          return true;
        }
        todo := todo - {id};
      }
    }

    method Accept(id: SessionId)
      modifies this
      ensures Step(old(View()), Connect(id), View())
    {
      sessions := sessions[id := At(sessions, id)];
    }

    /** Refused without a trace for an unknown location, a source without a writer, or a
        missing instrument or exchange name. */
    method HandleRequestMarketData(id: SessionId, md: Md, key: Key, located: bool, writable: bool, named: bool)
      returns (ok: bool)
      modifies this
      ensures ok == (located && writable && named)
      ensures Step(old(View()), Request(id, md, key, ok), View())
    {
      if !located || !writable || !named {
        return false;
      }
      var held := AnyHolder(key, {});
      if !held {
        sent := sent + [(md, Subscribe(key))];
      }
      var session := At(sessions, id);
      session := session.(subscribed := session.subscribed + {key});
      session := session.(mdKeys := session.mdKeys[md := KeysAt(session, md) + {key}]);
      sessions := sessions[id := session];
      return true;
    }

    method HandleCancelMarketData(id: SessionId, md: Md, key: Key, located: bool, writable: bool) returns (ok: bool)
      modifies this
      ensures ok == located
      ensures Step(old(View()), Cancel(id, md, key, located, writable), View())
    {
      if !located {
        return false;
      }
      var session := At(sessions, id);
      session := session.(subscribed := session.subscribed - {key});
      if md in session.mdKeys {
        var keys := session.mdKeys[md] - {key};
        session := session.(mdKeys := if keys == {} then session.mdKeys - {md} else session.mdKeys[md := keys]);
      }
      sessions := sessions[id := session];
      var others := AnyHolder(key, {id});
      assert others == NeededBy(old(sessions), key, {id}) by {
        OthersUnchanged(old(sessions), id, session, key);
      }
      if !others && writable {
        sent := sent + [(md, Unsubscribe(key))];
      }
      return true;
    }

    /** Unsubscribes one source from those of `keys` that nobody holds any more. */
    method ReleaseSource(md: Md, keys: set<Key>)
      modifies this`sent
      ensures old(sent) <= sent
      ensures Unsubscribes(sent[|old(sent)|..], set k | k in keys && !Needed(sessions, k) :: (md, k))
    {
      var todo := keys;
      ghost var done: set<Key> := {};
      ghost var frames: seq<(Md, Frame)> := [];
      assert sent == old(sent) + frames;
      while todo != {}
        invariant todo + done == keys && todo !! done && sent == old(sent) + frames
        invariant Unsubscribes(frames, set k | k in done && !Needed(sessions, k) :: (md, k))
        decreases todo
      {
        var key :| key in todo;
        var others := AnyHolder(key, {});
        ghost var pairs := set k | k in done && !Needed(sessions, k) :: (md, k);
        ghost var pairs' := set k | k in done + {key} && !Needed(sessions, k) :: (md, k);
        todo, done := todo - {key}, done + {key};
        if !others {
          UnsubscribesNext(frames, pairs, md, key);
          assert pairs' == pairs + {(md, key)};
          frames := frames + [(md, Unsubscribe(key))];
          sent := sent + [(md, Unsubscribe(key))];
        } else {
          assert pairs' == pairs;
        }
      }
      assert done == keys && sent[|old(sent)|..] == frames;
    }

    /** Drops the session, then releases its keys source by source. */
    method CleanupSession(id: SessionId, writers: set<Md>)
      modifies this
      ensures Step(old(View()), Disconnect(id, writers), View())
    {
      hide Unsubscribes, NeededBy, ReleasedOf, ToRelease;
      if id !in sessions {
        return;
      }
      var held := sessions[id].mdKeys;
      ghost var before, all := sessions, sent;
      sessions := sessions - {id};
      forall k ensures Needed(sessions, k) == NeededBy(before, k, {id}) {
        NeededAfter(before, id, NO_SUBSCRIPTIONS, k);
      }
      var todo := held.Keys;
      ghost var frames: seq<(Md, Frame)> := [];
      UnsubscribesNone();
      ReleasedNone(before, id, writers);
      assert sent == all + frames && held.Keys - todo == {};
      while todo != {}
        invariant todo <= held.Keys && sessions == before - {id} && sent == all + frames
        invariant Unsubscribes(frames, ReleasedOf(before, id, writers, held.Keys - todo))
        decreases todo
      {
        var md :| md in todo;
        ghost var done := held.Keys - todo;
        todo := todo - {md};
        assert held.Keys - todo == done + {md};
        ghost var was := sent;
        ghost var mine := set k | k in held[md] && !Needed(sessions, k) :: (md, k);
        assert mine == set k | k in held[md] && !NeededBy(before, k, {id}) :: (md, k);
        ReleasedNext(before, id, writers, done, md, mine);
        if md in writers {
          ReleaseSource(md, held[md]);
          assert sent == was + sent[|was|..];
          UnsubscribesBoth(frames, ReleasedOf(before, id, writers, done), sent[|was|..], mine);
          frames := frames + sent[|was|..];
          assert sent == all + frames;
        }
      }
      assert held.Keys - todo == held.Keys;
      ReleasedAll(before, id, writers);
      assert sent[|all|..] == frames;
    }
  }

  /** What has to be released at some of the sources. */
  ghost function ReleasedOf(sessions: map<SessionId, Session>, id: SessionId, writers: set<Md>, mds: set<Md>): set<(Md, Key)>
    requires id in sessions && mds <= sessions[id].mdKeys.Keys
  {
    set md, k | md in mds && k in sessions[id].mdKeys[md] && md in writers && !NeededBy(sessions, k, {id}) :: (md, k)
  }

  lemma {:induction false} ReleasedNone(sessions: map<SessionId, Session>, id: SessionId, writers: set<Md>)
    requires id in sessions
    ensures ReleasedOf(sessions, id, writers, {}) == {}
  {
  }

  lemma {:induction false} ReleasedAll(sessions: map<SessionId, Session>, id: SessionId, writers: set<Md>)
    requires id in sessions
    ensures ReleasedOf(sessions, id, writers, sessions[id].mdKeys.Keys) == ToRelease(sessions, id, writers)
  {
  }

  lemma {:induction false} ReleasedNext(sessions: map<SessionId, Session>, id: SessionId, writers: set<Md>,
                                        done: set<Md>, md: Md, mine: set<(Md, Key)>)
    requires id in sessions && done <= sessions[id].mdKeys.Keys && md in sessions[id].mdKeys && md !in done
    requires mine == set k | k in sessions[id].mdKeys[md] && !NeededBy(sessions, k, {id}) :: (md, k)
    ensures var before := ReleasedOf(sessions, id, writers, done);
            && before !! mine
            && ReleasedOf(sessions, id, writers, done + {md}) == if md in writers then before + mine else before
  {
    hide NeededBy;
  }

  lemma {:induction false} UnsubscribesNone()
    ensures Unsubscribes([], {})
  {
  }

  lemma {:induction false} UnsubscribesNext(frames: seq<(Md, Frame)>, pairs: set<(Md, Key)>, md: Md, k: Key)
    requires Unsubscribes(frames, pairs) && (md, k) !in pairs
    ensures Unsubscribes(frames + [(md, Unsubscribe(k))], pairs + {(md, k)})
  {
    assert (md, Unsubscribe(k)) in frames + [(md, Unsubscribe(k))];
  }

  lemma {:induction false} UnsubscribesBoth(a: seq<(Md, Frame)>, p: set<(Md, Key)>, b: seq<(Md, Frame)>, q: set<(Md, Key)>)
    requires Unsubscribes(a, p) && Unsubscribes(b, q) && p !! q
    ensures Unsubscribes(a + b, p + q)
  {
    var c := a + b;
    forall i, j | 0 <= i < j < |c| ensures c[i] != c[j] {
      if i < |a| <= j {
        assert (c[i].0, c[i].1.key) in p && (c[j].0, c[j].1.key) in q;
      }
    }
  }

  lemma {:induction false} OthersUnchanged(sessions: map<SessionId, Session>, id: SessionId, t: Session, key: Key)
    ensures NeededBy(sessions[id := t], key, {id}) == NeededBy(sessions, key, {id})
  {
    var after := sessions[id := t];
    if NeededBy(sessions, key, {id}) {
      var o :| o in sessions && o !in {id} && key in sessions[o].subscribed;
      assert o in after && key in after[o].subscribed;
    }
    if NeededBy(after, key, {id}) {
      var o :| o in after && o !in {id} && key in after[o].subscribed;
      assert o in sessions && key in sessions[o].subscribed;
    }
  }
}
