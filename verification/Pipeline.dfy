/** The subscription path end to end: what the sessions of the API service hold, the
    frames it writes to one source, and what that source subscribes to. */
module Pipeline {
  import S = Subscriptions
  import M = MdFeed

  /** The instrument a key stands for. */
  type Naming = S.Key -> M.InstrumentKey

  /** Keys keep their number, name instruments one to one, and never name nothing. */
  ghost predicate Sound(name: Naming) {
    && (forall k :: name(k).key == k && name(k).id != "")
    && (forall j, k :: name(j).id == name(k).id ==> j == k)
  }

  /** A command whatever the front answers to it. */
  function Plain(e: M.Event): M.Event {
    if e.Drop? then M.Drop(e.k, true) else e
  }

  /** The command a frame to source `md` makes there. */
  function Commands(sent: seq<(S.Md, S.Frame)>, md: S.Md, name: Naming): seq<M.Event> {
    if sent == [] then []
    else
      var before, (to, f) := Commands(sent[..|sent| - 1], md, name), sent[|sent| - 1];
      if to != md then before
      else before + [match f
                     case Subscribe(k) => M.Add(name(k))
                     case Unsubscribe(k) => M.Drop(name(k), true)]
  }

  /** The commands among a source's events, its timers and logins left out, and whatever
      the front answered. */
  function Handled(events: seq<M.Event>): seq<M.Event> {
    if events == [] then []
    else
      var before, e := Handled(events[..|events| - 1]), events[|events| - 1];
      if e.Add? || e.Drop? then before + [Plain(e)] else before
  }

  function Named(keys: set<S.Key>, name: Naming): set<string> {
    set k | k in keys :: name(k).id
  }

  lemma {:induction false} ImmediateOfHandled(events: seq<M.Event>)
    ensures M.Immediate(events) == M.Immediate(Handled(events))
  {
    if events != [] {
      var n := |events| - 1;
      ImmediateOfHandled(events[..n]);
      if events[n].Add? || events[n].Drop? {
        assert Handled(events)[..|Handled(events)| - 1] == Handled(events[..n]);
      }
    }
  }

  lemma {:induction false} ImmediateOfCommands(sent: seq<(S.Md, S.Frame)>, md: S.Md, name: Naming)
    requires Sound(name)
    ensures M.Immediate(Commands(sent, md, name)) == Named(S.Net(sent, md), name)
  {
    if sent != [] {
      var n := |sent| - 1;
      var before := S.Net(sent[..n], md);
      ImmediateOfCommands(sent[..n], md, name);
      var (to, f) := sent[n];
      if to == md {
        var all := Commands(sent, md, name);
        assert all[..|all| - 1] == Commands(sent[..n], md, name);
        match f {
          case Subscribe(k) => NamedAdd(before, k, name);
          case Unsubscribe(k) => NamedRemove(before, k, name);
        }
      }
    }
  }

  lemma {:induction false} NamedAdd(keys: set<S.Key>, k: S.Key, name: Naming)
    ensures Named(keys + {k}, name) == Named(keys, name) + {name(k).id}
  {
    assert name(k).id in Named(keys + {k}, name);
    forall j | j in keys ensures name(j).id in Named(keys + {k}, name) {
      assert j in keys + {k};
    }
  }

  lemma {:induction false} NamedRemove(keys: set<S.Key>, k: S.Key, name: Naming)
    requires Sound(name)
    ensures Named(keys - {k}, name) == Named(keys, name) - {name(k).id}
  {
    forall x | x in Named(keys, name) - {name(k).id} ensures x in Named(keys - {k}, name) {
      var j :| j in keys && name(j).id == x;
      assert j in keys - {k};
    }
  }

  lemma {:induction false} CommandsCoherent(sent: seq<(S.Md, S.Frame)>, md: S.Md, name: Naming, i: nat)
    requires i < |Commands(sent, md, name)|
    ensures var e := Commands(sent, md, name)[i]; (e.Add? || e.Drop?) && exists k :: e.k == name(k)
  {
    var n := |sent| - 1;
    if i < |Commands(sent[..n], md, name)| {
      CommandsCoherent(sent[..n], md, name, i);
    } else {
      assert Commands(sent, md, name)[i].k == name(sent[n].1.key);
    }
  }

  lemma {:induction false} HandledHolds(events: seq<M.Event>, i: nat)
    requires i < |events| && (events[i].Add? || events[i].Drop?)
    ensures exists j :: 0 <= j < |Handled(events)| && Handled(events)[j] == Plain(events[i])
  {
    var n := |events| - 1;
    var h := Handled(events);
    if i == n {
      assert h[|h| - 1] == Plain(events[i]);
    } else {
      HandledHolds(events[..n], i);
      var j :| 0 <= j < |Handled(events[..n])| && Handled(events[..n])[j] == Plain(events[..n][i]);
      assert h[j] == Plain(events[i]);
    }
  }

  lemma {:induction false} EventsCoherent(events: seq<M.Event>, sent: seq<(S.Md, S.Frame)>, md: S.Md, name: Naming)
    requires Sound(name) && Handled(events) == Commands(sent, md, name)
    ensures M.Coherent(events)
  {
    forall i | 0 <= i < |events| && (events[i].Add? || events[i].Drop?) ensures exists k :: events[i].k == name(k) {
      HandledHolds(events, i);
      var j :| 0 <= j < |Handled(events)| && Handled(events)[j] == Plain(events[i]);
      CommandsCoherent(sent, md, name, j);
    }
    forall i, j | 0 <= i < |events| && 0 <= j < |events|
                  && (events[i].Add? || events[i].Drop?) && (events[j].Add? || events[j].Drop?)
      ensures events[i].k.key == events[j].k.key <==> events[i].k.id == events[j].k.id
    {
      var a :| events[i].k == name(a);
      var b :| events[j].k == name(b);
    }
  }

  /** End to end: once a source has handled every frame written to it, at whatever
      moments its timer and its logins fell between them, the instruments it has
      subscribed or deferred are exactly those that some session holds for it. */
  lemma {:induction false} SourceHoldsWhatSessionsHold(
      states: seq<S.State>, steps: seq<S.Event>, source: S.Key -> S.Md, md: S.Md, name: Naming, events: seq<M.Event>)
    requires S.Run(states, steps) && S.OneSource(steps, source) && S.AlwaysWritable(states, steps)
    requires Sound(name) && Handled(events) == Commands(states[|steps|].sent, md, name)
    ensures forall k :: source(k) == md && S.Needed(states[|steps|].sessions, k)
                        <==> k in S.Net(states[|steps|].sent, md)
    ensures var f := M.Run(events);
            f.subscribed + M.Ids(f.deferred) == Named(S.Net(states[|steps|].sent, md), name)
  {
    var s := states[|steps|];
    S.SourcesFollowSessions(states, steps, source);
    EventsCoherent(events, s.sent, md, name);
    M.DeferralInvisible(events);
    ImmediateOfHandled(events);
    ImmediateOfCommands(s.sent, md, name);
    forall k ensures source(k) == md && S.Needed(s.sessions, k) <==> k in S.Net(s.sent, md) {
      assert S.Exact(s, source);
      assert S.Wanted(s, source, md, k) <==> k in S.Net(s.sent, md);
    }
  }

  /** And when the timer has run and every event kept the front in step, it serves exactly
      those instruments. */
  lemma {:induction false} FrontServesWhatSessionsHold(
      states: seq<S.State>, steps: seq<S.Event>, source: S.Key -> S.Md, md: S.Md, name: Naming, events: seq<M.Event>)
    requires S.Run(states, steps) && S.OneSource(steps, source) && S.AlwaysWritable(states, steps)
    requires Sound(name) && Handled(events) == Commands(states[|steps|].sent, md, name)
    requires M.AllKeepStep(events)
    requires M.Run(events).loggedIn && M.Run(events).deferred == []
    ensures forall k :: name(k).id in M.Run(events).front <==>
                          source(k) == md && S.Needed(states[|steps|].sessions, k)
  {
    SourceHoldsWhatSessionsHold(states, steps, source, md, name, events);
    M.StaysInStep(events, |events|);
    assert events[..|events|] == events;
    var keys := S.Net(states[|steps|].sent, md);
    forall k ensures name(k).id in Named(keys, name) <==> k in keys {
      if name(k).id in Named(keys, name) {
        var j :| j in keys && name(j).id == name(k).id;
      }
    }
  }
}
