/** Market-data subscriptions of the API service: per-session key sets, and the
    subscribe and unsubscribe frames written to each market-data source. */
module Subscriptions {
  type Key = nat
  type Md = nat
  type SessionId = nat

  datatype Session = Session(subscribed: set<Key>, mdKeys: map<Md, set<Key>>)

  const NO_SUBSCRIPTIONS := Session({}, map[])

  datatype Frame = Subscribe(key: Key) | Unsubscribe(key: Key)

  /** The sessions, and every frame written so far with the source it went to. */
  datatype State = State(sessions: map<SessionId, Session>, sent: seq<(Md, Frame)>)

  /** The keys a source is left subscribed to by the frames it was sent. */
  function Net(sent: seq<(Md, Frame)>, md: Md): set<Key> {
    if sent == [] then {}
    else
      var before, (to, f) := Net(sent[..|sent| - 1], md), sent[|sent| - 1];
      if to != md then before
      else match f
        case Subscribe(k) => before + {k}
        case Unsubscribe(k) => before - {k}
  }

  lemma {:induction false} NetAppend(sent: seq<(Md, Frame)>, to: Md, f: Frame, md: Md)
    ensures Net(sent + [(to, f)], md) ==
            if to != md then Net(sent, md)
            else if f.Subscribe? then Net(sent, md) + {f.key} else Net(sent, md) - {f.key}
  {
    assert (sent + [(to, f)])[..|sent|] == sent;
  }

  /** Some session other than `except` holds the key. */
  predicate NeededBy(sessions: map<SessionId, Session>, key: Key, except: set<SessionId>) {
    exists id :: id in sessions && id !in except && key in sessions[id].subscribed
  }

  predicate Needed(sessions: map<SessionId, Session>, key: Key) {
    NeededBy(sessions, key, {})
  }

  /** `sessions_[id]` creates the session when it is absent. */
  function At(sessions: map<SessionId, Session>, id: SessionId): Session {
    if id in sessions then sessions[id] else NO_SUBSCRIPTIONS
  }

  function KeysAt(s: Session, md: Md): set<Key> {
    if md in s.mdKeys then s.mdKeys[md] else {}
  }

  function WithKey(s: Session, md: Md, key: Key): Session {
    Session(s.subscribed + {key}, s.mdKeys[md := KeysAt(s, md) + {key}])
  }

  function WithoutKey(s: Session, md: Md, key: Key): Session {
    var rest := KeysAt(s, md) - {key};
    Session(s.subscribed - {key},
            if md !in s.mdKeys then s.mdKeys else if rest == {} then s.mdKeys - {md} else s.mdKeys[md := rest])
  }

  function RequestNext(s: State, id: SessionId, md: Md, key: Key): State {
    State(s.sessions[id := WithKey(At(s.sessions, id), md, key)],
          if Needed(s.sessions, key) then s.sent else s.sent + [(md, Subscribe(key))])
  }

  function CancelNext(s: State, id: SessionId, md: Md, key: Key, writable: bool): State {
    State(s.sessions[id := WithoutKey(At(s.sessions, id), md, key)],
          if writable && !NeededBy(s.sessions, key, {id}) then s.sent + [(md, Unsubscribe(key))] else s.sent)
  }

  /** One unsubscribe frame for each pair, in some order, and nothing else. */
  ghost predicate Unsubscribes(frames: seq<(Md, Frame)>, pairs: set<(Md, Key)>) {
    && (forall i, j :: 0 <= i < j < |frames| ==> frames[i] != frames[j])
    && (forall i :: 0 <= i < |frames| ==> frames[i].1.Unsubscribe? && (frames[i].0, frames[i].1.key) in pairs)
    && (forall p :: p in pairs ==> (p.0, Unsubscribe(p.1)) in frames)
  }

  /** What a cleanup has to release: for every writable source, the keys the session held
      there that no other session holds. */
  ghost function ToRelease(sessions: map<SessionId, Session>, id: SessionId, writers: set<Md>): set<(Md, Key)>
    requires id in sessions
  {
    var held := sessions[id].mdKeys;
    set md, k | md in held && k in held[md] && md in writers && !NeededBy(sessions, k, {id}) :: (md, k)
  }

  /** A cleanup drops the session and writes one unsubscribe frame for each key to release. */
  ghost predicate Released(before: State, id: SessionId, writers: set<Md>, after: State) {
    && id in before.sessions && after.sessions == before.sessions - {id}
    && before.sent <= after.sent
    && Unsubscribes(after.sent[|before.sent|..], ToRelease(before.sessions, id, writers))
  }

  /** The keys some frames name for a source. */
  function KeysNamed(frames: seq<(Md, Frame)>, md: Md): set<Key> {
    set f | f in frames && f.0 == md :: f.1.key
  }

  lemma {:induction false} KeysNamedNext(frames: seq<(Md, Frame)>, f: (Md, Frame), md: Md)
    ensures KeysNamed([], md) == {}
    ensures KeysNamed(frames + [f], md) == KeysNamed(frames, md) + if f.0 == md then {f.1.key} else {}
  {
    forall k | k in KeysNamed(frames, md) + (if f.0 == md then {f.1.key} else {}) ensures k in KeysNamed(frames + [f], md) {
      if k in KeysNamed(frames, md) {
        var g :| g in frames && g.0 == md && g.1.key == k;
        assert g in frames + [f];
      } else {
        assert f in frames + [f];
      }
    }
  }

  lemma {:induction false} NetDrops(sent: seq<(Md, Frame)>, frames: seq<(Md, Frame)>, md: Md)
    requires forall i :: 0 <= i < |frames| ==> frames[i].1.Unsubscribe?
    ensures Net(sent + frames, md) == Net(sent, md) - KeysNamed(frames, md)
  {
    hide Net, KeysNamed;
    if frames == [] {
      assert sent + frames == sent;
      KeysNamedNext([], (md, Unsubscribe(0)), md);
    } else {
      var n := |frames| - 1;
      var f := frames[n];
      NetDrops(sent, frames[..n], md);
      assert sent + frames == (sent + frames[..n]) + [(f.0, f.1)];
      NetAppend(sent + frames[..n], f.0, f.1, md);
      assert frames == frames[..n] + [f];
      KeysNamedNext(frames[..n], f, md);
    }
  }

  /** So the sources lose exactly those keys. */
  lemma {:induction false} ReleasedNet(before: State, id: SessionId, writers: set<Md>, after: State, md: Md, k: Key)
    requires Released(before, id, writers, after)
    ensures k in Net(after.sent, md) <==>
              k in Net(before.sent, md)
              && !(k in KeysAt(before.sessions[id], md) && md in writers && !NeededBy(before.sessions, k, {id}))
  {
    hide Net;
    var frames := after.sent[|before.sent|..];
    assert after.sent == before.sent + frames;
    NetDrops(before.sent, frames, md);
    var pairs := ToRelease(before.sessions, id, writers);
    if (md, k) in pairs {
      assert (md, Unsubscribe(k)) in frames;
    }
    if f :| f in frames && f.0 == md && f.1.key == k {
      var i :| 0 <= i < |frames| && frames[i] == f;
      assert (md, k) in pairs;
    }
  }

  /** What the main loop processes. A request or cancel for an unknown location is
      refused before anything changes, as is a request to a source without a writer. */
  datatype Event =
    | Connect(id: SessionId)
    | Request(id: SessionId, md: Md, key: Key, accepted: bool)
    | Cancel(id: SessionId, md: Md, key: Key, known: bool, writable: bool)
    | Disconnect(id: SessionId, writers: set<Md>)

  ghost predicate Step(s: State, e: Event, s': State) {
    match e
    case Connect(id) => s' == State(s.sessions[id := At(s.sessions, id)], s.sent)
    case Request(id, md, key, accepted) => s' == if accepted then RequestNext(s, id, md, key) else s
    case Cancel(id, md, key, known, writable) => s' == if known then CancelNext(s, id, md, key, writable) else s
    case Disconnect(id, writers) => if id in s.sessions then Released(s, id, writers, s') else s' == s
  }

  ghost predicate Run(states: seq<State>, events: seq<Event>) {
    && |states| == |events| + 1
    && states[0] == State(map[], [])
    && forall i :: 0 <= i < |events| ==> Step(states[i], events[i], states[i + 1])
  }

  /** Each instrument is asked for from its one source only. */
  ghost predicate OneSource(events: seq<Event>, source: Key -> Md) {
    forall i :: 0 <= i < |events| ==>
      && (events[i].Request? ==> events[i].md == source(events[i].key))
      && (events[i].Cancel? ==> events[i].md == source(events[i].key))
  }

  /** No frame is withheld for want of a writer. */
  ghost predicate AlwaysWritable(states: seq<State>, events: seq<Event>)
    requires |states| == |events| + 1
  {
    forall i :: 0 <= i < |events| ==>
      && (events[i].Cancel? ==> events[i].writable)
      && (events[i].Disconnect? && events[i].id in states[i].sessions ==>
            states[i].sessions[events[i].id].mdKeys.Keys <= events[i].writers)
  }

  /** Both books of a session list the same keys, each under its source. */
  ghost predicate Agrees(s: Session, source: Key -> Md) {
    && (forall k :: k in s.subscribed ==> source(k) in s.mdKeys && k in s.mdKeys[source(k)])
    && (forall md, k :: md in s.mdKeys && k in s.mdKeys[md] ==> k in s.subscribed && source(k) == md)
  }

  ghost predicate AllAgree(s: State, source: Key -> Md) {
    forall id :: id in s.sessions ==> Agrees(s.sessions[id], source)
  }

  /** The keys of `md` that some session holds. */
  ghost predicate Wanted(s: State, source: Key -> Md, md: Md, key: Key) {
    source(key) == md && Needed(s.sessions, key)
  }

  /** No source lacks a key some session holds. */
  ghost predicate NothingMissing(s: State, source: Key -> Md) {
    forall md, key :: Wanted(s, source, md, key) ==> key in Net(s.sent, md)
  }

  /** Each source is subscribed to exactly the keys some session holds. */
  ghost predicate Exact(s: State, source: Key -> Md) {
    forall md, key :: Wanted(s, source, md, key) <==> key in Net(s.sent, md)
  }

  ghost predicate Proper(e: Event, source: Key -> Md) {
    (e.Request? ==> e.md == source(e.key)) && (e.Cancel? ==> e.md == source(e.key))
  }

  ghost predicate Heard(s: State, e: Event) {
    && (e.Cancel? ==> e.writable)
    && (e.Disconnect? && e.id in s.sessions ==> s.sessions[e.id].mdKeys.Keys <= e.writers)
  }

  lemma {:induction false} AgreeKept(s: State, e: Event, s': State, source: Key -> Md)
    requires Step(s, e, s') && Proper(e, source) && AllAgree(s, source)
    ensures AllAgree(s', source)
  {
    assert Agrees(NO_SUBSCRIPTIONS, source);
    match e {
      case Request(id, md, key, true) => WithKeyAgrees(At(s.sessions, id), md, key, source);
      case Cancel(id, md, key, true, _) => WithoutKeyAgrees(At(s.sessions, id), md, key, source);
      case _ =>
    }
    hide Agrees, WithKey, WithoutKey;
  }

  lemma {:induction false} WithKeyAgrees(t: Session, md: Md, key: Key, source: Key -> Md)
    requires Agrees(t, source) && source(key) == md
    ensures Agrees(WithKey(t, md, key), source)
  {
  }

  lemma {:induction false} WithoutKeyAgrees(t: Session, md: Md, key: Key, source: Key -> Md)
    requires Agrees(t, source) && source(key) == md
    ensures Agrees(WithoutKey(t, md, key), source)
  {
  }

  /** Who needs a key after a session's entry is replaced. */
  lemma {:induction false} NeededAfter(sessions: map<SessionId, Session>, id: SessionId, t: Session, k: Key)
    ensures Needed(sessions[id := t], k) <==> NeededBy(sessions, k, {id}) || k in t.subscribed
    ensures Needed(sessions, k) <==> NeededBy(sessions, k, {id}) || k in At(sessions, id).subscribed
    ensures Needed(sessions - {id}, k) <==> NeededBy(sessions, k, {id})
  {
    var after := sessions[id := t];
    if NeededBy(sessions, k, {id}) {
      var o :| o in sessions && o !in {id} && k in sessions[o].subscribed;
      assert o in after && k in after[o].subscribed;
      assert o in sessions - {id} && k in (sessions - {id})[o].subscribed;
    }
    if k in t.subscribed {
      assert id in after && k in after[id].subscribed;
    }
  }

  lemma {:induction false} RequestEffect(s: State, id: SessionId, md: Md, key: Key, m: Md, k: Key)
    ensures var s' := RequestNext(s, id, md, key);
            && (Needed(s'.sessions, k) <==> Needed(s.sessions, k) || k == key)
            && (k in Net(s'.sent, m) <==> k in Net(s.sent, m) || (m == md && k == key && !Needed(s.sessions, key)))
  {
    NeededAfter(s.sessions, id, WithKey(At(s.sessions, id), md, key), k);
    NetAppend(s.sent, md, Subscribe(key), m);
  }

  lemma {:induction false} CancelEffect(s: State, id: SessionId, md: Md, key: Key, writable: bool, m: Md, k: Key)
    ensures var s' := CancelNext(s, id, md, key, writable); var others := NeededBy(s.sessions, key, {id});
            && (Needed(s'.sessions, k) <==> if k == key then others else Needed(s.sessions, k))
            && (k in Net(s'.sent, m) <==> k in Net(s.sent, m) && !(m == md && k == key && writable && !others))
  {
    NeededAfter(s.sessions, id, WithoutKey(At(s.sessions, id), md, key), k);
    NetAppend(s.sent, md, Unsubscribe(key), m);
  }

  lemma {:induction false} ConnectEffect(s: State, id: SessionId, k: Key)
    ensures Needed(s.sessions[id := At(s.sessions, id)], k) <==> Needed(s.sessions, k)
  {
    NeededAfter(s.sessions, id, At(s.sessions, id), k);
  }

  /** One step never leaves a source without a key that a session holds, and keeps the
      sources exact when its frames can be written. */
  lemma {:induction false} StepKeeps(s: State, e: Event, s': State, source: Key -> Md)
    requires Step(s, e, s') && Proper(e, source) && AllAgree(s, source) && NothingMissing(s, source)
    ensures NothingMissing(s', source)
    ensures Exact(s, source) && Heard(s, e) ==> Exact(s', source)
  {
    forall md, key
      ensures Wanted(s', source, md, key) ==> key in Net(s'.sent, md)
      ensures Exact(s, source) && Heard(s, e) && key in Net(s'.sent, md) ==> Wanted(s', source, md, key)
    {
      assert Wanted(s, source, md, key) ==> key in Net(s.sent, md);
      assert Exact(s, source) ==> (Wanted(s, source, md, key) <==> key in Net(s.sent, md));
      StepKeepsKey(s, e, s', source, md, key);
    }
  }

  lemma {:induction false} StepKeepsKey(s: State, e: Event, s': State, source: Key -> Md, md: Md, key: Key)
    requires Step(s, e, s') && Proper(e, source) && AllAgree(s, source)
    requires Wanted(s, source, md, key) ==> key in Net(s.sent, md)
    ensures Wanted(s', source, md, key) ==> key in Net(s'.sent, md)
    ensures (key in Net(s.sent, md) ==> Wanted(s, source, md, key)) && Heard(s, e) ==>
              (key in Net(s'.sent, md) ==> Wanted(s', source, md, key))
  {
    match e {
      case Connect(id) => ConnectEffect(s, id, key);
      case Request(id, m, k, accepted) => RequestEffect(s, id, m, k, md, key);
      case Cancel(id, m, k, known, writable) => CancelEffect(s, id, m, k, writable, md, key);
      case Disconnect(id, writers) =>
        NeededAfter(s.sessions, id, NO_SUBSCRIPTIONS, key);
        if id in s.sessions { ReleasedNet(s, id, writers, s', md, key); }
    }
  }

  lemma {:induction false} RunPrefix(states: seq<State>, events: seq<Event>, source: Key -> Md, n: nat)
    requires Run(states, events) && OneSource(events, source) && n <= |events|
    ensures AllAgree(states[n], source) && NothingMissing(states[n], source)
    ensures AlwaysWritable(states, events) ==> Exact(states[n], source)
  {
    if n > 0 {
      RunPrefix(states, events, source, n - 1);
      AgreeKept(states[n - 1], events[n - 1], states[n], source);
      StepKeeps(states[n - 1], events[n - 1], states[n], source);
    }
  }

  /** In every run in which each instrument is asked for from its one source, at every
      moment each source is subscribed to every key some session holds; when no frame is
      withheld for want of a writer, to exactly those keys. Both books of every session
      agree throughout. */
  lemma {:induction false} SourcesFollowSessions(states: seq<State>, events: seq<Event>, source: Key -> Md)
    requires Run(states, events) && OneSource(events, source)
    ensures forall n :: 0 <= n < |states| ==> AllAgree(states[n], source) && NothingMissing(states[n], source)
    ensures AlwaysWritable(states, events) ==> forall n :: 0 <= n < |states| ==> Exact(states[n], source)
  {
    forall n | 0 <= n < |states|
      ensures AllAgree(states[n], source) && NothingMissing(states[n], source)
      ensures AlwaysWritable(states, events) ==> Exact(states[n], source)
    {
      RunPrefix(states, events, source, n);
    }
  }

  /** No session lists a source for which it holds nothing. */
  predicate NoEmptySources(s: State) {
    forall id, md :: id in s.sessions && md in s.sessions[id].mdKeys ==> s.sessions[id].mdKeys[md] != {}
  }

  lemma {:induction false} SourcesListedHold(states: seq<State>, events: seq<Event>, n: nat)
    requires Run(states, events) && n <= |events|
    ensures NoEmptySources(states[n])
  {
    if n > 0 {
      SourcesListedHold(states, events, n - 1);
      assert Step(states[n - 1], events[n - 1], states[n]);
    }
  }

  /** The frames one event wrote. */
  function Wrote(states: seq<State>, n: nat): seq<(Md, Frame)>
    requires n + 1 < |states| && states[n].sent <= states[n + 1].sent
  {
    states[n + 1].sent[|states[n].sent|..]
  }

  /** What each event writes, in a run with one source for each instrument and writers
      available: an accepted request one subscribe frame, exactly when its source was not
      subscribed to the key; a known cancel one unsubscribe frame, exactly when no other
      session holds the key, needless exactly when this one did not either. */
  lemma {:induction false} FramesWrittenExactly(states: seq<State>, events: seq<Event>, source: Key -> Md, n: nat)
    requires Run(states, events) && OneSource(events, source) && AlwaysWritable(states, events) && n < |events|
    ensures states[n].sent <= states[n + 1].sent
    ensures events[n].Connect? ==> Wrote(states, n) == []
    ensures var e := events[n];
            e.Request? ==> Wrote(states, n) ==
                           if e.accepted && e.key !in Net(states[n].sent, e.md) then [(e.md, Subscribe(e.key))] else []
    ensures var e := events[n];
            e.Cancel? ==>
              && Wrote(states, n) ==
                 (if e.known && !NeededBy(states[n].sessions, e.key, {e.id}) then [(e.md, Unsubscribe(e.key))] else [])
              && (Wrote(states, n) != [] ==>
                    (e.key !in Net(states[n].sent, e.md) <==> e.key !in At(states[n].sessions, e.id).subscribed))
  {
    hide Net, Run, AlwaysWritable, OneSource, Released;
    var e := events[n];
    OneStep(states, events, source, n);
    SourcesFollowSessions(states, events, source);
    assert Exact(states[n], source);
    if e.Request? || e.Cancel? {
      NeededAfter(states[n].sessions, e.id, NO_SUBSCRIPTIONS, e.key);
      assert Wanted(states[n], source, e.md, e.key) <==> e.key in Net(states[n].sent, e.md);
    }
    if e.Disconnect? && e.id in states[n].sessions {
      ReleasedAppends(states[n], e.id, e.writers, states[n + 1]);
    }
  }

  lemma {:induction false} OneStep(states: seq<State>, events: seq<Event>, source: Key -> Md, n: nat)
    requires Run(states, events) && OneSource(events, source) && AlwaysWritable(states, events) && n < |events|
    ensures |states| == |events| + 1 && Step(states[n], events[n], states[n + 1])
    ensures Proper(events[n], source) && (events[n].Cancel? ==> events[n].writable)
  {
  }

  lemma {:induction false} ReleasedAppends(before: State, id: SessionId, writers: set<Md>, after: State)
    requires Released(before, id, writers, after)
    ensures before.sent <= after.sent
  {
  }

  /** Why one source: the test for a first request looks at the key alone, so a request
      reaches its source exactly when nobody held the key from any source, or it was
      subscribed there already. */
  lemma {:induction false} RequestReachesExactly(s: State, id: SessionId, md: Md, key: Key)
    ensures key in Net(RequestNext(s, id, md, key).sent, md) <==>
              !Needed(s.sessions, key) || key in Net(s.sent, md)
  {
    RequestEffect(s, id, md, key, md, key);
  }

  /** The event creates or keeps the entry of the session, or finds one made. */
  predicate Touches(e: Event, id: SessionId) {
    match e
    case Connect(i) => i == id
    case Request(i, _, _, accepted) => i == id && accepted
    case Cancel(i, _, _, known, _) => i == id && known
    case Disconnect(_, _) => false
  }

  /** The event enters the key in the session, or takes it out. */
  predicate Enters(e: Event, id: SessionId, key: Key) {
    e.Request? && e.id == id && e.key == key && e.accepted
  }

  predicate Leaves(e: Event, id: SessionId, key: Key) {
    e.Cancel? && e.id == id && e.key == key && e.known
  }

  predicate StaysIn(events: seq<Event>, i: int, m: nat, id: SessionId, key: Key)
    requires 0 <= i && m <= |events|
  {
    forall j :: i < j < m ==> !Leaves(events[j], id, key)
  }

  /** Some event between `d` and `m` enters the key and none after it takes it out. */
  predicate EnteredSince(events: seq<Event>, d: nat, m: nat, id: SessionId, key: Key)
    requires m <= |events|
  {
    exists i :: d < i < m && Enters(events[i], id, key) && StaysIn(events, i, m, id, key)
  }

  lemma {:induction false} SessionStep(s: State, e: Event, s': State, id: SessionId, key: Key)
    requires Step(s, e, s') && !(e.Disconnect? && e.id == id)
    ensures id in s'.sessions <==> id in s.sessions || Touches(e, id)
    ensures key in At(s'.sessions, id).subscribed <==>
              Enters(e, id, key) || (key in At(s.sessions, id).subscribed && !Leaves(e, id, key))
  {
  }

  /** After its cleanup, with no other since, a session exists again exactly when a later
      connect, accepted request or known cancel named it, and it holds a key exactly when
      such a request asked for it and no later cancel took it back. */
  lemma {:induction false} CleanedUpReturnsExactly(states: seq<State>, events: seq<Event>, d: nat, m: nat, id: SessionId)
    requires Run(states, events) && d < m <= |events| && events[d].Disconnect? && events[d].id == id
    requires forall i :: d < i < m ==> !(events[i].Disconnect? && events[i].id == id)
    ensures id in states[m].sessions <==> exists i :: d < i < m && Touches(events[i], id)
    ensures forall key :: key in At(states[m].sessions, id).subscribed <==> EnteredSince(events, d, m, id, key)
    decreases m
  {
    assert Step(states[m - 1], events[m - 1], states[m]);
    if m > d + 1 {
      CleanedUpReturnsExactly(states, events, d, m - 1, id);
      hide Run, Step;
      forall key ensures key in At(states[m].sessions, id).subscribed <==> EnteredSince(events, d, m, id, key) {
        SessionStep(states[m - 1], events[m - 1], states[m], id, key);
        EnteredNext(events, d, m, id, key);
      }
      SessionStep(states[m - 1], events[m - 1], states[m], id, 0);
      if Touches(events[m - 1], id) {
        assert d < m - 1 < m;
      }
    }
  }

  lemma {:induction false} EnteredNext(events: seq<Event>, d: nat, m: nat, id: SessionId, key: Key)
    requires d + 1 < m <= |events|
    ensures EnteredSince(events, d, m, id, key) <==>
              Enters(events[m - 1], id, key)
              || (EnteredSince(events, d, m - 1, id, key) && !Leaves(events[m - 1], id, key))
  {
    if EnteredSince(events, d, m - 1, id, key) && !Leaves(events[m - 1], id, key) {
      var i :| d < i < m - 1 && Enters(events[i], id, key) && StaysIn(events, i, m - 1, id, key);
      assert StaysIn(events, i, m, id, key);
    }
    if Enters(events[m - 1], id, key) {
      assert StaysIn(events, m - 1, m, id, key);
    }
    if EnteredSince(events, d, m, id, key) && !Enters(events[m - 1], id, key) {
      var i :| d < i < m && Enters(events[i], id, key) && StaysIn(events, i, m, id, key);
      assert StaysIn(events, i, m - 1, id, key);
    }
  }

  /** A request that is handled after its session was cleaned up brings the session back,
      and until a cancel or another cleanup its key is needed, though nobody is connected. */
  lemma {:induction false} LateRequestRevives(states: seq<State>, events: seq<Event>, d: nat, n: nat, m: nat)
    requires Run(states, events) && d < n < m <= |events|
    requires events[d].Disconnect? && events[n].Request? && events[n].accepted && events[d].id == events[n].id
    requires forall i :: d < i < m ==> !(events[i].Disconnect? && events[i].id == events[d].id)
    requires StaysIn(events, n, m, events[n].id, events[n].key)
    ensures events[d].id !in states[d + 1].sessions
    ensures events[n].id in states[m].sessions && Needed(states[m].sessions, events[n].key)
  {
    var id, key := events[n].id, events[n].key;
    CleanedUpReturnsExactly(states, events, d, d + 1, id);
    CleanedUpReturnsExactly(states, events, d, m, id);
    assert Touches(events[n], id) && Enters(events[n], id, key);
    assert EnteredSince(events, d, m, id, key);
    assert key in states[m].sessions[id].subscribed;
  }

  /** The shortest such run: connect, disconnect, and then the request that was waiting. */
  lemma {:induction false} ConnectDisconnectRequest(id: SessionId, md: Md, key: Key, writers: set<Md>)
    returns (states: seq<State>)
    ensures var events := [Connect(id), Disconnect(id, writers), Request(id, md, key, true)];
            && Run(states, events)
            && id !in states[2].sessions && Needed(states[3].sessions, key) && key in Net(states[3].sent, md)
  {
    var events := [Connect(id), Disconnect(id, writers), Request(id, md, key, true)];
    var start := State(map[], []);
    var joined := State(map[id := NO_SUBSCRIPTIONS], []);
    var revived := RequestNext(start, id, md, key);
    states := [start, joined, start, revived];
    assert Released(joined, id, writers, start);
    assert Run(states, events) by {
      assert Step(start, events[0], joined) && Step(joined, events[1], start) && Step(start, events[2], revived);
    }
    LateRequestRevives(states, events, 1, 2, 3);
    RequestEffect(start, id, md, key, md, key);
  }
}
