/** The receiving end of subscriptions: the deferred list every market-data service
    keeps, and the CTP service's login-gated set of instruments. */
module MdFeed {
  /** The numeric key stands for exchange and instrument; the front knows only the id. */
  datatype InstrumentKey = InstrumentKey(key: nat, id: string)

  /** `front` is what the current login session of the CTP front has been asked for. */
  datatype Feed = Feed(deferred: seq<InstrumentKey>, subscribed: set<string>, pending: seq<string>,
                       loggedIn: bool, front: set<string>)

  const START := Feed([], {}, [], false, {})

  function Elements(s: seq<string>): set<string> {
    set x | x in s
  }

  predicate NoRepeats(s: seq<string>) {
    forall i, j :: 0 <= i < j < |s| ==> s[i] != s[j]
  }

  lemma {:induction false} ElementsAppend(a: seq<string>, b: seq<string>)
    ensures Elements(a + b) == Elements(a) + Elements(b)
    ensures NoRepeats(a + b) <==> NoRepeats(a) && NoRepeats(b) && Elements(a) !! Elements(b)
  {
    var c := a + b;
    if NoRepeats(c) {
      assert forall i :: 0 <= i < |a| ==> a[i] == c[i];
      assert forall j :: 0 <= j < |b| ==> b[j] == c[|a| + j];
      assert Elements(a) !! Elements(b);
    }
    if NoRepeats(a) && NoRepeats(b) && Elements(a) !! Elements(b) {
      forall i, j | 0 <= i < j < |c| ensures c[i] != c[j] {
        if i < |a| <= j {
          assert a[i] in Elements(a) && b[j - |a|] in Elements(b);
        }
      }
    }
  }

  /** The instruments a list of keys names; keys without an id are ignored. */
  function Ids(keys: seq<InstrumentKey>): set<string> {
    set k | k in keys && k.id != "" :: k.id
  }

  /** The ids of `keys` that `subscribed_.insert` takes, in order. */
  function Inserted(subscribed: set<string>, keys: seq<InstrumentKey>): (r: seq<string>)
    ensures Elements(r) == Ids(keys) - subscribed && NoRepeats(r)
  {
    if keys == [] then []
    else
      var n := |keys| - 1;
      var before, id := Inserted(subscribed, keys[..n]), keys[n].id;
      IdsAppend(keys[..n], keys[n]);
      assert keys == keys[..n] + [keys[n]];
      ElementsAppend(before, [id]);
      assert id in before <==> id in Elements(before);
      if id == "" || id in subscribed || id in before then before else before + [id]
  }

  function SubscribeNext(f: Feed, keys: seq<InstrumentKey>, accepted: bool): Feed {
    var ids := Inserted(f.subscribed, keys);
    var g := f.(subscribed := f.subscribed + Elements(ids));
    if ids == [] then g
    else if !f.loggedIn then g.(pending := f.pending + ids)
    else if accepted then g.(front := f.front + Elements(ids))
    else g
  }

  function Without(s: seq<string>, ids: set<string>): (r: seq<string>)
    ensures Elements(r) == Elements(s) - ids
    ensures NoRepeats(s) ==> NoRepeats(r)
  {
    if s == [] then []
    else
      var rest := Without(s[1..], ids);
      assert s == [s[0]] + s[1..];
      ElementsAppend([s[0]], s[1..]);
      ElementsAppend([s[0]], rest);
      if s[0] in ids then rest else [s[0]] + rest
  }

  function UnsubscribeNext(f: Feed, keys: seq<InstrumentKey>, accepted: bool): Feed {
    Feed(f.deferred, f.subscribed - Ids(keys), Without(f.pending, Ids(keys)), f.loggedIn,
         if f.loggedIn && accepted then f.front - Ids(keys) else f.front)
  }

  function DropKey(keys: seq<InstrumentKey>, key: nat): (r: seq<InstrumentKey>)
    ensures forall k :: k in r <==> k in keys && k.key != key
  {
    if keys == [] then []
    else
      assert keys == [keys[0]] + keys[1..];
      if keys[0].key == key then DropKey(keys[1..], key) else [keys[0]] + DropKey(keys[1..], key)
  }

  /** `accepted` is the outcome of the call to the front, if the step makes one. */
  datatype Event =
    | Add(k: InstrumentKey)
    | Drop(k: InstrumentKey, accepted: bool)
    | Tick(accepted: bool)
    | Login(accepted: bool)
    | LoginFailed
    | FrontLost

  /** A new login session of the front starts with no subscriptions. */
  function LoginNext(f: Feed, accepted: bool): Feed {
    var asked := if f.pending != [] then Elements(f.pending) else f.subscribed;
    f.(loggedIn := true, pending := [], front := if accepted then asked else {})
  }

  function Next(f: Feed, e: Event): Feed {
    match e
    case Add(k) => f.(deferred := f.deferred + [k])
    case Drop(k, accepted) => UnsubscribeNext(f.(deferred := DropKey(f.deferred, k.key)), [k], accepted)
    case Tick(accepted) => (if f.deferred == [] then f else SubscribeNext(f, f.deferred, accepted)).(deferred := [])
    case Login(accepted) => LoginNext(f, accepted)
    case LoginFailed => f.(loggedIn := false)
    case FrontLost => f.(loggedIn := false)
  }

  function Run(events: seq<Event>): Feed {
    if events == [] then START else Next(Run(events[..|events| - 1]), events[|events| - 1])
  }

  /** The set that applying each command at once would give. */
  function Immediate(events: seq<Event>): set<string> {
    if events == [] then {}
    else
      var before := Immediate(events[..|events| - 1]);
      match events[|events| - 1]
      case Add(k) => if k.id == "" then before else before + {k.id}
      case Drop(k, _) => before - {k.id}
      case _ => before
  }

  /** Among the commands of a run, keys and ids determine each other. */
  predicate Coherent(events: seq<Event>) {
    forall i, j :: 0 <= i < |events| && 0 <= j < |events|
                   && (events[i].Add? || events[i].Drop?) && (events[j].Add? || events[j].Drop?) ==>
      (events[i].k.key == events[j].k.key <==> events[i].k.id == events[j].k.id)
  }

  lemma {:induction false} DeferredCameFromAdds(events: seq<Event>, k: InstrumentKey)
    requires k in Run(events).deferred
    ensures exists i :: 0 <= i < |events| && events[i] == Add(k)
  {
    var n := |events| - 1;
    var before := Run(events[..n]);
    if events[n] != Add(k) {
      assert k in before.deferred;
      DeferredCameFromAdds(events[..n], k);
      var i :| 0 <= i < n && events[..n][i] == Add(k);
      assert events[i] == Add(k);
    }
  }

  lemma {:induction false} IdsAppend(keys: seq<InstrumentKey>, k: InstrumentKey)
    ensures Ids(keys + [k]) == Ids(keys) + if k.id == "" then {} else {k.id}
  {
    forall x | x in Ids(keys) + (if k.id == "" then {} else {k.id}) ensures x in Ids(keys + [k]) {
      if x in Ids(keys) {
        var j :| j in keys && j.id != "" && j.id == x;
        assert j in keys + [k];
      } else {
        assert k in keys + [k];
      }
    }
  }

  /** What a feed has subscribed or will subscribe on its next tick. */
  function Held(f: Feed): set<string> {
    f.subscribed + Ids(f.deferred)
  }

  /** Deferring does not show: what is held is what applying each command at once gives. */
  predicate Hidden(events: seq<Event>) {
    Held(Run(events)) == Immediate(events)
  }

  /** The instrument dropped is deferred under no other key, and whatever else is deferred
      under its key is held otherwise too. When a key names one id, the second half says
      nothing. */
  predicate CleanDrop(f: Feed, k: InstrumentKey) {
    && (forall j :: j in f.deferred && j.id != "" && j.id == k.id ==> j.key == k.key)
    && (forall j :: j in f.deferred && j.id != "" && j.id != k.id && j.key == k.key ==>
          j.id in f.subscribed || exists i :: i in f.deferred && i.id == j.id && i.key != k.key)
  }

  lemma {:induction false} IdsOne(k: InstrumentKey)
    ensures Ids([k]) == if k.id == "" then {} else {k.id}
  {
    assert k in [k];
  }

  lemma {:induction false} DropKeyIds(keys: seq<InstrumentKey>, key: nat, id: string)
    ensures id in Ids(DropKey(keys, key)) <==> exists j :: j in keys && j.id != "" && j.id == id && j.key != key
  {
    if exists j :: j in keys && j.id != "" && j.id == id && j.key != key {
      var j :| j in keys && j.id != "" && j.id == id && j.key != key;
      assert j in DropKey(keys, key);
    }
  }

  /** A drop takes its instrument, and nothing else, from what is held exactly when it is
      clean. */
  lemma {:induction false} DropCleanExactly(f: Feed, k: InstrumentKey, accepted: bool)
    requires "" !in f.subscribed
    ensures Held(Next(f, Drop(k, accepted))) == Held(f) - {k.id} <==> CleanDrop(f, k)
  {
    var g := Next(f, Drop(k, accepted));
    IdsOne(k);
    assert g.subscribed == f.subscribed - {k.id};
    forall id ensures id in Ids(g.deferred) <==> exists j :: j in f.deferred && j.id != "" && j.id == id && j.key != k.key {
      DropKeyIds(f.deferred, k.key, id);
    }
    hide DropKey;
    if CleanDrop(f, k) {
      forall id ensures id in Held(g) <==> id in Held(f) - {k.id} {
      }
    } else if j :| j in f.deferred && j.id != "" && j.id == k.id && j.key != k.key {
      assert k.id in Held(g);
    } else {
      var j :| j in f.deferred && j.id != "" && j.id != k.id && j.key == k.key
               && j.id !in f.subscribed && !exists i :: i in f.deferred && i.id == j.id && i.key != k.key;
      assert j.id in Held(f) - {k.id} && j.id !in Held(g);
    }
  }

  /** One command, timer or login after a run that has shown nothing. */
  lemma {:induction false} StepHiddenExactly(events: seq<Event>)
    requires events != [] && Hidden(events[..|events| - 1])
    ensures var n := |events| - 1;
            Hidden(events) <==> (events[n].Drop? ==> CleanDrop(Run(events[..n]), events[n].k))
  {
    var n := |events| - 1;
    var f, e := Run(events[..n]), events[n];
    match e {
      case Add(k) => IdsAppend(f.deferred, k);
      case Drop(k, accepted) =>
        NoEmptyId(events[..n]);
        DropCleanExactly(f, k, accepted);
      case Tick(accepted) =>
      case _ =>
    }
  }

  /** Deferring shows at no moment of a run exactly when every drop is clean at the moment
      it is made. */
  lemma {:induction false} DeferralHiddenExactly(events: seq<Event>)
    ensures (forall n :: 0 <= n <= |events| ==> Hidden(events[..n])) <==>
            (forall i :: 0 <= i < |events| && events[i].Drop? ==> CleanDrop(Run(events[..i]), events[i].k))
  {
    if forall n :: 0 <= n <= |events| ==> Hidden(events[..n]) {
      forall i | 0 <= i < |events| && events[i].Drop? ensures CleanDrop(Run(events[..i]), events[i].k) {
        assert events[..i + 1][..i] == events[..i];
        StepHiddenExactly(events[..i + 1]);
      }
    }
    if forall i :: 0 <= i < |events| && events[i].Drop? ==> CleanDrop(Run(events[..i]), events[i].k) {
      forall n | 0 <= n <= |events| ensures Hidden(events[..n]) {
        CleanDropsHide(events, n);
      }
    }
  }

  lemma {:induction false} CleanDropsHide(events: seq<Event>, n: nat)
    requires n <= |events|
    requires forall i :: 0 <= i < |events| && events[i].Drop? ==> CleanDrop(Run(events[..i]), events[i].k)
    ensures Hidden(events[..n])
  {
    if n > 0 {
      CleanDropsHide(events, n - 1);
      assert events[..n][..n - 1] == events[..n - 1];
      StepHiddenExactly(events[..n]);
    }
  }

  /** Deferring subscriptions is invisible when keys and ids determine each other: at
      every moment the subscribed instruments and those still deferred are what applying
      each command at once would have left. */
  lemma {:induction false} DeferralInvisible(events: seq<Event>)
    requires Coherent(events)
    ensures Run(events).subscribed + Ids(Run(events).deferred) == Immediate(events)
  {
    forall i | 0 <= i < |events| && events[i].Drop? ensures CleanDrop(Run(events[..i]), events[i].k) {
      forall j | j in Run(events[..i]).deferred ensures j.key == events[i].k.key <==> j.id == events[i].k.id {
        DeferredCameFromAdds(events[..i], j);
        var a :| 0 <= a < i && events[..i][a] == Add(j);
        assert events[a] == Add(j);
      }
    }
    DeferralHiddenExactly(events);
    assert events[..|events|] == events;
  }

  lemma {:induction false} NoEmptyId(events: seq<Event>)
    ensures "" !in Run(events).subscribed
  {
    if events != [] {
      var n := |events| - 1;
      NoEmptyId(events[..n]);
      NextNoEmptyId(Run(events[..n]), events[n]);
    }
  }

  lemma {:induction false} NextNoEmptyId(f: Feed, e: Event)
    requires "" !in f.subscribed
    ensures "" !in Next(f, e).subscribed
  {
    assert "" !in Ids(f.deferred);
  }

  /** Two exchanges listing one code break it: dropping the code under one key while it
      is deferred under another shows, as in a first run of just these two commands. */
  lemma {:induction false} SharedCodeShowsDeferral(id: string, k1: nat, k2: nat)
    requires id != "" && k1 != k2
    ensures var events := [Add(InstrumentKey(k1, id)), Drop(InstrumentKey(k2, id), true)];
            && !CleanDrop(Run(events[..1]), InstrumentKey(k2, id)) && Hidden(events[..1]) && !Hidden(events)
            && Held(Run(events)) == {id} && Immediate(events) == {}
  {
    var a, d := Add(InstrumentKey(k1, id)), Drop(InstrumentKey(k2, id), true);
    var events := [a, d];
    assert events[..1] == [a] && [a][..0] == [];
    assert Run([a]) == START.(deferred := [InstrumentKey(k1, id)]);
    IdsOne(InstrumentKey(k1, id));
    assert Immediate([a]) == {id};
    StepHiddenExactly(events);
    DropKeyIds([InstrumentKey(k1, id)], k2, id);
    assert InstrumentKey(k1, id) in [InstrumentKey(k1, id)];
  }

  /** The queue for the next login never repeats and never asks for more than is
      subscribed. */
  predicate QueueSound(f: Feed) {
    && Elements(f.pending) <= f.subscribed && NoRepeats(f.pending)
    && (f.loggedIn ==> f.pending == [])
  }

  lemma {:induction false} QueueStaysSound(events: seq<Event>)
    ensures QueueSound(Run(events))
  {
    if events != [] {
      var f := Run(events[..|events| - 1]);
      QueueStaysSound(events[..|events| - 1]);
      NextKeepsQueue(f, events[|events| - 1]);
    }
  }

  lemma {:induction false} NextKeepsQueue(f: Feed, e: Event)
    requires QueueSound(f)
    ensures QueueSound(Next(f, e))
  {
    match e {
      case Tick(accepted) =>
        ElementsAppend(f.pending, Inserted(f.subscribed, f.deferred));
      case Drop(k, accepted) =>
      case _ =>
    }
  }

  /** Subscribed instruments the front does not serve while logged in: those it was not
      told about at the last login because something newer was queued, or refused, and
      which nothing has dropped since. */
  function Lost(events: seq<Event>): (r: set<string>) {
    if events == [] then {}
    else
      var before, f := Lost(events[..|events| - 1]), Run(events[..|events| - 1]);
      match events[|events| - 1]
      case Login(accepted) =>
        if !accepted then f.subscribed else if f.pending == [] then {} else f.subscribed - Elements(f.pending)
      case Drop(k, _) => before - {k.id}
      case Tick(accepted) =>
        if accepted then before else before + (Ids(f.deferred) - f.subscribed - Stray(events[..|events| - 1]))
      case _ => before
  }

  /** Instruments dropped here that the front goes on serving, because it refused the
      call, until they are subscribed again or a new login starts. */
  function Stray(events: seq<Event>): (r: set<string>) {
    if events == [] then {}
    else
      var before, f := Stray(events[..|events| - 1]), Run(events[..|events| - 1]);
      match events[|events| - 1]
      case Login(_) => {}
      case Drop(k, accepted) =>
        if accepted then before - {k.id}
        else if k.id in f.subscribed - Lost(events[..|events| - 1]) then before + {k.id}
        else before
      case Tick(_) => before - Ids(f.deferred)
      case _ => before
  }

  /** Whatever the front accepts or refuses, while logged in it serves exactly the
      subscribed instruments less those lost, and those it refused to drop. */
  lemma {:induction false} FrontServesExactly(events: seq<Event>)
    ensures Lost(events) <= Run(events).subscribed && Stray(events) !! Run(events).subscribed + {""}
    ensures var f := Run(events); f.loggedIn ==> f.front == f.subscribed - Lost(events) + Stray(events)
    ensures var f := Run(events);
            f.loggedIn ==> (f.front == f.subscribed <==> Lost(events) == {} && Stray(events) == {})
  {
    if events != [] {
      var n := |events| - 1;
      FrontServesExactly(events[..n]);
      QueueStaysSound(events[..n]);
      NoEmptyId(events[..n]);
      FrontStep(Run(events[..n]), Lost(events[..n]), Stray(events[..n]), events);
    }
  }

  lemma {:induction false} FrontStep(f: Feed, lost: set<string>, stray: set<string>, events: seq<Event>)
    requires events != [] && QueueSound(f) && "" !in f.subscribed
    requires f == Run(events[..|events| - 1])
    requires lost == Lost(events[..|events| - 1]) && stray == Stray(events[..|events| - 1])
    requires lost <= f.subscribed && stray !! f.subscribed + {""}
    requires f.loggedIn ==> f.front == f.subscribed - lost + stray
    ensures Lost(events) <= Run(events).subscribed && Stray(events) !! Run(events).subscribed + {""}
    ensures var g := Run(events); g.loggedIn ==> g.front == g.subscribed - Lost(events) + Stray(events)
  {
    var e := events[|events| - 1];
    match e {
      case Drop(k, accepted) => IdsOne(k);
      case _ =>
    }
  }

  /** Some login is not followed by a failed one or a lost front. */
  predicate LoggedInSince(events: seq<Event>, i: nat) {
    i < |events| && events[i].Login? && forall j :: i < j < |events| ==> !events[j].LoginFailed? && !events[j].FrontLost?
  }

  lemma {:induction false} LoggedInExactly(events: seq<Event>)
    ensures Run(events).loggedIn <==> exists i: nat :: LoggedInSince(events, i)
  {
    hide Inserted, Without, DropKey, Ids;
    if events != [] {
      LoggedInExactly(events[..|events| - 1]);
      LoggedInNext(events);
    }
  }

  lemma {:induction false} LoggedInNext(events: seq<Event>)
    requires events != []
    ensures var n := |events| - 1; var front, e := events[..n], events[n];
            (exists i: nat :: LoggedInSince(events, i)) <==>
              e.Login? || ((exists i: nat :: LoggedInSince(front, i)) && !e.LoginFailed? && !e.FrontLost?)
  {
    var n := |events| - 1;
    var front, e := events[..n], events[n];
    if e.Login? {
      assert LoggedInSince(events, n);
    } else {
      if i: nat :| LoggedInSince(front, i) && !e.LoginFailed? && !e.FrontLost? {
        assert LoggedInSince(events, i);
      }
      if i: nat :| LoggedInSince(events, i) {
        assert i < n && LoggedInSince(front, i);
      }
    }
  }

  /** While not logged in, nothing is asked of the front, and what a tick adds is queued in
      the order it was asked for. */
  lemma {:induction false} AwayAsksNothing(f: Feed, e: Event)
    requires !f.loggedIn && !e.Login?
    ensures var g := Next(f, e);
            && g.front == f.front
            && (e.Tick? ==> g.pending == f.pending + Inserted(f.subscribed, f.deferred) && g.deferred == [])
  {
    if f.deferred == [] { assert Inserted(f.subscribed, []) == []; }
  }

  /** A login leaves the front in step with the subscribed set exactly when nothing was
      queued while it was away, or everything subscribed was. */
  lemma {:induction false} LoginInStepExactly(events: seq<Event>)
    ensures var f, g := Run(events), Run(events + [Login(true)]);
            g.front == g.subscribed <==> f.pending == [] || f.subscribed <= Elements(f.pending)
  {
    assert (events + [Login(true)])[..|events|] == events;
    QueueStaysSound(events);
    var f := Run(events);
    assert f.pending != [] ==> f.pending[0] in Elements(f.pending);
  }

  /** While logged in, the front serves exactly the subscribed instruments. */
  predicate InStep(f: Feed) {
    f.loggedIn ==> f.front == f.subscribed
  }

  /** The event cannot put the front out of step: an accepted login with an empty or a
      complete queue, a refused one with nothing subscribed, a refused tick with nothing
      new to ask for, a refused drop of nothing subscribed, or any other event. */
  predicate KeepsStep(f: Feed, e: Event) {
    match e
    case Login(accepted) =>
      if accepted then f.pending == [] || f.subscribed <= Elements(f.pending) else f.subscribed == {}
    case Tick(accepted) => f.loggedIn && !accepted ==> Ids(f.deferred) <= f.subscribed
    case Drop(k, accepted) => f.loggedIn && !accepted ==> k.id !in f.subscribed
    case _ => true
  }

  lemma {:induction false} NextInStepExactly(f: Feed, e: Event)
    requires QueueSound(f) && "" !in f.subscribed && InStep(f)
    ensures InStep(Next(f, e)) <==> KeepsStep(f, e)
  {
    match e {
      case Login(accepted) =>
        assert f.pending != [] ==> f.pending[0] in Elements(f.pending);
      case Drop(k, accepted) => IdsOne(k);
      case _ =>
    }
  }

  lemma {:induction false} RunAfter(events: seq<Event>, n: nat)
    requires n < |events|
    ensures Run(events[..n + 1]) == Next(Run(events[..n]), events[n])
    ensures QueueSound(Run(events[..n])) && "" !in Run(events[..n]).subscribed
  {
    assert events[..n + 1][..n] == events[..n];
    QueueStaysSound(events[..n]);
    NoEmptyId(events[..n]);
  }

  /** The front is in step at every moment of a run. */
  predicate AlwaysInStep(events: seq<Event>) {
    forall n :: 0 <= n <= |events| ==> InStep(Run(events[..n]))
  }

  predicate AllKeepStep(events: seq<Event>) {
    forall i :: 0 <= i < |events| ==> KeepsStep(Run(events[..i]), events[i])
  }

  lemma {:induction false} StaysInStep(events: seq<Event>, n: nat)
    requires AllKeepStep(events) && n <= |events|
    ensures InStep(Run(events[..n]))
  {
    if n > 0 {
      StaysInStep(events, n - 1);
      RunAfter(events, n - 1);
      NextInStepExactly(Run(events[..n - 1]), events[n - 1]);
    }
  }

  /** In every run, whatever the front accepts or refuses, it serves exactly the subscribed
      set whenever it is logged in exactly when each event keeps it in step. */
  lemma {:induction false} FrontInStepExactly(events: seq<Event>)
    ensures AlwaysInStep(events) <==> AllKeepStep(events)
  {
    hide Run, Next, InStep, KeepsStep;
    if AlwaysInStep(events) {
      forall i | 0 <= i < |events| ensures KeepsStep(Run(events[..i]), events[i]) {
        RunAfter(events, i);
        assert InStep(Run(events[..i + 1]));
        NextInStepExactly(Run(events[..i]), events[i]);
      }
    }
    if AllKeepStep(events) {
      forall n | 0 <= n <= |events| ensures InStep(Run(events[..n])) {
        StaysInStep(events, n);
      }
    }
  }

  /** Nothing is lost and nothing left behind at any moment of being logged in, under the
      same condition. */
  lemma {:induction false} NothingLost(events: seq<Event>)
    ensures (forall n :: 0 <= n <= |events| && Run(events[..n]).loggedIn ==>
               Lost(events[..n]) == {} && Stray(events[..n]) == {})
            <==> AllKeepStep(events)
  {
    hide Run, Lost, Stray, KeepsStep;
    FrontInStepExactly(events);
    forall n | 0 <= n <= |events|
      ensures InStep(Run(events[..n])) <==>
                (Run(events[..n]).loggedIn ==> Lost(events[..n]) == {} && Stray(events[..n]) == {})
    {
      FrontServesExactly(events[..n]);
    }
  }

  function Relogin(a: InstrumentKey, b: InstrumentKey): (events: seq<Event>)
    ensures |events| == 7
    ensures events[0] == Login(true) && events[1] == Add(a) && events[2] == Tick(true) && events[3] == FrontLost
    ensures events[4] == Add(b) && events[5] == Tick(true) && events[6] == Login(true)
  {
    [Login(true), Add(a), Tick(true), FrontLost, Add(b), Tick(true), Login(true)]
  }

  lemma {:induction false} InsertedOne(subscribed: set<string>, k: InstrumentKey)
    requires k.id != "" && k.id !in subscribed
    ensures Inserted(subscribed, [k]) == [k.id]
  {
    assert [k][..0] == [] && Inserted(subscribed, []) == [];
    assert k.id !in Inserted(subscribed, []);
  }

  lemma {:induction false} ReloginStarts(a: InstrumentKey, b: InstrumentKey)
    requires a.id != "" && b.id != "" && a.id != b.id
    ensures Run(Relogin(a, b)[..4]) == Feed([], {a.id}, [], false, {a.id})
  {
    hide Run, Relogin, Inserted;
    var events := Relogin(a, b);
    RunNothing(events);
    RunAfter(events, 0);
    RunAfter(events, 1);
    InsertedOne({}, a);
    assert Elements([a.id]) == {a.id};
    RunAfter(events, 2);
    assert Run(events[..3]) == Feed([], {a.id}, [], true, {a.id});
    RunAfter(events, 3);
  }

  lemma {:induction false} RunNothing(events: seq<Event>)
    ensures Run(events[..0]) == START
  {
  }

  /** A reconnect in the middle of two subscriptions: the login sends the second and
      forgets the first. */
  lemma {:induction false} ReloginLosesSubscription(a: InstrumentKey, b: InstrumentKey)
    requires a.id != "" && b.id != "" && a.id != b.id
    ensures var f := Run(Relogin(a, b)); f.loggedIn && f.subscribed == {a.id, b.id} && f.front == {b.id}
    ensures !KeepsStep(Run(Relogin(a, b)[..6]), Login(true))
  {
    hide Run, Relogin, Inserted;
    var events := Relogin(a, b);
    ReloginStarts(a, b);
    RunAfter(events, 4);
    assert Run(events[..5]) == Feed([b], {a.id}, [], false, {a.id});
    InsertedOne({a.id}, b);
    assert Elements([b.id]) == {b.id};
    RunAfter(events, 5);
    assert {a.id} + {b.id} == {a.id, b.id};
    assert [b.id] != [];
    assert Run(events[..6]) == Feed([], {a.id, b.id}, [b.id], false, {a.id});
    RunAfter(events, 6);
    assert events[..7] == events;
  }
}
