/** The CTP trader's query pump: at most one query a tick, one in flight, and a timeout
    for lost answers. Time readings are arguments. */
module QueryPump {
  /** A queued query, named by the caller. */
  type Query = nat

  const QUERY_TIMEOUT_NS := 120_000_000_000

  datatype Pump = Pump(queue: seq<Query>, inFlight: bool, startedAt: int)

  const IDLE := Pump([], false, 0)

  /** `Tick` carries the clock before the query, whether the session is ready, whether a
      query run now is submitted, and the clock after it. `Finish` is the end callback
      of query `q`. */
  datatype Event =
    | Push(q: Query)
    | Finish(q: Query)
    | Tick(now: int, ready: bool, submits: bool, after: int)

  datatype Outcome = Nothing | Dropped(queries: seq<Query>) | Ran(query: Query, submitted: bool)

  /** The tick waits for the query in flight until the timeout has passed. */
  predicate Waits(p: Pump, now: int) {
    p.inFlight && now - p.startedAt < QUERY_TIMEOUT_NS
  }

  function TickOutcome(p: Pump, now: int, ready: bool, submits: bool): Outcome {
    if Waits(p, now) || p.queue == [] then Nothing
    else if !ready then Dropped(p.queue)
    else Ran(p.queue[0], submits)
  }

  function TickNext(p: Pump, now: int, ready: bool, submits: bool, after: int): Pump {
    if Waits(p, now) then p
    else match TickOutcome(p, now, ready, submits)
      case Nothing => p.(inFlight := false)
      case Dropped(_) => Pump([], false, p.startedAt)
      case Ran(_, true) => Pump(p.queue[1..], true, after)
      case Ran(_, false) => Pump(p.queue[1..], false, p.startedAt)
  }

  function Next(p: Pump, e: Event): Pump {
    match e
    case Push(q) => p.(queue := p.queue + [q])
    case Finish(_) => p.(inFlight := false)
    case Tick(now, ready, submits, after) => TickNext(p, now, ready, submits, after)
  }

  function Run(events: seq<Event>): Pump {
    if events == [] then IDLE else Next(Run(events[..|events| - 1]), events[|events| - 1])
  }

  /** What event `i` of a run did. */
  function Did(events: seq<Event>, i: nat): Outcome
    requires i < |events|
  {
    match events[i]
    case Tick(now, ready, submits, _) => TickOutcome(Run(events[..i]), now, ready, submits)
    case _ => Nothing
  }

  /** Event `i` submitted a query to CTP. */
  predicate Submits(events: seq<Event>, i: nat)
    requires i < |events|
  {
    Did(events, i).Ran? && Did(events, i).submitted
  }

  /** Some event after `i`, up to `j` for ticks and before it for answers, lets the next
      query go: an end callback, or a tick that finds the timeout passed. */
  predicate Released(events: seq<Event>, i: nat, j: nat)
    requires i < j < |events| && events[i].Tick?
  {
    || (exists k :: i < k < j && events[k].Finish?)
    || (exists m :: i < m <= j && events[m].Tick? && events[m].now - events[i].after >= QUERY_TIMEOUT_NS)
  }

  /** Until something releases it, the query submitted at `i` is the one in flight. */
  lemma {:induction false} StaysInFlight(events: seq<Event>, i: nat, n: nat)
    requires i < n <= |events| && Submits(events, i)
    requires forall k :: i < k < n ==> !events[k].Finish?
    requires forall m :: i < m < n && events[m].Tick? ==> events[m].now - events[i].after < QUERY_TIMEOUT_NS
    ensures Run(events[..n]).inFlight && Run(events[..n]).startedAt == events[i].after
  {
    assert events[..n][..n - 1] == events[..n - 1];
    if n > i + 1 {
      StaysInFlight(events, i, n - 1);
    }
  }

  /** In every run, between any two submitted queries there is an end callback or a tick
      at least the timeout after the first of them. */
  lemma {:induction false} SubmissionsSpaced(events: seq<Event>, i: nat, j: nat)
    requires i < j < |events| && Submits(events, i) && Submits(events, j)
    ensures Released(events, i, j)
  {
    if !Released(events, i, j) {
      StaysInFlight(events, i, j);
      assert Waits(Run(events[..j]), events[j].now);
    }
  }

  /** With a clock that does not run backwards, the second submission itself comes at
      least the timeout after the first, unless an end callback came in between. */
  lemma {:induction false} SubmissionsSpacedByClock(events: seq<Event>, i: nat, j: nat)
    requires i < j < |events| && Submits(events, i) && Submits(events, j)
    requires forall x, y :: 0 <= x <= y < |events| && events[x].Tick? && events[y].Tick? ==> events[x].now <= events[y].now
    ensures (exists k :: i < k < j && events[k].Finish?) || events[j].now - events[i].after >= 120 * 1_000_000_000
  {
    SubmissionsSpaced(events, i, j);
  }

  function Pushed(events: seq<Event>): seq<Query> {
    if events == [] then []
    else
      var before, e := Pushed(events[..|events| - 1]), events[|events| - 1];
      if e.Push? then before + [e.q] else before
  }

  /** The queries that left the queue, in the order they left, each by running or in a
      drop of the whole queue. */
  function Departed(events: seq<Event>): seq<Query> {
    if events == [] then []
    else
      var before := Departed(events[..|events| - 1]);
      before + Left(Did(events, |events| - 1))
  }

  function Left(o: Outcome): seq<Query> {
    match o
    case Nothing => []
    case Dropped(qs) => qs
    case Ran(q, _) => [q]
  }

  lemma {:induction false} NextKeepsOrder(p: Pump, e: Event)
    ensures p.queue + (if e.Push? then [e.q] else []) ==
            (if e.Tick? then Left(TickOutcome(p, e.now, e.ready, e.submits)) else []) + Next(p, e).queue
  {
  }

  /** Queries leave in the order they were pushed, and none is lost or invented. */
  lemma {:induction false} QueriesLeaveInOrder(events: seq<Event>)
    ensures Pushed(events) == Departed(events) + Run(events).queue
  {
    if events != [] {
      var n := |events| - 1;
      QueriesLeaveInOrder(events[..n]);
      var p := Run(events[..n]);
      assert Departed(events) == Departed(events[..n]) + Left(Did(events, n));
      NextKeepsOrder(p, events[n]);
      hide Next, Left, Departed;
    }
  }

  /** The query submitted at `i` is still waited for just before event `j`: no end callback
      came, and no tick yet, `j` included, found its timeout passed. */
  predicate WaitedFor(events: seq<Event>, i: nat, j: nat)
    requires i < j < |events| && events[j].Tick?
  {
    Submits(events, i) && !Released(events, i, j)
  }

  predicate Busy(events: seq<Event>, j: nat)
    requires j < |events| && events[j].Tick?
  {
    exists i :: 0 <= i < j && WaitedFor(events, i, j)
  }

  /** A query in flight was submitted by some event, and nothing has released it since. */
  lemma {:induction false} InFlightSince(events: seq<Event>, n: nat) returns (i: nat)
    requires n <= |events| && Run(events[..n]).inFlight
    ensures i < n && Submits(events, i) && Run(events[..n]).startedAt == events[i].after
    ensures forall k :: i < k < n ==> !events[k].Finish?
    ensures forall m :: i < m < n && events[m].Tick? ==> events[m].now - events[i].after < QUERY_TIMEOUT_NS
  {
    hide Run;
    RunNothing(events);
    After(events, n - 1);
    var p, e := Run(events[..n - 1]), events[n - 1];
    if e.Tick? && !Waits(p, e.now) {
      i := n - 1;
    } else {
      i := InFlightSince(events, n - 1);
    }
  }

  lemma {:induction false} RunNothing(events: seq<Event>)
    ensures Run(events[..0]) == IDLE
  {
  }

  lemma {:induction false} WaitsExactly(events: seq<Event>, j: nat)
    requires j < |events| && events[j].Tick?
    ensures Waits(Run(events[..j]), events[j].now) <==> Busy(events, j)
  {
    hide Run, Submits;
    if Waits(Run(events[..j]), events[j].now) {
      var i := InFlightSince(events, j);
      assert WaitedFor(events, i, j);
    }
    if i :| 0 <= i < j && WaitedFor(events, i, j) {
      StaysInFlight(events, i, j);
    }
  }

  lemma {:induction false} QueueIs(events: seq<Event>, j: nat)
    requires j <= |events|
    ensures var pushed, gone := Pushed(events[..j]), |Departed(events[..j])|;
            gone <= |pushed| && Run(events[..j]).queue == pushed[gone..]
  {
    QueriesLeaveInOrder(events[..j]);
  }

  /** What each event of a run does, said without the pump's state. Only a tick that finds
      queries pushed and not gone, and no earlier one still waited for, does anything: on a
      ready session it runs the oldest of them, and otherwise it drops them all. */
  lemma {:induction false} TickDoesExactly(events: seq<Event>, j: nat)
    requires j < |events|
    ensures var pushed, gone := Pushed(events[..j]), |Departed(events[..j])|; var e := events[j];
            && gone <= |pushed|
            && Did(events, j) ==
               if !e.Tick? || gone == |pushed| || Busy(events, j) then Nothing
               else if e.ready then Ran(pushed[gone], e.submits) else Dropped(pushed[gone..])
  {
    hide Run, Pushed, Departed, Busy;
    QueueIs(events, j);
    if events[j].Tick? {
      WaitsExactly(events, j);
    }
  }

  /** Nothing is run, let alone sent, before the session is ready, and a tick that finds it
      not ready and waits for nothing leaves the queue empty. */
  lemma {:induction false} NothingRunsUnready(events: seq<Event>, i: nat)
    requires i < |events|
    ensures Did(events, i).Ran? ==> events[i].Tick? && events[i].ready
    ensures Did(events, i).Dropped? ==> events[i].Tick? && !events[i].ready
    ensures events[i].Tick? && !events[i].ready && !Busy(events, i) ==> Run(events[..i + 1]).queue == []
  {
    hide Run, Busy;
    After(events, i);
    TickDoesExactly(events, i);
    if events[i].Tick? {
      WaitsExactly(events, i);
    }
  }

  /** The queries CTP still owes an answer after an event, given those before it. */
  function Owed(before: set<Query>, p: Pump, e: Event): set<Query> {
    match e
    case Push(_) => before
    case Finish(q) => before - {q}
    case Tick(now, ready, submits, _) =>
      var did := TickOutcome(p, now, ready, submits);
      if did.Ran? && did.submitted then before + {did.query} else before
  }

  /** The submitted queries CTP has not answered. */
  function Outstanding(events: seq<Event>): set<Query> {
    if events == [] then {}
    else
      var n := |events| - 1;
      Owed(Outstanding(events[..n]), Run(events[..n]), events[n])
  }

  /** The tick gives up the query in flight: it finds the timeout passed. */
  predicate GivesUp(events: seq<Event>, i: nat)
    requires i < |events|
  {
    events[i].Tick? && Run(events[..i]).inFlight && !Waits(Run(events[..i]), events[i].now)
  }

  /** The queries some tick gave up that CTP has not answered since. */
  function Abandoned(events: seq<Event>): (r: set<Query>)
    ensures r <= Outstanding(events)
  {
    if events == [] then {}
    else
      var n := |events| - 1;
      var before := Abandoned(events[..n]);
      match events[n]
      case Push(_) => before
      case Finish(q) => before - {q}
      case Tick(_, _, _, _) => if GivesUp(events, n) then Outstanding(events[..n]) else before
  }

  /** Every end callback answers a query that is outstanding. */
  predicate Answers(events: seq<Event>) {
    forall i :: 0 <= i < |events| && events[i].Finish? ==> events[i].q in Outstanding(events[..i])
  }

  /** Every query is submitted with no other outstanding: the promise of the header. */
  predicate NeverOverlaps(events: seq<Event>) {
    forall i :: 0 <= i < |events| && Submits(events, i) ==> Outstanding(events[..i]) == {}
  }

  /** No tick that gives up a query submits another, and none is submitted while one that
      was given up is still unanswered. */
  predicate HoldsBack(events: seq<Event>) {
    forall i :: 0 <= i < |events| && Submits(events, i) ==> !GivesUp(events, i) && Abandoned(events[..i]) == {}
  }

  lemma {:induction false} InFlightOutstanding(events: seq<Event>)
    requires Run(events).inFlight
    ensures Outstanding(events) != {}
  {
    if events != [] {
      var n := |events| - 1;
      if Run(events[..n]).inFlight {
        InFlightOutstanding(events[..n]);
      }
      if Submits(events, n) {
        assert Did(events, n).query in Outstanding(events);
      }
    }
  }

  lemma {:induction false} AnswersPrefix(events: seq<Event>, n: nat)
    requires n <= |events|
    ensures Answers(events) ==> Answers(events[..n])
    ensures HoldsBack(events) ==> HoldsBack(events[..n])
  {
    forall i | 0 <= i < n ensures events[..n][..i] == events[..i] && events[..n][i] == events[i] {
    }
  }

  /** While the pump holds back, the flag says whether a query is outstanding that was
      not given up, and there is at most one. */
  lemma {:induction false} OneAtATime(events: seq<Event>)
    requires Answers(events) && HoldsBack(events)
    ensures |Outstanding(events)| <= 1
    ensures if Run(events).inFlight then |Outstanding(events)| == 1 && Abandoned(events) == {}
            else Outstanding(events) == Abandoned(events)
  {
    if events != [] {
      var n := |events| - 1;
      AnswersPrefix(events, n);
      OneAtATime(events[..n]);
      assert events[..n + 1] == events;
      After(events, n);
      assert Submits(events, n) ==> !GivesUp(events, n) && Abandoned(events[..n]) == {};
      assert events[n].Finish? ==> events[n].q in Outstanding(events[..n]);
      hide Run, Outstanding, Answers, HoldsBack;
      if events[n].Finish? {
        OneLess(Outstanding(events[..n]), events[n].q);
      }
    }
  }

  lemma {:induction false} OneLess(s: set<Query>, q: Query)
    requires q in s && |s| <= 1
    ensures s - {q} == {}
  {
    assert |s - {q}| == |s| - 1;
  }

  /** When every end callback answers an outstanding query, queries never overlap exactly
      when no query is submitted by the tick that gives one up, or while one that was
      given up is still unanswered. */
  lemma {:induction false} NeverOverlapsExactly(events: seq<Event>)
    requires Answers(events)
    ensures NeverOverlaps(events) <==> HoldsBack(events)
  {
    if NeverOverlaps(events) {
      forall i | 0 <= i < |events| && Submits(events, i) ensures !GivesUp(events, i) && Abandoned(events[..i]) == {} {
        if GivesUp(events, i) {
          InFlightOutstanding(events[..i]);
        }
      }
    }
    if HoldsBack(events) {
      forall i | 0 <= i < |events| && Submits(events, i) ensures Outstanding(events[..i]) == {} {
        AnswersPrefix(events, i);
        OneAtATime(events[..i]);
      }
    }
  }

  /** Answers are prompt: no tick finds a query in flight past its timeout. */
  predicate Prompt(events: seq<Event>) {
    Answers(events) && forall i :: 0 <= i < |events| ==> !GivesUp(events, i)
  }

  lemma {:induction false} PromptAbandonsNothing(events: seq<Event>, n: nat)
    requires Prompt(events) && n <= |events|
    ensures Abandoned(events[..n]) == {}
  {
    if n > 0 {
      PromptAbandonsNothing(events, n - 1);
      assert events[..n][..n - 1] == events[..n - 1];
      assert !GivesUp(events, n - 1);
    }
  }

  /** When answers are prompt, CTP never sees two queries at once, and the flag says
      exactly whether one is outstanding. */
  lemma {:induction false} PromptNeverOverlaps(events: seq<Event>)
    requires Prompt(events)
    ensures NeverOverlaps(events)
    ensures |Outstanding(events)| == if Run(events).inFlight then 1 else 0
  {
    forall i | 0 <= i < |events| && Submits(events, i) ensures !GivesUp(events, i) && Abandoned(events[..i]) == {} {
      PromptAbandonsNothing(events, i);
    }
    NeverOverlapsExactly(events);
    OneAtATime(events);
    PromptAbandonsNothing(events, |events|);
    assert events[..|events|] == events;
  }

  /** One step of a run and of what is outstanding. */
  lemma {:induction false} After(events: seq<Event>, n: nat)
    requires n < |events|
    ensures Run(events[..n + 1]) == Next(Run(events[..n]), events[n])
    ensures Outstanding(events[..n + 1]) == Owed(Outstanding(events[..n]), Run(events[..n]), events[n])
  {
    assert events[..n + 1][..n] == events[..n];
  }

  function TimeoutRun(a: Query, b: Query, c: Query, t: int, u: int): (events: seq<Event>)
    ensures |events| == 7
    ensures events[0] == Push(a) && events[1] == Push(b) && events[2] == Push(c)
    ensures events[3] == Tick(t, true, true, t) && events[4] == events[6] == Tick(u, true, true, u)
    ensures events[5] == Finish(a)
  {
    [Push(a), Push(b), Push(c), Tick(t, true, true, t), Tick(u, true, true, u), Finish(a), Tick(u, true, true, u)]
  }

  lemma {:induction false} TimeoutPushes(a: Query, b: Query, c: Query, t: int, u: int)
    ensures var events := TimeoutRun(a, b, c, t, u);
            Run(events[..3]) == Pump([a, b, c], false, 0) && Outstanding(events[..3]) == {}
  {
    var events := TimeoutRun(a, b, c, t, u);
    assert Run(events[..0]) == IDLE && Outstanding(events[..0]) == {};
    hide Run, Outstanding, TimeoutRun;
    After(events, 0);
    After(events, 1);
    After(events, 2);
  }

  lemma {:induction false} TimeoutSteps(a: Query, b: Query, c: Query, t: int, u: int)
    requires a != b && b != c && c != a && u >= t + QUERY_TIMEOUT_NS
    ensures var events := TimeoutRun(a, b, c, t, u);
            && Run(events[..4]) == Pump([b, c], true, t) && Outstanding(events[..4]) == {a}
            && Run(events[..5]) == Pump([c], true, u) && Outstanding(events[..5]) == {a, b}
            && Run(events[..6]) == Pump([c], false, u) && Outstanding(events[..6]) == {b}
            && Outstanding(events[..7]) == {b, c}
  {
    hide Run, Outstanding, TimeoutRun;
    var events := TimeoutRun(a, b, c, t, u);
    TimeoutPushes(a, b, c, t, u);
    After(events, 3);
    assert Run(events[..4]) == Pump([b, c], true, t) && Outstanding(events[..4]) == {a};
    After(events, 4);
    assert Run(events[..5]) == Pump([c], true, u) && Outstanding(events[..5]) == {a, b};
    After(events, 5);
    assert Run(events[..6]) == Pump([c], false, u) && Outstanding(events[..6]) == {b};
    After(events, 6);
  }

  /** A timeout with another query queued breaks it: the tick that gives up the first
      query submits the second beside it. The late answer to the first then clears the
      flag of the second, and a third is sent beside that. */
  lemma {:induction false} TimeoutOverlaps(a: Query, b: Query, c: Query, t: int, u: int)
    requires a != b && b != c && c != a && u >= t + QUERY_TIMEOUT_NS
    ensures var events := TimeoutRun(a, b, c, t, u);
            && Answers(events) && !NeverOverlaps(events)
            && Outstanding(events[..5]) == {a, b} && Outstanding(events) == {b, c}
  {
    var events := TimeoutRun(a, b, c, t, u);
    TimeoutSteps(a, b, c, t, u);
    assert events[..7] == events;
    hide Run, Outstanding, TimeoutRun;
    assert Submits(events, 4);
  }
}
