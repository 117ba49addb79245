/** The bar generator for one instrument, as a function of its quotes: which quotes a bar
    summarises, how its window moves, and what its volumes add up to. Prices are ticks. */
module Bars {
  import opened Integers

  datatype Quote = Quote(genTime: int, dataTime: int, price: int, volume: int)

  datatype Bar = Bar(start: int, end: int, open: int, close: int, low: int, high: int,
                     volume: int, startVolume: int, tickCount: int)

  /** The remainder of C++, which takes the sign of the dividend. */
  function Remainder(a: int, b: int): int
    requires b > 0
  {
    if a >= 0 then a % b else -((-a) % b)
  }

  ghost predicate Aligned(t: int, interval: int) {
    exists k: int :: t == k * interval
  }

  /** The bar a first quote creates; its window comes from the time of the event. */
  function NewBar(q: Quote, interval: int): Bar
    requires interval > 0
  {
    var start := q.genTime - Remainder(q.genTime, interval);
    Bar(start, start + interval, 0, 0, 0, 0, 0, 0, 0)
  }

  /** A quote inside the window, both ends included, is counted; any other is not. */
  function Accept(b: Bar, q: Quote): Bar {
    if !(b.start <= q.dataTime <= b.end) then b
    else
      var c := if b.tickCount == 0 then
        b.(high := q.price, low := q.price, open := q.price, close := q.price, startVolume := q.volume)
      else b;
      c.(tickCount := c.tickCount + 1, volume := q.volume - c.startVolume,
         high := Max(c.high, q.price), low := Min(c.low, q.price), close := q.price)
  }

  /** The catch-up loop: the last multiple of the interval the loop stops at. */
  function CatchUp(start: int, interval: int, t: int): (s: int)
    requires interval > 0
    ensures start <= s && t <= s + interval && (s == start || s < t)
    decreases t - start
  {
    if start + interval < t then CatchUp(start + interval, interval, t) else start
  }

  /** The bar a roll-over quote opens, whatever the window it caught up with. */
  function Reopen(b: Bar, q: Quote, interval: int): Bar
    requires interval > 0
  {
    var start := CatchUp(b.end, interval, q.dataTime);
    if start <= q.dataTime then
      Bar(start, start + interval, q.price, q.price, q.price, q.price, 0, q.volume, 1)
    else Bar(start, start + interval, 0, 0, 0, 0, 0, 0, 0)
  }

  /** A written bar, current while the quotes from `from` up to `to` were handled. */
  datatype Written = Written(bar: Bar, from: nat, to: nat)

  /** After some quotes: the current bar, the quote it opened with, the bars written. */
  datatype Track = Track(bar: Bar, from: nat, written: seq<Written>)

  /** The bar a quote meets: the current one, or a new one for the first quote. */
  function Meets(qs: seq<Quote>, interval: int): Track
    requires interval > 0 && qs != []
    decreases |qs|, 0
  {
    var n := |qs| - 1;
    if n == 0 then Track(NewBar(qs[0], interval), 0, []) else Run(qs[..n], interval)
  }

  function Run(qs: seq<Quote>, interval: int): Track
    requires interval > 0 && qs != []
    decreases |qs|, 1
  {
    Advance(Meets(qs, interval), qs[|qs| - 1], |qs| - 1, interval)
  }

  /** Quote number `i` meets the current bar: counted, and then perhaps rolled over. */
  function Advance(t: Track, q: Quote, i: nat, interval: int): Track
    requires interval > 0
  {
    var b := Accept(t.bar, q);
    if q.dataTime >= b.end then
      Track(Reopen(b, q, interval), i, t.written + [Written(b, t.from, i + 1)])
    else t.(bar := b)
  }

  /** The quotes a window admits, in order. */
  function Within(qs: seq<Quote>, start: int, end: int): seq<Quote> {
    if qs == [] then []
    else
      var before, q := Within(qs[..|qs| - 1], start, end), qs[|qs| - 1];
      if start <= q.dataTime <= end then before + [q] else before
  }

  /** First, last, least, greatest, count and volume difference of some quotes. */
  predicate Summarises(b: Bar, qs: seq<Quote>) {
    && b.tickCount == |qs| && qs != []
    && b.open == qs[0].price && b.close == qs[|qs| - 1].price
    && (forall i :: 0 <= i < |qs| ==> b.low <= qs[i].price <= b.high)
    && (exists i :: 0 <= i < |qs| && qs[i].price == b.low)
    && (exists i :: 0 <= i < |qs| && qs[i].price == b.high)
    && b.startVolume == qs[0].volume && b.volume == qs[|qs| - 1].volume - qs[0].volume
  }

  /** The bar summarises the quotes of its window among those handled while it was
      current; a bar without ticks admitted none. */
  predicate Faithful(b: Bar, qs: seq<Quote>) {
    var admitted := Within(qs, b.start, b.end);
    if b.tickCount == 0 then admitted == [] && b.volume == 0 else Summarises(b, admitted)
  }

  lemma {:induction false} AcceptFaithful(b: Bar, qs: seq<Quote>, q: Quote)
    requires Faithful(b, qs)
    ensures Faithful(Accept(b, q), qs + [q])
    ensures Accept(b, q).start == b.start && Accept(b, q).end == b.end
  {
    var before, all := Within(qs, b.start, b.end), Within(qs + [q], b.start, b.end);
    assert (qs + [q])[..|qs|] == qs;
    if b.start <= q.dataTime <= b.end {
      assert all == before + [q];
      if b.tickCount > 0 {
        SummaryExtends(b, before, q);
      }
    }
  }

  lemma {:induction false} SummaryExtends(b: Bar, qs: seq<Quote>, q: Quote)
    requires Summarises(b, qs) && b.start <= q.dataTime <= b.end
    ensures Summarises(Accept(b, q), qs + [q])
  {
    var c, all := Accept(b, q), qs + [q];
    var lo :| 0 <= lo < |qs| && qs[lo].price == b.low;
    var hi :| 0 <= hi < |qs| && qs[hi].price == b.high;
    assert all[lo].price == b.low && all[hi].price == b.high && all[|qs|].price == q.price;
    assert all[if q.price < b.low then |qs| else lo].price == c.low;
    assert all[if b.high < q.price then |qs| else hi].price == c.high;
  }

  /** The quote that rolls the window over always lies inside the window it opens, so
      the branch that would open an empty bar is never taken. */
  lemma {:induction false} RollOverOpens(b: Bar, q: Quote, interval: int)
    requires interval > 0 && q.dataTime >= b.end
    ensures var r := Reopen(b, q, interval);
            && b.end <= r.start <= q.dataTime <= r.end == r.start + interval
            && (r.start == q.dataTime ==> r.start == b.end)
            && r.tickCount == 1 && Faithful(r, [q])
  {
    var r := Reopen(b, q, interval);
    assert [q][..0] == [];
    assert Within([q], r.start, r.end) == [q];
  }

  /** The invariant of a run: every bar, written or current, is faithful to the quotes
      handled while it was current. */
  predicate AllFaithful(t: Track, qs: seq<Quote>) {
    && t.from < |qs| && Faithful(t.bar, qs[t.from..])
    && forall i :: 0 <= i < |t.written| ==>
         var w := t.written[i]; w.from < w.to <= |qs| && Faithful(w.bar, qs[w.from..w.to])
  }

  lemma {:induction false} SlicePrefix(qs: seq<Quote>, n: nat, from: nat, to: nat)
    requires from <= to <= n <= |qs|
    ensures qs[..n][from..to] == qs[from..to]
  {
  }

  /** Every bar written with ticks is the summary of exactly the quotes handled while it
      was current that its window admits; a bar written without ticks admitted none. */
  lemma {:induction false} BarsAreFolds(qs: seq<Quote>, interval: int)
    requires interval > 0 && qs != []
    ensures AllFaithful(Run(qs, interval), qs)
    decreases |qs|
  {
    var n := |qs| - 1;
    var q, t := qs[n], Meets(qs, interval);
    if n > 0 {
      BarsAreFolds(qs[..n], interval);
      assert qs[t.from..] == qs[..n][t.from..] + [q];
      AcceptFaithful(t.bar, qs[..n][t.from..], q);
    } else {
      assert Within([], t.bar.start, t.bar.end) == [];
      AcceptFaithful(t.bar, [], q);
      assert qs == [] + [q] && qs[0..] == qs;
    }
    hide Faithful, Accept;
    forall i | 0 <= i < |t.written|
      ensures var w := t.written[i]; w.from < w.to <= |qs| && Faithful(w.bar, qs[w.from..w.to])
    {
      var w := t.written[i];
      assert n > 0 && AllFaithful(t, qs[..n]);
      assert w.from < w.to <= n;
      SlicePrefix(qs, n, w.from, w.to);
    }
    AdvanceFaithful(t, qs, interval);
  }

  lemma {:induction false} AdvanceFaithful(t: Track, qs: seq<Quote>, interval: int)
    requires interval > 0 && qs != [] && t.from < |qs|
    requires Faithful(Accept(t.bar, qs[|qs| - 1]), qs[t.from..])
    requires forall i :: 0 <= i < |t.written| ==>
               var w := t.written[i]; w.from < w.to <= |qs| && Faithful(w.bar, qs[w.from..w.to])
    ensures AllFaithful(Advance(t, qs[|qs| - 1], |qs| - 1, interval), qs)
  {
    var n := |qs| - 1;
    var b := Accept(t.bar, qs[n]);
    if qs[n].dataTime >= b.end {
      RollOverOpens(b, qs[n], interval);
    }
    hide Faithful, Accept, Reopen;
    assert qs[n..] == [qs[n]];
    assert qs[t.from..|qs|] == qs[t.from..];
  }

  /** A window is one interval long and starts at a multiple of it. */
  ghost predicate Shaped(b: Bar, interval: int) {
    Aligned(b.start, interval) && b.end == b.start + interval
  }

  ghost predicate AllShaped(t: Track, interval: int) {
    Shaped(t.bar, interval) && forall i :: 0 <= i < |t.written| ==> Shaped(t.written[i].bar, interval)
  }

  /** Windows follow each other without overlap. */
  predicate InOrder(t: Track) {
    && (forall i, j :: 0 <= i < j < |t.written| ==> t.written[i].bar.end <= t.written[j].bar.start)
    && (forall i :: 0 <= i < |t.written| ==> t.written[i].bar.end <= t.bar.start)
  }

  /** Each bar is opened by the quote that closed the one before, which lies inside it. */
  predicate Chained(t: Track, qs: seq<Quote>) {
    && (forall i :: 0 <= i < |t.written| ==> t.written[i].from == if i == 0 then 0 else t.written[i - 1].to - 1)
    && (t.written == [] ==> t.from == 0)
    && (t.written != [] ==>
          && t.from == t.written[|t.written| - 1].to - 1
          && t.bar.tickCount > 0 && t.from < |qs| && t.bar.start <= qs[t.from].dataTime <= t.bar.end)
  }

  /** The windows of a run: aligned, one interval long, in order, without overlap, each
      opened by the quote that closed the one before. */
  ghost predicate WindowsOrdered(t: Track, qs: seq<Quote>, interval: int) {
    AllShaped(t, interval) && InOrder(t) && Chained(t, qs)
  }

  /** The first window is the one that the time of the first event falls in; the C++
      remainder puts a negative time at the end of its window instead of the start. */
  lemma {:induction false} FirstWindowHolds(q: Quote, interval: int)
    requires interval > 0
    ensures var b := Meets([q], interval).bar;
            && b.end == b.start + interval && b.tickCount == 0
            && (q.genTime >= 0 ==> b.start <= q.genTime < b.end)
            && (q.genTime < 0 ==> b.start - interval < q.genTime <= b.start)
  {
    var g := q.genTime;
    if g >= 0 {
      assert 0 <= g % interval < interval;
    } else {
      assert 0 <= (-g) % interval < interval;
    }
  }

  /** So a first quote whose data time lies in the window of its event, ends included, is
      counted: it makes the first bar, or the bar after it when it falls on its end. */
  lemma {:induction false} FirstQuoteCounted(q: Quote, interval: int)
    requires interval > 0 && q.genTime >= 0
    ensures var b, t := Meets([q], interval).bar, Run([q], interval);
            && (b.start <= q.dataTime < b.end ==>
                  && t.written == [] && t.bar.start == b.start && t.bar.end == b.end
                  && Summarises(t.bar, [q]) && FirstCounted([q], interval) == 0)
            && (q.dataTime == b.end ==> |t.written| == 1 && Summarises(t.written[0].bar, [q]) && Summarises(t.bar, [q]))
            && (q.dataTime < b.start ==> t.bar == b && t.written == [] && FirstCounted([q], interval) == -1)
  {
    var b := Meets([q], interval).bar;
    FirstWindowHolds(q, interval);
    assert [q][..0] == [] && FirstCounted([], interval) == -1;
    if q.dataTime >= b.end {
      RollOverOpens(Accept(b, q), q, interval);
    }
  }

  lemma {:induction false} NewBarAligned(q: Quote, interval: int)
    requires interval > 0
    ensures Aligned(NewBar(q, interval).start, interval)
  {
    var g := q.genTime;
    var k := if g >= 0 then g / interval else -((-g) / interval);
    assert NewBar(q, interval).start == k * interval;
  }

  lemma {:induction false} CatchUpAligned(start: int, interval: int, t: int)
    requires interval > 0 && Aligned(start, interval)
    ensures Aligned(CatchUp(start, interval, t), interval)
    decreases t - start
  {
    NextAligned(start, interval);
    if start + interval < t {
      CatchUpAligned(start + interval, interval, t);
    }
  }

  lemma {:induction false} NextAligned(start: int, interval: int)
    requires Aligned(start, interval)
    ensures Aligned(start + interval, interval)
  {
    var k :| start == k * interval;
    assert start + interval == (k + 1) * interval;
  }

  lemma {:induction false} AdvanceShape(t: Track, q: Quote, i: nat, interval: int)
    requires interval > 0 && AllShaped(t, interval)
    ensures AllShaped(Advance(t, q, i, interval), interval)
  {
    var b := Accept(t.bar, q);
    assert Shaped(b, interval);
    if q.dataTime >= b.end {
      RollOverOpens(b, q, interval);
      NextAligned(b.start, interval);
      CatchUpAligned(b.end, interval, q.dataTime);
    }
  }

  lemma {:induction false} AdvanceOrder(t: Track, q: Quote, i: nat, interval: int)
    requires interval > 0 && AllShaped(t, interval) && InOrder(t)
    ensures InOrder(Advance(t, q, i, interval))
  {
    var b := Accept(t.bar, q);
    assert b.start == t.bar.start && b.end == t.bar.end == b.start + interval;
    if q.dataTime >= b.end {
      RollOverOpens(b, q, interval);
    }
  }

  lemma {:induction false} AdvanceChain(t: Track, qs: seq<Quote>, q: Quote, interval: int)
    requires interval > 0 && Chained(t, qs)
    ensures Chained(Advance(t, q, |qs|, interval), qs + [q])
  {
    var b := Accept(t.bar, q);
    if q.dataTime >= b.end {
      RollOverOpens(b, q, interval);
      assert (qs + [q])[|qs|] == q;
    }
  }

  lemma {:induction false} WindowsStayOrdered(qs: seq<Quote>, interval: int)
    requires interval > 0 && qs != []
    ensures WindowsOrdered(Meets(qs, interval), qs[..|qs| - 1], interval)
    ensures WindowsOrdered(Run(qs, interval), qs, interval)
    decreases |qs|
  {
    hide AllShaped, InOrder, Chained, Advance;
    var n := |qs| - 1;
    if n > 0 {
      WindowsStayOrdered(qs[..n], interval);
    } else {
      FirstWindow(qs, interval);
    }
    AdvanceShape(Meets(qs, interval), qs[n], n, interval);
    AdvanceOrder(Meets(qs, interval), qs[n], n, interval);
    AdvanceChain(Meets(qs, interval), qs[..n], qs[n], interval);
    assert qs == qs[..n] + [qs[n]];
  }

  lemma {:induction false} FirstWindow(qs: seq<Quote>, interval: int)
    requires interval > 0 && |qs| == 1
    ensures WindowsOrdered(Meets(qs, interval), qs[..0], interval)
  {
    NewBarAligned(qs[0], interval);
  }

  lemma {:induction false} MeetsShaped(qs: seq<Quote>, interval: int)
    requires interval > 0 && qs != []
    ensures var b := Meets(qs, interval).bar; b.end == b.start + interval
  {
    hide Meets, Run;
    WindowsStayOrdered(qs, interval);
  }

  lemma {:induction false} AdvanceFate(t: Track, q: Quote, i: nat, interval: int)
    requires interval > 0 && t.bar.end == t.bar.start + interval
    ensures var r := Advance(t, q, i, interval); var w := |t.written|;
            && (q.dataTime < t.bar.start ==> r == t)
            && (t.bar.start <= q.dataTime < t.bar.end ==>
                  r.written == t.written && r.bar.tickCount == t.bar.tickCount + 1)
            && (q.dataTime >= t.bar.end ==>
                  && |r.written| == w + 1 && r.written[..w] == t.written
                  && r.bar.tickCount == 1 && r.bar.open == q.price
                  && (r.written[w].bar.tickCount == t.bar.tickCount + 1 <==> q.dataTime == t.bar.end)
                  && (r.written[w].bar == t.bar <==> q.dataTime > t.bar.end))
  {
    hide Faithful, Within;
    if q.dataTime >= t.bar.end {
      RollOverOpens(Accept(t.bar, q), q, interval);
    }
  }

  /** What a quote does depends on where it falls: before the window it changes nothing,
      inside it is counted, and from the end on it closes the bar and opens the next. It
      is then counted in the closed bar too exactly when it falls on the end itself. */
  lemma {:induction false} BoundaryCountedTwiceExactly(qs: seq<Quote>, interval: int)
    requires interval > 0 && qs != []
    ensures var q, t, r := qs[|qs| - 1], Meets(qs, interval), Run(qs, interval); var w := |t.written|;
            && (q.dataTime < t.bar.start ==> r == t)
            && (t.bar.start <= q.dataTime < t.bar.end ==>
                  r.written == t.written && r.bar.tickCount == t.bar.tickCount + 1)
            && (q.dataTime >= t.bar.end ==>
                  && |r.written| == w + 1 && r.written[..w] == t.written
                  && r.bar.tickCount == 1 && r.bar.open == q.price
                  && (r.written[w].bar.tickCount == t.bar.tickCount + 1 <==> q.dataTime == t.bar.end)
                  && (r.written[w].bar == t.bar <==> q.dataTime > t.bar.end))
  {
    hide Advance, Meets;
    MeetsShaped(qs, interval);
    AdvanceFate(Meets(qs, interval), qs[|qs| - 1], |qs| - 1, interval);
  }

  /** The first quote that any bar counted. */
  function FirstCounted(qs: seq<Quote>, interval: int): (r: int)
    requires interval > 0
    ensures -1 <= r < |qs|
  {
    if qs == [] then -1
    else
      var before := FirstCounted(qs[..|qs| - 1], interval);
      var q, t := qs[|qs| - 1], Meets(qs, interval);
      if before >= 0 then before
      else if q.dataTime >= t.bar.start then |qs| - 1
      else -1
  }

  function VolumeOf(ws: seq<Written>): int {
    if ws == [] then 0 else VolumeOf(ws[..|ws| - 1]) + ws[|ws| - 1].bar.volume
  }

  predicate Cumulative(qs: seq<Quote>) {
    forall i, j :: 0 <= i <= j < |qs| ==> qs[i].volume <= qs[j].volume
  }

  /** What the volumes of a run add up to once quote `base` was the first counted. */
  predicate VolumeBounded(t: Track, base: int, seen: int) {
    && t.bar.tickCount > 0
    && VolumeOf(t.written) + t.bar.volume <= t.bar.startVolume + t.bar.volume - base
    && t.bar.startVolume + t.bar.volume <= seen
  }

  predicate NothingCounted(t: Track) {
    t.bar.tickCount == 0 && VolumeOf(t.written) == 0 && t.bar.volume == 0
  }

  lemma {:induction false} AdvanceVolume(t: Track, q: Quote, i: nat, interval: int, base: int, seen: int)
    requires interval > 0 && t.bar.end == t.bar.start + interval && seen <= q.volume
    ensures VolumeBounded(t, base, seen) ==> VolumeBounded(Advance(t, q, i, interval), base, q.volume)
    ensures NothingCounted(t) && q.dataTime >= t.bar.start ==>
              VolumeBounded(Advance(t, q, i, interval), q.volume, q.volume)
    ensures NothingCounted(t) && q.dataTime < t.bar.start ==> NothingCounted(Advance(t, q, i, interval))
  {
    var b := Accept(t.bar, q);
    if q.dataTime >= b.end {
      RollOverOpens(b, q, interval);
      var ws := t.written + [Written(b, t.from, i + 1)];
      assert ws[..|ws| - 1] == t.written;
    }
  }

  /** With cumulative volumes, the volume of the written bars and the current one never
      exceeds what passed between the first counted quote and the last one seen. */
  lemma {:induction false} VolumeNeverInvented(qs: seq<Quote>, interval: int)
    requires interval > 0 && qs != [] && Cumulative(qs)
    ensures var t, a := Run(qs, interval), FirstCounted(qs, interval);
            var total, seen := VolumeOf(t.written) + t.bar.volume, qs[|qs| - 1].volume;
            if a < 0 then NothingCounted(t)
            else VolumeBounded(t, qs[a].volume, seen) && total <= seen - qs[a].volume
    decreases |qs|
  {
    hide Advance, Accept, Reopen, CatchUp, Meets, VolumeBounded, NothingCounted;
    var n := |qs| - 1;
    var q, t := qs[n], Meets(qs, interval);
    MeetsShaped(qs, interval);
    if n > 0 {
      VolumeNeverInvented(qs[..n], interval);
      MeetsRun(qs, interval);
      var a := FirstCounted(qs[..n], interval);
      AdvanceVolume(t, q, n, interval, if a < 0 then 0 else qs[a].volume, qs[n - 1].volume);
    } else {
      FirstMeets(qs, interval);
      AdvanceVolume(t, q, n, interval, 0, q.volume);
    }
    BoundedTotal(Run(qs, interval));
  }

  lemma {:induction false} MeetsRun(qs: seq<Quote>, interval: int)
    requires interval > 0 && |qs| > 1
    ensures Meets(qs, interval) == Run(qs[..|qs| - 1], interval)
  {
    hide Run;
  }

  lemma {:induction false} FirstMeets(qs: seq<Quote>, interval: int)
    requires interval > 0 && |qs| == 1
    ensures NothingCounted(Meets(qs, interval)) && FirstCounted(qs[..0], interval) == -1
  {
  }

  lemma {:induction false} BoundedTotal(t: Track)
    ensures forall base, seen :: VolumeBounded(t, base, seen) ==> VolumeOf(t.written) + t.bar.volume <= seen - base
  {
  }
}
