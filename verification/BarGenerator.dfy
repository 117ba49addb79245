/** The bar generator as the object it is: one bar per instrument, updated field by field
    by each quote, and the bars it writes. */
module BarService {
  import opened Integers
  import opened Bars

  type InstrumentKey = nat

  /** The bars written for one instrument. */
  function WrittenFor(published: seq<(InstrumentKey, Bar)>, key: InstrumentKey): seq<Bar> {
    if published == [] then []
    else
      var before, (k, b) := WrittenFor(published[..|published| - 1], key), published[|published| - 1];
      if k == key then before + [b] else before
  }

  function BarsOf(ws: seq<Written>): (r: seq<Bar>)
    ensures |r| == |ws| && forall i :: 0 <= i < |r| ==> r[i] == ws[i].bar
  {
    seq(|ws|, i requires 0 <= i < |ws| => ws[i].bar)
  }

  lemma {:induction false} WrittenForNext(published: seq<(InstrumentKey, Bar)>, key: InstrumentKey, b: Bar, other: InstrumentKey)
    ensures WrittenFor(published + [(key, b)], other) ==
            if other == key then WrittenFor(published, other) + [b] else WrittenFor(published, other)
  {
    assert (published + [(key, b)])[..|published|] == published;
  }

  class BarGenerator {
    const interval: int
    var bars: map<InstrumentKey, Bar>
    var published: seq<(InstrumentKey, Bar)>
    /** The quotes handled so far, per instrument. */
    ghost var history: map<InstrumentKey, seq<Quote>>

    /** Each instrument's bar and written bars are those of its own run of quotes. */
    ghost predicate Valid()
      reads this
    {
      && interval > 0 && bars.Keys == history.Keys
      && (forall k :: k in history ==> history[k] != [] && Tracks(bars[k], WrittenFor(published, k), history[k], interval))
      && (forall k :: k !in history ==> WrittenFor(published, k) == [])
    }

    constructor (interval: int)
      requires interval > 0
      ensures Valid() && this.interval == interval && history == map[] && published == []
    {
      this.interval := interval;
      bars, published, history := map[], [], map[];
    }

    /** The counting half of the quote handler. */
    method CountIn(bar: Bar, q: Quote) returns (r: Bar)
      ensures r == Accept(bar, q)
    {
      r := bar;
      if q.dataTime >= r.start && q.dataTime <= r.end {
        if r.tickCount == 0 {
          r := r.(high := q.price);
          r := r.(low := q.price);
          r := r.(open := q.price);
          r := r.(close := q.price);
          r := r.(startVolume := q.volume);
        }
        r := r.(tickCount := r.tickCount + 1);
        r := r.(volume := q.volume - r.startVolume);
        r := r.(high := Max(r.high, q.price));
        r := r.(low := Min(r.low, q.price));
        r := r.(close := q.price);
      }
    }

    /** The roll-over half: the window catches up with the quote, which opens the next
        bar. The branch for an empty next bar cannot be reached. */
    method RollOver(bar: Bar, q: Quote) returns (r: Bar)
      requires interval > 0 && q.dataTime >= bar.end
      ensures r == Reopen(bar, q, interval)
    {
      RollOverOpens(bar, q, interval);
      r := bar.(start := bar.end);
      while r.start + interval < q.dataTime
        invariant CatchUp(r.start, interval, q.dataTime) == CatchUp(bar.end, interval, q.dataTime)
        decreases q.dataTime - r.start
      {
        r := r.(start := r.start + interval);
      }
      r := r.(end := r.start + interval);
      if r.start <= q.dataTime {
        r := r.(tickCount := 1, startVolume := q.volume, volume := 0);
        r := r.(high := q.price, low := q.price, open := q.price, close := q.price);
      } else {
        assert false;
      }
    }

    method Write(key: InstrumentKey, bar: Bar)
      modifies this`published
      ensures published == old(published) + [(key, bar)]
      ensures forall k :: WrittenFor(published, k) ==
                          if k == key then WrittenFor(old(published), k) + [bar] else WrittenFor(old(published), k)
    {
      forall k ensures WrittenFor(published + [(key, bar)], k) ==
                       if k == key then WrittenFor(published, k) + [bar] else WrittenFor(published, k)
      {
        WrittenForNext(published, key, bar, k);
      }
      published := published + [(key, bar)];
    }

    /** The bar a quote meets is counted into and, from the end of its window on, written
        and rolled over. */
    method Handle(key: InstrumentKey, q: Quote)
      requires interval > 0 && key in bars
      modifies this`bars, this`published
      ensures var b := Accept(old(bars)[key], q);
              && bars == old(bars)[key := if q.dataTime >= b.end then Reopen(b, q, interval) else b]
              && published == old(published) + if q.dataTime >= b.end then [(key, b)] else []
      ensures var b := Accept(old(bars)[key], q);
              forall k :: WrittenFor(published, k) ==
                          if k == key && q.dataTime >= b.end then WrittenFor(old(published), k) + [b]
                          else WrittenFor(old(published), k)
    {
      hide Accept, Reopen, WrittenFor;
      var bar := CountIn(bars[key], q);
      bars := bars[key := bar];
      if q.dataTime >= bar.end {
        Write(key, bar);
        var next := RollOver(bar, q);
        bars := bars[key := next];
      }
    }

    /** The quote handler. */
    method OnQuote(key: InstrumentKey, q: Quote)
      requires Valid()
      modifies this
      ensures Valid()
      ensures history == old(history)[key := Seen(old(history), key) + [q]]
    {
      hide Tracks, Accept, Reopen, NewBar, WrittenFor;
      ghost var before := Seen(history, key);
      if key !in bars {
        bars := bars[key := NewBar(q, interval)];
      }
      TracksNext(bars[key], WrittenFor(published, key), before, q, interval);
      Handle(key, q);
      history := history[key := before + [q]];
    }
  }

  /** The current bar and the written ones are those of the run over `qs`. */
  predicate Tracks(bar: Bar, written: seq<Bar>, qs: seq<Quote>, interval: int)
    requires interval > 0
  {
    qs != [] && bar == Run(qs, interval).bar && written == BarsOf(Run(qs, interval).written)
  }

  lemma {:induction false} TracksNext(met: Bar, written: seq<Bar>, before: seq<Quote>, q: Quote, interval: int)
    requires interval > 0
    requires if before == [] then met == NewBar(q, interval) && written == [] else Tracks(met, written, before, interval)
    ensures var b := Accept(met, q);
            if q.dataTime >= b.end then Tracks(Reopen(b, q, interval), written + [b], before + [q], interval)
            else Tracks(b, written, before + [q], interval)
  {
    RunNext(before, q, interval);
    hide Run, Accept, Reopen, NewBar;
    assert written + [] == written;
  }

  function Seen(history: map<InstrumentKey, seq<Quote>>, key: InstrumentKey): seq<Quote> {
    if key in history then history[key] else []
  }

  lemma {:induction false} RunNext(before: seq<Quote>, q: Quote, interval: int)
    requires interval > 0
    ensures Run(before + [q], interval) ==
            Advance(if before == [] then Track(NewBar(q, interval), 0, []) else Run(before, interval),
                    q, |before|, interval)
    ensures BarsOf(Run(before + [q], interval).written) ==
            var met := if before == [] then Track(NewBar(q, interval), 0, []) else Run(before, interval);
            var b := Accept(met.bar, q);
            BarsOf(met.written) + if q.dataTime >= b.end then [b] else []
  {
    assert (before + [q])[..|before|] == before;
  }
}
