/**
 What a meter shows, told from the marked events alone: an exponentially decaying average of the
 numbers of events in each five-second interval since the start.
 */
module EwmaRates {
  import opened EwmaMeters

  // ----- Decaying averages of counts ----------------------------------------------------

  function Pow(x: real, n: nat): real {
    if n == 0 then 1.0 else x * Pow(x, n - 1)
  }

  /** A real product as one term. */
  function Times(a: real, b: real): real {
    a * b
  }

  /** The sum over `i` from `i` up to `n` of (1-alpha)^(n-i) c_i / 5, each weighed by alpha. */
  function LaterPart(alpha: real, counts: seq<int>, i: nat): real
    requires i <= |counts|
    decreases |counts| - i
  {
    if i == |counts| then 0.0
    else
      Times(alpha, Times(Pow(1.0 - alpha, |counts| - 1 - i), counts[i] as real / 5.0))
      + LaterPart(alpha, counts, i + 1)
  }

  /** Events per second: the first interval's rate decayed by each later interval, and every later
      interval's rate weighed by alpha and decayed by those after it. Nothing before the first
      interval is over. */
  function DecayedRate(alpha: real, counts: seq<int>): real {
    if counts == [] then 0.0
    else Times(Pow(1.0 - alpha, |counts| - 1), counts[0] as real / 5.0) + LaterPart(alpha, counts, 1)
  }

  lemma {:induction false} TimesLaws(a: real, b: real, c: real)
    ensures Times(a, b) == Times(b, a) && Times(a, b + c) == Times(a, b) + Times(a, c)
    ensures Times(a, Times(b, c)) == Times(b, Times(a, c)) && Times(Times(a, b), c) == Times(a, Times(b, c))
  {
  }

  lemma {:induction false} PowMore(x: real, n: nat)
    ensures Pow(x, n + 1) == Times(x, Pow(x, n)) && Pow(x, 0) == 1.0
  {
  }

  /** One more interval decays all earlier weights. */
  lemma {:induction false} LaterPartMore(alpha: real, counts: seq<int>, c: int, i: nat)
    requires i <= |counts|
    ensures LaterPart(alpha, counts + [c], i)
            == Times(1.0 - alpha, LaterPart(alpha, counts, i)) + Times(alpha, c as real / 5.0)
    decreases |counts| - i
  {
    var all := counts + [c];
    if i == |counts| {
      LastWeight(alpha, c as real / 5.0);
      assert LaterPart(alpha, all, i + 1) == 0.0 && LaterPart(alpha, counts, i) == 0.0;
    } else {
      LaterPartMore(alpha, counts, c, i + 1);
      DecayTerm(alpha, |counts| - 1 - i, counts[i] as real / 5.0);
      assert all[i] == counts[i];
      TimesLaws(1.0 - alpha, Times(alpha, Times(Pow(1.0 - alpha, |counts| - 1 - i), counts[i] as real / 5.0)),
                LaterPart(alpha, counts, i + 1));
    }
  }

  lemma {:induction false} LastWeight(alpha: real, r: real)
    ensures Times(alpha, Times(Pow(1.0 - alpha, 0), r)) == Times(alpha, r) && Times(1.0 - alpha, 0.0) == 0.0
  {
  }

  lemma {:induction false} DecayTerm(alpha: real, n: nat, r: real)
    ensures Times(alpha, Times(Pow(1.0 - alpha, n + 1), r))
            == Times(1.0 - alpha, Times(alpha, Times(Pow(1.0 - alpha, n), r)))
  {
    PowMore(1.0 - alpha, n);
    TimesLaws(1.0 - alpha, Pow(1.0 - alpha, n), r);
    TimesLaws(alpha, 1.0 - alpha, Times(Pow(1.0 - alpha, n), r));
  }

  lemma {:induction false} DecayedRateMore(alpha: real, counts: seq<int>, c: int)
    ensures DecayedRate(alpha, counts + [c])
            == if counts == [] then c as real / 5.0
               else Times(1.0 - alpha, DecayedRate(alpha, counts)) + Times(alpha, c as real / 5.0)
  {
    var all := counts + [c];
    if counts == [] {
      assert all == [c] && Pow(1.0 - alpha, 0) == 1.0 && LaterPart(alpha, all, 1) == 0.0;
      assert Times(1.0, c as real / 5.0) == c as real / 5.0;
    } else {
      var first := counts[0] as real / 5.0;
      LaterPartMore(alpha, counts, c, 1);
      PowMore(1.0 - alpha, |counts| - 1);
      TimesLaws(1.0 - alpha, Pow(1.0 - alpha, |counts| - 1), first);
      TimesLaws(1.0 - alpha, Times(Pow(1.0 - alpha, |counts| - 1), first), LaterPart(alpha, counts, 1));
      assert all[0] == counts[0];
    }
  }

  // ----- One average --------------------------------------------------------------------

  /** The average has seen the counts of the past intervals and `pending` events since. */
  predicate Shows(a: Average, alpha: real, counts: seq<int>, pending: int) {
    a.alpha == alpha && a.uncounted == pending && (a.initialized <==> counts != [])
    && a.PerSecond() == DecayedRate(alpha, counts)
  }

  lemma {:induction false} TickShows(a: Average, alpha: real, counts: seq<int>, pending: int)
    requires Shows(a, alpha, counts, pending)
    ensures Shows(a.Tick(), alpha, counts + [pending], 0)
  {
    DecayedRateMore(alpha, counts, pending);
    TickRate(a);
  }

  /** One tick of one average, in events per second. */
  lemma {:induction false} TickRate(a: Average)
    ensures var seen := a.uncounted as real / 5.0;
            a.Tick().PerSecond()
            == if a.initialized then Times(1.0 - a.alpha, a.PerSecond()) + Times(a.alpha, seen) else seen
  {
    var seen := a.uncounted as real / 5000000000.0;
    assert seen * 1000000000.0 == a.uncounted as real / 5.0;
    Rescale(a.alpha, a.rate, seen);
  }

  lemma {:induction false} Rescale(alpha: real, rate: real, seen: real)
    ensures (rate + alpha * (seen - rate)) * 1000000000.0
            == Times(1.0 - alpha, rate * 1000000000.0) + Times(alpha, seen * 1000000000.0)
  {
  }

  predicate Idle(a: Average) {
    a.initialized && a.uncounted == 0
  }

  /** Idle averages decay by the same factor at every tick, each with its own alpha. */
  lemma {:induction false} IdleDecay(a: Averages, k: nat)
    requires Idle(a.m1) && Idle(a.m5) && Idle(a.m15)
    ensures a.TickTimes(k).m1.rate == Times(Pow(1.0 - a.m1.alpha, k), a.m1.rate)
    ensures a.TickTimes(k).m5.rate == Times(Pow(1.0 - a.m5.alpha, k), a.m5.rate)
    ensures a.TickTimes(k).m15.rate == Times(Pow(1.0 - a.m15.alpha, k), a.m15.rate)
    decreases k
  {
    if k > 0 {
      IdleDecay(a.Tick(), k - 1);
      OneMoreDecay(a.m1, k - 1);
      OneMoreDecay(a.m5, k - 1);
      OneMoreDecay(a.m15, k - 1);
    }
  }

  lemma {:induction false} OneMoreDecay(a: Average, k: nat)
    requires Idle(a)
    ensures Idle(a.Tick()) && a.Tick().alpha == a.alpha
    ensures Times(Pow(1.0 - a.alpha, k), a.Tick().rate) == Times(Pow(1.0 - a.alpha, k + 1), a.rate)
  {
    var x := 1.0 - a.alpha;
    assert a.rate + a.alpha * (0.0 - a.rate) == Times(x, a.rate);
    PowMore(x, k);
    TimesLaws(Pow(x, k), x, a.rate);
    TimesLaws(x, Pow(x, k), a.rate);
  }

  // ----- Which tick an event belongs to -------------------------------------------------

  /** Ticks made once the event is handled, `done` before it: a mark of nothing does not look at the clock,
      and one interval after the last tick is not yet late enough. */
  function TicksAfter(start: nat, done: nat, e: Event): (ticks: nat)
    ensures done <= ticks
  {
    if (e.Mark? ==> e.n > 0) && e.at > start + (done + 1) * TICK_INTERVAL then (e.at - start) / TICK_INTERVAL
    else done
  }

  /** Ticks made by the end of a run. */
  function Ticks(start: nat, events: seq<Event>): nat {
    if events == [] then 0 else TicksAfter(start, Ticks(start, events[..|events| - 1]), events[|events| - 1])
  }

  /** The events marked after `k` ticks and before the next one. */
  function MarkedAt(start: nat, events: seq<Event>, k: nat): nat {
    if events == [] then 0
    else
      var e := events[|events| - 1];
      MarkedAt(start, events[..|events| - 1], k) + if e.Mark? && Ticks(start, events) == k then e.n else 0
  }

  /** What each of the first `n` ticks folds in. */
  function Folded(start: nat, events: seq<Event>, n: nat): (counts: seq<int>)
    ensures |counts| == n
  {
    seq(n, k requires 0 <= k < n => MarkedAt(start, events, k))
  }

  function TotalMarks(events: seq<Event>): nat {
    if events == [] then 0
    else TotalMarks(events[..|events| - 1]) + if events[|events| - 1].Mark? then events[|events| - 1].n else 0
  }

  lemma {:induction false} OneMoreEvent(start: nat, events: seq<Event>, e: Event, k: nat)
    ensures Ticks(start, events + [e]) == TicksAfter(start, Ticks(start, events), e)
    ensures MarkedAt(start, events + [e], k)
            == MarkedAt(start, events, k) + if e.Mark? && Ticks(start, events + [e]) == k then e.n else 0
    ensures TotalMarks(events + [e]) == TotalMarks(events) + if e.Mark? then e.n else 0
  {
    assert (events + [e])[..|events|] == events;
  }

  lemma {:induction false} NothingLater(start: nat, events: seq<Event>, k: nat)
    requires k > Ticks(start, events)
    ensures MarkedAt(start, events, k) == 0
  {
    if events != [] {
      NothingLater(start, events[..|events| - 1], k);
    }
  }

  // ----- The lazy meter -----------------------------------------------------------------

  /** All three averages have seen the same counts, each with its own alpha. */
  predicate ShowAll(a: Averages, a1: real, a5: real, a15: real, counts: seq<int>, pending: int) {
    Shows(a.m1, a1, counts, pending) && Shows(a.m5, a5, counts, pending) && Shows(a.m15, a15, counts, pending)
  }

  /** The counts after `k` more ticks, the first of which folds in `pending`. */
  function Ticked(counts: seq<int>, pending: int, k: nat): seq<int>
    decreases k
  {
    if k == 0 then counts else Ticked(counts + [pending], 0, k - 1)
  }

  lemma {:induction false} TicksShow(a: Averages, a1: real, a5: real, a15: real, counts: seq<int>, pending: int, k: nat)
    requires ShowAll(a, a1, a5, a15, counts, pending)
    ensures ShowAll(a.TickTimes(k), a1, a5, a15, Ticked(counts, pending, k), if k == 0 then pending else 0)
    decreases k
  {
    if k > 0 {
      TickShows(a.m1, a1, counts, pending);
      TickShows(a.m5, a5, counts, pending);
      TickShows(a.m15, a15, counts, pending);
      TicksShow(a.Tick(), a1, a5, a15, counts + [pending], 0, k - 1);
    }
  }

  lemma {:induction false} TickedIsFolded(start: nat, events: seq<Event>, done: nat, k: nat)
    requires Ticks(start, events) <= done
    ensures Ticked(Folded(start, events, done), MarkedAt(start, events, done), k) == Folded(start, events, done + k)
    decreases k
  {
    if k > 0 {
      NothingLater(start, events, done + 1);
      assert Folded(start, events, done) + [MarkedAt(start, events, done)] == Folded(start, events, done + 1);
      TickedIsFolded(start, events, done + 1, k - 1);
    }
  }

  /** The meter has made the ticks of the run, folded in what they fold in, and holds the events since. */
  predicate Holds(m: MeterState, start: nat, a1: real, a5: real, a15: real, events: seq<Event>, done: nat) {
    m.start == start && m.lastTick == start + done * TICK_INTERVAL && m.count == TotalMarks(events)
    && ShowAll(m.averages, a1, a5, a15, Folded(start, events, done), MarkedAt(start, events, done))
  }

  lemma {:induction false} LazyTicksMade(m: MeterState, start: nat, done: nat, at: nat)
    requires m.lastTick == start + done * TICK_INTERVAL && at < start + U32_VALUES * TICK_INTERVAL
    ensures var ticked, ticks := m.TickIfNecessary(at), TicksAfter(start, done, Read(at));
            ticked.lastTick == start + ticks * TICK_INTERVAL && ticked.averages == m.averages.TickTimes(ticks - done)
            && ticked.start == m.start && ticked.count == m.count
  {
    if m.Age(at) > TICK_INTERVAL {
      var passed := at - start;
      assert passed == passed / TICK_INTERVAL * TICK_INTERVAL + passed % TICK_INTERVAL;
      assert m.Age(at) / TICK_INTERVAL == passed / TICK_INTERVAL - done;
      assert passed / TICK_INTERVAL < U32_VALUES;
    }
  }

  lemma {:induction false} TickHolds(m: MeterState, start: nat, a1: real, a5: real, a15: real, events: seq<Event>,
                                     at: nat)
    requires Holds(m, start, a1, a5, a15, events, Ticks(start, events)) && at < start + U32_VALUES * TICK_INTERVAL
    ensures Holds(m.TickIfNecessary(at), start, a1, a5, a15, events, TicksAfter(start, Ticks(start, events), Read(at)))
  {
    var done := Ticks(start, events);
    var ticks := TicksAfter(start, done, Read(at));
    LazyTicksMade(m, start, done, at);
    TicksShow(m.averages, a1, a5, a15, Folded(start, events, done), MarkedAt(start, events, done), ticks - done);
    TickedIsFolded(start, events, done, ticks - done);
    if ticks > done {
      NothingLater(start, events, ticks);
    }
  }

  lemma {:induction false} RunHolds(start: nat, a1: real, a5: real, a15: real, events: seq<Event>)
    requires InOrder(start, start, events)
    ensures Holds(LazyRun(NewMeter(start, a1, a5, a15), events), start, a1, a5, a15, events, Ticks(start, events))
    decreases |events|
  {
    var m0 := NewMeter(start, a1, a5, a15);
    if events == [] {
      assert Folded(start, events, 0) == [];
    } else {
      var init, e := events[..|events| - 1], events[|events| - 1];
      assert events == init + [e];
      InOrderMark(start, start, init, e);
      RunHolds(start, a1, a5, a15, init);
      RunOneMore(m0, NewEager(start, a1, a5, a15), init, e);
      StepHolds(LazyRun(m0, init), start, a1, a5, a15, init, e);
    }
  }

  /** A marked event is counted with those of the ticks just made. */
  lemma {:induction false} CountHolds(m: MeterState, start: nat, a1: real, a5: real, a15: real, events: seq<Event>,
                                      e: Event, n: nat)
    requires Holds(m, start, a1, a5, a15, events, Ticks(start, events + [e])) && n == if e.Mark? then e.n else 0
    ensures Holds(m.(count := m.count + n, averages := m.averages.Update(n)), start, a1, a5, a15, events + [e],
                  Ticks(start, events + [e]))
  {
    var ticks := Ticks(start, events + [e]);
    forall k
      ensures MarkedAt(start, events + [e], k) == MarkedAt(start, events, k) + if ticks == k then n else 0
    {
      OneMoreEvent(start, events, e, k);
    }
    OneMoreEvent(start, events, e, 0);
    assert Folded(start, events + [e], ticks) == Folded(start, events, ticks);
  }

  lemma {:induction false} StepHolds(m: MeterState, start: nat, a1: real, a5: real, a15: real, events: seq<Event>,
                                     e: Event)
    requires Holds(m, start, a1, a5, a15, events, Ticks(start, events)) && e.at < start + U32_VALUES * TICK_INTERVAL
    ensures Holds(LazyStep(m, e), start, a1, a5, a15, events + [e], Ticks(start, events + [e]))
  {
    OneMoreEvent(start, events, e, 0);
    var n := if e.Mark? then e.n else 0;
    var ticked := if e.Mark? && e.n == 0 then m else m.TickIfNecessary(e.at);
    TickHolds(m, start, a1, a5, a15, events, e.at);
    CountHolds(ticked, start, a1, a5, a15, events, e, n);
    MarkNothing(ticked);
  }

  lemma {:induction false} MarkNothing(m: MeterState)
    ensures m.(count := m.count + 0, averages := m.averages.Update(0)) == m
  {
  }

  /** The mean rate times the seconds since the start is the number of events. */
  lemma {:induction false} MeanRateIsMean(count: nat, start: nat, now: nat)
    ensures start < now ==>
              Times(MeanRate(count, start, now), (now - start) as real / 1000000000.0) == count as real
    ensures now <= start ==> MeanRate(count, start, now) == 0.0
  {
    if count > 0 && start < now {
      var t := (now - start) as real;
      assert (count as real * 1000000000.0 / t) * (t / 1000000000.0) == count as real;
    }
  }

  /** What a reading shows after any run: the number of events, their mean over the time since the start, and
      for each of the three averages the decaying average of what its ticks fold in, with that average's own
      alpha. */
  lemma {:induction false} ReadingIsDecayedAverage(start: nat, a1: real, a5: real, a15: real, events: seq<Event>,
                                                   at: nat)
    requires InOrder(start, start, events + [Read(at)])
    ensures var m := LazyRun(NewMeter(start, a1, a5, a15), events).TickIfNecessary(at);
            var s := Reading(m.count, m.start, m.averages, at);
            var counts := Folded(start, events, Ticks(start, events + [Read(at)]));
            && s.count == TotalMarks(events)
            && (start < at ==> Times(s.meanRate, (at - start) as real / 1000000000.0) == TotalMarks(events) as real)
            && s.oneMinuteRate == DecayedRate(a1, counts)
            && s.fiveMinuteRate == DecayedRate(a5, counts)
            && s.fifteenMinuteRate == DecayedRate(a15, counts)
  {
    InOrderPrefix(start, start, events, at);
    RunHolds(start, a1, a5, a15, events);
    TickHolds(LazyRun(NewMeter(start, a1, a5, a15), events), start, a1, a5, a15, events, at);
    OneMoreEvent(start, events, Read(at), 0);
    MeanRateIsMean(TotalMarks(events), start, at);
  }

  // ----- Marks on time ------------------------------------------------------------------

  /** The events marked in interval `k` from the start. */
  function InInterval(start: nat, events: seq<Event>, k: nat): nat {
    if events == [] then 0
    else
      var e := events[|events| - 1];
      InInterval(start, events[..|events| - 1], k)
      + if e.Mark? && start <= e.at && (e.at - start) / 5_000_000_000 == k then e.n else 0
  }

  lemma {:induction false} TicksReached(start: nat, events: seq<Event>)
    requires InOrder(start, start, events)
    ensures start + Ticks(start, events) * TICK_INTERVAL <= LastInstant(start, events)
    decreases |events|
  {
    if events != [] {
      var init, e := events[..|events| - 1], events[|events| - 1];
      assert events == init + [e];
      InOrderMark(start, start, init, e);
      TicksReached(start, init);
    }
  }

  /** Unless an event is marked exactly one interval after the last tick, each tick folds in the events of the
      interval it ends. */
  lemma {:induction false} OnTimeIntervals(start: nat, a1: real, a5: real, a15: real, events: seq<Event>, k: nat)
    requires InOrder(start, start, events) && MarksOnTime(NewMeter(start, a1, a5, a15), events)
    ensures MarkedAt(start, events, k) == InInterval(start, events, k)
    decreases |events|
  {
    if events != [] {
      var init, e := events[..|events| - 1], events[|events| - 1];
      assert events == init + [e];
      InOrderMark(start, start, init, e);
      RunOneMore(NewMeter(start, a1, a5, a15), NewEager(start, a1, a5, a15), init, e);
      OnTimeIntervals(start, a1, a5, a15, init, k);
      RunHolds(start, a1, a5, a15, init);
      TicksReached(start, init);
    }
  }

  /** Then a reading off the five-second grid averages over the intervals that are over. */
  lemma {:induction false} ReadingAveragesIntervals(start: nat, a1: real, a5: real, a15: real, events: seq<Event>,
                                                    at: nat)
    requires InOrder(start, start, events + [Read(at)])
    requires MarksOnTime(NewMeter(start, a1, a5, a15), events) && !OnBoundary(start, at)
    ensures start < at
    ensures var counts := Folded(start, events, Ticks(start, events + [Read(at)]));
            |counts| == (at - start) / 5_000_000_000
            && forall k :: 0 <= k < |counts| ==> counts[k] == InInterval(start, events, k)
  {
    InOrderPrefix(start, start, events, at);
    TicksReached(start, events);
    OneMoreEvent(start, events, Read(at), 0);
    InOrderStarts(start, events, at);
    forall k: nat
      ensures MarkedAt(start, events, k) == InInterval(start, events, k)
    {
      OnTimeIntervals(start, a1, a5, a15, events, k);
    }
  }

  lemma {:induction false} InOrderStarts(start: nat, events: seq<Event>, at: nat)
    requires InOrder(start, start, events + [Read(at)])
    ensures start <= at
  {
    InOrderMark(start, start, events, Read(at));
  }
}
