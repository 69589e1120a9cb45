/**
 Lazily ticked moving-average meters, and the eager meter they stand for: one that ticks at
 every five-second boundary. Instants are nanoseconds; rates are exact reals.
 */
module EwmaMeters {

  const TICK_INTERVAL: nat := 5_000_000_000
  const SECOND: nat := 1_000_000_000
  const U32_VALUES: nat := 0x1_0000_0000

  // ----- One moving average -------------------------------------------------------------

  /** A moving average: its rate in events per nanosecond and the events not yet folded in. */
  datatype Average = Average(initialized: bool, rate: real, uncounted: int, alpha: real) {

    function Update(n: int): Average {
      this.(uncounted := uncounted + n)
    }

    function Tick(): Average {
      var instantRate := uncounted as real / TICK_INTERVAL as real;
      this.(uncounted := 0,
            initialized := true,
            rate := if initialized then rate + alpha * (instantRate - rate) else instantRate)
    }

    function PerSecond(): real {
      rate * SECOND as real
    }
  }

  class Ewma {
    var initialized: bool
    var rate: real
    var uncounted: int
    const alpha: real

    constructor (alpha: real)
      ensures Value() == Average(false, 0.0, 0, alpha)
    {
      initialized, rate, uncounted := false, 0.0, 0;
      this.alpha := alpha;
    }

    ghost function Value(): Average
      reads this
    {
      Average(initialized, rate, uncounted, alpha)
    }

    method Update(n: int)
      modifies this
      ensures Value() == old(Value()).Update(n)
    {
      uncounted := uncounted + n;
    }

    method Tick()
      modifies this
      ensures Value() == old(Value()).Tick()
    {
      var count := uncounted as real;
      uncounted := 0;
      var instantRate := count / TICK_INTERVAL as real;
      if initialized {
        rate := rate + alpha * (instantRate - rate);
      } else {
        rate := instantRate;
        initialized := true;
      }
    }

    method Rate() returns (r: real)
      ensures r == Value().PerSecond()
    {
      r := rate * SECOND as real;
    }
  }

  // ----- The meter ----------------------------------------------------------------------

  /** The one-, five- and fifteen-minute averages. */
  datatype Averages = Averages(m1: Average, m5: Average, m15: Average) {

    function Update(n: int): Averages {
      Averages(m1.Update(n), m5.Update(n), m15.Update(n))
    }

    function Tick(): Averages {
      Averages(m1.Tick(), m5.Tick(), m15.Tick())
    }

    function TickTimes(k: nat): Averages
      decreases k
    {
      if k == 0 then this else Tick().TickTimes(k - 1)
    }
  }

  datatype MeterState = MeterState(count: nat, start: nat, lastTick: nat, averages: Averages) {

    function Age(now: nat): nat {
      if now < lastTick then 0 else now - lastTick
    }

    /** Applies the whole intervals passed since the last tick, but only once more than one
        interval has passed. The advance of `lastTick` keeps 32 bits of the tick count. */
    function TickIfNecessary(now: nat): MeterState {
      if Age(now) > TICK_INTERVAL then
        var ticks := Age(now) / TICK_INTERVAL;
        this.(lastTick := lastTick + TICK_INTERVAL * (ticks % U32_VALUES), averages := averages.TickTimes(ticks))
      else this
    }

    function Mark(n: nat, now: nat): MeterState {
      if n == 0 then this
      else
        var ticked := TickIfNecessary(now);
        ticked.(count := count + n, averages := ticked.averages.Update(n))
    }
  }

  function MeanRate(count: nat, start: nat, now: nat): real {
    if count > 0 && now > start then count as real * SECOND as real / (now - start) as real else 0.0
  }

  datatype Snapshot = Snapshot(count: nat, meanRate: real, oneMinuteRate: real, fiveMinuteRate: real,
                               fifteenMinuteRate: real)

  function Reading(count: nat, start: nat, averages: Averages, now: nat): Snapshot {
    Snapshot(count, MeanRate(count, start, now),
             averages.m1.PerSecond(), averages.m5.PerSecond(), averages.m15.PerSecond())
  }

  class MeterInner {
    var count: nat
    const start: nat
    var lastTick: nat
    const m1: Ewma
    const m5: Ewma
    const m15: Ewma

    ghost predicate Valid() {
      m1 != m5 && m1 != m15 && m5 != m15
    }

    ghost function State(): MeterState
      reads this, m1, m5, m15
    {
      MeterState(count, start, lastTick, Averages(m1.Value(), m5.Value(), m15.Value()))
    }

    constructor (now: nat, a1: real, a5: real, a15: real)
      ensures Valid() && fresh(m1) && fresh(m5) && fresh(m15)
      ensures State() == NewMeter(now, a1, a5, a15)
    {
      count, start, lastTick := 0, now, now;
      m1 := new Ewma(a1);
      m5 := new Ewma(a5);
      m15 := new Ewma(a15);
    }

    method TickIfNecessary(now: nat)
      requires Valid()
      modifies this`lastTick, m1, m5, m15
      ensures State() == old(State()).TickIfNecessary(now)
    {
      var age := if now < lastTick then 0 else now - lastTick;
      if age > TICK_INTERVAL {
        var requiredTicks := age / TICK_INTERVAL;
        lastTick := lastTick + TICK_INTERVAL * (requiredTicks % U32_VALUES);
        ghost var before := State().averages;
        for i := 0 to requiredTicks
          invariant State().(averages := before) == old(State()).(lastTick := lastTick)
          invariant before.TickTimes(requiredTicks) == State().averages.TickTimes(requiredTicks - i)
          modifies m1, m5, m15
        {
          m1.Tick();
          m5.Tick();
          m15.Tick();
        }
      }
    }

    method Mark(n: nat, now: nat)
      requires Valid() && n > 0
      modifies this, m1, m5, m15
      ensures State() == old(State()).Mark(n, now)
    {
      TickIfNecessary(now);
      count := count + n;
      m1.Update(n);
      m5.Update(n);
      m15.Update(n);
    }

    /** Marking zero events does not even tick. */
    method MarkAt(n: nat, now: nat)
      requires Valid()
      modifies this, m1, m5, m15
      ensures State() == old(State()).Mark(n, now)
    {
      if n == 0 {
        return;
      }
      Mark(n, now);
    }

    /** Reads the mean rate first, then each average after ticking. Up to 2^32 ticks after the start
        the second and third tick find nothing to do, so that the three rates are of one state. */
    method SnapshotAt(now: nat) returns (s: Snapshot)
      requires Valid()
      modifies this`lastTick, m1, m5, m15
      ensures var first := old(State()).TickIfNecessary(now);
              var second := first.TickIfNecessary(now);
              State() == second.TickIfNecessary(now)
              && s == Snapshot(count, MeanRate(count, start, now), first.averages.m1.PerSecond(),
                               second.averages.m5.PerSecond(), State().averages.m15.PerSecond())
      ensures now < old(lastTick) + U32_VALUES * TICK_INTERVAL ==>
                State() == old(State()).TickIfNecessary(now) && s == Reading(count, start, State().averages, now)
    {
      var meanRate := MeanRate(count, start, now);
      ghost var before := State();
      TickIfNecessary(now);
      var one := m1.Rate();
      TickIfNecessary(now);
      var five := m5.Rate();
      TickIfNecessary(now);
      var fifteen := m15.Rate();
      s := Snapshot(count, meanRate, one, five, fifteen);
      if now < before.lastTick + U32_VALUES * TICK_INTERVAL {
        TickTwice(before, now);
      }
    }
  }

  function NewMeter(now: nat, a1: real, a5: real, a15: real): MeterState {
    MeterState(0, now, now, Averages(
      Average(false, 0.0, 0, a1), Average(false, 0.0, 0, a5), Average(false, 0.0, 0, a15)))
  }

  /** A second tick at the same instant does nothing. */
  lemma {:induction false} TickTwice(m: MeterState, now: nat)
    requires now < m.lastTick + U32_VALUES * TICK_INTERVAL
    ensures m.TickIfNecessary(now).TickIfNecessary(now) == m.TickIfNecessary(now)
  {
    if m.Age(now) > TICK_INTERVAL {
      assert m.Age(now) / TICK_INTERVAL < U32_VALUES;
    }
  }

  // ----- Runs ---------------------------------------------------------------------------

  datatype Event = Mark(n: nat, at: nat) | Read(at: nat)

  function LazyStep(m: MeterState, e: Event): MeterState {
    match e
    case Mark(n, at) => m.Mark(n, at)
    case Read(at) => m.TickIfNecessary(at)
  }

  function LazyRun(m: MeterState, events: seq<Event>): MeterState
    decreases |events|
  {
    if events == [] then m else LazyRun(LazyStep(m, events[0]), events[1..])
  }

  /** A meter with a timer: it has ticked at each of the first `ticks` boundaries after start. */
  datatype EagerMeter = EagerMeter(count: nat, start: nat, ticks: nat, averages: Averages) {

    /** Fires the timer at every boundary up to and including `now`. */
    function RunTimer(now: nat): EagerMeter
      decreases now - ticks * TICK_INTERVAL
    {
      if start + (ticks + 1) * TICK_INTERVAL <= now then
        this.(ticks := ticks + 1, averages := averages.Tick()).RunTimer(now)
      else this
    }
  }

  function EagerStep(g: EagerMeter, e: Event): EagerMeter {
    var timed := g.RunTimer(e.at);
    match e
    case Mark(n, _) => timed.(count := timed.count + n, averages := timed.averages.Update(n))
    case Read(_) => timed
  }

  function EagerRun(g: EagerMeter, events: seq<Event>): EagerMeter
    decreases |events|
  {
    if events == [] then g else EagerRun(EagerStep(g, events[0]), events[1..])
  }

  function NewEager(now: nat, a1: real, a5: real, a15: real): EagerMeter {
    EagerMeter(0, now, 0, NewMeter(now, a1, a5, a15).averages)
  }

  /** Instants never go back, start no earlier than `from` and stay within 2^32 ticks of `start`. */
  predicate InOrder(start: nat, from: nat, events: seq<Event>)
    decreases |events|
  {
    events == []
    || (from <= events[0].at < start + U32_VALUES * TICK_INTERVAL && InOrder(start, events[0].at, events[1..]))
  }

  /** The one instant at which the lazy test still says no although a boundary has come. */
  predicate Late(m: MeterState, at: nat) {
    at == m.lastTick + TICK_INTERVAL
  }

  /** No event is marked exactly one interval after the last tick. */
  predicate MarksOnTime(m: MeterState, events: seq<Event>)
    decreases |events|
  {
    events == []
    || ((events[0].Mark? && events[0].n > 0 ==> !Late(m, events[0].at))
        && MarksOnTime(LazyStep(m, events[0]), events[1..]))
  }

  /** `k` is the number of boundaries from `start` up to `now`. */
  predicate Boundaries(start: nat, now: nat, k: nat) {
    start + k * TICK_INTERVAL <= now < start + (k + 1) * TICK_INTERVAL
  }

  /** The lazy meter, with `done` ticks applied, is the eager one with some ticks to come. */
  ghost predicate Tracks(m: MeterState, g: EagerMeter, now: nat, done: nat) {
    && m.count == g.count && m.start == g.start
    && m.lastTick == m.start + done * TICK_INTERVAL
    && Boundaries(g.start, now, g.ticks) && done <= g.ticks
    && m.averages.TickTimes(g.ticks - done) == g.averages
  }

  lemma {:induction false} TickTimesAdd(a: Averages, k: nat, l: nat)
    ensures a.TickTimes(k + l) == a.TickTimes(k).TickTimes(l)
    decreases k
  {
    if k > 0 {
      TickTimesAdd(a.Tick(), k - 1, l);
    }
  }

  lemma {:induction false} RunTimerTicks(g: EagerMeter, now: nat)
    requires g.start + g.ticks * TICK_INTERVAL <= now
    ensures var r := g.RunTimer(now);
            && r == g.(ticks := r.ticks, averages := r.averages)
            && r.ticks >= g.ticks && Boundaries(g.start, now, r.ticks)
            && r.averages == g.averages.TickTimes(r.ticks - g.ticks)
    decreases now - g.ticks * TICK_INTERVAL
  {
    if g.start + (g.ticks + 1) * TICK_INTERVAL <= now {
      RunTimerTicks(g.(ticks := g.ticks + 1, averages := g.averages.Tick()), now);
    }
  }

  /** What the lazy test does, counted in boundaries. */
  lemma {:induction false} LazyTicks(m: MeterState, now: nat, done: nat, due: nat)
    requires m.lastTick == m.start + done * TICK_INTERVAL
    requires Boundaries(m.start, now, due) && done <= due < U32_VALUES
    ensures m.TickIfNecessary(now)
            == if Late(m, now) then m
               else m.(lastTick := m.start + due * TICK_INTERVAL, averages := m.averages.TickTimes(due - done))
  {
    assert m.Age(now) == now - m.lastTick;
    assert (due - done) * TICK_INTERVAL <= m.Age(now) < (due - done + 1) * TICK_INTERVAL;
    assert m.Age(now) / TICK_INTERVAL == due - done;
    assert m.averages.TickTimes(0) == m.averages;
  }

  /** After a lazy tick at `now`, all boundaries up to `now` are applied, except that the tick
      stays one boundary behind at exactly one interval after the last tick. */
  lemma {:induction false} LazyTickCatchesUp(m: MeterState, g: EagerMeter, from: nat, done: nat, now: nat)
    returns (done': nat)
    requires Tracks(m, g, from, done) && from <= now < g.start + U32_VALUES * TICK_INTERVAL
    ensures Tracks(m.TickIfNecessary(now), g.RunTimer(now), now, done')
    ensures if Late(m, now)
            then m.TickIfNecessary(now) == m && m.averages.Tick() == g.RunTimer(now).averages
            else m.TickIfNecessary(now).averages == g.RunTimer(now).averages && done' == g.RunTimer(now).ticks
  {
    RunTimerTicks(g, now);
    var due := g.RunTimer(now).ticks;
    TickTimesAdd(m.averages, g.ticks - done, due - g.ticks);
    LazyTicks(m, now, done, due);
    if Late(m, now) {
      done' := done;
      assert due == done + 1;
      assert m.averages.Tick().TickTimes(0) == m.averages.Tick();
    } else {
      done' := due;
      assert m.averages.TickTimes(due - done).TickTimes(0) == m.averages.TickTimes(due - done);
    }
  }

  lemma {:induction false} StepTracks(m: MeterState, g: EagerMeter, from: nat, done: nat, e: Event) returns (done': nat)
    requires Tracks(m, g, from, done) && from <= e.at < g.start + U32_VALUES * TICK_INTERVAL
    requires e.Mark? && e.n > 0 ==> !Late(m, e.at)
    ensures Tracks(LazyStep(m, e), EagerStep(g, e), e.at, done')
  {
    if e.Mark? && e.n == 0 {
      done' := done;
      IgnoredMarkTracks(m, g, from, done, e.at);
    } else {
      done' := LazyTickCatchesUp(m, g, from, done, e.at);
      if e.Mark? {
        var updated := LazyStep(m, e).averages;
        assert updated.TickTimes(0) == updated;
      }
    }
  }

  lemma {:induction false} IgnoredMarkTracks(m: MeterState, g: EagerMeter, from: nat, done: nat, at: nat)
    requires Tracks(m, g, from, done) && from <= at
    ensures Tracks(m, EagerStep(g, Mark(0, at)), at, done)
  {
    RunTimerTicks(g, at);
    var timed := g.RunTimer(at);
    TickTimesAdd(m.averages, g.ticks - done, timed.ticks - g.ticks);
    assert timed.averages.Update(0) == timed.averages;
  }

  lemma {:induction false} RunTracks(m: MeterState, g: EagerMeter, from: nat, done: nat, events: seq<Event>)
    returns (done': nat)
    requires Tracks(m, g, from, done) && InOrder(g.start, from, events) && MarksOnTime(m, events)
    ensures EagerRun(g, events).start == g.start
    ensures Tracks(LazyRun(m, events), EagerRun(g, events), LastInstant(from, events), done')
    decreases |events|
  {
    if events == [] {
      done' := done;
    } else {
      var next := StepTracks(m, g, from, done, events[0]);
      done' := RunTracks(LazyStep(m, events[0]), EagerStep(g, events[0]), events[0].at, next, events[1..]);
    }
  }

  function LastInstant(from: nat, events: seq<Event>): nat {
    if events == [] then from else events[|events| - 1].at
  }

  /** Lazy ticking refines the eager timer. After any run in which no event is marked exactly
      one interval after the last tick, a reading at any later instant shows the eager meter's
      rates; only a reading at that one instant shows them one tick behind. */
  lemma {:induction false} LazyRefinesEager(start: nat, a1: real, a5: real, a15: real, events: seq<Event>, at: nat)
    requires InOrder(start, start, events + [Read(at)])
    requires MarksOnTime(NewMeter(start, a1, a5, a15), events)
    ensures var m, g := LazyRun(NewMeter(start, a1, a5, a15), events), EagerRun(NewEager(start, a1, a5, a15), events);
            var lazy, eager := m.TickIfNecessary(at), g.RunTimer(at);
            && lazy.count == eager.count
            && (if Late(m, at) then lazy.averages.Tick() == eager.averages else lazy.averages == eager.averages)
  {
    var m0, g0 := NewMeter(start, a1, a5, a15), NewEager(start, a1, a5, a15);
    assert m0.averages.TickTimes(0) == g0.averages;
    InOrderPrefix(start, start, events, at);
    var done := RunTracks(m0, g0, start, 0, events);
    var _ := LazyTickCatchesUp(LazyRun(m0, events), EagerRun(g0, events), LastInstant(start, events), done, at);
  }

  lemma {:induction false} InOrderPrefix(start: nat, from: nat, events: seq<Event>, at: nat)
    requires InOrder(start, from, events + [Read(at)])
    ensures InOrder(start, from, events)
    ensures LastInstant(from, events) <= at < start + U32_VALUES * TICK_INTERVAL
    decreases |events|
  {
    if events != [] {
      assert (events + [Read(at)])[1..] == events[1..] + [Read(at)];
      InOrderPrefix(start, events[0].at, events[1..], at);
    }
  }

  predicate OnBoundary(start: nat, at: nat) {
    at >= start && (at - start) % TICK_INTERVAL == 0
  }

  /** No positive mark falls on a five-second boundary. */
  predicate MarksOffBoundary(start: nat, events: seq<Event>) {
    forall e :: e in events && e.Mark? && e.n > 0 ==> !OnBoundary(start, e.at)
  }

  lemma {:induction false} OffBoundaryOnTime(m: MeterState, events: seq<Event>)
    requires m.lastTick >= m.start && (m.lastTick - m.start) % TICK_INTERVAL == 0
    requires MarksOffBoundary(m.start, events)
    ensures MarksOnTime(m, events)
    decreases |events|
  {
    if events != [] {
      var next := LazyStep(m, events[0]);
      StepKeepsPhase(m, events[0].at);
      OffBoundaryOnTime(next, events[1..]);
    }
  }

  lemma {:induction false} StepKeepsPhase(m: MeterState, now: nat)
    requires m.lastTick >= m.start && (m.lastTick - m.start) % TICK_INTERVAL == 0
    ensures var l := m.TickIfNecessary(now);
            l.start == m.start && l.lastTick >= m.start && (l.lastTick - m.start) % TICK_INTERVAL == 0
  {
    if m.Age(now) > TICK_INTERVAL {
      var k := m.Age(now) / TICK_INTERVAL % U32_VALUES;
      assert m.TickIfNecessary(now).lastTick - m.start == (m.lastTick - m.start) + TICK_INTERVAL * k;
    }
  }

  /** In particular, when no event is marked and no reading taken on a five-second boundary. */
  lemma {:induction false} OffBoundaryReading(start: nat, a1: real, a5: real, a15: real, events: seq<Event>, at: nat)
    requires InOrder(start, start, events + [Read(at)])
    requires MarksOffBoundary(start, events) && !OnBoundary(start, at)
    ensures LazyRun(NewMeter(start, a1, a5, a15), events).TickIfNecessary(at).averages
            == EagerRun(NewEager(start, a1, a5, a15), events).RunTimer(at).averages
  {
    var m0 := NewMeter(start, a1, a5, a15);
    OffBoundaryOnTime(m0, events);
    RunKeepsPhase(m0, events);
    assert !Late(LazyRun(m0, events), at);
    LazyRefinesEager(start, a1, a5, a15, events, at);
  }

  lemma {:induction false} RunKeepsPhase(m: MeterState, events: seq<Event>)
    requires m.lastTick >= m.start && (m.lastTick - m.start) % TICK_INTERVAL == 0
    ensures var l := LazyRun(m, events);
            l.start == m.start && l.lastTick >= m.start && (l.lastTick - m.start) % TICK_INTERVAL == 0
    decreases |events|
  {
    if events != [] {
      StepKeepsPhase(m, events[0].at);
      RunKeepsPhase(LazyStep(m, events[0]), events[1..]);
    }
  }

  function Marks(events: seq<Event>): seq<Event>
  {
    if events == [] then []
    else (if events[0].Mark? then [events[0]] else []) + Marks(events[1..])
  }

  /** The timer can be run in two goes, so reads leave the eager meter alone. */
  lemma {:induction false} TimerInTwoGoes(g: EagerMeter, mid: nat, now: nat)
    requires mid <= now
    ensures g.RunTimer(mid).RunTimer(now) == g.RunTimer(now)
    decreases now - g.ticks * TICK_INTERVAL
  {
    if g.start + (g.ticks + 1) * TICK_INTERVAL <= mid {
      TimerInTwoGoes(g.(ticks := g.ticks + 1, averages := g.averages.Tick()), mid, now);
    }
  }

  lemma {:induction false} EagerIgnoresReads(g: EagerMeter, h: EagerMeter, start: nat, from: nat, events: seq<Event>,
                                             at: nat)
    requires InOrder(start, from, events + [Read(at)])
    requires g.RunTimer(from) == h.RunTimer(from)
    ensures EagerRun(g, events).RunTimer(at) == EagerRun(h, Marks(events)).RunTimer(at)
    decreases |events|
  {
    if events == [] {
      TimerInTwoGoes(g, from, at);
      TimerInTwoGoes(h, from, at);
    } else {
      var e := events[0];
      assert (events + [Read(at)])[1..] == events[1..] + [Read(at)];
      TimerInTwoGoes(g, from, e.at);
      TimerInTwoGoes(h, from, e.at);
      if e.Mark? {
        assert Marks(events)[0] == e && Marks(events)[1..] == Marks(events[1..]);
        EagerIgnoresReads(EagerStep(g, e), EagerStep(h, e), start, e.at, events[1..], at);
      } else {
        assert Marks(events) == Marks(events[1..]);
        TimerInTwoGoes(g, e.at, e.at);
        EagerIgnoresReads(EagerStep(g, e), h, start, e.at, events[1..], at);
      }
    }
  }

  lemma {:induction false} MarksInOrder(start: nat, from: nat, events: seq<Event>, at: nat)
    requires InOrder(start, from, events + [Read(at)])
    ensures InOrder(start, from, Marks(events) + [Read(at)])
    decreases |events|
  {
    if events != [] {
      assert (events + [Read(at)])[1..] == events[1..] + [Read(at)];
      MarksInOrder(start, events[0].at, events[1..], at);
      var rest := Marks(events[1..]) + [Read(at)];
      if events[0].Mark? {
        assert Marks(events) + [Read(at)] == [events[0]] + rest;
        assert ([events[0]] + rest)[1..] == rest;
      } else {
        assert Marks(events) + [Read(at)] == rest;
        EarlierStart(start, from, events[0].at, rest);
      }
    }
  }

  lemma {:induction false} EarlierStart(start: nat, from: nat, later: nat, events: seq<Event>)
    requires from <= later && InOrder(start, later, events)
    ensures InOrder(start, from, events)
  {
  }

  /** Extra reads change nothing: dropping every earlier read leaves a reading as it was. */
  lemma {:induction false} ReadsChangeNothing(start: nat, a1: real, a5: real, a15: real, events: seq<Event>, at: nat)
    requires InOrder(start, start, events + [Read(at)])
    requires MarksOffBoundary(start, events) && !OnBoundary(start, at)
    ensures LazyRun(NewMeter(start, a1, a5, a15), events).TickIfNecessary(at).averages
            == LazyRun(NewMeter(start, a1, a5, a15), Marks(events)).TickIfNecessary(at).averages
  {
    var g := NewEager(start, a1, a5, a15);
    OffBoundaryReading(start, a1, a5, a15, events, at);
    MarksInOrder(start, start, events, at);
    MarksAreEvents(events);
    OffBoundaryReading(start, a1, a5, a15, Marks(events), at);
    EagerIgnoresReads(g, g, start, start, events, at);
  }

  lemma {:induction false} MarksAreEvents(events: seq<Event>)
    ensures forall e :: e in Marks(events) ==> e in events
  {
    if events != [] {
      MarksAreEvents(events[1..]);
    }
  }

  /** The exception is real: one event marked exactly at the first boundary is counted in the
      interval before it, where the timer counts it in the one after. */
  lemma {:induction false} BoundaryMarkDiffers(alpha: real)
    ensures var events, at := [Mark(1, TICK_INTERVAL)], TICK_INTERVAL + 1;
            LazyRun(NewMeter(0, alpha, alpha, alpha), events).TickIfNecessary(at).averages.m1.PerSecond() == 0.2
            && EagerRun(NewEager(0, alpha, alpha, alpha), events).RunTimer(at).averages.m1.PerSecond() == 0.0
  {
    var m, g := NewMeter(0, alpha, alpha, alpha), NewEager(0, alpha, alpha, alpha);
    var e, at := Mark(1, TICK_INTERVAL), TICK_INTERVAL + 1;
    SingleEvent(m, g, e);
    var marked := m.averages.Update(1);
    assert LazyStep(m, e) == m.(count := 1, averages := marked);
    LazyTicks(LazyStep(m, e), at, 0, 1);
    assert marked.TickTimes(1) == marked.Tick().TickTimes(0) == marked.Tick();
    RunTimerTicks(g, TICK_INTERVAL);
    assert g.averages.TickTimes(1) == g.averages.Tick().TickTimes(0) == g.averages.Tick();
    RunTimerTicks(EagerStep(g, e), at);
  }

  lemma {:induction false} SingleEvent(m: MeterState, g: EagerMeter, e: Event)
    ensures LazyRun(m, [e]) == LazyStep(m, e) && EagerRun(g, [e]) == EagerStep(g, e)
  {
    assert [e][0] == e && [e][1..] == [];
    assert LazyRun(LazyStep(m, e), []) == LazyStep(m, e);
    assert EagerRun(EagerStep(g, e), []) == EagerStep(g, e);
  }

  // ----- Exactly when lazy and eager readings agree ---------------------------------------

  /** The three rates a reading shows. */
  function Rates(a: Averages): (real, real, real) {
    (a.m1.PerSecond(), a.m5.PerSecond(), a.m15.PerSecond())
  }

  /** A reading after the run shows the eager rates. */
  predicate Agrees(start: nat, a1: real, a5: real, a15: real, events: seq<Event>, at: nat) {
    Rates(LazyRun(NewMeter(start, a1, a5, a15), events).TickIfNecessary(at).averages)
    == Rates(EagerRun(NewEager(start, a1, a5, a15), events).RunTimer(at).averages)
  }

  /** Every average moves towards what it sees. */
  predicate Moving(a: Averages) {
    a.m1.alpha > 0.0 && a.m5.alpha > 0.0 && a.m15.alpha > 0.0
  }

  /** A tick would leave the rate where it is. */
  predicate Settled(a: Average) {
    a.uncounted as real / TICK_INTERVAL as real == a.rate
  }

  lemma {:induction false} ProductSign(a: real, x: real)
    requires a > 0.0
    ensures a * x == 0.0 <==> x == 0.0
    ensures x > 0.0 ==> a * x > 0.0
  {
  }

  lemma {:induction false} TickKeepsRate(a: Average)
    requires a.alpha > 0.0
    ensures a.Tick().PerSecond() == a.PerSecond() <==> Settled(a)
  {
    ProductSign(a.alpha, a.uncounted as real / TICK_INTERVAL as real - a.rate);
  }

  /** Counting `n` events before a tick instead of after it raises the rate. */
  lemma {:induction false} EarlyMarkRaises(a: Average, n: nat)
    requires a.alpha > 0.0 && n > 0
    ensures a.Update(n).Tick().PerSecond() > a.Tick().Update(n).PerSecond()
  {
    var was, now := a.uncounted as real / TICK_INTERVAL as real, (a.uncounted + n) as real / TICK_INTERVAL as real;
    assert now - was > 0.0;
    ProductSign(a.alpha, now - was);
    assert a.alpha * (now - a.rate) - a.alpha * (was - a.rate) == a.alpha * (now - was);
  }

  lemma {:induction false} TicksKeepMoving(a: Averages, k: nat)
    requires Moving(a)
    ensures Moving(a.TickTimes(k))
    decreases k
  {
    if k > 0 {
      TicksKeepMoving(a.Tick(), k - 1);
    }
  }

  lemma {:induction false} RunKeepsMoving(m: MeterState, events: seq<Event>)
    requires Moving(m.averages)
    ensures Moving(LazyRun(m, events).averages)
    decreases |events|
  {
    if events != [] {
      TicksKeepMoving(m.averages, m.Age(events[0].at) / TICK_INTERVAL);
      RunKeepsMoving(LazyStep(m, events[0]), events[1..]);
    }
  }

  /** A reading at the one late instant shows the eager rates exactly when the tick it misses would
      not have moved any of them. */
  lemma {:induction false} LateReadingExactly(start: nat, a1: real, a5: real, a15: real, events: seq<Event>, at: nat)
    requires a1 > 0.0 && a5 > 0.0 && a15 > 0.0
    requires InOrder(start, start, events + [Read(at)])
    requires MarksOnTime(NewMeter(start, a1, a5, a15), events)
    ensures var m, g := LazyRun(NewMeter(start, a1, a5, a15), events), EagerRun(NewEager(start, a1, a5, a15), events);
            Rates(m.TickIfNecessary(at).averages) == Rates(g.RunTimer(at).averages)
            <==> !Late(m, at) || (Settled(m.averages.m1) && Settled(m.averages.m5) && Settled(m.averages.m15))
  {
    var m := LazyRun(NewMeter(start, a1, a5, a15), events);
    LazyRefinesEager(start, a1, a5, a15, events, at);
    RunKeepsMoving(NewMeter(start, a1, a5, a15), events);
    if Late(m, at) {
      TickKeepsRate(m.averages.m1);
      TickKeepsRate(m.averages.m5);
      TickKeepsRate(m.averages.m15);
    }
  }

  /** After a late mark, any reading before the next boundary shows all three rates too high. */
  lemma {:induction false} LateMarkRaises(m: MeterState, g: EagerMeter, from: nat, done: nat, n: nat, at: nat,
                                          later: nat)
    requires Tracks(m, g, from, done) && Moving(m.averages) && n > 0
    requires from <= at < later < at + TICK_INTERVAL && at < g.start + U32_VALUES * TICK_INTERVAL && Late(m, at)
    ensures var lazy := m.Mark(n, at).TickIfNecessary(later).averages;
            var eager := EagerStep(g, Mark(n, at)).RunTimer(later).averages;
            lazy.m1.PerSecond() > eager.m1.PerSecond() && lazy.m5.PerSecond() > eager.m5.PerSecond()
            && lazy.m15.PerSecond() > eager.m15.PerSecond()
  {
    var _ := LazyTickCatchesUp(m, g, from, done, at);
    RunTimerTicks(g, at);
    var timed, marked := EagerStep(g, Mark(n, at)), m.Mark(n, at);
    RunTimerTicks(timed, later);
    assert timed.RunTimer(later).ticks == timed.ticks == done + 1;
    assert timed.averages.TickTimes(0) == timed.averages;
    LazyTicks(marked, later, done, done + 1);
    assert marked.averages.TickTimes(1) == marked.averages.Tick().TickTimes(0) == marked.averages.Tick();
    EarlyMarkRaises(m.averages.m1, n);
    EarlyMarkRaises(m.averages.m5, n);
    EarlyMarkRaises(m.averages.m15, n);
  }

  /** The run one event later. */
  lemma {:induction false} RunOneMore(m: MeterState, g: EagerMeter, events: seq<Event>, e: Event)
    ensures LazyRun(m, events + [e]) == LazyStep(LazyRun(m, events), e)
    ensures EagerRun(g, events + [e]) == EagerStep(EagerRun(g, events), e)
    ensures MarksOnTime(m, events + [e]) <==>
            MarksOnTime(m, events) && (e.Mark? && e.n > 0 ==> !Late(LazyRun(m, events), e.at))
    decreases |events|
  {
    if events == [] {
      SingleEvent(m, g, e);
      assert events + [e] == [e] && [e][1..] == [];
    } else {
      assert (events + [e])[1..] == events[1..] + [e];
      RunOneMore(LazyStep(m, events[0]), EagerStep(g, events[0]), events[1..], e);
    }
  }

  /** Instants may be appended as long as they do not go back. */
  lemma {:induction false} InOrderAppend(start: nat, from: nat, events: seq<Event>, e: Event)
    requires InOrder(start, from, events)
    ensures InOrder(start, from, events + [e])
            <==> LastInstant(from, events) <= e.at < start + U32_VALUES * TICK_INTERVAL
    decreases |events|
  {
    if events == [] {
      assert events + [e] == [e] && [e][1..] == [];
    } else {
      assert (events + [e])[1..] == events[1..] + [e];
      InOrderAppend(start, events[0].at, events[1..], e);
    }
  }

  /** Two instants with no boundary between them. */
  lemma {:induction false} BeforeNextBoundary(start: nat, at: nat, later: nat)
    requires start <= at < later && (later - start) / TICK_INTERVAL == (at - start) / TICK_INTERVAL
    ensures at < start + U32_VALUES * TICK_INTERVAL ==> later < start + U32_VALUES * TICK_INTERVAL
    ensures OnBoundary(start, at) ==> later < at + TICK_INTERVAL
  {
  }

  /** One more mark after a run without late marks: the readings before the next boundary agree
      with the eager meter exactly when the mark counts nothing or is not late. */
  lemma {:induction false} NextMarkExactly(start: nat, a1: real, a5: real, a15: real, events: seq<Event>, n: nat,
                                           at: nat, later: nat)
    requires a1 > 0.0 && a5 > 0.0 && a15 > 0.0
    requires InOrder(start, start, events + [Mark(n, at)]) && MarksOnTime(NewMeter(start, a1, a5, a15), events)
    requires at < later && !OnBoundary(start, later) && (later - start) / TICK_INTERVAL == (at - start) / TICK_INTERVAL
    ensures var m, g := LazyRun(NewMeter(start, a1, a5, a15), events), EagerRun(NewEager(start, a1, a5, a15), events);
            Rates(m.Mark(n, at).TickIfNecessary(later).averages)
            == Rates(EagerStep(g, Mark(n, at)).RunTimer(later).averages)
            <==> n == 0 || !Late(m, at)
  {
    InOrderMark(start, start, events, Mark(n, at));
    BeforeNextBoundary(start, at, later);
    RunOneMore(NewMeter(start, a1, a5, a15), NewEager(start, a1, a5, a15), events, Mark(n, at));
    if n == 0 || !Late(LazyRun(NewMeter(start, a1, a5, a15), events), at) {
      InOrderAppend(start, start, events + [Mark(n, at)], Read(later));
      OnTimeAgrees(start, a1, a5, a15, events + [Mark(n, at)], later);
    } else {
      LateMarkTooHigh(start, a1, a5, a15, events, n, at, later);
    }
  }

  lemma {:induction false} LateIsOnBoundary(start: nat, a1: real, a5: real, a15: real, events: seq<Event>, at: nat)
    requires Late(LazyRun(NewMeter(start, a1, a5, a15), events), at)
    ensures OnBoundary(start, at)
  {
    RunKeepsPhase(NewMeter(start, a1, a5, a15), events);
  }

  lemma {:induction false} OnTimeAgrees(start: nat, a1: real, a5: real, a15: real, events: seq<Event>, at: nat)
    requires InOrder(start, start, events + [Read(at)]) && !OnBoundary(start, at)
    requires MarksOnTime(NewMeter(start, a1, a5, a15), events)
    ensures Agrees(start, a1, a5, a15, events, at)
  {
    if Late(LazyRun(NewMeter(start, a1, a5, a15), events), at) {
      LateIsOnBoundary(start, a1, a5, a15, events, at);
    }
    LazyRefinesEager(start, a1, a5, a15, events, at);
  }

  lemma {:induction false} LateMarkTooHigh(start: nat, a1: real, a5: real, a15: real, events: seq<Event>, n: nat,
                                           at: nat, later: nat)
    requires a1 > 0.0 && a5 > 0.0 && a15 > 0.0 && n > 0
    requires InOrder(start, start, events) && MarksOnTime(NewMeter(start, a1, a5, a15), events)
    requires LastInstant(start, events) <= at < start + U32_VALUES * TICK_INTERVAL
    requires at < later && (later - start) / TICK_INTERVAL == (at - start) / TICK_INTERVAL
    requires Late(LazyRun(NewMeter(start, a1, a5, a15), events), at)
    ensures var m, g := LazyRun(NewMeter(start, a1, a5, a15), events), EagerRun(NewEager(start, a1, a5, a15), events);
            m.Mark(n, at).TickIfNecessary(later).averages.m1.PerSecond()
            > EagerStep(g, Mark(n, at)).RunTimer(later).averages.m1.PerSecond()
  {
    var m0, g0 := NewMeter(start, a1, a5, a15), NewEager(start, a1, a5, a15);
    LateIsOnBoundary(start, a1, a5, a15, events, at);
    BeforeNextBoundary(start, at, later);
    assert m0.averages.TickTimes(0) == g0.averages;
    var done := RunTracks(m0, g0, start, 0, events);
    RunKeepsMoving(m0, events);
    LateMarkRaises(LazyRun(m0, events), EagerRun(g0, events), LastInstant(start, events), done, n, at, later);
  }

  lemma {:induction false} InOrderMark(start: nat, from: nat, events: seq<Event>, e: Event)
    requires InOrder(start, from, events + [e])
    ensures InOrder(start, from, events)
    ensures from <= LastInstant(from, events) <= e.at < start + U32_VALUES * TICK_INTERVAL
    decreases |events|
  {
    if events != [] {
      assert (events + [e])[1..] == events[1..] + [e];
      InOrderMark(start, events[0].at, events[1..], e);
    } else {
      assert (events + [e])[0] == e;
    }
  }

  /** After each part of the run, a reading off the five-second grid agrees with the eager meter. */
  ghost predicate ReadingsAgree(start: nat, a1: real, a5: real, a15: real, events: seq<Event>) {
    forall k, at: nat ::
      0 <= k <= |events| && InOrder(start, start, events[..k] + [Read(at)]) && !OnBoundary(start, at) ==>
        Agrees(start, a1, a5, a15, events[..k], at)
  }

  /** Where a run has its first late mark. */
  lemma {:induction false} FirstLateMark(m: MeterState, g: EagerMeter, events: seq<Event>) returns (k: nat)
    requires !MarksOnTime(m, events)
    ensures k < |events| && MarksOnTime(m, events[..k])
    ensures events[k].Mark? && events[k].n > 0 && Late(LazyRun(m, events[..k]), events[k].at)
    decreases |events|
  {
    var init := events[..|events| - 1];
    assert events == init + [events[|events| - 1]];
    RunOneMore(m, g, init, events[|events| - 1]);
    if MarksOnTime(m, init) {
      k := |events| - 1;
    } else {
      k := FirstLateMark(m, g, init);
      assert init[..k] == events[..k];
    }
  }

  lemma {:induction false} OnTimePrefix(m: MeterState, g: EagerMeter, events: seq<Event>, k: nat)
    requires k <= |events| && MarksOnTime(m, events)
    ensures MarksOnTime(m, events[..k])
    decreases |events|
  {
    if k < |events| {
      var init := events[..|events| - 1];
      assert events == init + [events[|events| - 1]];
      RunOneMore(m, g, init, events[|events| - 1]);
      OnTimePrefix(m, g, init, k);
      assert init[..k] == events[..k];
    } else {
      assert events[..k] == events;
    }
  }

  lemma {:induction false} InOrderTake(start: nat, from: nat, events: seq<Event>, k: nat)
    requires k <= |events| && InOrder(start, from, events)
    ensures InOrder(start, from, events[..k])
    decreases |events|
  {
    if k > 0 {
      assert events[..k][0] == events[0] && events[..k][1..] == events[1..][..k - 1];
      InOrderTake(start, events[0].at, events[1..], k - 1);
    }
  }

  /** Over a whole run, the readings off the five-second grid agree with the eager meter exactly
      when no event is marked exactly one interval after the last tick. */
  lemma {:induction false} AgreementIsExact(start: nat, a1: real, a5: real, a15: real, events: seq<Event>)
    requires a1 > 0.0 && a5 > 0.0 && a15 > 0.0 && InOrder(start, start, events)
    ensures ReadingsAgree(start, a1, a5, a15, events) <==> MarksOnTime(NewMeter(start, a1, a5, a15), events)
  {
    var m0, g0 := NewMeter(start, a1, a5, a15), NewEager(start, a1, a5, a15);
    if MarksOnTime(m0, events) {
      forall k, at: nat
        | 0 <= k <= |events| && InOrder(start, start, events[..k] + [Read(at)]) && !OnBoundary(start, at)
        ensures Agrees(start, a1, a5, a15, events[..k], at)
      {
        OnTimePrefix(m0, g0, events, k);
        OnTimeAgrees(start, a1, a5, a15, events[..k], at);
      }
    } else {
      var k := FirstLateMark(m0, g0, events);
      DisagreesAfter(start, a1, a5, a15, events, k);
    }
  }

  lemma {:induction false} JustLater(start: nat, at: nat)
    requires OnBoundary(start, at)
    ensures !OnBoundary(start, at + 1) && (at + 1 - start) / TICK_INTERVAL == (at - start) / TICK_INTERVAL
  {
  }

  lemma {:induction false} LateMarkDisagrees(start: nat, a1: real, a5: real, a15: real, upTo: seq<Event>, e: Event)
    requires a1 > 0.0 && a5 > 0.0 && a15 > 0.0
    requires InOrder(start, start, upTo + [e]) && MarksOnTime(NewMeter(start, a1, a5, a15), upTo)
    requires e.Mark? && e.n > 0 && Late(LazyRun(NewMeter(start, a1, a5, a15), upTo), e.at)
    ensures InOrder(start, start, upTo + [e] + [Read(e.at + 1)]) && !OnBoundary(start, e.at + 1)
    ensures !Agrees(start, a1, a5, a15, upTo + [e], e.at + 1)
  {
    var m0, g0 := NewMeter(start, a1, a5, a15), NewEager(start, a1, a5, a15);
    InOrderMark(start, start, upTo, e);
    LateIsOnBoundary(start, a1, a5, a15, upTo, e.at);
    JustLater(start, e.at);
    BeforeNextBoundary(start, e.at, e.at + 1);
    InOrderAppend(start, start, upTo + [e], Read(e.at + 1));
    RunOneMore(m0, g0, upTo, e);
    NextMarkExactly(start, a1, a5, a15, upTo, e.n, e.at, e.at + 1);
  }

  lemma {:induction false} DisagreesAfter(start: nat, a1: real, a5: real, a15: real, events: seq<Event>, k: nat)
    requires a1 > 0.0 && a5 > 0.0 && a15 > 0.0 && InOrder(start, start, events)
    requires k < |events| && MarksOnTime(NewMeter(start, a1, a5, a15), events[..k])
    requires events[k].Mark? && events[k].n > 0
    requires Late(LazyRun(NewMeter(start, a1, a5, a15), events[..k]), events[k].at)
    ensures !ReadingsAgree(start, a1, a5, a15, events)
  {
    assert events[..k + 1] == events[..k] + [events[k]];
    InOrderTake(start, start, events, k + 1);
    LateMarkDisagrees(start, a1, a5, a15, events[..k], events[k]);
    assert !Agrees(start, a1, a5, a15, events[..k + 1], events[k].at + 1);
  }
}
