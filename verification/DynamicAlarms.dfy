/** Counter-dynamic alarms: the threshold is a multiple of the previous delta. */
module DynamicAlarms {
  import opened Common
  import opened AlarmTypes
  import opened Runs

  datatype DynamicAlarm = DynamicAlarm(exempt: bool, gates: seq<Gate>, multiplier: real, minAbsolute: int)

  datatype DynamicTick = DynamicTick(env: Env, current: Option<nat>, previous: Option<nat>)

  /** Why no delta is taken, if none is. */
  function Stopped(tick: DynamicTick): Option<SkipReason> {
    if tick.env.prevPromInvalid then Some(PrevPromInvalid)
    else if tick.env.GapStale() then Some(SkipReason.GapStale)
    else if tick.current.None? then Some(MetricNotFound)
    else if tick.previous.None? then Some(NoPreviousData)
    else if tick.env.warmupRemaining > 0 && tick.previous.value == 0 then Some(WarmupPrevZero)
    else if tick.env.TooFresh() then Some(IntervalTooShort)
    else None
  }

  /** The growth since the previous scrape; a counter that went down restarted from zero. */
  function Delta(current: nat, previous: nat): nat {
    if current < previous then current else current - previous
  }

  /** The delta is large against a prior one that is itself worth comparing with. */
  predicate Surges(alarm: DynamicAlarm, prior: nat, delta: nat) {
    prior >= alarm.minAbsolute && prior != 0 && delta as real >= alarm.multiplier * prior as real
  }

  /** The stored delta and the verdict. */
  function EvalDynamic(alarm: DynamicAlarm, prior: Option<nat>, tick: DynamicTick): (Option<nat>, Verdict) {
    if Stopped(tick).Some? then (prior, Skipped(Stopped(tick).value))
    else
      var delta := Delta(tick.current.value, tick.previous.value);
      (Some(delta),
       if prior.None? then CollectingBaseline
       else if prior.value < alarm.minAbsolute then Verdict.Ok(Count(delta))
       else if prior.value == 0 then Verdict.Ok(Count(delta))
       else if delta as real >= alarm.multiplier * prior.value as real then Firing(Count(delta), 1, false)
       else Verdict.Ok(Count(delta)))
  }

  /** The centralized hook: a resetting skip drops the stored delta. */
  function AfterHook(prior: Option<nat>, verdict: Verdict): Option<nat> {
    if verdict.Resets() then None else prior
  }

  function DynamicStep(alarm: DynamicAlarm, prior: Option<nat>, tick: DynamicTick): (Option<nat>, Verdict) {
    var held := Screened(alarm.exempt, alarm.gates, tick.env);
    var next := if held.Some? then (prior, Skipped(held.value)) else EvalDynamic(alarm, prior, tick);
    (AfterHook(next.0, next.1), next.1)
  }

  function DynamicMachine(alarm: DynamicAlarm): (Option<nat>, DynamicTick) -> (Option<nat>, Verdict) {
    (prior, tick) => DynamicStep(alarm, prior, tick)
  }

  function Answers(alarm: DynamicAlarm, ticks: seq<DynamicTick>): (vs: seq<Verdict>)
    ensures |vs| == |ticks|
  {
    Verdicts(DynamicMachine(alarm), None, ticks, |ticks|)
  }

  /** The alarm is open, the previous scrape is valid and of unknown age or neither too young nor too old,
      and both scrapes show the counters; zero does not do as a previous value during warmup. */
  predicate Evaluable(alarm: DynamicAlarm, tick: DynamicTick) {
    var age := tick.env.prevScrapeAge;
    Open(alarm.exempt, alarm.gates, tick.env) && !tick.env.prevPromInvalid
    && (age < 0 || tick.env.minEvalWindow <= age < tick.env.gapStaleThreshold)
    && tick.current.Some? && tick.previous.Some?
    && (tick.env.warmupRemaining > 0 ==> tick.previous.value != 0)
  }

  /** The counter has grown by `delta`, from the previous scrape or from zero if it restarted. */
  predicate GrownBy(tick: DynamicTick, delta: nat)
    requires tick.current.Some? && tick.previous.Some?
  {
    tick.current.value == delta + (if tick.previous.value <= tick.current.value then tick.previous.value else 0)
  }

  lemma {:induction false} DynamicStepStores(alarm: DynamicAlarm, prior: Option<nat>, tick: DynamicTick)
    ensures var (next, verdict) := DynamicStep(alarm, prior, tick);
            if verdict.Stutters() then next == prior
            else if verdict.Resets() then next == None
            else Evaluable(alarm, tick) && next.Some? && GrownBy(tick, next.value)
    ensures Evaluable(alarm, tick) ==>
              exists delta: nat :: GrownBy(tick, delta) && !DynamicStep(alarm, prior, tick).1.Skipped?
                && (DynamicStep(alarm, prior, tick).1.Firing? <==> prior.Some? && Surges(alarm, prior.value, delta))
    ensures DynamicStep(alarm, prior, tick).1.Firing? ==> Evaluable(alarm, tick)
  {
    ScreenedExactly(alarm.exempt, alarm.gates, tick.env);
    if Evaluable(alarm, tick) {
      assert GrownBy(tick, Delta(tick.current.value, tick.previous.value));
    }
  }

  /** The delta stored after `n` ticks, told from the ticks and verdicts. */
  ghost predicate Remembers(alarm: DynamicAlarm, ticks: seq<DynamicTick>, vs: seq<Verdict>, n: nat, prior: Option<nat>)
    requires n <= |ticks| == |vs|
  {
    var a := Anchor(vs, n);
    if a >= 0 then Evaluable(alarm, ticks[a]) && prior.Some? && GrownBy(ticks[a], prior.value) else prior == None
  }

  lemma {:induction false} MemoryMoves(alarm: DynamicAlarm, ticks: seq<DynamicTick>, vs: seq<Verdict>, k: nat,
                                       prior: Option<nat>)
    requires k < |ticks| == |vs| && Remembers(alarm, ticks, vs, k, prior)
    requires vs[k] == DynamicStep(alarm, prior, ticks[k]).1
    ensures Remembers(alarm, ticks, vs, k + 1, DynamicStep(alarm, prior, ticks[k]).0)
  {
    DynamicStepStores(alarm, prior, ticks[k]);
  }

  /** The stored delta is the one of the last tick that was not a preserved skip, if that tick took
      a delta. */
  lemma {:induction false} DynamicMeaning(alarm: DynamicAlarm, ticks: seq<DynamicTick>, n: nat)
    requires n <= |ticks|
    ensures Remembers(alarm, ticks, Answers(alarm, ticks), n, StateAfter(DynamicMachine(alarm), None, ticks, n))
  {
    if n > 0 {
      DynamicMeaning(alarm, ticks, n - 1);
      VerdictsAt(DynamicMachine(alarm), None, ticks, |ticks|, n - 1);
      MemoryMoves(alarm, ticks, Answers(alarm, ticks), n - 1, StateAfter(DynamicMachine(alarm), None, ticks, n - 1));
    }
  }

  /** The one number the counter has grown by. */
  function Growth(tick: DynamicTick): (delta: nat)
    requires tick.current.Some? && tick.previous.Some?
    ensures GrownBy(tick, delta) && forall other: nat :: GrownBy(tick, other) ==> other == delta
  {
    Delta(tick.current.value, tick.previous.value)
  }

  /** The delta reaches the multiple of the delta of the last active tick, with no tick skipped for a
      reason about the node in between. */
  predicate ShouldFire(alarm: DynamicAlarm, ticks: seq<DynamicTick>, vs: seq<Verdict>, k: nat)
    requires k < |ticks| == |vs|
  {
    var a := Anchor(vs, k);
    Evaluable(alarm, ticks[k]) && a >= 0 && Evaluable(alarm, ticks[a])
    && Surges(alarm, Growth(ticks[a]), Growth(ticks[k]))
  }

  lemma {:induction false} DynamicFiresExactly(alarm: DynamicAlarm, ticks: seq<DynamicTick>, k: nat)
    requires k < |ticks|
    ensures var vs := Answers(alarm, ticks);
            (vs[k].Firing? <==> ShouldFire(alarm, ticks, vs, k))
            && (vs[k].Firing? ==> vs[k] == Firing(Count(Growth(ticks[k])), 1, false))
  {
    DynamicMeaning(alarm, ticks, k);
    DynamicStepStores(alarm, StateAfter(DynamicMachine(alarm), None, ticks, k), ticks[k]);
    VerdictsAt(DynamicMachine(alarm), None, ticks, |ticks|, k);
  }

  /** Exactly which ticks leave the stored delta alone: those with all that a delta needs but a previous
      scrape that is too young. */
  lemma {:induction false} DynamicStuttersExactly(alarm: DynamicAlarm, ticks: seq<DynamicTick>, k: nat)
    requires k < |ticks|
    ensures var env := ticks[k].env;
            Answers(alarm, ticks)[k].Stutters() <==>
            0 <= env.prevScrapeAge < env.minEvalWindow && env.prevScrapeAge < env.gapStaleThreshold
            && Evaluable(alarm, ticks[k].(env := env.(prevScrapeAge := -1)))
  {
    VerdictsAt(DynamicMachine(alarm), None, ticks, |ticks|, k);
    var env := ticks[k].env;
    ScreenedExactly(alarm.exempt, alarm.gates, env);
    assert Open(alarm.exempt, alarm.gates, env.(prevScrapeAge := -1)) == Open(alarm.exempt, alarm.gates, env);
  }
}
