/**
 Counter-streak alarms: one tick of the state machine, and what a whole run of it means in terms
 of the ticks alone.
 */
module StreakAlarms {
  import opened Common
  import opened AlarmTypes
  import opened Runs

  datatype StreakAlarm = StreakAlarm(
    exempt: bool,
    gates: seq<Gate>,
    deltaThreshold: int,
    streakThreshold: int,
    burstThreshold: int,
    postRestartThreshold: int,
    postRestartScoped: bool)

  /** One tick: the environment, the observed counter, and the single labelled series the
      post-restart rule may be scoped to. */
  datatype StreakTick = StreakTick(env: Env, counter: Option<nat>, scoped: Option<nat>)

  /** The alarm's snapshot file. */
  datatype StreakState = Empty | Baseline(process: Identity, counter: nat, streak: nat)

  // ----- One tick -----------------------------------------------------------------------

  function Fresh(tick: StreakTick, cur: nat): StreakState {
    Baseline(tick.env.Process(), cur, 0)
  }

  /** The value the post-restart rule looks at; a missing labelled series counts as 0. */
  function PostRestartValue(alarm: StreakAlarm, tick: StreakTick, cur: nat): nat {
    if !alarm.postRestartScoped then cur else if tick.scoped.Some? then tick.scoped.value else 0
  }

  predicate PostRestartFires(alarm: StreakAlarm, tick: StreakTick, cur: nat) {
    0 < alarm.postRestartThreshold <= PostRestartValue(alarm, tick, cur)
  }

  function AfterRestart(alarm: StreakAlarm, tick: StreakTick, cur: nat): Verdict {
    if PostRestartFires(alarm, tick, cur)
    then Firing(Count(PostRestartValue(alarm, tick, cur)), 0, true)
    else CollectingBaseline
  }

  function EvalStreak(alarm: StreakAlarm, state: StreakState, tick: StreakTick): (StreakState, Verdict) {
    if !tick.env.HasIdentity() then (state, Skipped(MissingIdentity))
    else if tick.counter.None? then (state, Skipped(MetricNotFound))
    else
      var cur := tick.counter.value;
      if state.Empty? then (Fresh(tick, cur), CollectingBaseline)
      else if state.process != tick.env.Process() then (Fresh(tick, cur), AfterRestart(alarm, tick, cur))
      else if cur < state.counter then (Fresh(tick, cur), AfterRestart(alarm, tick, cur))
      else if tick.env.GapStale() then (Fresh(tick, cur), CollectingBaseline)
      else if tick.env.TooFresh() then (state, Skipped(IntervalTooShort))
      else
        var delta := cur - state.counter;
        var streak := state.streak + 1;
        if delta >= alarm.burstThreshold then
          (Baseline(state.process, cur, streak), Firing(Count(delta), streak, false))
        else if delta >= alarm.deltaThreshold then
          (Baseline(state.process, cur, streak),
           if streak >= alarm.streakThreshold then Firing(Count(delta), streak, false)
           else Breach(Count(delta), streak))
        else (Fresh(tick, cur), Verdict.Ok(Count(delta)))
  }

  /** The centralized hook: a resetting skip clears the snapshot. */
  function AfterHook(state: StreakState, verdict: Verdict): StreakState {
    if verdict.Resets() then Empty else state
  }

  /** One pass of the main loop over the alarm. */
  function StreakStep(alarm: StreakAlarm, state: StreakState, tick: StreakTick): (StreakState, Verdict) {
    var held := Screened(alarm.exempt, alarm.gates, tick.env);
    var next := if held.Some? then (state, Skipped(held.value)) else EvalStreak(alarm, state, tick);
    (AfterHook(next.0, next.1), next.1)
  }

  function StreakMachine(alarm: StreakAlarm): (StreakState, StreakTick) -> (StreakState, Verdict) {
    (state, tick) => StreakStep(alarm, state, tick)
  }

  // ----- Stuttering ---------------------------------------------------------------------

  /** A preserved skip changes nothing. */
  lemma {:induction false} StutterKeepsState(alarm: StreakAlarm, state: StreakState, tick: StreakTick)
    requires StreakStep(alarm, state, tick).1.Stutters()
    ensures StreakStep(alarm, state, tick).0 == state
  {
  }

  /** Ticks answered with a preserved skip can be deleted from any run. */
  lemma {:induction false} StreakStuttering(alarm: StreakAlarm, s0: StreakState, ticks: seq<StreakTick>,
                                            keep: seq<bool>)
    requires |keep| == |ticks|
    requires forall k :: 0 <= k < |ticks| && !keep[k] ==> VerdictAt(StreakMachine(alarm), s0, ticks, k).Stutters()
    ensures var kept := Kept(ticks, keep, |ticks|);
            StateAfter(StreakMachine(alarm), s0, kept, |kept|)
            == StateAfter(StreakMachine(alarm), s0, ticks, |ticks|)
            && Verdicts(StreakMachine(alarm), s0, kept, |kept|)
               == Kept(Verdicts(StreakMachine(alarm), s0, ticks, |ticks|), keep, |ticks|)
  {
    var step := StreakMachine(alarm);
    forall k | 0 <= k < |ticks| && !keep[k]
      ensures StateAfter(step, s0, ticks, k + 1) == StateAfter(step, s0, ticks, k)
    {
      assert VerdictAt(step, s0, ticks, k).Stutters();
      StutterKeepsState(alarm, StateAfter(step, s0, ticks, k), ticks[k]);
    }
    DropStutters(step, s0, ticks, keep, |ticks|);
  }

  // ----- The meaning of a run -----------------------------------------------------------

  /** The snapshot after the first `n` ticks, starting without one. */
  function After(alarm: StreakAlarm, ticks: seq<StreakTick>, n: nat): StreakState
    requires n <= |ticks|
  {
    StateAfter(StreakMachine(alarm), Empty, ticks, n)
  }

  /** The verdicts of a run that starts without a snapshot. */
  function Answers(alarm: StreakAlarm, ticks: seq<StreakTick>): (vs: seq<Verdict>)
    ensures |vs| == |ticks|
  {
    Verdicts(StreakMachine(alarm), Empty, ticks, |ticks|)
  }

  /** A verdict on a delta, as opposed to a skip, a baseline or a post-restart alert. */
  predicate IsCounted(verdict: Verdict) {
    (verdict.Ok? || verdict.Breach? || (verdict.Firing? && !verdict.postRestart)) && verdict.reading.Count?
  }

  function Delta(verdict: Verdict): nat
    requires IsCounted(verdict)
  {
    verdict.reading.n
  }

  /** A counted tick whose delta reaches the smaller of the two thresholds. */
  predicate Hot(alarm: StreakAlarm, verdict: Verdict) {
    IsCounted(verdict)
    && (Delta(verdict) >= alarm.burstThreshold || Delta(verdict) >= alarm.deltaThreshold)
  }

  /** Consecutive hot ticks at the end of the first `n` ticks, preserved skips left aside. */
  function TrailingHot(alarm: StreakAlarm, vs: seq<Verdict>, n: nat): nat
    requires n <= |vs|
  {
    if n == 0 then 0
    else if vs[n - 1].Stutters() then TrailingHot(alarm, vs, n - 1)
    else if Hot(alarm, vs[n - 1]) then TrailingHot(alarm, vs, n - 1) + 1
    else 0
  }

  /** The snapshot a run leaves behind, told from its ticks and verdicts. */
  function Remembered(alarm: StreakAlarm, ticks: seq<StreakTick>, vs: seq<Verdict>, n: nat): StreakState
    requires n <= |ticks| == |vs|
  {
    var a := Anchor(vs, n);
    if a == -1 || ticks[a].counter.None? then Empty
    else Baseline(ticks[a].env.Process(), ticks[a].counter.value, TrailingHot(alarm, vs, n))
  }

  /** After any run the snapshot holds the process and counter of the last tick that counted or
      set a baseline, and the number of consecutive hot ticks since. */
  lemma {:induction false} StreakMeaning(alarm: StreakAlarm, ticks: seq<StreakTick>, n: nat)
    requires n <= |ticks|
    ensures var vs := Answers(alarm, ticks);
            After(alarm, ticks, n) == Remembered(alarm, ticks, vs, n)
            && (Anchor(vs, n) == -1 ==> TrailingHot(alarm, vs, n) == 0)
            && (Anchor(vs, n) >= 0 ==> ticks[Anchor(vs, n)].counter.Some?)
  {
    if n > 0 {
      StreakMeaning(alarm, ticks, n - 1);
      AnswerIs(alarm, ticks, n - 1);
      StepRemembers(alarm, After(alarm, ticks, n - 1), ticks[n - 1]);
    }
  }

  lemma {:induction false} AnswerIs(alarm: StreakAlarm, ticks: seq<StreakTick>, k: nat)
    requires k < |ticks|
    ensures var step := StreakStep(alarm, After(alarm, ticks, k), ticks[k]);
            After(alarm, ticks, k + 1) == step.0 && Answers(alarm, ticks)[k] == step.1
  {
    VerdictsAt(StreakMachine(alarm), Empty, ticks, |ticks|, k);
  }

  lemma {:induction false} StepRemembers(alarm: StreakAlarm, state: StreakState, tick: StreakTick)
    ensures var (next, verdict) := StreakStep(alarm, state, tick);
            if verdict.Stutters() then next == state
            else if verdict.Resets() then next == Empty && !IsCounted(verdict)
            else tick.counter.Some?
                 && next == Baseline(tick.env.Process(), tick.counter.value,
                              if Hot(alarm, verdict) && state.Baseline? then state.streak + 1 else 0)
                 && (IsCounted(verdict) ==>
                     state.Baseline? && state.process == tick.env.Process()
                     && Delta(verdict) == tick.counter.value - state.counter)
  {
  }

  /** A counted tick compares its counter with the one of the last active tick, which saw the
      same process. */
  predicate Linked(ticks: seq<StreakTick>, vs: seq<Verdict>, k: nat)
    requires k < |ticks| == |vs| && IsCounted(vs[k])
  {
    var a := Anchor(vs, k);
    a >= 0 && a == LastActive(vs, k)
    && ticks[a].env.Process() == ticks[k].env.Process()
    && ticks[a].counter.Some? && ticks[k].counter.Some?
    && Delta(vs[k]) == ticks[k].counter.value - ticks[a].counter.value
  }

  lemma {:induction false} CountedDelta(alarm: StreakAlarm, ticks: seq<StreakTick>, k: nat)
    requires k < |ticks| && IsCounted(Answers(alarm, ticks)[k])
    ensures Linked(ticks, Answers(alarm, ticks), k)
  {
    StreakMeaning(alarm, ticks, k);
    AnswerIs(alarm, ticks, k);
    StepRemembers(alarm, After(alarm, ticks, k), ticks[k]);
  }

  /** The sum of the deltas reported from tick `i` on, before tick `n`. */
  function DeltaSum(vs: seq<Verdict>, i: nat, n: nat): int
    requires i <= n <= |vs|
  {
    if n == i then 0
    else DeltaSum(vs, i, n - 1) + if IsCounted(vs[n - 1]) then Delta(vs[n - 1]) else 0
  }

  lemma {:induction false} LinkedDeltasTelescope(ticks: seq<StreakTick>, vs: seq<Verdict>, i: nat, n: nat)
    requires i < n <= |ticks| == |vs|
    requires Anchor(vs, i + 1) == i && ticks[i].counter.Some?
    requires forall k :: i < k < n ==> vs[k].Stutters() || IsCounted(vs[k])
    requires forall k :: i < k < n && IsCounted(vs[k]) ==> Linked(ticks, vs, k)
    ensures var a := Anchor(vs, n);
            a >= i && ticks[a].counter.Some?
            && DeltaSum(vs, i + 1, n) == ticks[a].counter.value - ticks[i].counter.value
  {
    if n > i + 1 {
      LinkedDeltasTelescope(ticks, vs, i, n - 1);
    }
  }

  /** Between two baselines the reported deltas add up to the growth of the counter. */
  lemma {:induction false} DeltasTelescope(alarm: StreakAlarm, ticks: seq<StreakTick>, i: nat, n: nat)
    requires i < n <= |ticks|
    requires Anchor(Answers(alarm, ticks), i + 1) == i
    requires forall k :: i < k < n ==> var verdict := Answers(alarm, ticks)[k];
                                       verdict.Stutters() || IsCounted(verdict)
    ensures var vs := Answers(alarm, ticks);
            var a := Anchor(vs, n);
            a >= i && ticks[i].counter.Some? && ticks[a].counter.Some?
            && DeltaSum(vs, i + 1, n) == ticks[a].counter.value - ticks[i].counter.value
  {
    var vs := Answers(alarm, ticks);
    StreakMeaning(alarm, ticks, i + 1);
    forall k | i < k < n && IsCounted(vs[k])
      ensures Linked(ticks, vs, k)
    {
      CountedDelta(alarm, ticks, k);
    }
    LinkedDeltasTelescope(ticks, vs, i, n);
  }

  /** The tick shows a process and a counter, and the alarm is open. */
  predicate Evaluable(alarm: StreakAlarm, tick: StreakTick) {
    Open(alarm.exempt, alarm.gates, tick.env) && tick.env.pid != "" && tick.env.startTicks != "" && tick.counter.Some?
  }

  /** The tick shows a new process, or a counter lower than the remembered one. */
  predicate RestartSeen(ticks: seq<StreakTick>, vs: seq<Verdict>, k: nat)
    requires k < |ticks| == |vs| && ticks[k].counter.Some?
  {
    var a := Anchor(vs, k);
    a >= 0
    && (ticks[a].env.pid != ticks[k].env.pid || ticks[a].env.startTicks != ticks[k].env.startTicks
        || (ticks[a].counter.Some? && ticks[k].counter.value < ticks[a].counter.value))
  }

  /** The tick shows the remembered process with no counter reset. */
  predicate Continues(ticks: seq<StreakTick>, vs: seq<Verdict>, k: nat)
    requires k < |ticks| == |vs| && ticks[k].counter.Some?
  {
    Anchor(vs, k) >= 0 && !RestartSeen(ticks, vs, k)
  }

  /** The tick's delta is taken: the previous scrape is of unknown age, or neither too young nor too old. */
  predicate DeltaTaken(ticks: seq<StreakTick>, vs: seq<Verdict>, k: nat)
    requires k < |ticks| == |vs| && ticks[k].counter.Some?
  {
    var env := ticks[k].env;
    Continues(ticks, vs, k)
    && (env.prevScrapeAge < 0 || env.minEvalWindow <= env.prevScrapeAge < env.gapStaleThreshold)
  }

  function DeltaAt(ticks: seq<StreakTick>, vs: seq<Verdict>, k: nat): int
    requires k < |ticks| == |vs| && ticks[k].counter.Some?
  {
    var a := Anchor(vs, k);
    if a >= 0 && ticks[a].counter.Some? then ticks[k].counter.value - ticks[a].counter.value else 0
  }

  /** A restart already shows too high a count: of the labelled series when the rule is scoped to one, of
      the counter itself otherwise. */
  predicate RestartTooHigh(alarm: StreakAlarm, tick: StreakTick)
    requires tick.counter.Some?
  {
    0 < alarm.postRestartThreshold
    && if alarm.postRestartScoped then tick.scoped.Some? && tick.scoped.value >= alarm.postRestartThreshold
       else tick.counter.value >= alarm.postRestartThreshold
  }

  /** What the ticks, and the streak before this one, say about firing: a burst, a hot tick that
      completes a streak, or a restart that already shows too high a count. */
  predicate ShouldFire(alarm: StreakAlarm, ticks: seq<StreakTick>, vs: seq<Verdict>, k: nat)
    requires k < |ticks| == |vs|
  {
    Evaluable(alarm, ticks[k])
    && (if RestartSeen(ticks, vs, k) then RestartTooHigh(alarm, ticks[k])
        else DeltaTaken(ticks, vs, k)
             && (DeltaAt(ticks, vs, k) >= alarm.burstThreshold
                 || (DeltaAt(ticks, vs, k) >= alarm.deltaThreshold
                     && TrailingHot(alarm, vs, k) + 1 >= alarm.streakThreshold)))
  }

  /** What a firing alarm reports: the count that was too high after a restart, or the growth and the
      streak it completes. */
  predicate FiringReport(alarm: StreakAlarm, ticks: seq<StreakTick>, vs: seq<Verdict>, k: nat)
    requires k < |ticks| == |vs| && ticks[k].counter.Some?
  {
    var tick := ticks[k];
    if RestartSeen(ticks, vs, k) then
      (alarm.postRestartScoped ==> tick.scoped.Some?)
      && vs[k] == Firing(Count(if alarm.postRestartScoped then tick.scoped.value else tick.counter.value), 0, true)
    else
      DeltaAt(ticks, vs, k) >= 0
      && vs[k] == Firing(Count(DeltaAt(ticks, vs, k)), TrailingHot(alarm, vs, k) + 1, false)
  }

  lemma {:induction false} FiresExactly(alarm: StreakAlarm, ticks: seq<StreakTick>, k: nat)
    requires k < |ticks|
    ensures var vs := Answers(alarm, ticks);
            (vs[k].Firing? <==> ShouldFire(alarm, ticks, vs, k))
            && (vs[k].Firing? ==> FiringReport(alarm, ticks, vs, k))
  {
    StreakMeaning(alarm, ticks, k);
    AnswerIs(alarm, ticks, k);
    ScreenedExactly(alarm.exempt, alarm.gates, ticks[k].env);
  }

  /** A rule scoped to one labelled series does not look at the counter of the restart tick. */
  lemma {:induction false} ScopedIgnoresCounter(alarm: StreakAlarm, state: StreakState, tick: StreakTick, counter: nat)
    requires alarm.postRestartScoped && state.Baseline? && tick.counter.Some?
    requires state.process == Identity(tick.env.pid, tick.env.startTicks) ==>
               tick.counter.value < state.counter && counter < state.counter
    ensures StreakStep(alarm, state, tick.(counter := Some(counter))).1 == StreakStep(alarm, state, tick).1
  {
  }

  /** A delta is judged exactly on evaluable ticks that neither restart, re-baseline nor
      duplicate; it is reported quiet exactly below both thresholds, and otherwise with the
      length of the streak it extends. */
  lemma {:induction false} CountsExactly(alarm: StreakAlarm, ticks: seq<StreakTick>, k: nat)
    requires k < |ticks|
    ensures var vs := Answers(alarm, ticks);
            (IsCounted(vs[k]) <==> Evaluable(alarm, ticks[k]) && DeltaTaken(ticks, vs, k))
            && (IsCounted(vs[k]) ==>
                Delta(vs[k]) == DeltaAt(ticks, vs, k)
                && (vs[k].Ok? <==> !Hot(alarm, vs[k]))
                && (!vs[k].Ok? ==> vs[k].ticks == TrailingHot(alarm, vs, k + 1)))
  {
    StreakMeaning(alarm, ticks, k);
    AnswerIs(alarm, ticks, k);
    ScreenedExactly(alarm.exempt, alarm.gates, ticks[k].env);
  }

  /** Exactly which ticks are no-ops: a missing identity, or a duplicate scrape that shows the
      remembered process with no counter reset and no stale gap. */
  lemma {:induction false} StuttersExactly(alarm: StreakAlarm, ticks: seq<StreakTick>, k: nat)
    requires k < |ticks|
    ensures var vs, env := Answers(alarm, ticks), ticks[k].env;
            vs[k].Stutters() <==>
            Open(alarm.exempt, alarm.gates, env)
            && (env.pid == "" || env.startTicks == ""
                || (ticks[k].counter.Some? && Continues(ticks, vs, k)
                    && 0 <= env.prevScrapeAge < env.minEvalWindow && env.prevScrapeAge < env.gapStaleThreshold))
  {
    StreakMeaning(alarm, ticks, k);
    AnswerIs(alarm, ticks, k);
    ScreenedExactly(alarm.exempt, alarm.gates, ticks[k].env);
  }

  /** Exactly which ticks set a baseline and do no more: the first one, a restart that does not fire, and
      one after a gap of the monitoring loop. */
  lemma {:induction false} BaselinesExactly(alarm: StreakAlarm, ticks: seq<StreakTick>, k: nat)
    requires k < |ticks|
    ensures var vs, env := Answers(alarm, ticks), ticks[k].env;
            vs[k] == CollectingBaseline <==>
            Evaluable(alarm, ticks[k])
            && (if Anchor(vs, k) < 0 then true
                else if RestartSeen(ticks, vs, k) then !RestartTooHigh(alarm, ticks[k])
                else 0 <= env.prevScrapeAge && env.gapStaleThreshold <= env.prevScrapeAge)
  {
    StreakMeaning(alarm, ticks, k);
    AnswerIs(alarm, ticks, k);
    ScreenedExactly(alarm.exempt, alarm.gates, ticks[k].env);
  }
}
