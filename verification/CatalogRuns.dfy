/**
 Many evaluations of a catalog, one after the other over the same state directory: every stateful
 alarm runs as if it were alone, so what is proved about single alarms holds inside the catalog.
 */
module CatalogRuns {
  import opened Common
  import opened AlarmTypes
  import opened Runs
  import opened Catalog
  import G = GaugeAlarms
  import D = DynamicAlarms
  import S = StreakAlarms
  import R = RatioAlarms

  /** One evaluation: the alarms with what they see, and the time if a cooldown file is in use. */
  datatype CatalogTick = CatalogTick(jobs: seq<Job>, cooldownAt: Option<int>)

  /** The state directory after one writing evaluation. */
  function After(store: Store, tick: CatalogTick): Store {
    FinalStore(false, store, tick.jobs, tick.cooldownAt)
  }

  /** The state directory after the first `n` evaluations. */
  function StoreRun(store: Store, ticks: seq<CatalogTick>, n: nat): Store
    requires n <= |ticks|
  {
    if n == 0 then store
    else After(StoreRun(store, ticks, n - 1), ticks[n - 1])
  }

  /** What concerns one alarm, or one family, among the first `n` jobs. */
  function Parts<T>(part: Job -> Option<T>, jobs: seq<Job>, n: nat): seq<T>
    requires n <= |jobs|
  {
    if n == 0 then []
    else Parts(part, jobs, n - 1) + if part(jobs[n - 1]).Some? then [part(jobs[n - 1]).value] else []
  }

  /** What concerns it in the first `n` evaluations. */
  function RunParts<T>(part: Job -> Option<T>, ticks: seq<CatalogTick>, n: nat): seq<T>
    requires n <= |ticks|
  {
    if n == 0 then [] else RunParts(part, ticks, n - 1) + Parts(part, ticks[n - 1].jobs, |ticks[n - 1].jobs|)
  }

  // ----- The general argument -----------------------------------------------------------

  /** The job changes the view by one step of the machine, or not at all. */
  ghost predicate Follows<A, T, V>(view: Store -> A, step: (A, T) -> (A, V), part: Job -> Option<T>, job: Job) {
    forall store: Store {:trigger StoreNext(store, job)} ::
      view(StoreNext(store, job)) == if part(job).Some? then step(view(store), part(job).value).0 else view(store)
  }

  /** The view does not depend on the files written after the alarms. */
  ghost predicate Detached<A(!new)>(view: Store -> A) {
    forall one: Store, other: Store ::
      one.dynamic == other.dynamic && one.ratio == other.ratio && one.streaks == other.streaks ==>
        view(one) == view(other)
  }

  lemma {:induction false} OnePartMore<A, T, V>(step: (A, T) -> (A, V), start: A, part: Job -> Option<T>,
                                                jobs: seq<Job>, k: nat)
    requires k < |jobs|
    ensures var own, more := Parts(part, jobs, k), Parts(part, jobs, k + 1);
            var state := StateAfter(step, start, own, |own|);
            StateAfter(step, start, more, |more|)
            == if part(jobs[k]).Some? then step(state, part(jobs[k]).value).0 else state
  {
    var own := Parts(part, jobs, k);
    if part(jobs[k]).Some? {
      EarlierTicksDecide(step, start, own, part(jobs[k]).value, |own|);
    } else {
      assert Parts(part, jobs, k + 1) == own;
    }
  }

  lemma {:induction false} JobsFollow<A, T, V>(view: Store -> A, step: (A, T) -> (A, V), part: Job -> Option<T>,
                                               store: Store, jobs: seq<Job>, n: nat)
    requires n <= |jobs| && forall k :: 0 <= k < n ==> Follows(view, step, part, jobs[k])
    ensures view(StoreAfter(false, store, jobs, n))
            == StateAfter(step, view(store), Parts(part, jobs, n), |Parts(part, jobs, n)|)
  {
    if n > 0 {
      JobsFollow(view, step, part, store, jobs, n - 1);
      assert Follows(view, step, part, jobs[n - 1]);
      assert StoreAfter(false, store, jobs, n) == StoreNext(StoreAfter(false, store, jobs, n - 1), jobs[n - 1]);
      OnePartMore(step, view(store), part, jobs, n - 1);
    }
  }

  lemma {:induction false} FinishDetached<A(!new)>(view: Store -> A, store: Store, jobs: seq<Job>,
                                                   cooldownAt: Option<int>)
    requires Detached(view)
    ensures view(FinalStore(false, store, jobs, cooldownAt)) == view(StoreAfter(false, store, jobs, |jobs|))
  {
  }

  /** A whole evaluation takes the view through the machine's steps for its part. */
  ghost predicate TickMoves<A, T, V>(view: Store -> A, step: (A, T) -> (A, V), part: Job -> Option<T>,
                                     tick: CatalogTick)
  {
    var own := Parts(part, tick.jobs, |tick.jobs|);
    forall store: Store {:trigger After(store, tick)} ::
      view(After(store, tick)) == StateAfter(step, view(store), own, |own|)
  }

  lemma {:induction false} TicksCompose<A, T, V>(view: Store -> A, step: (A, T) -> (A, V), part: Job -> Option<T>,
                                                 store: Store, ticks: seq<CatalogTick>, n: nat)
    requires n <= |ticks| && forall t :: 0 <= t < n ==> TickMoves(view, step, part, ticks[t])
    ensures var own := RunParts(part, ticks, n);
            view(StoreRun(store, ticks, n)) == StateAfter(step, view(store), own, |own|)
  {
    if n > 0 {
      var tick, reached := ticks[n - 1], StoreRun(store, ticks, n - 1);
      var own := Parts(part, tick.jobs, |tick.jobs|);
      TicksCompose(view, step, part, store, ticks, n - 1);
      assert TickMoves(view, step, part, tick);
      assert view(After(reached, tick)) == StateAfter(step, view(reached), own, |own|);
      ContinueRun(step, view(store), RunParts(part, ticks, n - 1), own, |own|);
    }
  }

  lemma {:induction false} TickFollows<A(!new), T, V>(view: Store -> A, step: (A, T) -> (A, V),
                                                      part: Job -> Option<T>, tick: CatalogTick)
    requires Detached(view) && forall k :: 0 <= k < |tick.jobs| ==> Follows(view, step, part, tick.jobs[k])
    ensures TickMoves(view, step, part, tick)
  {
    var own := Parts(part, tick.jobs, |tick.jobs|);
    forall store: Store
      ensures view(After(store, tick)) == StateAfter(step, view(store), own, |own|)
    {
      JobsFollow(view, step, part, store, tick.jobs, |tick.jobs|);
      FinishDetached(view, store, tick.jobs, tick.cooldownAt);
    }
  }

  /** Over any number of evaluations the view runs through the machine. */
  lemma {:induction false} TicksFollow<A(!new), T, V>(view: Store -> A, step: (A, T) -> (A, V),
                                                      part: Job -> Option<T>, store: Store, ticks: seq<CatalogTick>,
                                                      n: nat)
    requires n <= |ticks| && Detached(view)
    requires forall t, k :: 0 <= t < n && 0 <= k < |ticks[t].jobs| ==> Follows(view, step, part, ticks[t].jobs[k])
    ensures var own := RunParts(part, ticks, n);
            view(StoreRun(store, ticks, n)) == StateAfter(step, view(store), own, |own|)
  {
    forall t | 0 <= t < n
      ensures TickMoves(view, step, part, ticks[t])
    {
      TickFollows(view, step, part, ticks[t]);
    }
    TicksCompose(view, step, part, store, ticks, n);
  }

  lemma {:induction false} JobsContinue<A, T, V>(view: Store -> A, step: (A, T) -> (A, V), part: Job -> Option<T>,
                                                 start: A, before: seq<T>, reached: Store, jobs: seq<Job>, k: nat)
    requires k <= |jobs| && view(reached) == StateAfter(step, start, before, |before|)
    requires forall i :: 0 <= i < k ==> Follows(view, step, part, jobs[i])
    ensures var parts := before + Parts(part, jobs, k);
            view(StoreAfter(false, reached, jobs, k)) == StateAfter(step, start, parts, |parts|)
  {
    var own := Parts(part, jobs, k);
    JobsFollow(view, step, part, reached, jobs, k);
    ContinueRun(step, start, before, own, |own|);
  }

  /** The same in the middle of an evaluation. */
  lemma {:induction false} ViewInRun<A(!new), T, V>(view: Store -> A, step: (A, T) -> (A, V), part: Job -> Option<T>,
                                                    store: Store, ticks: seq<CatalogTick>, t: nat, k: nat)
    requires t < |ticks| && k <= |ticks[t].jobs| && Detached(view)
    requires forall i, j :: 0 <= i < |ticks| && 0 <= j < |ticks[i].jobs| ==> Follows(view, step, part, ticks[i].jobs[j])
    ensures var before := RunParts(part, ticks, t) + Parts(part, ticks[t].jobs, k);
            view(StoreAfter(false, StoreRun(store, ticks, t), ticks[t].jobs, k))
            == StateAfter(step, view(store), before, |before|)
  {
    TicksFollow(view, step, part, store, ticks, t);
    JobsContinue(view, step, part, view(store), RunParts(part, ticks, t), StoreRun(store, ticks, t), ticks[t].jobs, k);
  }

  // ----- The ratio family ---------------------------------------------------------------

  function RatioPart(job: Job): Option<R.Evaluation> {
    if job.task.Ratio? then Some(job.task.evaluation) else None
  }

  /** All ratio evaluations of the run, in order. */
  function RatioEvaluations(ticks: seq<CatalogTick>, n: nat): seq<R.Evaluation>
    requires n <= |ticks|
  {
    RunParts(RatioPart, ticks, n)
  }

  /** The shared ratio file of the catalog is the one of a run of ratio evaluations alone. */
  lemma {:induction false} RatioFileRunsAlone(store: Store, ticks: seq<CatalogTick>, n: nat)
    requires n <= |ticks|
    ensures var run := RatioEvaluations(ticks, n);
            StoreRun(store, ticks, n).ratio == StateAfter(R.RatioMachine(), store.ratio, run, |run|)
  {
    var view := (s: Store) => s.ratio;
    forall t, k | 0 <= t < n && 0 <= k < |ticks[t].jobs|
      ensures Follows(view, R.RatioMachine(), RatioPart, ticks[t].jobs[k])
    {
    }
    TicksFollow(view, R.RatioMachine(), RatioPart, store, ticks, n);
  }

  /** All ratio evaluations before job `k` of evaluation `t`. */
  function RatiosBefore(ticks: seq<CatalogTick>, t: nat, k: nat): seq<R.Evaluation>
    requires t < |ticks| && k <= |ticks[t].jobs|
  {
    RatioEvaluations(ticks, t) + Parts(RatioPart, ticks[t].jobs, k)
  }

  lemma {:induction false} RatioFileInRun(store: Store, ticks: seq<CatalogTick>, t: nat, k: nat)
    requires t < |ticks| && k <= |ticks[t].jobs|
    ensures var before := RatiosBefore(ticks, t, k);
            StoreAfter(false, StoreRun(store, ticks, t), ticks[t].jobs, k).ratio
            == StateAfter(R.RatioMachine(), store.ratio, before, |before|)
  {
    var view := (s: Store) => s.ratio;
    forall i, j | 0 <= i < |ticks| && 0 <= j < |ticks[i].jobs|
      ensures Follows(view, R.RatioMachine(), RatioPart, ticks[i].jobs[j])
    {
    }
    ViewInRun(view, R.RatioMachine(), RatioPart, store, ticks, t, k);
  }

  /** And its verdicts are those of that run: a ratio alarm inside the catalog sees the shared file
      that the ratio evaluations before it left behind. */
  lemma {:induction false} RatioVerdictInRun(store: Store, ticks: seq<CatalogTick>, t: nat, k: nat, memory: Counters)
    requires t < |ticks| && k < |ticks[t].jobs| && ticks[t].jobs[k].task.Ratio?
    ensures var before, job := RatiosBefore(ticks, t, k), ticks[t].jobs[k];
            JobVerdict(StoreAfter(false, StoreRun(store, ticks, t), ticks[t].jobs, k), memory, job)
            == VerdictAt(R.RatioMachine(), store.ratio, before + [job.task.evaluation], |before|)
  {
    var before, e := RatiosBefore(ticks, t, k), ticks[t].jobs[k].task.evaluation;
    RatioFileInRun(store, ticks, t, k);
    EarlierTicksDecide(R.RatioMachine(), store.ratio, before, e, |before|);
    assert (before + [e])[|before|] == e;
  }

  // ----- Streak alarms ------------------------------------------------------------------

  function StreakPart(file: string): Job -> Option<S.StreakTick> {
    (job: Job) => if job.task.Streak? && job.task.file == file then Some(job.task.streakTick) else None
  }

  /** Only this alarm uses the file. */
  ghost predicate OwnsFile(ticks: seq<CatalogTick>, file: string, alarm: S.StreakAlarm) {
    forall t, k :: 0 <= t < |ticks| && 0 <= k < |ticks[t].jobs| ==>
      var task := ticks[t].jobs[k].task; task.Streak? && task.file == file ==> task.streak == alarm
  }

  function StreakView(file: string): Store -> S.StreakState {
    (s: Store) => StreakOf(s.streaks, file)
  }

  lemma {:induction false} StreakFollows(file: string, alarm: S.StreakAlarm, job: Job)
    requires job.task.Streak? && job.task.file == file ==> job.task.streak == alarm
    ensures Follows(StreakView(file), S.StreakMachine(alarm), StreakPart(file), job)
  {
  }

  lemma {:induction false} StreakFileIsRun(store: Store, ticks: seq<CatalogTick>, file: string, alarm: S.StreakAlarm)
    requires OwnsFile(ticks, file, alarm)
    ensures var own := RunParts(StreakPart(file), ticks, |ticks|);
            StreakOf(StoreRun(store, ticks, |ticks|).streaks, file)
            == StateAfter(S.StreakMachine(alarm), StreakOf(store.streaks, file), own, |own|)
  {
    forall t, k | 0 <= t < |ticks| && 0 <= k < |ticks[t].jobs|
      ensures Follows(StreakView(file), S.StreakMachine(alarm), StreakPart(file), ticks[t].jobs[k])
    {
      StreakFollows(file, alarm, ticks[t].jobs[k]);
    }
    TicksFollow(StreakView(file), S.StreakMachine(alarm), StreakPart(file), store, ticks, |ticks|);
  }

  /** After any number of evaluations a streak alarm's file holds what the alarm's own ticks and
      verdicts say: the last counted process and counter, and the length of its streak. */
  lemma {:induction false} StreakFileRunsAlone(store: Store, ticks: seq<CatalogTick>, file: string,
                                               alarm: S.StreakAlarm)
    requires StreakOf(store.streaks, file) == S.Empty && OwnsFile(ticks, file, alarm)
    ensures var own := RunParts(StreakPart(file), ticks, |ticks|);
            StreakOf(StoreRun(store, ticks, |ticks|).streaks, file)
            == S.Remembered(alarm, own, S.Answers(alarm, own), |own|)
  {
    StreakFileIsRun(store, ticks, file, alarm);
    var own := RunParts(StreakPart(file), ticks, |ticks|);
    S.StreakMeaning(alarm, own, |own|);
  }

  // ----- Dynamic alarms -----------------------------------------------------------------

  function DynamicPart(name: string): Job -> Option<D.DynamicTick> {
    (job: Job) => if job.task.Dynamic? && job.name == name then Some(job.task.dynamicTick) else None
  }

  ghost predicate OwnsName(ticks: seq<CatalogTick>, name: string, alarm: D.DynamicAlarm) {
    forall t, k :: 0 <= t < |ticks| && 0 <= k < |ticks[t].jobs| ==>
      var job := ticks[t].jobs[k]; job.task.Dynamic? && job.name == name ==> job.task.dynamic == alarm
  }

  function DynamicView(name: string): Store -> Option<nat> {
    (s: Store) => PriorOf(s.dynamic, name)
  }

  lemma {:induction false} DynamicFollows(name: string, alarm: D.DynamicAlarm, job: Job)
    requires job.task.Dynamic? && job.name == name ==> job.task.dynamic == alarm
    ensures Follows(DynamicView(name), D.DynamicMachine(alarm), DynamicPart(name), job)
  {
  }

  /** After any number of evaluations a dynamic alarm's stored delta is that of its own last
      active tick. */
  lemma {:induction false} DynamicDeltaRunsAlone(store: Store, ticks: seq<CatalogTick>, name: string,
                                                 alarm: D.DynamicAlarm)
    requires name !in store.dynamic && OwnsName(ticks, name, alarm)
    ensures var own := RunParts(DynamicPart(name), ticks, |ticks|);
            var stored := PriorOf(StoreRun(store, ticks, |ticks|).dynamic, name);
            D.Remembers(alarm, own, D.Answers(alarm, own), |own|, stored)
  {
    forall t, k | 0 <= t < |ticks| && 0 <= k < |ticks[t].jobs|
      ensures Follows(DynamicView(name), D.DynamicMachine(alarm), DynamicPart(name), ticks[t].jobs[k])
    {
      DynamicFollows(name, alarm, ticks[t].jobs[k]);
    }
    TicksFollow(DynamicView(name), D.DynamicMachine(alarm), DynamicPart(name), store, ticks, |ticks|);
    var own := RunParts(DynamicPart(name), ticks, |ticks|);
    D.DynamicMeaning(alarm, own, |own|);
  }

  // ----- Persistent gauges --------------------------------------------------------------

  function GaugePart(name: string): Job -> Option<G.GaugeTick> {
    (job: Job) => if job.task.Gauge? && job.name == name then Some(job.task.gaugeTick) else None
  }

  ghost predicate OwnsGauge(ticks: seq<CatalogTick>, name: string, alarm: G.GaugeAlarm) {
    forall t, k :: 0 <= t < |ticks| && 0 <= k < |ticks[t].jobs| ==> IsGauge(ticks[t].jobs[k], name, alarm)
  }

  predicate IsGauge(job: Job, name: string, alarm: G.GaugeAlarm) {
    job.task.Gauge? && job.name == name ==> job.task.gauge == alarm
  }

  /** The job changes the persistence counters by one step of the machine, or not at all. */
  ghost predicate Moves<A, T, V>(view: Counters -> A, step: (A, T) -> (A, V), part: Job -> Option<T>, job: Job) {
    forall memory: Counters {:trigger MemoryNext(memory, job)} ::
      view(MemoryNext(memory, job)) == if part(job).Some? then step(view(memory), part(job).value).0 else view(memory)
  }

  lemma {:induction false} MemoryFollows<A, T, V>(view: Counters -> A, step: (A, T) -> (A, V), part: Job -> Option<T>,
                                                  memory: Counters, jobs: seq<Job>, n: nat)
    requires n <= |jobs| && forall k :: 0 <= k < n ==> Moves(view, step, part, jobs[k])
    ensures view(MemoryAfter(memory, jobs, n))
            == StateAfter(step, view(memory), Parts(part, jobs, n), |Parts(part, jobs, n)|)
  {
    if n > 0 {
      MemoryFollows(view, step, part, memory, jobs, n - 1);
      assert Moves(view, step, part, jobs[n - 1]);
      OnePartMore(step, view(memory), part, jobs, n - 1);
    }
  }

  function GaugeView(name: string): Counters -> nat {
    (memory: Counters) => CountOf(memory, name)
  }

  lemma {:induction false} GaugeMoves(job: Job, name: string, alarm: G.GaugeAlarm)
    requires alarm.forTicks > 1 && IsGauge(job, name, alarm)
    ensures Moves(GaugeView(name), G.GaugeMachine(alarm), GaugePart(name), job)
  {
  }

  lemma {:induction false} GaugeJobs(memory: Counters, jobs: seq<Job>, name: string, alarm: G.GaugeAlarm, n: nat)
    requires n <= |jobs| && alarm.forTicks > 1 && forall k :: 0 <= k < |jobs| ==> IsGauge(jobs[k], name, alarm)
    ensures var own := Parts(GaugePart(name), jobs, n);
            CountOf(MemoryAfter(memory, jobs, n), name)
            == StateAfter(G.GaugeMachine(alarm), CountOf(memory, name), own, |own|)
  {
    forall k | 0 <= k < n
      ensures Moves(GaugeView(name), G.GaugeMachine(alarm), GaugePart(name), jobs[k])
    {
      GaugeMoves(jobs[k], name, alarm);
    }
    MemoryFollows(GaugeView(name), G.GaugeMachine(alarm), GaugePart(name), memory, jobs, n);
  }

  function StoredGauge(name: string): Store -> nat {
    (s: Store) => CountOf(s.gauge, name)
  }

  lemma {:induction false} GaugeTickMoves(name: string, alarm: G.GaugeAlarm, tick: CatalogTick)
    requires alarm.forTicks > 1 && forall k :: 0 <= k < |tick.jobs| ==> IsGauge(tick.jobs[k], name, alarm)
    ensures TickMoves(StoredGauge(name), G.GaugeMachine(alarm), GaugePart(name), tick)
  {
    var own := Parts(GaugePart(name), tick.jobs, |tick.jobs|);
    forall store: Store
      ensures StoredGauge(name)(After(store, tick))
              == StateAfter(G.GaugeMachine(alarm), StoredGauge(name)(store), own, |own|)
    {
      GaugeJobs(store.gauge, tick.jobs, name, alarm, |tick.jobs|);
      FinalGauge(store, tick);
    }
  }

  lemma {:induction false} FinalGauge(store: Store, tick: CatalogTick)
    ensures After(store, tick).gauge == MemoryAfter(store.gauge, tick.jobs, |tick.jobs|)
  {
  }

  lemma {:induction false} GaugeTicks(store: Store, ticks: seq<CatalogTick>, name: string, alarm: G.GaugeAlarm, n: nat)
    requires n <= |ticks| && alarm.forTicks > 1 && OwnsGauge(ticks, name, alarm)
    ensures var own := RunParts(GaugePart(name), ticks, n);
            CountOf(StoreRun(store, ticks, n).gauge, name)
            == StateAfter(G.GaugeMachine(alarm), CountOf(store.gauge, name), own, |own|)
  {
    forall t | 0 <= t < n
      ensures TickMoves(StoredGauge(name), G.GaugeMachine(alarm), GaugePart(name), ticks[t])
    {
      GaugeTickMoves(name, alarm, ticks[t]);
    }
    TicksCompose(StoredGauge(name), G.GaugeMachine(alarm), GaugePart(name), store, ticks, n);
  }

  /** The counter in memory in the middle of an evaluation. */
  lemma {:induction false} GaugeInRun(store: Store, ticks: seq<CatalogTick>, name: string, alarm: G.GaugeAlarm,
                                      t: nat, k: nat)
    requires t < |ticks| && k <= |ticks[t].jobs| && alarm.forTicks > 1 && OwnsGauge(ticks, name, alarm)
    ensures var before := RunParts(GaugePart(name), ticks, t) + Parts(GaugePart(name), ticks[t].jobs, k);
            CountOf(MemoryAfter(StoreRun(store, ticks, t).gauge, ticks[t].jobs, k), name)
            == StateAfter(G.GaugeMachine(alarm), CountOf(store.gauge, name), before, |before|)
  {
    var stored := StoreRun(store, ticks, t).gauge;
    GaugeTicks(store, ticks, name, alarm, t);
    GaugeJobs(stored, ticks[t].jobs, name, alarm, k);
    Joined(G.GaugeMachine(alarm), CountOf(store.gauge, name),
           RunParts(GaugePart(name), ticks, t), CountOf(stored, name),
           Parts(GaugePart(name), ticks[t].jobs, k), CountOf(MemoryAfter(stored, ticks[t].jobs, k), name));
  }

  /** After any number of evaluations the stored persistence counter reaches `m` exactly when the
      gauge's own last `m` ticks form an unbroken window of breaches. */
  lemma {:induction false} GaugeCounterRunsAlone(store: Store, ticks: seq<CatalogTick>, name: string,
                                                 alarm: G.GaugeAlarm, m: nat)
    requires name !in store.gauge && alarm.forTicks > 1 && 0 < m && OwnsGauge(ticks, name, alarm)
    ensures var own := RunParts(GaugePart(name), ticks, |ticks|);
            CountOf(StoreRun(store, ticks, |ticks|).gauge, name) >= m <==> G.BreachWindow(alarm, own, m, |own|)
  {
    GaugeTicks(store, ticks, name, alarm, |ticks|);
    var own := RunParts(GaugePart(name), ticks, |ticks|);
    G.CounterMeasuresWindow(alarm, own, m, |own|);
  }
}
