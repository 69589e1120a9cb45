/**
 When alarms fire inside the catalog: in any sequence of whole evaluations every stateful alarm fires
 exactly under the condition of its family on its own ticks, and reports are suppressed exactly by
 earlier reports of the whole run.
 */
module CatalogVerdicts {
  import opened Common
  import opened AlarmTypes
  import opened Runs
  import opened Catalog
  import opened CatalogRuns
  import opened Cooldowns
  import G = GaugeAlarms
  import D = DynamicAlarms
  import S = StreakAlarms
  import R = RatioAlarms
  import RR = RatioRuns
  import RM = RatioMeaning

  /** The verdict of job `k` in evaluation `t`. */
  function VerdictNow(store: Store, ticks: seq<CatalogTick>, t: nat, k: nat): Verdict
    requires t < |ticks| && k < |ticks[t].jobs|
  {
    VerdictIn(false, StoreRun(store, ticks, t), ticks[t].jobs, k)
  }

  /** What concerns one alarm before job `k` of evaluation `t`. */
  function Before<T>(part: Job -> Option<T>, ticks: seq<CatalogTick>, t: nat, k: nat): seq<T>
    requires t < |ticks| && k <= |ticks[t].jobs|
  {
    RunParts(part, ticks, t) + Parts(part, ticks[t].jobs, k)
  }

  /** And up to and including it. */
  function UpTo<T>(part: Job -> Option<T>, ticks: seq<CatalogTick>, t: nat, k: nat): seq<T>
    requires t < |ticks| && k < |ticks[t].jobs| && part(ticks[t].jobs[k]).Some?
  {
    Before(part, ticks, t, k) + [part(ticks[t].jobs[k]).value]
  }

  lemma {:induction false} LastAnswer<A, T, V>(step: (A, T) -> (A, V), start: A, before: seq<T>, x: T)
    ensures var run := before + [x];
            Verdicts(step, start, run, |run|)[|before|] == step(StateAfter(step, start, before, |before|), x).1
  {
    var run := before + [x];
    VerdictsAt(step, start, run, |run|, |before|);
    EarlierTicksDecide(step, start, before, x, |before|);
    assert run[|before|] == x;
  }

  /** What the machine answers from the view in the middle of an evaluation is the last answer of its
      own run so far. */
  lemma {:induction false} AnswerInRun<A(!new), T, V>(view: Store -> A, step: (A, T) -> (A, V),
                                                      part: Job -> Option<T>, store: Store, ticks: seq<CatalogTick>,
                                                      t: nat, k: nat)
    requires t < |ticks| && k < |ticks[t].jobs| && part(ticks[t].jobs[k]).Some? && Detached(view)
    requires forall i, j :: 0 <= i < |ticks| && 0 <= j < |ticks[i].jobs| ==> Follows(view, step, part, ticks[i].jobs[j])
    ensures var own := UpTo(part, ticks, t, k);
            step(view(StoreAfter(false, StoreRun(store, ticks, t), ticks[t].jobs, k)), part(ticks[t].jobs[k]).value).1
            == Verdicts(step, view(store), own, |own|)[|own| - 1]
  {
    ViewInRun(view, step, part, store, ticks, t, k);
    LastAnswer(step, view(store), Before(part, ticks, t, k), part(ticks[t].jobs[k]).value);
  }

  // ----- Streak alarms ------------------------------------------------------------------

  lemma {:induction false} StreakVerdictInRun(store: Store, ticks: seq<CatalogTick>, t: nat, k: nat, file: string,
                                              alarm: S.StreakAlarm)
    requires t < |ticks| && k < |ticks[t].jobs| && StreakPart(file)(ticks[t].jobs[k]).Some?
    requires StreakOf(store.streaks, file) == S.Empty && OwnsFile(ticks, file, alarm)
    ensures var own := UpTo(StreakPart(file), ticks, t, k);
            VerdictNow(store, ticks, t, k) == S.Answers(alarm, own)[|own| - 1]
  {
    forall i, j | 0 <= i < |ticks| && 0 <= j < |ticks[i].jobs|
      ensures Follows(StreakView(file), S.StreakMachine(alarm), StreakPart(file), ticks[i].jobs[j])
    {
      StreakFollows(file, alarm, ticks[i].jobs[j]);
    }
    AnswerInRun(StreakView(file), S.StreakMachine(alarm), StreakPart(file), store, ticks, t, k);
    assert ticks[t].jobs[k].task.streak == alarm;
  }

  /** In any sequence of whole evaluations a streak alarm fires exactly on a burst, on a completed
      streak or right after a restart, judged by its own ticks alone. */
  lemma {:induction false} StreakFiresInCatalog(store: Store, ticks: seq<CatalogTick>, t: nat, k: nat, file: string,
                                                alarm: S.StreakAlarm)
    requires t < |ticks| && k < |ticks[t].jobs| && StreakPart(file)(ticks[t].jobs[k]).Some?
    requires StreakOf(store.streaks, file) == S.Empty && OwnsFile(ticks, file, alarm)
    ensures var own := UpTo(StreakPart(file), ticks, t, k);
            VerdictNow(store, ticks, t, k).Firing?
            <==> S.ShouldFire(alarm, own, S.Answers(alarm, own), |own| - 1)
  {
    var own := UpTo(StreakPart(file), ticks, t, k);
    StreakVerdictInRun(store, ticks, t, k, file, alarm);
    S.FiresExactly(alarm, own, |own| - 1);
  }

  // ----- Dynamic alarms -----------------------------------------------------------------

  lemma {:induction false} DynamicVerdictInRun(store: Store, ticks: seq<CatalogTick>, t: nat, k: nat, name: string,
                                               alarm: D.DynamicAlarm)
    requires t < |ticks| && k < |ticks[t].jobs| && DynamicPart(name)(ticks[t].jobs[k]).Some?
    requires name !in store.dynamic && OwnsName(ticks, name, alarm)
    ensures var own := UpTo(DynamicPart(name), ticks, t, k);
            VerdictNow(store, ticks, t, k) == D.Answers(alarm, own)[|own| - 1]
  {
    forall i, j | 0 <= i < |ticks| && 0 <= j < |ticks[i].jobs|
      ensures Follows(DynamicView(name), D.DynamicMachine(alarm), DynamicPart(name), ticks[i].jobs[j])
    {
      DynamicFollows(name, alarm, ticks[i].jobs[j]);
    }
    AnswerInRun(DynamicView(name), D.DynamicMachine(alarm), DynamicPart(name), store, ticks, t, k);
    assert ticks[t].jobs[k].task.dynamic == alarm;
  }

  /** In any sequence of whole evaluations a dynamic alarm fires exactly on a surge over the delta of
      its own last active tick. */
  lemma {:induction false} DynamicFiresInCatalog(store: Store, ticks: seq<CatalogTick>, t: nat, k: nat, name: string,
                                                 alarm: D.DynamicAlarm)
    requires t < |ticks| && k < |ticks[t].jobs| && DynamicPart(name)(ticks[t].jobs[k]).Some?
    requires name !in store.dynamic && OwnsName(ticks, name, alarm)
    ensures var own := UpTo(DynamicPart(name), ticks, t, k);
            VerdictNow(store, ticks, t, k).Firing?
            <==> D.ShouldFire(alarm, own, D.Answers(alarm, own), |own| - 1)
  {
    var own := UpTo(DynamicPart(name), ticks, t, k);
    DynamicVerdictInRun(store, ticks, t, k, name, alarm);
    D.DynamicFiresExactly(alarm, own, |own| - 1);
  }

  // ----- Persistent gauges --------------------------------------------------------------

  lemma {:induction false} GaugeVerdictInRun(store: Store, ticks: seq<CatalogTick>, t: nat, k: nat, name: string,
                                             alarm: G.GaugeAlarm)
    requires t < |ticks| && k < |ticks[t].jobs| && GaugePart(name)(ticks[t].jobs[k]).Some?
    requires name !in store.gauge && alarm.forTicks > 1 && OwnsGauge(ticks, name, alarm)
    ensures var own := UpTo(GaugePart(name), ticks, t, k);
            VerdictNow(store, ticks, t, k) == G.VerdictOf(alarm, own, |own| - 1)
  {
    var before, tick := Before(GaugePart(name), ticks, t, k), ticks[t].jobs[k].task.gaugeTick;
    GaugeInRun(store, ticks, name, alarm, t, k);
    LastAnswer(G.GaugeMachine(alarm), CountOf(store.gauge, name), before, tick);
    VerdictsAt(G.GaugeMachine(alarm), CountOf(store.gauge, name), before + [tick], |before| + 1, |before|);
    assert IsGauge(ticks[t].jobs[k], name, alarm);
  }

  /** In any sequence of whole evaluations a persistent gauge fires exactly when its own last ticks form
      a full window of breaches. */
  lemma {:induction false} GaugeFiresInCatalog(store: Store, ticks: seq<CatalogTick>, t: nat, k: nat, name: string,
                                               alarm: G.GaugeAlarm)
    requires t < |ticks| && k < |ticks[t].jobs| && GaugePart(name)(ticks[t].jobs[k]).Some?
    requires name !in store.gauge && alarm.forTicks > 1 && OwnsGauge(ticks, name, alarm)
    ensures var own := UpTo(GaugePart(name), ticks, t, k);
            VerdictNow(store, ticks, t, k).Firing? <==> G.BreachWindow(alarm, own, alarm.forTicks, |own|)
  {
    var own := UpTo(GaugePart(name), ticks, t, k);
    GaugeVerdictInRun(store, ticks, t, k, name, alarm);
    G.GaugeFiresOnFullWindow(alarm, own, |own| - 1);
  }

  // ----- Ratio alarms -------------------------------------------------------------------

  /** The ratio evaluations up to and including job `k` of evaluation `t`. */
  function RatiosUpTo(ticks: seq<CatalogTick>, t: nat, k: nat): seq<R.Evaluation>
    requires t < |ticks| && k < |ticks[t].jobs| && ticks[t].jobs[k].task.Ratio?
  {
    RatiosBefore(ticks, t, k) + [ticks[t].jobs[k].task.evaluation]
  }

  lemma {:induction false} RatioVerdictIsAnswer(store: Store, ticks: seq<CatalogTick>, t: nat, k: nat)
    requires t < |ticks| && k < |ticks[t].jobs| && ticks[t].jobs[k].task.Ratio? && store.ratio == R.NoFile
    ensures var run := RatiosUpTo(ticks, t, k);
            VerdictNow(store, ticks, t, k) == RR.Answers(run, |run|)[|run| - 1]
  {
    var before, e := RatiosBefore(ticks, t, k), ticks[t].jobs[k].task.evaluation;
    RatioVerdictInRun(store, ticks, t, k, MemoryAfter(StoreRun(store, ticks, t).gauge, ticks[t].jobs, k));
    VerdictsAt(R.RatioMachine(), R.NoFile, before + [e], |before| + 1, |before|);
  }

  /** The last own answer is the last answer, whichever file it was read from. */
  lemma {:induction false} OwnAnswerIsLast(before: seq<R.Evaluation>, e: R.Evaluation)
    requires RR.ActsPrivate(before + [e], e.alarm.name, |before| + 1)
    ensures var run := before + [e];
            var own := RR.Own(run, e.alarm.name, |run|);
            own != [] && RR.Answers(own, |own|)[|own| - 1] == RR.Answers(run, |run|)[|run| - 1]
  {
    var run, name := before + [e], e.alarm.name;
    RR.OwnGrows(run, name, |before|);
    var kept := Kept(RR.Answers(run, |run|), RR.OwnMask(run, name), |run|);
    assert RR.OwnMask(run, name)[|before|];
    assert kept[|kept| - 1] == RR.Answers(run, |run|)[|before|];
  }

  /** While no evaluation of the alarm is lost, a ratio alarm in any sequence of whole evaluations fires
      exactly when its growth breaches and completes an unbroken series, judged by its own
      evaluations alone. */
  lemma {:induction false} RatioFiresUnlessLost(store: Store, ticks: seq<CatalogTick>, t: nat, k: nat)
    requires t < |ticks| && k < |ticks[t].jobs| && ticks[t].jobs[k].task.Ratio? && store.ratio == R.NoFile
    requires var run := RatiosUpTo(ticks, t, k);
             RR.NoneLost(run, ticks[t].jobs[k].task.evaluation.alarm.name, |run|)
    ensures var run, name := RatiosUpTo(ticks, t, k), ticks[t].jobs[k].task.evaluation.alarm.name;
            var own := RR.Own(run, name, |run|);
            own != []
            && (VerdictNow(store, ticks, t, k).Firing?
                <==> RM.ShouldFire(own, RR.Answers(own, |own|), name, |own| - 1))
  {
    var run, e := RatiosUpTo(ticks, t, k), ticks[t].jobs[k].task.evaluation;
    RatioVerdictIsAnswer(store, ticks, t, k);
    RR.SharedFileExactly(run, e.alarm.name, |run|);
    OwnAnswerIsLast(RatiosBefore(ticks, t, k), e);
    var own := RR.Own(run, e.alarm.name, |run|);
    RM.OwnIsAlone(run, e.alarm.name, |run|);
    RM.RatioFiresExactly(own, e.alarm.name, |own| - 1);
  }

  lemma {:induction false} RunPartsPrefix<T>(part: Job -> Option<T>, ticks: seq<CatalogTick>, t: nat, n: nat)
    requires t <= n <= |ticks|
    ensures RunParts(part, ticks, t) <= RunParts(part, ticks, n)
    decreases n - t
  {
    if t < n {
      RunPartsPrefix(part, ticks, t, n - 1);
    }
  }

  lemma {:induction false} PartsPrefix<T>(part: Job -> Option<T>, jobs: seq<Job>, k: nat, n: nat)
    requires k <= n <= |jobs|
    ensures Parts(part, jobs, k) <= Parts(part, jobs, n)
    decreases n - k
  {
    if k < n {
      PartsPrefix(part, jobs, k, n - 1);
    }
  }

  lemma {:induction false} UpToIsPrefix(ticks: seq<CatalogTick>, t: nat, k: nat)
    requires t < |ticks| && k < |ticks[t].jobs| && ticks[t].jobs[k].task.Ratio?
    ensures RatiosUpTo(ticks, t, k) <= RatioEvaluations(ticks, |ticks|)
  {
    var jobs := ticks[t].jobs;
    assert Parts(RatioPart, jobs, k + 1) == Parts(RatioPart, jobs, k) + [jobs[k].task.evaluation];
    PartsPrefix(RatioPart, jobs, k + 1, |jobs|);
    RunPartsPrefix(RatioPart, ticks, t + 1, |ticks|);
    assert RatiosUpTo(ticks, t, k) == RatioEvaluations(ticks, t) + Parts(RatioPart, jobs, k + 1);
    assert RatioEvaluations(ticks, t + 1) == RatioEvaluations(ticks, t) + Parts(RatioPart, jobs, |jobs|);
  }

  lemma {:induction false} NeverReturnInPrefix(run: seq<R.Evaluation>, whole: seq<R.Evaluation>)
    requires run <= whole && RR.IdentitiesNeverReturn(whole)
    ensures RR.IdentitiesNeverReturn(run)
  {
    forall i, j, k | 0 <= i < j < k < |run| && run[j].env.HasIdentity()
                     && RR.ShownAt(run, i, run[k].env.Process()) && RR.ShownAt(run, k, run[k].env.Process())
      ensures run[j].env.Process() == run[k].env.Process()
    {
      assert whole[i] == run[i] && whole[j] == run[j] && whole[k] == run[k];
      assert RR.ShownAt(whole, i, whole[k].env.Process()) && RR.ShownAt(whole, k, whole[k].env.Process());
    }
  }

  /** In particular when no process identity returns over the whole run of the catalog. */
  lemma {:induction false} RatioFiresInCatalog(store: Store, ticks: seq<CatalogTick>, t: nat, k: nat)
    requires t < |ticks| && k < |ticks[t].jobs| && ticks[t].jobs[k].task.Ratio? && store.ratio == R.NoFile
    requires RR.IdentitiesNeverReturn(RatioEvaluations(ticks, |ticks|))
    ensures var run, name := RatiosUpTo(ticks, t, k), ticks[t].jobs[k].task.evaluation.alarm.name;
            var own := RR.Own(run, name, |run|);
            own != []
            && (VerdictNow(store, ticks, t, k).Firing?
                <==> RM.ShouldFire(own, RR.Answers(own, |own|), name, |own| - 1))
  {
    var run, name := RatiosUpTo(ticks, t, k), ticks[t].jobs[k].task.evaluation.alarm.name;
    UpToIsPrefix(ticks, t, k);
    NeverReturnInPrefix(run, RatioEvaluations(ticks, |ticks|));
    RR.NothingLost(run, name, |run|);
    RatioFiresUnlessLost(store, ticks, t, k);
  }

  // ----- Cooldowns ----------------------------------------------------------------------

  /** The reports one evaluation puts before the cooldown file. */
  function TickItems(store: Store, tick: CatalogTick): seq<Item> {
    if tick.cooldownAt.None? then [] else Items(Raw(false, store, tick.jobs, |tick.jobs|), tick.cooldownAt.value)
  }

  /** One evaluation of a run: the state directory before and after it, the reports it puts before the
      cooldown file, and those it gives in the end. */
  datatype Stage = Stage(before: Store, tick: CatalogTick, items: seq<Item>, reports: seq<Report>, after: Store)

  predicate IsStage(stage: Stage) {
    stage.after == After(stage.before, stage.tick)
    && stage.items == TickItems(stage.before, stage.tick)
    && stage.reports == FinalReports(false, stage.before, stage.tick.jobs, stage.tick.cooldownAt)
  }

  ghost predicate IsHistory(stages: seq<Stage>) {
    (forall t :: 0 <= t < |stages| ==> IsStage(stages[t]))
    && (forall t :: 0 < t < |stages| ==> stages[t].before == stages[t - 1].after)
  }

  function StageAt(store: Store, ticks: seq<CatalogTick>, t: nat): Stage
    requires t < |ticks|
  {
    var before, tick := StoreRun(store, ticks, t), ticks[t];
    Stage(before, tick, TickItems(before, tick), FinalReports(false, before, tick.jobs, tick.cooldownAt),
          After(before, tick))
  }

  /** Every run of the catalog is such a history. */
  lemma {:induction false} RunIsHistory(store: Store, ticks: seq<CatalogTick>)
    ensures IsHistory(seq(|ticks|, t requires 0 <= t < |ticks| => StageAt(store, ticks, t)))
  {
    var stages := seq(|ticks|, t requires 0 <= t < |ticks| => StageAt(store, ticks, t));
    forall t | 0 <= t < |stages|
      ensures IsStage(stages[t])
    {
      StageIsStage(store, ticks, t);
    }
  }

  lemma {:induction false} StageIsStage(store: Store, ticks: seq<CatalogTick>, t: nat)
    requires t < |ticks|
    ensures IsStage(StageAt(store, ticks, t))
  {
  }

  /** The reports of the first `n` evaluations. */
  function Flatten(stages: seq<Stage>, n: nat): seq<Item>
    requires n <= |stages|
  {
    if n == 0 then [] else Flatten(stages, n - 1) + stages[n - 1].items
  }

  lemma {:induction false} AlarmsLeaveCooldowns(store: Store, jobs: seq<Job>, n: nat)
    requires n <= |jobs|
    ensures StoreAfter(false, store, jobs, n).cooldowns == store.cooldowns
  {
    if n > 0 {
      AlarmsLeaveCooldowns(store, jobs, n - 1);
    }
  }

  lemma {:induction false} TickCooldowns(store: Store, tick: CatalogTick)
    ensures var items := TickItems(store, tick);
            After(store, tick).cooldowns == EntriesAfter(store.cooldowns, items, |items|)
            && (tick.cooldownAt.Some? ==>
                FinalReports(false, store, tick.jobs, tick.cooldownAt) == ReportsOf(store.cooldowns, items))
  {
    AlarmsLeaveCooldowns(store, tick.jobs, |tick.jobs|);
  }

  /** The stage carries on the reports put before it. */
  ghost predicate CarriesOn(start: CooldownEntries, earlier: seq<Item>, stage: Stage) {
    var items := earlier + stage.items;
    stage.after.cooldowns == EntriesAfter(start, items, |items|)
    && (stage.tick.cooldownAt.Some? ==>
        |stage.reports| == |stage.items|
        && forall k :: 0 <= k < |stage.items| ==> stage.reports[k] == ReportsOf(start, items)[|earlier| + k])
  }

  lemma {:induction false} StageCarriesOn(start: CooldownEntries, earlier: seq<Item>, stage: Stage)
    requires IsStage(stage) && stage.before.cooldowns == EntriesAfter(start, earlier, |earlier|)
    ensures CarriesOn(start, earlier, stage)
  {
    TickCooldowns(stage.before, stage.tick);
    ReportsContinue(start, earlier, stage.items);
  }

  /** Over any number of evaluations the cooldown file runs through all the reports in order, and every
      final report is the one of its place among them. */
  lemma {:induction false} CooldownFileInRun(stages: seq<Stage>, t: nat)
    requires t < |stages| && IsHistory(stages)
    ensures CarriesOn(stages[0].before.cooldowns, Flatten(stages, t), stages[t])
  {
    var start, earlier := stages[0].before.cooldowns, Flatten(stages, t);
    if t == 0 {
      assert stages[0].before.cooldowns == EntriesAfter(start, earlier, |earlier|);
    } else {
      CooldownFileInRun(stages, t - 1);
      assert stages[t].before.cooldowns == EntriesAfter(start, earlier, |earlier|);
    }
    StageCarriesOn(start, earlier, stages[t]);
  }

  /** What each item of a stage is: the verdict of a job at the time of the evaluation. */
  lemma {:induction false} ItemsAreVerdicts(stage: Stage, k: nat)
    requires IsStage(stage) && stage.tick.cooldownAt.Some? && k < |stage.tick.jobs|
    ensures |stage.items| == |stage.tick.jobs|
    ensures stage.items[k]
            == Item(ReportOf(stage.tick.jobs[k], VerdictIn(false, stage.before, stage.tick.jobs, k)),
                    stage.tick.cooldownAt.value)
  {
  }

  /** What is reported for a job is a cooldown exactly when it fires in a family subject to cooldowns and an
      earlier report lies strictly inside its window, or, before the first one for its key, what was stored
      at the start does. Everything else is reported as it is. */
  ghost predicate RightReport(start: CooldownEntries, items: seq<Item>, j: nat, job: Job, verdict: Verdict, out: Report)
    requires j < |items|
  {
    out.key == job.key && out.seconds == job.seconds
    && if verdict.Firing? && (job.task.Gauge? || job.task.Dynamic? || job.task.Stateless?)
          && WindowHolds(start, items, j)
       then exists remaining :: CooledDown(Report(true, verdict, job.key, job.seconds), out, remaining)
       else out.verdict == verdict
  }

  ghost predicate RightlySuppressed(start: CooldownEntries, earlier: seq<Item>, stage: Stage, k: nat) {
    |stage.reports| == |stage.items| == |stage.tick.jobs| && k < |stage.items|
    && RightReport(start, earlier + stage.items, |earlier| + k, stage.tick.jobs[k],
                   VerdictIn(false, stage.before, stage.tick.jobs, k), stage.reports[k])
  }

  lemma {:induction false} ReportedRightly(start: CooldownEntries, items: seq<Item>, j: nat, job: Job, verdict: Verdict)
    requires j < |items| && TimeNeverRunsBack(items) && items[j].report == ReportOf(job, verdict)
    ensures RightReport(start, items, j, job, verdict, ReportsOf(start, items)[j])
  {
    SuppressedExactly(start, items, j);
  }

  lemma {:induction false} ReportInPlace(start: CooldownEntries, earlier: seq<Item>, stage: Stage, k: nat)
    requires CarriesOn(start, earlier, stage) && stage.tick.cooldownAt.Some? && k < |stage.items|
    ensures |stage.reports| == |stage.items|
    ensures stage.reports[k] == ReportsOf(start, earlier + stage.items)[|earlier| + k]
  {
  }

  lemma {:induction false} SuppressedAt(start: CooldownEntries, earlier: seq<Item>, stage: Stage, k: nat)
    requires |stage.reports| == |stage.items| == |stage.tick.jobs| && k < |stage.items|
    requires stage.items[k].report
             == ReportOf(stage.tick.jobs[k], VerdictIn(false, stage.before, stage.tick.jobs, k))
    requires stage.reports[k] == ReportsOf(start, earlier + stage.items)[|earlier| + k]
    requires TimeNeverRunsBack(earlier + stage.items)
    ensures RightlySuppressed(start, earlier, stage, k)
  {
    var items := earlier + stage.items;
    assert items[|earlier| + k] == stage.items[k];
    ReportedRightly(start, items, |earlier| + k, stage.tick.jobs[k],
                    VerdictIn(false, stage.before, stage.tick.jobs, k));
  }

  lemma {:induction false} StageSuppresses(start: CooldownEntries, earlier: seq<Item>, stage: Stage, k: nat)
    requires CarriesOn(start, earlier, stage) && IsStage(stage) && TimeNeverRunsBack(earlier + stage.items)
    requires stage.tick.cooldownAt.Some? && k < |stage.items|
    ensures RightlySuppressed(start, earlier, stage, k)
  {
    ReportInPlace(start, earlier, stage, k);
    ItemsAreVerdicts(stage, k);
    SuppressedAt(start, earlier, stage, k);
  }

  /** In any sequence of whole evaluations with a clock that does not run back, firing metrics alarms are
      suppressed exactly as the reports of the whole run demand. */
  lemma {:induction false} SuppressedInCatalog(stages: seq<Stage>, t: nat, k: nat)
    requires t < |stages| && IsHistory(stages) && stages[t].tick.cooldownAt.Some? && k < |stages[t].items|
    requires TimeNeverRunsBack(Flatten(stages, t) + stages[t].items)
    ensures RightlySuppressed(stages[0].before.cooldowns, Flatten(stages, t), stages[t], k)
  {
    CooldownFileInRun(stages, t);
    StageSuppresses(stages[0].before.cooldowns, Flatten(stages, t), stages[t], k);
  }
}
