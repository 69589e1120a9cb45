/**
 One evaluation of a whole catalog over the state directory: every alarm in order, then the gauge
 persistence file and the cooldowns. With snapshot writes switched off it is a dry run.
 */
module Catalog {
  import opened Common
  import opened AlarmTypes
  import opened GaugeAlarms
  import D = DynamicAlarms
  import S = StreakAlarms
  import R = RatioAlarms
  import opened Cooldowns

  /** An alarm of the catalog with what this tick's scrape shows for it. */
  datatype Task =
    | Gauge(gauge: GaugeAlarm, gaugeTick: GaugeTick)
    | Dynamic(dynamic: D.DynamicAlarm, dynamicTick: D.DynamicTick)
    | Ratio(evaluation: R.Evaluation)
    | Streak(file: string, streak: S.StreakAlarm, streakTick: S.StreakTick)
    | Stateless(verdict: Verdict)

  datatype Job = Job(name: string, key: string, seconds: int, task: Task)

  type Counters = map<string, nat>

  /** The state directory. */
  datatype Store = Store(
    gauge: Counters,
    dynamic: Counters,
    ratio: R.RatioFile,
    streaks: map<string, S.StreakState>,
    cooldowns: CooldownEntries)

  // ----- One alarm ----------------------------------------------------------------------

  function CountOf(counters: Counters, name: string): nat {
    if name in counters then counters[name] else 0
  }

  function PriorOf(counters: Counters, name: string): Option<nat> {
    if name in counters then Some(counters[name]) else None
  }

  function WithPrior(counters: Counters, name: string, prior: Option<nat>): Counters {
    if prior.Some? then counters[name := prior.value] else counters - {name}
  }

  /** A streak snapshot; a missing file reads like an empty one. */
  function StreakOf(streaks: map<string, S.StreakState>, file: string): S.StreakState {
    if file in streaks then streaks[file] else S.Empty
  }

  /** What the alarm leaves in the state directory when it may write. */
  function StoreNext(store: Store, job: Job): Store {
    match job.task
    case Gauge(_, _) => store
    case Dynamic(alarm, tick) =>
      store.(dynamic := WithPrior(store.dynamic, job.name,
                                  D.DynamicStep(alarm, PriorOf(store.dynamic, job.name), tick).0))
    case Ratio(e) => store.(ratio := R.RatioStep(store.ratio, e).0)
    case Streak(file, alarm, tick) =>
      store.(streaks := store.streaks[file := S.StreakStep(alarm, StreakOf(store.streaks, file), tick).0])
    case Stateless(_) => store
  }

  /** The gauge persistence counters are kept in memory until the end of the evaluation. */
  function MemoryNext(memory: Counters, job: Job): Counters {
    if job.task.Gauge? && job.task.gauge.forTicks > 1 then
      memory[job.name := GaugeStep(job.task.gauge, CountOf(memory, job.name), job.task.gaugeTick).0]
    else memory
  }

  function JobVerdict(store: Store, memory: Counters, job: Job): Verdict {
    match job.task
    case Gauge(alarm, tick) => GaugeStep(alarm, CountOf(memory, job.name), tick).1
    case Dynamic(alarm, tick) => D.DynamicStep(alarm, PriorOf(store.dynamic, job.name), tick).1
    case Ratio(e) => R.RatioStep(store.ratio, e).1
    case Streak(file, alarm, tick) => S.StreakStep(alarm, StreakOf(store.streaks, file), tick).1
    case Stateless(verdict) => verdict
  }

  // ----- The whole catalog --------------------------------------------------------------

  /** The single point every write goes through. */
  function Gated<X>(noWrite: bool, stored: X, written: X): X {
    if noWrite then stored else written
  }

  function StoreAfter(noWrite: bool, store: Store, jobs: seq<Job>, n: nat): Store
    requires n <= |jobs|
  {
    if n == 0 then store
    else
      var before := StoreAfter(noWrite, store, jobs, n - 1);
      Gated(noWrite, before, StoreNext(before, jobs[n - 1]))
  }

  function MemoryAfter(memory: Counters, jobs: seq<Job>, n: nat): Counters
    requires n <= |jobs|
  {
    if n == 0 then memory else MemoryNext(MemoryAfter(memory, jobs, n - 1), jobs[n - 1])
  }

  /** The families with their own aggregate lines are not subject to cooldowns. */
  function ReportOf(job: Job, verdict: Verdict): Report {
    Report(!job.task.Ratio? && !job.task.Streak?, verdict, job.key, job.seconds)
  }

  /** The verdict of job `k` in an evaluation. */
  function VerdictIn(noWrite: bool, store: Store, jobs: seq<Job>, k: nat): Verdict
    requires k < |jobs|
  {
    JobVerdict(StoreAfter(noWrite, store, jobs, k), MemoryAfter(store.gauge, jobs, k), jobs[k])
  }

  /** The reports before the cooldowns are handled. */
  function Raw(noWrite: bool, store: Store, jobs: seq<Job>, n: nat): (reports: seq<Report>)
    requires n <= |jobs|
    ensures |reports| == n
  {
    seq(n, k requires 0 <= k < n => ReportOf(jobs[k], VerdictIn(noWrite, store, jobs, k)))
  }

  /** The state directory before the cooldowns are handled. */
  function Evaluated(noWrite: bool, store: Store, jobs: seq<Job>): Store {
    var after := StoreAfter(noWrite, store, jobs, |jobs|);
    Gated(noWrite, after, after.(gauge := MemoryAfter(store.gauge, jobs, |jobs|)))
  }

  function FinalStore(noWrite: bool, store: Store, jobs: seq<Job>, cooldownAt: Option<int>): Store {
    var after := Evaluated(noWrite, store, jobs);
    if cooldownAt.None? then after
    else
      var items := Items(Raw(noWrite, store, jobs, |jobs|), cooldownAt.value);
      Gated(noWrite, after, after.(cooldowns := EntriesAfter(after.cooldowns, items, |items|)))
  }

  function FinalReports(noWrite: bool, store: Store, jobs: seq<Job>, cooldownAt: Option<int>): seq<Report> {
    var raw := Raw(noWrite, store, jobs, |jobs|);
    if cooldownAt.None? then raw
    else ReportsOf(Evaluated(noWrite, store, jobs).cooldowns, Items(raw, cooldownAt.value))
  }
}
