/** Evaluations without snapshot writes, and exactly which catalogs they tell the truth about. */
module DryRuns {
  import opened Common
  import opened AlarmTypes
  import opened GaugeAlarms
  import D = DynamicAlarms
  import S = StreakAlarms
  import R = RatioAlarms
  import opened Cooldowns
  import opened Catalog

  // ----- Dry runs -----------------------------------------------------------------------

  /** All that the alarm's verdict depends on in the state directory. */
  datatype View =
    | Nothing
    | PriorDelta(prior: Option<nat>)
    | RatioEntry(entry: Option<R.Entry>)
    | StreakFile(state: S.StreakState)

  function ViewOf(store: Store, job: Job): View {
    match job.task
    case Dynamic(_, _) => PriorDelta(PriorOf(store.dynamic, job.name))
    case Ratio(e) => RatioEntry(R.Known(store.ratio, e.env.Process(), e.alarm.name))
    case Streak(file, alarm, _) => if alarm.exempt then Nothing else StreakFile(StreakOf(store.streaks, file))
    case _ => Nothing
  }

  predicate SharesFile(one: Job, other: Job) {
    one.task.Streak? && other.task.Streak? && one.task.file == other.task.file
  }

  /** A streak alarm that really reads a file which `one` may have written before. */
  predicate ReadsAfter(one: Job, other: Job) {
    SharesFile(one, other) && !other.task.streak.exempt
  }

  /** Some non-exempt streak alarm comes after another streak alarm with the same file. */
  ghost predicate ReadsShared(jobs: seq<Job>) {
    exists i, j :: 0 <= i < j < |jobs| && ReadsAfter(jobs[i], jobs[j])
  }

  /** What the catalog validation guarantees. */
  ghost predicate UniqueNames(jobs: seq<Job>) {
    (forall i, j :: 0 <= i < j < |jobs| ==> jobs[i].name != jobs[j].name)
    && (forall i :: 0 <= i < |jobs| ==> WellNamed(jobs[i]))
  }

  predicate WellNamed(job: Job) {
    job.task.Ratio? ==> job.task.evaluation.alarm.name == job.name
  }

  predicate SameProcess(one: Job, other: Job) {
    one.task.Ratio? && other.task.Ratio? ==>
      one.task.evaluation.env.Process() == other.task.evaluation.env.Process()
  }

  /** One tick of a catalog without such a reader: one process for all. */
  ghost predicate IsCatalog(jobs: seq<Job>) {
    UniqueNames(jobs) && !ReadsShared(jobs)
    && (forall i, j :: 0 <= i < j < |jobs| ==> SameProcess(jobs[i], jobs[j]))
  }

  lemma {:induction false} VerdictFromView(one: Store, other: Store, memory: Counters, job: Job)
    requires ViewOf(one, job) == ViewOf(other, job)
    ensures JobVerdict(one, memory, job) == JobVerdict(other, memory, job)
  {
    match job.task
    case Ratio(e) => RatioVerdictFromEntry(one.ratio, other.ratio, e);
    case _ =>
  }

  lemma {:induction false} RatioVerdictFromEntry(one: R.RatioFile, other: R.RatioFile, e: R.Evaluation)
    requires R.Known(one, e.env.Process(), e.alarm.name) == R.Known(other, e.env.Process(), e.alarm.name)
    ensures R.RatioStep(one, e).1 == R.RatioStep(other, e).1
  {
  }

  lemma {:induction false} RatioKeepsOthers(file: R.RatioFile, e: R.Evaluation, name: string)
    requires e.alarm.name != name
    ensures R.Known(R.RatioStep(file, e).0, e.env.Process(), name) == R.Known(file, e.env.Process(), name)
  {
  }

  /** An alarm's writes are invisible to a later alarm that does not read its file. */
  lemma {:induction false} WritesStayOwn(store: Store, job: Job, other: Job)
    requires job.name != other.name && !ReadsAfter(job, other) && SameProcess(job, other)
    requires WellNamed(job) && WellNamed(other)
    ensures ViewOf(StoreNext(store, job), other) == ViewOf(store, other)
  {
    match job.task
    case Ratio(e) =>
      if other.task.Ratio? {
        RatioKeepsOthers(store.ratio, e, other.name);
      }
    case _ =>
  }

  /** After any part of a writing evaluation, the alarms still to come see what they saw at first. */
  lemma {:induction false} LaterViewsUnchanged(store: Store, jobs: seq<Job>, n: nat, m: nat)
    requires n <= m < |jobs| && IsCatalog(jobs)
    ensures ViewOf(StoreAfter(false, store, jobs, n), jobs[m]) == ViewOf(store, jobs[m])
  {
    if n > 0 {
      LaterViewsUnchanged(store, jobs, n - 1, m);
      WritesStayOwn(StoreAfter(false, store, jobs, n - 1), jobs[n - 1], jobs[m]);
    }
  }

  lemma {:induction false} DryKeepsStore(store: Store, jobs: seq<Job>, n: nat)
    requires n <= |jobs|
    ensures StoreAfter(true, store, jobs, n) == store
  {
    if n > 0 {
      DryKeepsStore(store, jobs, n - 1);
    }
  }

  lemma {:induction false} SameVerdict(store: Store, jobs: seq<Job>, k: nat)
    requires k < |jobs| && IsCatalog(jobs)
    ensures VerdictIn(true, store, jobs, k) == VerdictIn(false, store, jobs, k)
  {
    DryKeepsStore(store, jobs, k);
    LaterViewsUnchanged(store, jobs, k, k);
    VerdictFromView(store, StoreAfter(false, store, jobs, k), MemoryAfter(store.gauge, jobs, k), jobs[k]);
  }

  lemma {:induction false} SameRaw(store: Store, jobs: seq<Job>)
    requires IsCatalog(jobs)
    ensures Raw(true, store, jobs, |jobs|) == Raw(false, store, jobs, |jobs|)
  {
    forall k | 0 <= k < |jobs|
      ensures Raw(true, store, jobs, |jobs|)[k] == Raw(false, store, jobs, |jobs|)[k]
    {
      SameVerdict(store, jobs, k);
    }
  }

  lemma {:induction false} CooldownsUntouched(noWrite: bool, store: Store, jobs: seq<Job>, n: nat)
    requires n <= |jobs|
    ensures StoreAfter(noWrite, store, jobs, n).cooldowns == store.cooldowns
  {
    if n > 0 {
      CooldownsUntouched(noWrite, store, jobs, n - 1);
    }
  }

  /** A dry run of a catalog in which no non-exempt streak alarm comes after another one with the same
      file gives the same results as a writing evaluation, cooldowns included. Any dry run leaves the
      whole state directory as it was. */
  lemma {:induction false} DryRunAgrees(store: Store, jobs: seq<Job>, cooldownAt: Option<int>)
    ensures FinalStore(true, store, jobs, cooldownAt) == store
    ensures IsCatalog(jobs) ==>
              FinalReports(true, store, jobs, cooldownAt) == FinalReports(false, store, jobs, cooldownAt)
  {
    DryKeepsStore(store, jobs, |jobs|);
    if IsCatalog(jobs) {
      SameRaw(store, jobs);
      CooldownsUntouched(false, store, jobs, |jobs|);
    }
  }

  // ----- Exactly which catalogs ---------------------------------------------------------

  /** The same alarm, whatever this tick's scrape shows for it. */
  predicate SameAlarm(one: Job, other: Job) {
    one.name == other.name && one.key == other.key && one.seconds == other.seconds
    && match one.task
       case Gauge(alarm, _) => other.task.Gauge? && other.task.gauge == alarm
       case Dynamic(alarm, _) => other.task.Dynamic? && other.task.dynamic == alarm
       case Ratio(e) => other.task.Ratio? && other.task.evaluation.alarm == e.alarm
       case Streak(file, alarm, _) => other.task.Streak? && other.task.file == file && other.task.streak == alarm
       case Stateless(_) => other.task.Stateless?
  }

  /** The same catalog seen at some tick. */
  ghost predicate SameCatalog(jobs: seq<Job>, seen: seq<Job>) {
    |seen| == |jobs| && forall i :: 0 <= i < |jobs| ==> SameAlarm(jobs[i], seen[i])
  }

  predicate SeenIn(job: Job, env: Env) {
    match job.task
    case Gauge(_, tick) => tick.env == env
    case Dynamic(_, tick) => tick.env == env
    case Ratio(e) => e.env == env
    case Streak(_, _, tick) => tick.env == env
    case Stateless(_) => true
  }

  /** All alarms of a tick are evaluated in one environment. */
  ghost predicate OneTick(seen: seq<Job>, env: Env) {
    forall i :: 0 <= i < |seen| ==> SeenIn(seen[i], env)
  }

  /** Whatever is stored and seen, a dry run of the catalog reports what a writing evaluation does. */
  ghost predicate DryRunsAgree(jobs: seq<Job>) {
    forall store, seen, env, cooldownAt :: SameCatalog(jobs, seen) && OneTick(seen, env) ==>
      FinalReports(true, store, seen, cooldownAt) == FinalReports(false, store, seen, cooldownAt)
  }

  /** Without such a reader the seen catalog is fit for a dry run at every tick. */
  lemma {:induction false} SeenCatalog(jobs: seq<Job>, seen: seq<Job>, env: Env)
    requires UniqueNames(jobs) && !ReadsShared(jobs) && SameCatalog(jobs, seen) && OneTick(seen, env)
    ensures IsCatalog(seen)
  {
    forall i, j | 0 <= i < j < |seen|
      ensures seen[i].name != seen[j].name && !ReadsAfter(seen[i], seen[j]) && SameProcess(seen[i], seen[j])
    {
      assert SameAlarm(jobs[i], seen[i]) && SameAlarm(jobs[j], seen[j]);
      assert SeenIn(seen[i], env) && SeenIn(seen[j], env);
      assert jobs[i].name != jobs[j].name && !ReadsAfter(jobs[i], jobs[j]);
    }
    forall i | 0 <= i < |seen|
      ensures WellNamed(seen[i])
    {
      assert SameAlarm(jobs[i], seen[i]) && WellNamed(jobs[i]);
    }
  }

  const ALL_OPEN := Env("1", "1", -1, 3600, 600, false, false, false, SYNCED_UPTIME, 0, false)

  lemma {:induction false} EveryGateOpens(gates: seq<Gate>, i: nat)
    requires i <= |gates|
    ensures FirstBlocked(gates, ALL_OPEN, i).None?
    decreases |gates| - i
  {
    if i < |gates| {
      assert GateBlocks(gates[i], ALL_OPEN).None?;
      EveryGateOpens(gates, i + 1);
    }
  }

  /** The alarm at an ordinary tick with all gates open; every streak counter shows 0. */
  function Quiet(job: Job): Job {
    match job.task
    case Gauge(alarm, tick) => job.(task := Gauge(alarm, tick.(env := ALL_OPEN)))
    case Dynamic(alarm, tick) => job.(task := Dynamic(alarm, tick.(env := ALL_OPEN)))
    case Ratio(e) => job.(task := Ratio(e.(env := ALL_OPEN)))
    case Streak(file, alarm, tick) => job.(task := Streak(file, alarm, S.StreakTick(ALL_OPEN, Some(0), None)))
    case Stateless(verdict) => job
  }

  function QuietTick(jobs: seq<Job>): (seen: seq<Job>)
    ensures |seen| == |jobs| && forall i :: 0 <= i < |jobs| ==> seen[i] == Quiet(jobs[i])
  {
    seq(|jobs|, i requires 0 <= i < |jobs| => Quiet(jobs[i]))
  }

  lemma {:induction false} QuietIsSeen(jobs: seq<Job>)
    ensures SameCatalog(jobs, QuietTick(jobs)) && OneTick(QuietTick(jobs), ALL_OPEN)
  {
    forall i | 0 <= i < |jobs|
      ensures SameAlarm(jobs[i], QuietTick(jobs)[i]) && SeenIn(QuietTick(jobs)[i], ALL_OPEN)
    {
      assert QuietTick(jobs)[i] == Quiet(jobs[i]);
    }
  }

  /** What a streak alarm does at a quiet tick: an exempt one clears its file, another one leaves a
      baseline and only answers "collecting" when it found none. */
  lemma {:induction false} QuietStreak(alarm: S.StreakAlarm, state: S.StreakState)
    requires state.Empty? || state == S.Baseline(ALL_OPEN.Process(), 0, state.streak)
    ensures var (next, verdict) := S.StreakStep(alarm, state, S.StreakTick(ALL_OPEN, Some(0), None));
            if alarm.exempt then next == S.Empty
            else next.Baseline? && next == S.Baseline(ALL_OPEN.Process(), 0, next.streak)
                 && (verdict == CollectingBaseline <==> state.Empty?)
  {
    EveryGateOpens(alarm.gates, 0);
  }

  /** The last job before `j` that shares the streak file of job `j`. */
  function LastSharer(jobs: seq<Job>, j: nat, n: nat): (p: int)
    requires n <= j < |jobs|
    ensures -1 <= p < n
    ensures p >= 0 ==> SharesFile(jobs[p], jobs[j])
    ensures forall i :: p < i < n ==> !SharesFile(jobs[i], jobs[j])
  {
    if n == 0 then -1 else if SharesFile(jobs[n - 1], jobs[j]) then n - 1 else LastSharer(jobs, j, n - 1)
  }

  /** The file is left alone by the jobs in between. */
  lemma {:induction false} FileUntouched(store: Store, jobs: seq<Job>, file: string, from: nat, n: nat)
    requires from <= n <= |jobs|
    requires forall i :: from <= i < n ==> !(jobs[i].task.Streak? && jobs[i].task.file == file)
    ensures StreakOf(StoreAfter(false, store, jobs, n).streaks, file)
            == StreakOf(StoreAfter(false, store, jobs, from).streaks, file)
  {
    if from < n {
      FileUntouched(store, jobs, file, from, n - 1);
    }
  }

  /** At quiet ticks the file is empty or holds a quiet baseline, whatever ran before. */
  lemma {:induction false} QuietFile(store: Store, jobs: seq<Job>, file: string, n: nat)
    requires n <= |jobs|
    requires var state := StreakOf(store.streaks, file);
             state.Empty? || state == S.Baseline(ALL_OPEN.Process(), 0, state.streak)
    ensures var state := StreakOf(StoreAfter(false, store, QuietTick(jobs), n).streaks, file);
            state.Empty? || state == S.Baseline(ALL_OPEN.Process(), 0, state.streak)
  {
    if n > 0 {
      QuietFile(store, jobs, file, n - 1);
      var job := QuietTick(jobs)[n - 1];
      assert job == Quiet(jobs[n - 1]);
      if job.task.Streak? && job.task.file == file {
        QuietStreak(job.task.streak, StreakOf(StoreAfter(false, store, QuietTick(jobs), n - 1).streaks, file));
      }
    }
  }

  /** A store that sets the two evaluations apart: a baseline if the earlier alarm will clear it. */
  function TellingStore(earlier: Job): Store
    requires earlier.task.Streak?
  {
    Store(map[], map[], R.NoFile,
          if earlier.task.streak.exempt then map[earlier.task.file := S.Baseline(ALL_OPEN.Process(), 0, 0)] else map[],
          map[])
  }

  /** What the earlier alarm leaves behind: nothing if it is exempt, a quiet baseline otherwise. */
  lemma {:induction false} EarlierLeaves(store: Store, jobs: seq<Job>, p: nat)
    requires p < |jobs| && jobs[p].task.Streak?
    requires var state := StreakOf(store.streaks, jobs[p].task.file);
             state.Empty? || state == S.Baseline(ALL_OPEN.Process(), 0, state.streak)
    ensures var state := StreakOf(StoreAfter(false, store, QuietTick(jobs), p + 1).streaks, jobs[p].task.file);
            if jobs[p].task.streak.exempt then state == S.Empty
            else state.Baseline? && state == S.Baseline(ALL_OPEN.Process(), 0, state.streak)
  {
    QuietFile(store, jobs, jobs[p].task.file, p);
    assert QuietTick(jobs)[p] == Quiet(jobs[p]);
    QuietStreak(jobs[p].task.streak, StreakOf(StoreAfter(false, store, QuietTick(jobs), p).streaks, jobs[p].task.file));
  }

  /** What the later alarm finds in a writing evaluation: the opposite of what is stored. */
  lemma {:induction false} LaterFinds(jobs: seq<Job>, p: nat, j: nat)
    requires p < j < |jobs| && SharesFile(jobs[p], jobs[j])
    requires forall i :: p < i < j ==> !SharesFile(jobs[i], jobs[j])
    ensures var store, file := TellingStore(jobs[p]), jobs[j].task.file;
            var found := StreakOf(StoreAfter(false, store, QuietTick(jobs), j).streaks, file);
            (found.Empty? || found == S.Baseline(ALL_OPEN.Process(), 0, found.streak))
            && (found.Empty? <==> !StreakOf(store.streaks, file).Empty?)
  {
    var seen, store, file := QuietTick(jobs), TellingStore(jobs[p]), jobs[j].task.file;
    EarlierLeaves(store, jobs, p);
    forall i | p + 1 <= i < j
      ensures !(seen[i].task.Streak? && seen[i].task.file == file)
    {
      assert seen[i] == Quiet(jobs[i]) && !SharesFile(jobs[i], jobs[j]);
    }
    FileUntouched(store, seen, file, p + 1, j);
  }

  /** Any non-exempt streak alarm after another one with its file tells a dry run from a real one. */
  lemma {:induction false} SharedStreakFileDiffers(jobs: seq<Job>, p: nat, j: nat)
    requires p < j < |jobs| && ReadsAfter(jobs[p], jobs[j])
    requires forall i :: p < i < j ==> !SharesFile(jobs[i], jobs[j])
    ensures FinalReports(true, TellingStore(jobs[p]), QuietTick(jobs), None)
            != FinalReports(false, TellingStore(jobs[p]), QuietTick(jobs), None)
  {
    var store, seen, file, alarm := TellingStore(jobs[p]), QuietTick(jobs), jobs[j].task.file, jobs[j].task.streak;
    LaterFinds(jobs, p, j);
    DryKeepsStore(store, seen, j);
    assert seen[j] == Quiet(jobs[j]);
    QuietStreak(alarm, StreakOf(store.streaks, file));
    QuietStreak(alarm, StreakOf(StoreAfter(false, store, seen, j).streaks, file));
    assert VerdictIn(true, store, seen, j) != VerdictIn(false, store, seen, j);
    assert Raw(true, store, seen, |seen|)[j] != Raw(false, store, seen, |seen|)[j];
  }

  /** With unique names, dry runs of a catalog agree with writing evaluations on everything that can be
      stored and seen exactly when no non-exempt streak alarm comes after another streak alarm with
      the same file. */
  lemma {:induction false} DryRunExactly(jobs: seq<Job>)
    requires UniqueNames(jobs)
    ensures DryRunsAgree(jobs) <==> !ReadsShared(jobs)
  {
    if ReadsShared(jobs) {
      var i, j :| 0 <= i < j < |jobs| && ReadsAfter(jobs[i], jobs[j]);
      var p := LastSharer(jobs, j, j);
      SharedStreakFileDiffers(jobs, p, j);
      QuietIsSeen(jobs);
    } else {
      forall store, seen, env, cooldownAt | SameCatalog(jobs, seen) && OneTick(seen, env)
        ensures FinalReports(true, store, seen, cooldownAt) == FinalReports(false, store, seen, cooldownAt)
      {
        SeenCatalog(jobs, seen, env);
        DryRunAgrees(store, seen, cooldownAt);
      }
    }
  }
}
