/** The main loop of the alarm evaluator over the stored state directory. */
module CatalogEvaluator {
  import opened Common
  import opened AlarmTypes
  import opened SnapshotKeys
  import opened Catalog
  import opened Cooldowns
  import opened GaugeAlarms
  import D = DynamicAlarms
  import S = StreakAlarms
  import R = RatioAlarms
  import SS = StreakSnapshots
  import RS = RatioSnapshots

  lemma {:induction false} OneMore(noWrite: bool, store: Store, jobs: seq<Job>, k: nat, before: Store, memory: Counters)
    requires k < |jobs| && before == StoreAfter(noWrite, store, jobs, k) && memory == MemoryAfter(store.gauge, jobs, k)
    ensures StoreAfter(noWrite, store, jobs, k + 1) == Gated(noWrite, before, StoreNext(before, jobs[k]))
    ensures MemoryAfter(store.gauge, jobs, k + 1) == MemoryNext(memory, jobs[k])
    ensures Raw(noWrite, store, jobs, k + 1)
            == Raw(noWrite, store, jobs, k) + [ReportOf(jobs[k], JobVerdict(before, memory, jobs[k]))]
  {
  }

  ghost predicate AllReadable(files: map<string, Dictionary>) {
    forall file :: file in files ==> SS.Readable(files[file])
  }

  /** The streak snapshots as the evaluator reads them. */
  ghost function Decoded(files: map<string, Dictionary>): map<string, S.StreakState>
    requires AllReadable(files)
  {
    map file | file in files :: SS.Decode(files[file])
  }

  lemma {:induction false} DecodedUpdate(files: map<string, Dictionary>, file: string, snapshot: Dictionary)
    requires AllReadable(files) && SS.Readable(snapshot)
    ensures AllReadable(files[file := snapshot])
    ensures Decoded(files[file := snapshot]) == Decoded(files)[file := SS.Decode(snapshot)]
  {
  }

  lemma {:induction false} DecodedAt(files: map<string, Dictionary>, file: string)
    requires AllReadable(files)
    ensures var stored: Dictionary := if file in files then files[file] else map[];
            SS.Readable(stored) && SS.Decode(stored) == StreakOf(Decoded(files), file)
  {
  }

  class Evaluator {
    const noSnapshotWrite: bool
    var gaugeFile: Counters
    var dynamicFile: Counters
    var ratioFile: Dictionary
    ghost var ratioContents: R.RatioFile
    var streakFiles: map<string, Dictionary>
    var cooldownFile: CooldownEntries
    /** The gauge persistence counters of the evaluation under way. */
    var persistence: Counters

    ghost predicate Valid()
      reads this
    {
      RS.Represents(ratioFile, ratioContents) && AllReadable(streakFiles)
    }

    ghost function Contents(): Store
      requires Valid()
      reads this
    {
      Store(gaugeFile, dynamicFile, ratioContents, Decoded(streakFiles), cooldownFile)
    }

    constructor (noSnapshotWrite: bool, gaugeFile: Counters, dynamicFile: Counters, ratioFile: Dictionary,
                 ghost ratioContents: R.RatioFile, streakFiles: map<string, Dictionary>, cooldownFile: CooldownEntries)
      requires RS.Represents(ratioFile, ratioContents) && AllReadable(streakFiles)
      ensures Valid() && this.noSnapshotWrite == noSnapshotWrite
      ensures Contents() == Store(gaugeFile, dynamicFile, ratioContents, Decoded(streakFiles), cooldownFile)
    {
      this.noSnapshotWrite := noSnapshotWrite;
      this.gaugeFile, this.dynamicFile, this.cooldownFile := gaugeFile, dynamicFile, cooldownFile;
      this.ratioFile, this.ratioContents, this.streakFiles := ratioFile, ratioContents, streakFiles;
      persistence := map[];
    }

    /** Judges a gauge and keeps its persistence counter in memory. */
    method JudgeGauge(name: string, alarm: GaugeAlarm, tick: GaugeTick) returns (verdict: Verdict)
      modifies this`persistence
      ensures var step := EvalGauge(alarm, CountOf(old(persistence), name), tick);
              verdict == step.1
              && persistence == if alarm.forTicks > 1 && !verdict.Skipped? then old(persistence)[name := step.0]
                                else old(persistence)
    {
      var observed := Observe(alarm, tick.source);
      if observed.Err? {
        return Skipped(observed.error);
      }
      var reading, breaching := Level(observed.value), Breaching(alarm, tick.source);
      if alarm.forTicks <= 1 {
        return if breaching then Firing(reading, 1, false) else Verdict.Ok(reading);
      }
      var previous := CountOf(persistence, name);
      if tick.env.prevPromInvalid {
        persistence := persistence[name := 0];
        if breaching {
          persistence := persistence[name := 1];
          return Breach(reading, 1);
        }
        return Verdict.Ok(reading);
      }
      if breaching {
        var count := previous + 1;
        persistence := persistence[name := count];
        return if count >= alarm.forTicks then Firing(reading, count, false) else Breach(reading, count);
      }
      persistence := persistence[name := 0];
      return Verdict.Ok(reading);
    }

    method EvaluateGauge(name: string, alarm: GaugeAlarm, tick: GaugeTick) returns (verdict: Verdict)
      modifies this`persistence
      ensures var step := GaugeStep(alarm, CountOf(old(persistence), name), tick);
              verdict == step.1
              && persistence == if alarm.forTicks > 1 then old(persistence)[name := step.0] else old(persistence)
    {
      var held := Screened(alarm.exempt, alarm.gates, tick.env);
      if held.Some? {
        verdict := Skipped(held.value);
      } else {
        verdict := JudgeGauge(name, alarm, tick);
      }
      if verdict.Skipped? && alarm.forTicks > 1 {
        persistence := persistence[name := 0];
      }
    }

    /** Judges a delta; the new delta is stored before it is compared with the prior one. */
    method JudgeDynamic(name: string, alarm: D.DynamicAlarm, tick: D.DynamicTick) returns (verdict: Verdict)
      modifies this`dynamicFile
      ensures var step := D.EvalDynamic(alarm, PriorOf(old(dynamicFile), name), tick);
              verdict == step.1
              && dynamicFile == if noSnapshotWrite || verdict.Skipped? then old(dynamicFile)
                                else WithPrior(old(dynamicFile), name, step.0)
    {
      var stopped := D.Stopped(tick);
      if stopped.Some? {
        return Skipped(stopped.value);
      }
      var delta, prior := D.Delta(tick.current.value, tick.previous.value), PriorOf(dynamicFile, name);
      if !noSnapshotWrite {
        dynamicFile := dynamicFile[name := delta];
      }
      if prior.None? {
        return CollectingBaseline;
      }
      if prior.value < alarm.minAbsolute || prior.value == 0 {
        return Verdict.Ok(Count(delta));
      }
      return if delta as real >= alarm.multiplier * prior.value as real then Firing(Count(delta), 1, false)
             else Verdict.Ok(Count(delta));
    }

    method EvaluateDynamic(name: string, alarm: D.DynamicAlarm, tick: D.DynamicTick) returns (verdict: Verdict)
      requires Valid()
      modifies this`dynamicFile
      ensures Valid()
      ensures var before := old(Contents());
              Contents() == Gated(noSnapshotWrite, before, before.(dynamic := WithPrior(before.dynamic, name,
                              D.DynamicStep(alarm, PriorOf(before.dynamic, name), tick).0)))
      ensures var step := D.DynamicStep(alarm, PriorOf(old(dynamicFile), name), tick);
              verdict == step.1
              && dynamicFile == Gated(noSnapshotWrite, old(dynamicFile), WithPrior(old(dynamicFile), name, step.0))
    {
      var held := Screened(alarm.exempt, alarm.gates, tick.env);
      if held.Some? {
        verdict := Skipped(held.value);
      } else {
        verdict := JudgeDynamic(name, alarm, tick);
      }
      if verdict.Skipped? && !PreservesBaseline(verdict.reason) && name in dynamicFile && !noSnapshotWrite {
        dynamicFile := dynamicFile - {name};
      }
    }

    /** Reads the shared snapshot, evaluates on what was read, and stores the result if allowed. */
    method EvaluateRatio(e: R.Evaluation) returns (verdict: Verdict)
      requires Valid()
      modifies this`ratioFile, this`ratioContents
      ensures Valid()
      ensures var before := old(Contents());
              Contents() == Gated(noSnapshotWrite, before, before.(ratio := R.RatioStep(before.ratio, e).0))
      ensures var step := R.RatioStep(old(ratioContents), e);
              verdict == step.1 && ratioContents == Gated(noSnapshotWrite, old(ratioContents), step.0)
    {
      var read := new RS.RatioSnapshot(ratioFile, ratioContents);
      verdict := read.Tick(e);
      if !noSnapshotWrite {
        ratioFile, ratioContents := read.snapshot, read.file;
      }
    }

    method EvaluateStreak(file: string, alarm: S.StreakAlarm, tick: S.StreakTick) returns (verdict: Verdict)
      requires Valid()
      modifies this`streakFiles
      ensures Valid()
      ensures var before := old(Contents());
              var step := S.StreakStep(alarm, StreakOf(before.streaks, file), tick);
              Contents() == Gated(noSnapshotWrite, before, before.(streaks := before.streaks[file := step.0]))
      ensures var step := S.StreakStep(alarm, StreakOf(Decoded(old(streakFiles)), file), tick);
              verdict == step.1
              && Decoded(streakFiles)
                 == Gated(noSnapshotWrite, Decoded(old(streakFiles)), Decoded(old(streakFiles))[file := step.0])
    {
      DecodedAt(streakFiles, file);
      var read := new SS.StreakSnapshot(if file in streakFiles then streakFiles[file] else map[]);
      verdict := read.Tick(alarm, tick);
      if !noSnapshotWrite {
        DecodedUpdate(streakFiles, file, read.snapshot);
        streakFiles := streakFiles[file := read.snapshot];
      }
    }

    method EvaluateJob(job: Job) returns (verdict: Verdict)
      requires Valid()
      modifies this
      ensures Valid()
      ensures verdict == JobVerdict(old(Contents()), old(persistence), job)
      ensures persistence == MemoryNext(old(persistence), job)
      ensures Contents() == Gated(noSnapshotWrite, old(Contents()), StoreNext(old(Contents()), job))
    {
      match job.task {
        case Gauge(alarm, tick) =>
          verdict := EvaluateGauge(job.name, alarm, tick);
        case Dynamic(alarm, tick) =>
          verdict := EvaluateDynamic(job.name, alarm, tick);
        case Ratio(e) =>
          verdict := EvaluateRatio(e);
        case Streak(file, alarm, tick) =>
          verdict := EvaluateStreak(file, alarm, tick);
        case Stateless(known) =>
          verdict := known;
      }
    }

    /** The main loop over the catalog, then the persistence file. */
    method EvaluateAlarms(jobs: seq<Job>) returns (collected: seq<Report>)
      requires Valid()
      modifies this
      ensures Valid()
      ensures collected == Raw(noSnapshotWrite, old(Contents()), jobs, |jobs|)
      ensures Contents() == Evaluated(noSnapshotWrite, old(Contents()), jobs)
    {
      ghost var store := Contents();
      persistence := gaugeFile;
      collected := [];
      for i := 0 to |jobs|
        invariant Valid() && Contents() == StoreAfter(noSnapshotWrite, store, jobs, i)
        invariant persistence == MemoryAfter(store.gauge, jobs, i)
        invariant collected == Raw(noSnapshotWrite, store, jobs, i)
      {
        ghost var before, memory := Contents(), persistence;
        var verdict := EvaluateJob(jobs[i]);
        collected := collected + [ReportOf(jobs[i], verdict)];
        OneMore(noSnapshotWrite, store, jobs, i, before, memory);
      }
      if !noSnapshotWrite {
        gaugeFile := persistence;
      }
    }

    /** The alarms, then their cooldowns when a cooldown file is in use. */
    method Evaluate(jobs: seq<Job>, cooldownAt: Option<int>) returns (results: array<Report>)
      requires Valid()
      modifies this
      ensures Valid() && fresh(results)
      ensures results[..] == FinalReports(noSnapshotWrite, old(Contents()), jobs, cooldownAt)
      ensures Contents() == FinalStore(noSnapshotWrite, old(Contents()), jobs, cooldownAt)
    {
      var collected := EvaluateAlarms(jobs);
      results := new Report[|collected|](i requires 0 <= i < |collected| => collected[i]);
      assert results[..] == collected;
      if cooldownAt.Some? {
        var data := new CooldownData(cooldownFile);
        data.ApplyCooldowns(results, cooldownAt.value);
        if !noSnapshotWrite {
          cooldownFile := data.entries;
        }
      }
    }
  }
}
