/** The counter-streak evaluator on its snapshot dictionary, as stored. */
module StreakSnapshots {
  import opened Common
  import opened Numerals
  import opened AlarmTypes
  import opened SnapshotKeys
  import opened StreakAlarms
  import Files = SnapshotFiles

  const COUNTER_VALUE := "counter_value"
  const BREACH_STREAK := "breach_streak"

  /** The numbers of a current-format snapshot are numerals; it may lack them. */
  predicate Readable(snapshot: Dictionary) {
    Get(snapshot, VERSION, "") == FORMAT ==>
      IsNumeral(Get(snapshot, COUNTER_VALUE, "0")) && IsNumeral(Get(snapshot, BREACH_STREAK, "0"))
  }

  /** What the evaluator takes the file for. An absent identity equals no present one. */
  function Decode(snapshot: Dictionary): StreakState
    requires Readable(snapshot)
  {
    if Get(snapshot, VERSION, "") != FORMAT then Empty
    else Baseline(Identity(Get(snapshot, PID, ""), Get(snapshot, START_TICKS, "")),
                  Int(Get(snapshot, COUNTER_VALUE, "0")), Int(Get(snapshot, BREACH_STREAK, "0")))
  }

  function Stored(process: Identity, counter: nat, streak: nat): Dictionary {
    map[VERSION := FORMAT, PID := process.pid, START_TICKS := process.startTicks,
        COUNTER_VALUE := Str(counter), BREACH_STREAK := Str(streak)]
  }

  /** A written baseline reads back as the baseline. */
  lemma {:induction false} StoredDecodes(process: Identity, counter: nat, streak: nat)
    ensures Readable(Stored(process, counter, streak))
    ensures Decode(Stored(process, counter, streak)) == Baseline(process, counter, streak)
  {
    KeysDiffer();
    IntOfStr(counter);
    IntOfStr(streak);
  }

  lemma {:induction false} KeysDiffer()
    ensures VERSION != PID && VERSION != START_TICKS && VERSION != COUNTER_VALUE && VERSION != BREACH_STREAK
    ensures PID != START_TICKS && PID != COUNTER_VALUE && PID != BREACH_STREAK
    ensures START_TICKS != COUNTER_VALUE && START_TICKS != BREACH_STREAK && COUNTER_VALUE != BREACH_STREAK
  {
    assert |VERSION| == 7 && |PID| == 3 && |START_TICKS| == 11 && |COUNTER_VALUE| == 13 && |BREACH_STREAK| == 13;
    assert COUNTER_VALUE[0] != BREACH_STREAK[0];
  }

  lemma {:induction false} ForeignDecodes(snapshot: Dictionary)
    requires Get(snapshot, VERSION, "") != FORMAT
    ensures Readable(snapshot) && Decode(snapshot) == Empty
  {
  }

  // ----- The file on disk ---------------------------------------------------------------

  function StoredPairs(process: Identity, counter: nat, streak: nat): (pairs: Files.Pairs)
    ensures |pairs| == 5
  {
    [(VERSION, FORMAT), (PID, process.pid), (START_TICKS, process.startTicks),
     (COUNTER_VALUE, Str(counter)), (BREACH_STREAK, Str(streak))]
  }

  predicate Wordlike(s: string) {
    forall i :: 0 <= i < |s| ==> 'a' <= s[i] <= 'z' || s[i] == '_' || IsDigit(s[i])
  }

  lemma {:induction false} WordIsClean(s: string)
    requires Wordlike(s)
    ensures Files.Plain(s) && '=' !in s
  {
  }

  lemma {:induction false} FixedTextIsClean()
    ensures Files.CleanPair(VERSION, FORMAT)
    ensures forall value :: Files.Plain(value) ==>
              Files.CleanPair(COUNTER_VALUE, value) && Files.CleanPair(BREACH_STREAK, value)
    ensures forall value :: Files.CleanPair(PID, value) <==> Files.Plain(value)
    ensures forall value :: Files.CleanPair(START_TICKS, value) <==> Files.Plain(value)
  {
    WordIsClean(VERSION);
    WordIsClean(FORMAT);
    WordIsClean(PID);
    WordIsClean(START_TICKS);
    WordIsClean(COUNTER_VALUE);
    WordIsClean(BREACH_STREAK);
  }

  lemma {:induction false} AllFiveClean(pairs: Files.Pairs)
    requires |pairs| == 5
    ensures Files.CleanPairs(pairs) <==> forall i :: 0 <= i < 5 ==> Files.CleanPair(pairs[i].0, pairs[i].1)
  {
    assert forall i :: 0 <= i < 5 ==> pairs[i] in pairs;
  }

  lemma {:induction false} StoredPairsAreClean(process: Identity, counter: nat, streak: nat)
    ensures Files.CleanPairs(StoredPairs(process, counter, streak))
            <==> Files.Plain(process.pid) && Files.Plain(process.startTicks)
  {
    var pairs := StoredPairs(process, counter, streak);
    Files.NumeralsArePlain(counter);
    Files.NumeralsArePlain(streak);
    FixedTextIsClean();
    AllFiveClean(pairs);
    assert pairs[1] == (PID, process.pid) && pairs[2] == (START_TICKS, process.startTicks);
    assert Files.CleanPair(pairs[1].0, pairs[1].1) <==> Files.Plain(process.pid);
    assert Files.CleanPair(pairs[2].0, pairs[2].1) <==> Files.Plain(process.startTicks);
  }

  lemma {:induction false} StoredPairsDictionary(process: Identity, counter: nat, streak: nat)
    ensures Files.DistinctKeys(StoredPairs(process, counter, streak))
    ensures Files.Dictionary(StoredPairs(process, counter, streak), map[]) == Stored(process, counter, streak)
  {
    var pairs := StoredPairs(process, counter, streak);
    KeysDiffer();
    assert pairs[1..][1..] == pairs[2..] && pairs[2..][1..] == pairs[3..];
    assert pairs[3..][1..] == pairs[4..] && pairs[4..][1..] == [];
    var d1: Dictionary := map[VERSION := FORMAT];
    var d2 := d1[PID := process.pid];
    var d3 := d2[START_TICKS := process.startTicks];
    var d4 := d3[COUNTER_VALUE := Str(counter)];
    var d5 := d4[BREACH_STREAK := Str(streak)];
    assert Files.Dictionary(pairs, map[]) == Files.Dictionary(pairs[1..], d1);
    assert Files.Dictionary(pairs[1..], d1) == Files.Dictionary(pairs[2..], d2);
    assert Files.Dictionary(pairs[2..], d2) == Files.Dictionary(pairs[3..], d3);
    assert Files.Dictionary(pairs[3..], d3) == Files.Dictionary(pairs[4..], d4);
    assert Files.Dictionary(pairs[4..], d4) == Files.Dictionary([], d5);
    assert d5 == Stored(process, counter, streak);
  }

  /** A baseline survives the trip through its file exactly when both parts of the process
      identity are free of line breaks and outer whitespace. */
  lemma {:induction false} StoredSurvivesTheFile(process: Identity, counter: nat, streak: nat)
    ensures Files.ReadFrom(Files.WriteSnapshot(StoredPairs(process, counter, streak)), map[])
            == Stored(process, counter, streak)
            <==> Files.Plain(process.pid) && Files.Plain(process.startTicks)
  {
    StoredPairsAreClean(process, counter, streak);
    StoredPairsDictionary(process, counter, streak);
    Files.SnapshotRoundTrip(StoredPairs(process, counter, streak));
  }

  // ----- The evaluator ------------------------------------------------------------------

  class StreakSnapshot {
    var snapshot: Dictionary

    ghost predicate Valid()
      reads this
    {
      Readable(snapshot)
    }

    ghost function State(): StreakState
      requires Valid()
      reads this
    {
      Decode(snapshot)
    }

    /** What was read from the file; a missing file gives the empty dictionary. */
    constructor (stored: Dictionary)
      requires Readable(stored)
      ensures Valid() && snapshot == stored
    {
      snapshot := stored;
    }

    method WriteBaseline(process: Identity, counter: nat, streak: nat)
      modifies this
      ensures Valid() && State() == Baseline(process, counter, streak)
    {
      snapshot := Stored(process, counter, streak);
      StoredDecodes(process, counter, streak);
    }

    method EvalCounterStreak(alarm: StreakAlarm, tick: StreakTick) returns (verdict: Verdict)
      requires Valid()
      modifies this
      ensures Valid() && (State(), verdict) == EvalStreak(alarm, old(State()), tick)
    {
      var process := tick.env.Process();
      if !tick.env.HasIdentity() {
        return Skipped(MissingIdentity);
      }
      if tick.counter.None? {
        return Skipped(MetricNotFound);
      }
      var cur := tick.counter.value;
      if Get(snapshot, VERSION, "") != FORMAT {
        WriteBaseline(process, cur, 0);
        return CollectingBaseline;
      }
      if Get(snapshot, PID, "") != tick.env.pid || Get(snapshot, START_TICKS, "") != tick.env.startTicks {
        WriteBaseline(process, cur, 0);
        return AfterRestart(alarm, tick, cur);
      }
      var prevCounter := Int(Get(snapshot, COUNTER_VALUE, "0"));
      var streak := Int(Get(snapshot, BREACH_STREAK, "0"));
      if cur < prevCounter {
        WriteBaseline(process, cur, 0);
        return AfterRestart(alarm, tick, cur);
      }
      if tick.env.GapStale() {
        WriteBaseline(process, cur, 0);
        return CollectingBaseline;
      }
      if tick.env.TooFresh() {
        return Skipped(IntervalTooShort);
      }
      var delta := cur - prevCounter;
      if delta >= alarm.burstThreshold {
        WriteBaseline(process, cur, streak + 1);
        return Firing(Count(delta), streak + 1, false);
      }
      if delta >= alarm.deltaThreshold {
        WriteBaseline(process, cur, streak + 1);
        if streak + 1 >= alarm.streakThreshold {
          return Firing(Count(delta), streak + 1, false);
        }
        return Breach(Count(delta), streak + 1);
      }
      WriteBaseline(process, cur, 0);
      return Verdict.Ok(Count(delta));
    }

    /** The centralized hook: a resetting skip empties a non-empty snapshot. */
    method MaybeReset(verdict: Verdict)
      requires Valid()
      modifies this
      ensures Valid() && State() == AfterHook(old(State()), verdict)
    {
      if !verdict.Skipped? || PreservesBaseline(verdict.reason) {
        return;
      }
      if snapshot != map[] {
        snapshot := map[];
      }
      ForeignDecodes(snapshot);
    }

    /** One pass of the main loop over the alarm. */
    method Tick(alarm: StreakAlarm, tick: StreakTick) returns (verdict: Verdict)
      requires Valid()
      modifies this
      ensures Valid() && (State(), verdict) == StreakStep(alarm, old(State()), tick)
    {
      var held := Screened(alarm.exempt, alarm.gates, tick.env);
      if held.Some? {
        verdict := Skipped(held.value);
      } else {
        verdict := EvalCounterStreak(alarm, tick);
      }
      MaybeReset(verdict);
    }
  }
}
