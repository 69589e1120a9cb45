/** The counter-ratio evaluator on the shared snapshot dictionary, as stored. */
module RatioSnapshots {
  import opened Common
  import opened Numerals
  import opened AlarmTypes
  import opened SnapshotKeys
  import opened RatioAlarms

  function NumeratorKey(name: string): string {
    name + "_numerator"
  }

  function DenominatorKey(name: string): string {
    name + "_denominator"
  }

  function StreakKey(name: string): string {
    name + "_streak"
  }

  /** Keys of different roles never clash, whatever the alarms are called. */
  lemma {:induction false} KeysApart(a: string, b: string)
    ensures NumeratorKey(a) != DenominatorKey(b) && NumeratorKey(a) != StreakKey(b) && DenominatorKey(a) != StreakKey(b)
    ensures a != b ==> NumeratorKey(a) != NumeratorKey(b) && DenominatorKey(a) != DenominatorKey(b)
                       && StreakKey(a) != StreakKey(b)
    ensures NumeratorKey(a) != VERSION && NumeratorKey(a) != PID && NumeratorKey(a) != START_TICKS
    ensures DenominatorKey(a) != VERSION && DenominatorKey(a) != PID && DenominatorKey(a) != START_TICKS
    ensures StreakKey(a) != VERSION && StreakKey(a) != PID && StreakKey(a) != START_TICKS
  {
    var num, den, streak := NumeratorKey(a), DenominatorKey(b), StreakKey(b);
    assert num[|num| - 1] == 'r' && num[|num| - 5] == 'r';
    assert den[|den| - 1] == 'r' && den[|den| - 5] == 'n';
    assert streak[|streak| - 1] == 'k';
    assert DenominatorKey(a)[|DenominatorKey(a)| - 1] == 'r' && StreakKey(a)[|StreakKey(a)| - 1] == 'k';
    if a != b {
      assert NumeratorKey(a)[..|NumeratorKey(a)| - 10] == a && NumeratorKey(b)[..|NumeratorKey(b)| - 10] == b;
      assert DenominatorKey(a)[..|DenominatorKey(a)| - 12] == a && den[..|den| - 12] == b;
      assert StreakKey(a)[..|StreakKey(a)| - 7] == a && streak[..|streak| - 7] == b;
    }
    assert VERSION[|VERSION| - 1] == 'n' && PID[|PID| - 1] == 'd' && START_TICKS[|START_TICKS| - 1] == 's';
  }

  /** The alarm's baseline in the dictionary. */
  function EntryOf(snapshot: Dictionary, name: string): Option<Entry> {
    var num, den := Get(snapshot, NumeratorKey(name), ""), Get(snapshot, DenominatorKey(name), "");
    var streak := Get(snapshot, StreakKey(name), "0");
    if IsNumeral(num) && IsNumeral(den) && IsNumeral(streak) then Some(Entry(Int(num), Int(den), Int(streak)))
    else None
  }

  function Lookup(entries: map<string, Entry>, name: string): Option<Entry> {
    if name in entries then Some(entries[name]) else None
  }

  /** The dictionary stores these baselines; an alarm without one has no numerator either. */
  ghost predicate Stores(snapshot: Dictionary, entries: map<string, Entry>) {
    forall name :: EntryOf(snapshot, name) == Lookup(entries, name)
                   && (name !in entries ==> NumeratorKey(name) !in snapshot)
  }

  ghost predicate Represents(snapshot: Dictionary, file: RatioFile) {
    if file.NoFile? then Get(snapshot, VERSION, "") != FORMAT
    else
      Get(snapshot, VERSION, "") == FORMAT
      && Get(snapshot, PID, "") == file.process.pid && Get(snapshot, START_TICKS, "") == file.process.startTicks
      && Stores(snapshot, file.entries)
  }

  function WithHeader(snapshot: Dictionary, process: Identity): Dictionary {
    snapshot[VERSION := FORMAT][PID := process.pid][START_TICKS := process.startTicks]
  }

  function WithEntry(snapshot: Dictionary, name: string, num: nat, den: nat, streak: nat): Dictionary {
    snapshot[NumeratorKey(name) := Str(num)][DenominatorKey(name) := Str(den)][StreakKey(name) := Str(streak)]
  }

  /** Nothing of the alarm's baseline differs between the two dictionaries. */
  predicate SameFor(name: string, one: Dictionary, other: Dictionary) {
    (NumeratorKey(name) in one <==> NumeratorKey(name) in other)
    && Get(one, NumeratorKey(name), "") == Get(other, NumeratorKey(name), "")
    && Get(one, DenominatorKey(name), "") == Get(other, DenominatorKey(name), "")
    && Get(one, StreakKey(name), "0") == Get(other, StreakKey(name), "0")
  }

  lemma {:induction false} HeaderElsewhere(snapshot: Dictionary, process: Identity, name: string)
    ensures SameFor(name, snapshot, WithHeader(snapshot, process))
  {
    KeysApart(name, name);
  }

  lemma {:induction false} EntryElsewhere(snapshot: Dictionary, name: string, num: nat, den: nat, streak: nat,
                                          other: string)
    requires other != name
    ensures SameFor(other, snapshot, WithEntry(snapshot, name, num, den, streak))
  {
    KeysApart(name, other);
    KeysApart(other, name);
  }

  lemma {:induction false} EntryReads(snapshot: Dictionary, name: string, num: nat, den: nat, streak: nat)
    ensures EntryOf(WithEntry(snapshot, name, num, den, streak), name) == Some(Entry(num, den, streak))
  {
    KeysApart(name, name);
    IntOfStr(num);
    IntOfStr(den);
    IntOfStr(streak);
  }

  lemma {:induction false} HeaderStores(snapshot: Dictionary, process: Identity, entries: map<string, Entry>)
    requires Stores(snapshot, entries)
    ensures Stores(WithHeader(snapshot, process), entries)
  {
    var after := WithHeader(snapshot, process);
    forall name
      ensures EntryOf(after, name) == Lookup(entries, name) && (name !in entries ==> NumeratorKey(name) !in after)
    {
      HeaderElsewhere(snapshot, process, name);
      assert EntryOf(snapshot, name) == Lookup(entries, name);
    }
  }

  lemma {:induction false} HeaderReads(snapshot: Dictionary, process: Identity)
    ensures var after := WithHeader(snapshot, process);
            Get(after, VERSION, "") == FORMAT && Get(after, PID, "") == process.pid
            && Get(after, START_TICKS, "") == process.startTicks
  {
    assert |VERSION| == 7 && |PID| == 3 && |START_TICKS| == 11;
  }

  lemma {:induction false} EntryStores(snapshot: Dictionary, entries: map<string, Entry>, name: string, num: nat,
                                       den: nat, streak: nat)
    requires Stores(snapshot, entries)
    ensures Stores(WithEntry(snapshot, name, num, den, streak), entries[name := Entry(num, den, streak)])
  {
    var after := WithEntry(snapshot, name, num, den, streak);
    forall other
      ensures EntryOf(after, other) == Lookup(entries[name := Entry(num, den, streak)], other)
              && (other !in entries && other != name ==> NumeratorKey(other) !in after)
    {
      if other == name {
        EntryReads(snapshot, name, num, den, streak);
      } else {
        EntryElsewhere(snapshot, name, num, den, streak, other);
        assert EntryOf(snapshot, other) == Lookup(entries, other);
      }
    }
  }

  lemma {:induction false} EntryKeepsHeader(snapshot: Dictionary, name: string, num: nat, den: nat, streak: nat)
    ensures var after := WithEntry(snapshot, name, num, den, streak);
            Get(after, VERSION, "") == Get(snapshot, VERSION, "") && Get(after, PID, "") == Get(snapshot, PID, "")
            && Get(after, START_TICKS, "") == Get(snapshot, START_TICKS, "")
  {
    KeysApart(name, name);
  }

  lemma {:induction false} BaselineRepresents(memory: Dictionary, process: Identity, entries: map<string, Entry>,
                                              name: string, num: nat, den: nat)
    requires Stores(memory, entries)
    ensures Represents(WithEntry(WithHeader(memory, process), name, num, den, 0),
                       File(process, entries[name := Entry(num, den, 0)]))
  {
    HeaderStores(memory, process, entries);
    HeaderReads(memory, process);
    EntryStores(WithHeader(memory, process), entries, name, num, den, 0);
    EntryKeepsHeader(WithHeader(memory, process), name, num, den, 0);
  }

  /** The alarm's streak set to zero, if it has a baseline. */
  function ZeroStreak(entries: map<string, Entry>, name: string): map<string, Entry> {
    if name in entries then entries[name := entries[name].(streak := 0)] else entries
  }

  lemma {:induction false} ZeroElsewhere(snapshot: Dictionary, name: string, other: string)
    requires other != name
    ensures SameFor(other, snapshot, snapshot[StreakKey(name) := "0"])
  {
    KeysApart(name, other);
    KeysApart(other, name);
  }

  lemma {:induction false} ZeroReads(snapshot: Dictionary, name: string)
    requires EntryOf(snapshot, name).Some? || NumeratorKey(name) !in snapshot
    ensures var after := snapshot[StreakKey(name) := "0"];
            var was := EntryOf(snapshot, name);
            (NumeratorKey(name) in after <==> NumeratorKey(name) in snapshot)
            && EntryOf(after, name) == (if was.Some? then Some(was.value.(streak := 0)) else None)
  {
    KeysApart(name, name);
  }

  lemma {:induction false} ZeroStreakStores(snapshot: Dictionary, entries: map<string, Entry>, name: string)
    requires Stores(snapshot, entries)
    ensures Stores(snapshot[StreakKey(name) := "0"], ZeroStreak(entries, name))
  {
    var after := snapshot[StreakKey(name) := "0"];
    forall other
      ensures EntryOf(after, other) == Lookup(ZeroStreak(entries, name), other)
              && (other !in ZeroStreak(entries, name) ==> NumeratorKey(other) !in after)
    {
      assert EntryOf(snapshot, other) == Lookup(entries, other);
      if other == name {
        ZeroReads(snapshot, name);
      } else {
        ZeroElsewhere(snapshot, name, other);
      }
    }
  }

  function Zeroed(file: RatioFile, name: string): RatioFile {
    if Has(file, name) then File(file.process, ZeroStreak(file.entries, name)) else file
  }

  lemma {:induction false} ZeroRepresents(snapshot: Dictionary, file: RatioFile, name: string)
    requires Represents(snapshot, file)
    ensures Represents(snapshot[StreakKey(name) := "0"], Zeroed(file, name))
  {
    KeysApart(name, name);
    if file.File? {
      ZeroStreakStores(snapshot, file.entries, name);
    }
  }

  lemma {:induction false} AlreadyZero(snapshot: Dictionary, file: RatioFile, name: string)
    requires Represents(snapshot, file) && (StreakKey(name) in snapshot ==> snapshot[StreakKey(name)] == "0")
    ensures Zeroed(file, name) == file
  {
    if Has(file, name) {
      assert EntryOf(snapshot, name) == Lookup(file.entries, name);
      assert file.entries[name := file.entries[name].(streak := 0)] == file.entries;
    }
  }

  lemma {:induction false} EmptyStores()
    ensures Stores(map[], map[])
  {
    forall name
      ensures EntryOf(map[], name) == Lookup(map[], name)
    {
      assert Get(map[], NumeratorKey(name), "") == "";
    }
  }

  /** The dictionary an evaluation works on: nothing, unless the file is of the same process. */
  function Current(snapshot: Dictionary, process: Identity): Dictionary {
    if Get(snapshot, VERSION, "") != FORMAT
       || Get(snapshot, PID, "") != process.pid || Get(snapshot, START_TICKS, "") != process.startTicks
    then map[]
    else snapshot
  }

  lemma {:induction false} CurrentMeans(snapshot: Dictionary, file: RatioFile, process: Identity, name: string)
    requires Represents(snapshot, file)
    ensures var memory := Current(snapshot, process);
            Stores(memory, if file.File? && file.process == process then file.entries else map[])
            && EntryOf(memory, name) == Known(file, process, name)
            && (NumeratorKey(name) in memory ==> Known(file, process, name).Some?)
            && (Known(file, process, name).Some? ==> NumeratorKey(name) in memory)
  {
    EmptyStores();
    var entries := if file.File? && file.process == process then file.entries else map[];
    assert Stores(Current(snapshot, process), entries);
    assert EntryOf(Current(snapshot, process), name) == Lookup(entries, name);
  }

  // ----- Observations -------------------------------------------------------------------

  method AddUp(parts: seq<Option<nat>>) returns (total: Option<nat>)
    ensures total == SumFrom(parts, 0, 0)
  {
    var sum: nat := 0;
    for i := 0 to |parts|
      invariant SumFrom(parts, 0, 0) == SumFrom(parts, i, sum)
    {
      if parts[i].None? {
        return None;
      }
      sum := sum + parts[i].value;
    }
    return Some(sum);
  }

  method ReadSource(source: Source, optional: bool, missing: SkipReason, undefined: SkipReason)
    returns (observed: Result<nat, SkipReason>)
    ensures observed == Observe(source, optional, missing, undefined)
    ensures observed.Ok? <==> Counted(source).Some?
    ensures observed.Ok? ==> observed.value == Counted(source).value
    ensures source.Sum? ==>
              (observed.Ok? <==> forall k :: 0 <= k < |source.parts| ==> source.parts[k].Some?)
  {
    match source {
      case Sum(parts) =>
        SumIsPresent(parts, 0, 0);
        SumCounts(parts);
        var total := AddUp(parts);
        return if total.None? then Err(missing) else Result.Ok(total.value);
      case Single(part) =>
        if part.None? {
          return Err(if optional then MissingCounters else missing);
        }
        return Result.Ok(part.value);
      case Undefined =>
        return Err(undefined);
    }
  }

  method LabelsDiffer(e: Evaluation) returns (differ: bool)
    ensures differ == LabelsMismatch(e)
  {
    if e.alarm.expectedLabels == {} || e.reasons == [] {
      return false;
    }
    var found: set<string> := {};
    for i := 0 to |e.reasons|
      invariant found == set k | 0 <= k < i && e.reasons[k] != "" :: e.reasons[k]
    {
      if e.reasons[i] != "" {
        found := found + {e.reasons[i]};
      }
    }
    return found != e.alarm.expectedLabels;
  }

  /** The growth since the stored entry: the verdict, and the streak to store with the new
      counters unless the entry is to be left alone. */
  method MeasureGrowth(alarm: RatioAlarm, env: Env, num: nat, den: nat, was: Entry)
    returns (streak: Option<nat>, verdict: Verdict)
    ensures ((if streak.Some? then Some(Entry(num, den, streak.value)) else None), verdict)
            == Judge(Some(was), alarm, env, num, den)
  {
    if num < was.numerator || den < was.denominator {
      return Some(0), CollectingBaseline;
    }
    if env.GapStale() {
      return Some(0), CollectingBaseline;
    }
    if env.TooFresh() {
      return None, Skipped(IntervalTooShort);
    }
    var numDelta, denDelta := num - was.numerator, den - was.denominator;
    if denDelta < alarm.minVolume {
      return Some(0), Skipped(LowVolume(denDelta, alarm.minVolume));
    }
    if denDelta == 0 {
      return Some(0), Verdict.Ok(Count(0));
    }
    if RatioBreaches(alarm, numDelta, denDelta) {
      var extended := was.streak + 1;
      if extended >= alarm.streakThreshold {
        return Some(extended), Firing(Fraction(numDelta, denDelta), extended, false);
      }
      return Some(extended), Breach(Fraction(numDelta, denDelta), extended);
    }
    return Some(0), Verdict.Ok(Fraction(numDelta, denDelta));
  }

  // ----- The evaluator ------------------------------------------------------------------

  class RatioSnapshot {
    var snapshot: Dictionary
    ghost var file: RatioFile

    ghost predicate Valid()
      reads this
    {
      Represents(snapshot, file)
    }

    constructor (stored: Dictionary, ghost contents: RatioFile)
      requires Represents(stored, contents)
      ensures Valid() && snapshot == stored && file == contents
    {
      snapshot := stored;
      file := contents;
    }

    /** Starts the file over with the alarm's baseline, or adds it for the same process. */
    method WriteBaseline(memory: Dictionary, process: Identity, name: string, num: nat, den: nat)
      requires Stores(memory, if file.File? && file.process == process then file.entries else map[])
      modifies this
      ensures Valid() && file == Written(old(file), process, name, Entry(num, den, 0))
    {
      BaselineRepresents(memory, process, if file.File? && file.process == process then file.entries else map[],
                         name, num, den);
      snapshot := WithEntry(WithHeader(memory, process), name, num, den, 0);
      file := Written(file, process, name, Entry(num, den, 0));
    }

    /** Rewrites the alarm's baseline in the file of its own process. */
    method WriteEntry(process: Identity, name: string, num: nat, den: nat, streak: nat)
      requires Valid() && file.File? && file.process == process
      modifies this
      ensures Valid() && file == Written(old(file), process, name, Entry(num, den, streak))
    {
      EntryStores(snapshot, file.entries, name, num, den, streak);
      EntryKeepsHeader(snapshot, name, num, den, streak);
      snapshot := WithEntry(snapshot, name, num, den, streak);
      file := Written(file, process, name, Entry(num, den, streak));
    }

    method EvalCounterRatio(e: Evaluation) returns (verdict: Verdict)
      requires Valid() && Screened(e.alarm.exempt, e.alarm.gates, e.env).None?
      modifies this
      ensures Valid() && (file, verdict) == EvalRatio(old(file), e)
    {
      if !e.env.HasIdentity() {
        return Skipped(MissingIdentity);
      }
      if e.env.freshStart {
        return Skipped(FreshStart);
      }
      if e.ledgerAge.Some? && e.ledgerAge.value > MAX_LEDGER_AGE {
        return Skipped(LedgerAgeOver30s);
      }
      if e.env.uptime < MIN_RATIO_UPTIME {
        return Skipped(UptimeUnder10m);
      }
      var differ := LabelsDiffer(e);
      if differ {
        return Skipped(LabelSetMismatch);
      }
      var num := ReadSource(e.numerator, e.alarm.optionalCounters, MissingNumerator, NoNumerator);
      if num.Err? {
        return Skipped(num.error);
      }
      var den := ReadSource(e.denominator, e.alarm.optionalCounters, MissingDenominator, NoDenominator);
      if den.Err? {
        return Skipped(den.error);
      }
      verdict := JudgeStored(e.alarm, e.env, num.value, den.value);
    }

    /** The part of the evaluation that reads and rewrites the file. */
    method JudgeStored(alarm: RatioAlarm, env: Env, num: nat, den: nat) returns (verdict: Verdict)
      requires Valid()
      modifies this
      ensures Valid()
      ensures var judged := Judge(Known(old(file), env.Process(), alarm.name), alarm, env, num, den);
              verdict == judged.1
              && file == if judged.0.Some? then Written(old(file), env.Process(), alarm.name, judged.0.value)
                         else old(file)
    {
      var process, name := env.Process(), alarm.name;
      var memory := Current(snapshot, process);
      CurrentMeans(snapshot, file, process, name);
      if NumeratorKey(name) !in memory {
        WriteBaseline(memory, process, name, num, den);
        return CollectingBaseline;
      }
      var streak: Option<nat>;
      streak, verdict := MeasureGrowth(alarm, env, num, den, EntryOf(memory, name).value);
      if streak.Some? {
        WriteEntry(process, name, num, den, streak.value);
      }
    }

    /** The centralized hook: a resetting skip zeroes a non-zero streak of the alarm. */
    method MaybeReset(name: string, verdict: Verdict)
      requires Valid()
      modifies this
      ensures Valid() && file == AfterHook(old(file), name, verdict)
    {
      if !verdict.Skipped? || PreservesBaseline(verdict.reason) {
        return;
      }
      if StreakKey(name) in snapshot && snapshot[StreakKey(name)] != "0" {
        ZeroRepresents(snapshot, file, name);
        snapshot := snapshot[StreakKey(name) := "0"];
        file := Zeroed(file, name);
      } else {
        AlreadyZero(snapshot, file, name);
      }
    }

    /** One pass of the main loop over one ratio alarm. */
    method Tick(e: Evaluation) returns (verdict: Verdict)
      requires Valid()
      modifies this
      ensures Valid() && (file, verdict) == RatioStep(old(file), e)
    {
      var held := Screened(e.alarm.exempt, e.alarm.gates, e.env);
      if held.Some? {
        verdict := Skipped(held.value);
      } else {
        verdict := EvalCounterRatio(e);
      }
      MaybeReset(e.alarm.name, verdict);
    }
  }
}
