/**
 Counter-ratio alarms. All of them share one snapshot file with one process identity in its
 header; a run is the sequence of their evaluations, over any number of ticks.
 */
module RatioAlarms {
  import opened Common
  import opened AlarmTypes
  import opened Runs

  const MAX_LEDGER_AGE := 30
  const MIN_RATIO_UPTIME := 600

  datatype RatioAlarm = RatioAlarm(
    name: string,
    exempt: bool,
    gates: seq<Gate>,
    expectedLabels: set<string>,
    optionalCounters: bool,
    minVolume: int,
    ratioOp: Op,
    ratioThreshold: real,
    streakThreshold: int)

  /** How the scrape answers for one side of the ratio. */
  datatype Source = Sum(parts: seq<Option<nat>>) | Single(part: Option<nat>) | Undefined

  /** One evaluation of one alarm. `reasons` are the `reason` labels of the series found for the
      label check, empty where a series has none. */
  datatype Evaluation = Evaluation(
    alarm: RatioAlarm,
    env: Env,
    ledgerAge: Option<int>,
    reasons: seq<string>,
    numerator: Source,
    denominator: Source)

  datatype Entry = Entry(numerator: nat, denominator: nat, streak: nat)

  /** The shared snapshot file. */
  datatype RatioFile = NoFile | File(process: Identity, entries: map<string, Entry>)

  predicate Has(file: RatioFile, name: string) {
    file.File? && name in file.entries
  }

  // ----- One evaluation -----------------------------------------------------------------

  function FoundLabels(reasons: seq<string>): set<string> {
    set i | 0 <= i < |reasons| && reasons[i] != "" :: reasons[i]
  }

  predicate LabelsMismatch(e: Evaluation) {
    e.alarm.expectedLabels != {} && e.reasons != [] && FoundLabels(e.reasons) != e.alarm.expectedLabels
  }

  /** The conditions checked before the snapshot is read. */
  function Guard(e: Evaluation): Option<SkipReason> {
    if !e.env.HasIdentity() then Some(MissingIdentity)
    else if e.env.freshStart then Some(FreshStart)
    else if e.ledgerAge.Some? && e.ledgerAge.value > MAX_LEDGER_AGE then Some(LedgerAgeOver30s)
    else if e.env.uptime < MIN_RATIO_UPTIME then Some(UptimeUnder10m)
    else if LabelsMismatch(e) then Some(LabelSetMismatch)
    else None
  }

  /** `total` plus the parts from `i` on; nothing when one of them is missing. */
  function SumFrom(parts: seq<Option<nat>>, i: nat, total: nat): Option<nat>
    requires i <= |parts|
    decreases |parts| - i
  {
    if i == |parts| then Some(total)
    else if parts[i].None? then None
    else SumFrom(parts, i + 1, total + parts[i].value)
  }

  /** A sum is present exactly when all its parts are. */
  lemma {:induction false} SumIsPresent(parts: seq<Option<nat>>, i: nat, total: nat)
    requires i <= |parts|
    ensures SumFrom(parts, i, total).Some? <==> forall k :: i <= k < |parts| ==> parts[k].Some?
    decreases |parts| - i
  {
    if i < |parts| && parts[i].Some? {
      SumIsPresent(parts, i + 1, total + parts[i].value);
    }
  }

  lemma {:induction false} SumStartsAt(parts: seq<Option<nat>>, i: nat, total: nat)
    requires i <= |parts|
    ensures SumFrom(parts, i, total).Some? <==> SumFrom(parts, i, 0).Some?
    ensures SumFrom(parts, i, 0).Some? ==> SumFrom(parts, i, total).value == total + SumFrom(parts, i, 0).value
    decreases |parts| - i
  {
    if i < |parts| && parts[i].Some? {
      SumStartsAt(parts, i + 1, total + parts[i].value);
      SumStartsAt(parts, i + 1, parts[i].value);
    }
  }

  lemma {:induction false} SumSkips(a: seq<Option<nat>>, b: seq<Option<nat>>, i: nat)
    requires i <= |b|
    ensures SumFrom(a + b, |a| + i, 0) == SumFrom(b, i, 0)
    decreases |b| - i
  {
    if i < |b| && b[i].Some? {
      SumSkips(a, b, i + 1);
      assert (a + b)[|a| + i] == b[i];
      SumStartsAt(a + b, |a| + i + 1, b[i].value);
      SumStartsAt(b, i + 1, b[i].value);
    }
  }

  lemma {:induction false} SumSplits(a: seq<Option<nat>>, b: seq<Option<nat>>, i: nat, total: nat)
    requires i <= |a|
    ensures SumFrom(a + b, i, total)
            == if SumFrom(a, i, total).None? then None else SumFrom(a + b, |a|, SumFrom(a, i, total).value)
    decreases |a| - i
  {
    if i < |a| && a[i].Some? {
      SumSplits(a, b, i + 1, total + a[i].value);
    }
  }

  /** What the sum of the parts of a source is: none of them counts nothing, one counts itself, and two
      lists of them together count as much as each does. */
  lemma {:induction false} SumAdds(a: seq<Option<nat>>, b: seq<Option<nat>>, x: nat)
    ensures SumFrom([], 0, 0) == Some(0) && SumFrom([Some(x)], 0, 0) == Some(x)
    ensures SumFrom(a + b, 0, 0)
            == if SumFrom(a, 0, 0).None? || SumFrom(b, 0, 0).None? then None
               else Some(SumFrom(a, 0, 0).value + SumFrom(b, 0, 0).value)
  {
    assert SumFrom([Some(x)], 0, 0) == SumFrom([Some(x)], 1, x);
    SumSplits(a, b, 0, 0);
    SumSkips(a, b, 0);
    if SumFrom(a, 0, 0).Some? {
      SumStartsAt(a + b, |a|, SumFrom(a, 0, 0).value);
    }
  }

  /** The current value of one side, or why there is none. */
  function Observe(source: Source, optional: bool, missing: SkipReason, undefined: SkipReason):
    Result<nat, SkipReason>
  {
    match source
    case Sum(parts) =>
      var total := SumFrom(parts, 0, 0);
      if total.None? then Err(missing) else Result.Ok(total.value)
    case Single(part) =>
      if part.None? then Err(if optional then MissingCounters else missing) else Result.Ok(part.value)
    case Undefined => Err(undefined)
  }

  function Numerator(e: Evaluation): Result<nat, SkipReason> {
    Observe(e.numerator, e.alarm.optionalCounters, MissingNumerator, NoNumerator)
  }

  function Denominator(e: Evaluation): Result<nat, SkipReason> {
    Observe(e.denominator, e.alarm.optionalCounters, MissingDenominator, NoDenominator)
  }

  /** Why the evaluation stops before it looks at the alarm's baseline, if it does. */
  function Stopped(e: Evaluation): Option<SkipReason> {
    var held := Screened(e.alarm.exempt, e.alarm.gates, e.env);
    if held.Some? then held
    else if Guard(e).Some? then Guard(e)
    else if Numerator(e).Err? then Some(Numerator(e).error)
    else if Denominator(e).Err? then Some(Denominator(e).error)
    else None
  }

  /** What one side of the ratio counts, if it can be counted: all parts of a sum, or the one series. */
  function Counted(source: Source): Option<nat> {
    match source
    case Sum(parts) => CountedParts(parts)
    case Single(part) => part
    case Undefined => None
  }

  function CountedParts(parts: seq<Option<nat>>): Option<nat> {
    if parts == [] then Some(0)
    else
      var last, before := parts[|parts| - 1], CountedParts(parts[..|parts| - 1]);
      if last.None? || before.None? then None else Some(before.value + last.value)
  }

  lemma {:induction false} SumCounts(parts: seq<Option<nat>>)
    ensures SumFrom(parts, 0, 0) == CountedParts(parts)
  {
    if parts == [] {
    } else {
      var init, last := parts[..|parts| - 1], parts[|parts| - 1];
      assert parts == init + [last];
      SumCounts(init);
      SumAdds(init, [last], if last.Some? then last.value else 0);
      assert last.None? ==> SumFrom([last], 0, 0) == None;
    }
  }

  /** Both sides are what the scrape counts for them. */
  lemma {:induction false} SidesCount(e: Evaluation)
    ensures Numerator(e).Ok? <==> Counted(e.numerator).Some?
    ensures Numerator(e).Ok? ==> Numerator(e).value == Counted(e.numerator).value
    ensures Denominator(e).Ok? <==> Counted(e.denominator).Some?
    ensures Denominator(e).Ok? ==> Denominator(e).value == Counted(e.denominator).value
  {
    if e.numerator.Sum? {
      SumCounts(e.numerator.parts);
    }
    if e.denominator.Sum? {
      SumCounts(e.denominator.parts);
    }
  }

  /** The alarm is open, the process known and up for ten minutes without a fresh start, the ledger no older
      than 30 seconds, the labels as expected wherever there are series, and both sides countable. */
  predicate Ready(e: Evaluation) {
    && Open(e.alarm.exempt, e.alarm.gates, e.env)
    && e.env.pid != "" && e.env.startTicks != "" && !e.env.freshStart && e.env.uptime >= 600
    && (e.ledgerAge.Some? ==> e.ledgerAge.value <= 30)
    && (e.alarm.expectedLabels != {} && e.reasons != [] ==>
          (set found | found in e.reasons && found != "") == e.alarm.expectedLabels)
    && Counted(e.numerator).Some? && Counted(e.denominator).Some?
  }

  /** What a reason for stopping says about the evaluation. */
  predicate Explains(reason: SkipReason, e: Evaluation) {
    match reason
    case MissingIdentity => e.env.pid == "" || e.env.startTicks == ""
    case FreshStart => e.env.freshStart
    case LedgerAgeOver30s => e.ledgerAge.Some? && e.ledgerAge.value > 30
    case UptimeUnder10m => e.env.uptime < 600
    case LabelSetMismatch => (set found | found in e.reasons && found != "") != e.alarm.expectedLabels
    case MissingNumerator => Counted(e.numerator).None?
    case NoNumerator => e.numerator.Undefined?
    case MissingDenominator => Counted(e.denominator).None?
    case NoDenominator => e.denominator.Undefined?
    case MissingCounters =>
      e.alarm.optionalCounters && (Counted(e.numerator).None? || Counted(e.denominator).None?)
    case _ => Justifies(reason, e.alarm.exempt, e.alarm.gates, e.env)
  }

  /** An evaluation gets as far as the alarm's baseline exactly when it is ready, and otherwise stops for a
      reason that is true. */
  lemma {:induction false} StoppedExactly(e: Evaluation)
    ensures Stopped(e).None? <==> Ready(e)
    ensures Stopped(e).Some? ==> Explains(Stopped(e).value, e)
  {
    ScreenedExactly(e.alarm.exempt, e.alarm.gates, e.env);
    SidesCount(e);
    assert FoundLabels(e.reasons) == set found | found in e.reasons && found != "";
  }

  predicate RatioBreaches(alarm: RatioAlarm, num: nat, den: nat)
    requires den > 0
  {
    Compare(num as real / den as real, alarm.ratioOp, alarm.ratioThreshold)
  }

  /** The verdict on the alarm's own baseline, and the entry it writes, if it writes one. */
  function Judge(known: Option<Entry>, alarm: RatioAlarm, env: Env, num: nat, den: nat): (Option<Entry>, Verdict) {
    var restarted := Some(Entry(num, den, 0));
    if known.None? then (restarted, CollectingBaseline)
    else
      var was := known.value;
      if num < was.numerator || den < was.denominator then (restarted, CollectingBaseline)
      else if env.GapStale() then (restarted, CollectingBaseline)
      else if env.TooFresh() then (None, Skipped(IntervalTooShort))
      else
        var numDelta, denDelta := num - was.numerator, den - was.denominator;
        if denDelta < alarm.minVolume then (restarted, Skipped(LowVolume(denDelta, alarm.minVolume)))
        else if denDelta == 0 then (restarted, Verdict.Ok(Count(0)))
        else if RatioBreaches(alarm, numDelta, denDelta) then
          var streak := was.streak + 1;
          (Some(Entry(num, den, streak)),
           if streak >= alarm.streakThreshold then Firing(Fraction(numDelta, denDelta), streak, false)
           else Breach(Fraction(numDelta, denDelta), streak))
        else (restarted, Verdict.Ok(Fraction(numDelta, denDelta)))
  }

  /** The alarm's baseline, unless the file belongs to another process. */
  function Known(file: RatioFile, process: Identity, name: string): Option<Entry> {
    if Has(file, name) && file.process == process then Some(file.entries[name]) else None
  }

  /** Writing one entry; a file of another process is started over. */
  function Written(file: RatioFile, process: Identity, name: string, entry: Entry): RatioFile {
    File(process, (if file.File? && file.process == process then file.entries else map[])[name := entry])
  }

  function EvalRatio(file: RatioFile, e: Evaluation): (RatioFile, Verdict) {
    if Stopped(e).Some? then (file, Skipped(Stopped(e).value))
    else
      var process, name := e.env.Process(), e.alarm.name;
      var judged := Judge(Known(file, process, name), e.alarm, e.env, Numerator(e).value, Denominator(e).value);
      (if judged.0.Some? then Written(file, process, name, judged.0.value) else file, judged.1)
  }

  /** The centralized hook: a resetting skip zeroes the alarm's own streak, under any header. */
  function AfterHook(file: RatioFile, name: string, verdict: Verdict): RatioFile {
    if verdict.Resets() && Has(file, name)
    then File(file.process, file.entries[name := file.entries[name].(streak := 0)])
    else file
  }

  /** One pass of the main loop over one ratio alarm. */
  function RatioStep(file: RatioFile, e: Evaluation): (RatioFile, Verdict) {
    var next := EvalRatio(file, e);
    (AfterHook(next.0, e.alarm.name, next.1), next.1)
  }

  function RatioMachine(): (RatioFile, Evaluation) -> (RatioFile, Verdict) {
    (file, e) => RatioStep(file, e)
  }

  // ----- Stuttering ---------------------------------------------------------------------

  /** A preserved skip changes nothing in the shared file. */
  lemma {:induction false} StutterKeepsFile(file: RatioFile, e: Evaluation)
    requires RatioStep(file, e).1.Stutters()
    ensures RatioStep(file, e).0 == file
  {
  }

  /** Evaluations answered with a preserved skip can be deleted from any run. */
  lemma {:induction false} RatioStuttering(file: RatioFile, run: seq<Evaluation>, keep: seq<bool>)
    requires |keep| == |run|
    requires forall k :: 0 <= k < |run| && !keep[k] ==> VerdictAt(RatioMachine(), file, run, k).Stutters()
    ensures var kept := Kept(run, keep, |run|);
            StateAfter(RatioMachine(), file, kept, |kept|) == StateAfter(RatioMachine(), file, run, |run|)
            && Verdicts(RatioMachine(), file, kept, |kept|)
               == Kept(Verdicts(RatioMachine(), file, run, |run|), keep, |run|)
  {
    var step := RatioMachine();
    forall k | 0 <= k < |run| && !keep[k]
      ensures StateAfter(step, file, run, k + 1) == StateAfter(step, file, run, k)
    {
      assert VerdictAt(step, file, run, k).Stutters();
      StutterKeepsFile(StateAfter(step, file, run, k), run[k]);
    }
    DropStutters(step, file, run, keep, |run|);
  }
}
