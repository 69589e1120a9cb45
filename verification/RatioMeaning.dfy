/** What the verdicts of counter-ratio alarms mean in terms of their observations alone. */
module RatioMeaning {
  import opened Common
  import opened AlarmTypes
  import opened Runs
  import opened RatioAlarms
  import opened RatioRuns

  /** Verdicts that come with a new stored baseline. */
  predicate Writes(verdict: Verdict) {
    verdict.Skipped? ==> verdict.reason.LowVolume?
  }

  /** Verdicts on the growth since the stored baseline. */
  predicate IsJudged(verdict: Verdict) {
    verdict.Ok? || verdict.Breach? || verdict.Firing? || (verdict.Skipped? && verdict.reason.LowVolume?)
  }

  /** The alarm's last evaluation before `n` that stored a baseline, or -1. */
  function LastWrite(run: seq<Evaluation>, vs: seq<Verdict>, name: string, n: nat): (a: int)
    requires n <= |run| == |vs|
    ensures -1 <= a < n
  {
    if n == 0 then -1
    else if run[n - 1].alarm.name == name && Writes(vs[n - 1]) then n - 1
    else LastWrite(run, vs, name, n - 1)
  }

  /** The stored baseline is the one of evaluation `a`. */
  predicate BaselineOf(run: seq<Evaluation>, a: int, process: Identity, entry: Entry) {
    0 <= a < |run|
    && run[a].env.Process() == process
    && Numerator(run[a]) == Result.Ok(entry.numerator)
    && Denominator(run[a]) == Result.Ok(entry.denominator)
  }

  // ----- No delta spans two processes ---------------------------------------------------

  lemma {:induction false} StepStores(file: RatioFile, e: Evaluation, name: string)
    ensures var (next, verdict) := RatioStep(file, e);
            Has(next, name) ==>
              if e.alarm.name == name && Writes(verdict)
              then next.process == e.env.Process()
                   && Numerator(e) == Result.Ok(next.entries[name].numerator)
                   && Denominator(e) == Result.Ok(next.entries[name].denominator)
              else Has(file, name) && next.process == file.process
                   && next.entries[name].numerator == file.entries[name].numerator
                   && next.entries[name].denominator == file.entries[name].denominator
  {
  }

  /** The alarm's entry is its last stored baseline. */
  ghost predicate IsStored(run: seq<Evaluation>, vs: seq<Verdict>, name: string, n: nat, file: RatioFile)
    requires n <= |run| == |vs|
  {
    Has(file, name) ==> BaselineOf(run, LastWrite(run, vs, name, n), file.process, file.entries[name])
  }

  lemma {:induction false} StaysStored(run: seq<Evaluation>, vs: seq<Verdict>, name: string, k: nat, file: RatioFile)
    requires k < |run| == |vs| && IsStored(run, vs, name, k, file)
    requires vs[k] == RatioStep(file, run[k]).1
    ensures IsStored(run, vs, name, k + 1, RatioStep(file, run[k]).0)
  {
    StepStores(file, run[k], name);
  }

  lemma {:induction false} StoredBaseline(run: seq<Evaluation>, name: string, n: nat)
    requires n <= |run|
    ensures IsStored(run, Answers(run, |run|), name, n, Shared(run, n))
  {
    if n > 0 {
      StoredBaseline(run, name, n - 1);
      VerdictsAt(RatioMachine(), NoFile, run, |run|, n - 1);
      StaysStored(run, Answers(run, |run|), name, n - 1, Shared(run, n - 1));
    }
  }

  /** The growth a verdict speaks about. */
  predicate Reports(verdict: Verdict, numDelta: int, denDelta: int) {
    match verdict
    case Ok(reading) => if denDelta == 0 then reading == Count(0) else IsFraction(reading, numDelta, denDelta)
    case Breach(reading, _) => IsFraction(reading, numDelta, denDelta)
    case Firing(reading, _, _) => IsFraction(reading, numDelta, denDelta)
    case Skipped(LowVolume(delta, _)) => delta == denDelta
    case _ => false
  }

  predicate IsFraction(reading: Reading, num: int, den: int) {
    reading.Fraction? && reading.num == num && reading.den == den
  }

  lemma {:induction false} StepReports(file: RatioFile, e: Evaluation)
    requires IsJudged(RatioStep(file, e).1)
    ensures Stopped(e).None? && Known(file, e.env.Process(), e.alarm.name).Some?
    ensures var was := file.entries[e.alarm.name];
            Reports(RatioStep(file, e).1, Numerator(e).value - was.numerator, Denominator(e).value - was.denominator)
  {
  }

  /** In any run, whatever identities it shows, a judged evaluation is measured against the alarm's
      own last stored baseline, and that was taken from the same process. */
  lemma {:induction false} DeltaWithinOneProcess(run: seq<Evaluation>, k: nat)
    requires k < |run| && IsJudged(Answers(run, |run|)[k])
    ensures var vs := Answers(run, |run|);
            var a := LastWrite(run, vs, run[k].alarm.name, k);
            a >= 0 && run[a].env.pid == run[k].env.pid && run[a].env.startTicks == run[k].env.startTicks
            && BothCounted(run[a]) && BothCounted(run[k])
            && Reports(vs[k], Counted(run[k].numerator).value - Counted(run[a].numerator).value,
                       Counted(run[k].denominator).value - Counted(run[a].denominator).value)
  {
    VerdictsAt(RatioMachine(), NoFile, run, |run|, k);
    StepReports(Shared(run, k), run[k]);
    StoredBaseline(run, run[k].alarm.name, k);
    SidesCount(run[k]);
    SidesCount(run[LastWrite(run, Answers(run, |run|), run[k].alarm.name, k)]);
  }

  predicate BothCounted(e: Evaluation) {
    Counted(e.numerator).Some? && Counted(e.denominator).Some?
  }

  // ----- One alarm on its own -----------------------------------------------------------

  ghost predicate Alone(run: seq<Evaluation>, name: string) {
    forall i :: 0 <= i < |run| ==> run[i].alarm.name == name
  }

  /** Consecutive breaching evaluations at the end, preserved skips left aside. */
  function TrailingBreaches(vs: seq<Verdict>, n: nat): nat
    requires n <= |vs|
  {
    if n == 0 then 0
    else if vs[n - 1].Stutters() then TrailingBreaches(vs, n - 1)
    else if Extends(vs[n - 1]) then TrailingBreaches(vs, n - 1) + 1
    else 0
  }

  /** The file one alarm leaves behind, told from its evaluations and verdicts. */
  function Remembered(run: seq<Evaluation>, vs: seq<Verdict>, name: string, n: nat): RatioFile
    requires n <= |run| == |vs|
  {
    var a := LastWrite(run, vs, name, n);
    if a == -1 || Numerator(run[a]).Err? || Denominator(run[a]).Err? then NoFile
    else File(run[a].env.Process(),
              map[name := Entry(Numerator(run[a]).value, Denominator(run[a]).value, TrailingBreaches(vs, n))])
  }

  /** A file that holds just this alarm's baseline. */
  function Single(process: Identity, name: string, entry: Entry): RatioFile {
    File(process, map[name := entry])
  }

  predicate Extends(verdict: Verdict) {
    verdict.Breach? || verdict.Firing?
  }

  /** What one evaluation makes of a file that holds at most this alarm's entry. */
  predicate AloneNext(file: RatioFile, e: Evaluation, process: Identity, entry: Entry, next: RatioFile,
                      verdict: Verdict)
  {
    if verdict.Stutters() then next == file
    else if Writes(verdict) then
      Numerator(e).Ok? && Denominator(e).Ok?
      && next == Single(e.env.Process(), e.alarm.name,
                   Entry(Numerator(e).value, Denominator(e).value, if Extends(verdict) then entry.streak + 1 else 0))
      && (Extends(verdict) ==> file.File?)
    else
      next == (if file.NoFile? then NoFile else Single(process, e.alarm.name, entry.(streak := 0)))
      && !Extends(verdict)
  }

  lemma {:induction false} AloneStep(file: RatioFile, e: Evaluation, process: Identity, entry: Entry)
    requires file.NoFile? || file == Single(process, e.alarm.name, entry)
    ensures AloneNext(file, e, process, entry, RatioStep(file, e).0, RatioStep(file, e).1)
  {
    var name := e.alarm.name;
    var written := Entry(0, 0, 0);
    if file.File? && RatioStep(file, e).0.File? {
      written := RatioStep(file, e).0.entries[name];
      assert file.entries[name := written] == map[name := written];
    }
  }

  /** The run's memory after `k` evaluations, with what is known besides. */
  ghost predicate Remembers(run: seq<Evaluation>, vs: seq<Verdict>, name: string, n: nat, file: RatioFile)
    requires n <= |run| == |vs|
  {
    var a := LastWrite(run, vs, name, n);
    file == Remembered(run, vs, name, n)
    && (a == -1 ==> TrailingBreaches(vs, n) == 0)
    && (a >= 0 ==> Numerator(run[a]).Ok? && Denominator(run[a]).Ok?)
  }

  lemma {:induction false} MemoryMoves(run: seq<Evaluation>, vs: seq<Verdict>, name: string, k: nat, file: RatioFile,
                                       process: Identity, entry: Entry, next: RatioFile)
    requires k < |run| == |vs| && Alone(run, name) && Remembers(run, vs, name, k, file)
    requires file.NoFile? || file == Single(process, name, entry)
    requires AloneNext(file, run[k], process, entry, next, vs[k])
    ensures Remembers(run, vs, name, k + 1, next)
  {
    LastWriteMoves(run, vs, name, k);
    if file.File? {
      assert Single(process, name, entry).entries[name] == entry;
    }
  }

  lemma {:induction false} MemoryShape(run: seq<Evaluation>, vs: seq<Verdict>, name: string, n: nat, file: RatioFile)
    requires n <= |run| == |vs| && Remembers(run, vs, name, n, file)
    ensures file.File? ==> name in file.entries && file == Single(file.process, name, file.entries[name])
  {
  }

  lemma {:induction false} MemoryStep(run: seq<Evaluation>, vs: seq<Verdict>, name: string, k: nat, file: RatioFile)
    requires k < |run| == |vs| && Alone(run, name) && Remembers(run, vs, name, k, file)
    requires vs[k] == RatioStep(file, run[k]).1
    ensures Remembers(run, vs, name, k + 1, RatioStep(file, run[k]).0)
  {
    MemoryShape(run, vs, name, k, file);
    var process := if file.File? then file.process else run[k].env.Process();
    var entry := if file.File? then file.entries[name] else Entry(0, 0, 0);
    AloneStep(file, run[k], process, entry);
    MemoryMoves(run, vs, name, k, file, process, entry, RatioStep(file, run[k]).0);
  }

  /** After any run of one alarm its file holds the process and counters of the last evaluation
      that stored a baseline, and the number of consecutive breaching evaluations since. */
  lemma {:induction false} RatioRunMeaning(run: seq<Evaluation>, name: string, n: nat)
    requires n <= |run| && Alone(run, name)
    ensures Remembers(run, Answers(run, |run|), name, n, Shared(run, n))
  {
    if n > 0 {
      RatioRunMeaning(run, name, n - 1);
      VerdictsAt(RatioMachine(), NoFile, run, |run|, n - 1);
      MemoryStep(run, Answers(run, |run|), name, n - 1, Shared(run, n - 1));
    }
  }

  lemma {:induction false} LastWriteMoves(run: seq<Evaluation>, vs: seq<Verdict>, name: string, k: nat)
    requires k < |run| == |vs| && Alone(run, name)
    ensures LastWrite(run, vs, name, k + 1) == if Writes(vs[k]) then k else LastWrite(run, vs, name, k)
    ensures TrailingBreaches(vs, k + 1)
            == if vs[k].Stutters() then TrailingBreaches(vs, k)
               else if Extends(vs[k]) then TrailingBreaches(vs, k) + 1 else 0
  {
  }

  /** The evaluation is measured against the given counters: no reset, and the previous scrape of unknown
      age or neither too young nor too old. */
  predicate GrowthTaken(e: Evaluation, num: nat, den: nat) {
    Ready(e) && num <= Counted(e.numerator).value && den <= Counted(e.denominator).value
    && (e.env.prevScrapeAge < 0 || e.env.minEvalWindow <= e.env.prevScrapeAge < e.env.gapStaleThreshold)
  }

  /** Enough volume, and a growth of the numerator beyond the threshold's share of the denominator's. */
  predicate GrowthBreaches(e: Evaluation, num: nat, den: nat)
    requires GrowthTaken(e, num, den)
  {
    var numDelta, denDelta := Counted(e.numerator).value - num, Counted(e.denominator).value - den;
    denDelta >= e.alarm.minVolume && denDelta > 0
    && Compare(numDelta as real, e.alarm.ratioOp, e.alarm.ratioThreshold * denDelta as real)
  }

  lemma {:induction false} CrossMultiplied(num: real, den: real, op: Op, threshold: real)
    requires den > 0.0
    ensures Compare(num / den, op, threshold) <==> Compare(num, op, threshold * den)
  {
    var q := num / den;
    assert q * den == num;
    assert q < threshold ==> q * den < threshold * den;
    assert q > threshold ==> q * den > threshold * den;
  }

  lemma {:induction false} JudgesExactly(file: RatioFile, e: Evaluation)
    requires Known(file, e.env.Process(), e.alarm.name).Some?
    ensures var was := file.entries[e.alarm.name];
            var verdict := RatioStep(file, e).1;
            (IsJudged(verdict) <==> GrowthTaken(e, was.numerator, was.denominator))
            && (Extends(verdict) <==>
                GrowthTaken(e, was.numerator, was.denominator) && GrowthBreaches(e, was.numerator, was.denominator))
            && (verdict.Firing? <==> Extends(verdict) && was.streak + 1 >= e.alarm.streakThreshold)
            && (Extends(verdict) ==> verdict.ticks == was.streak + 1)
  {
    StoppedExactly(e);
    SidesCount(e);
    var was := file.entries[e.alarm.name];
    if GrowthTaken(e, was.numerator, was.denominator) {
      var numDelta := Counted(e.numerator).value - was.numerator;
      var denDelta := Counted(e.denominator).value - was.denominator;
      if denDelta > 0 {
        CrossMultiplied(numDelta as real, denDelta as real, e.alarm.ratioOp, e.alarm.ratioThreshold);
      }
    }
  }

  lemma {:induction false} NothingKnown(file: RatioFile, e: Evaluation)
    requires Known(file, e.env.Process(), e.alarm.name).None?
    ensures !IsJudged(RatioStep(file, e).1) && !Extends(RatioStep(file, e).1)
  {
  }

  /** The last stored baseline, when it is of the evaluation's own process. */
  predicate MeasuredFrom(run: seq<Evaluation>, vs: seq<Verdict>, name: string, k: nat)
    requires k < |run| == |vs|
  {
    var a := LastWrite(run, vs, name, k);
    a >= 0 && run[a].env.pid == run[k].env.pid && run[a].env.startTicks == run[k].env.startTicks
    && BothCounted(run[a])
    && GrowthTaken(run[k], Counted(run[a].numerator).value, Counted(run[a].denominator).value)
  }

  predicate BreachAt(run: seq<Evaluation>, vs: seq<Verdict>, name: string, k: nat)
    requires k < |run| == |vs|
  {
    var a := LastWrite(run, vs, name, k);
    MeasuredFrom(run, vs, name, k)
    && GrowthBreaches(run[k], Counted(run[a].numerator).value, Counted(run[a].denominator).value)
  }

  /** A breach that completes an unbroken series of the configured length. */
  predicate ShouldFire(run: seq<Evaluation>, vs: seq<Verdict>, name: string, k: nat)
    requires k < |run| == |vs|
  {
    BreachAt(run, vs, name, k) && TrailingBreaches(vs, k) + 1 >= run[k].alarm.streakThreshold
  }

  lemma {:induction false} OwnIsAlone(run: seq<Evaluation>, name: string, n: nat)
    requires n <= |run|
    ensures Alone(Own(run, name, n), name)
  {
    if n > 0 {
      OwnIsAlone(run, name, n - 1);
    }
  }

  /** A ratio alarm is judged exactly on growth since its last baseline of the same process, and
      fires exactly when that growth breaches and completes an unbroken series of breaching
      evaluations of the configured length. */
  lemma {:induction false} RatioFiresExactly(run: seq<Evaluation>, name: string, k: nat)
    requires k < |run| && Alone(run, name)
    ensures var vs := Answers(run, |run|);
            (IsJudged(vs[k]) <==> MeasuredFrom(run, vs, name, k))
            && (Extends(vs[k]) <==> BreachAt(run, vs, name, k))
            && (vs[k].Firing? <==> ShouldFire(run, vs, name, k))
            && (Extends(vs[k]) ==> vs[k].ticks == TrailingBreaches(vs, k) + 1)
  {
    var vs := Answers(run, |run|);
    RatioRunMeaning(run, name, k);
    VerdictsAt(RatioMachine(), NoFile, run, |run|, k);
    LastWriteMoves(run, vs, name, k);
    var a := LastWrite(run, vs, name, k);
    if a >= 0 {
      SidesCount(run[a]);
    }
    if Known(Shared(run, k), run[k].env.Process(), name).Some? {
      JudgesExactly(Shared(run, k), run[k]);
    } else {
      NothingKnown(Shared(run, k), run[k]);
    }
  }

  /** The evaluation is ready and continues the given counters of its own process. */
  predicate Continues(e: Evaluation, num: nat, den: nat) {
    Ready(e) && num <= Counted(e.numerator).value && den <= Counted(e.denominator).value
  }

  predicate ContinuesBaseline(run: seq<Evaluation>, vs: seq<Verdict>, name: string, k: nat)
    requires k < |run| == |vs|
  {
    var a := LastWrite(run, vs, name, k);
    a >= 0 && run[a].env.pid == run[k].env.pid && run[a].env.startTicks == run[k].env.startTicks
    && BothCounted(run[a]) && Continues(run[k], Counted(run[a].numerator).value, Counted(run[a].denominator).value)
  }

  lemma {:induction false} OtherAnswers(file: RatioFile, e: Evaluation)
    ensures var known, verdict := Known(file, e.env.Process(), e.alarm.name), RatioStep(file, e).1;
            var continues := known.Some? && Continues(e, known.value.numerator, known.value.denominator);
            (verdict.Stutters() <==>
               (Open(e.alarm.exempt, e.alarm.gates, e.env) && (e.env.pid == "" || e.env.startTicks == ""))
               || (continues && 0 <= e.env.prevScrapeAge < e.env.minEvalWindow
                   && e.env.prevScrapeAge < e.env.gapStaleThreshold))
            && (verdict == CollectingBaseline <==>
                Ready(e) && (continues ==> 0 <= e.env.prevScrapeAge && e.env.gapStaleThreshold <= e.env.prevScrapeAge))
  {
    StoppedExactly(e);
    ScreenedExactly(e.alarm.exempt, e.alarm.gates, e.env);
    SidesCount(e);
  }

  /** Exactly which evaluations change nothing, and which only set a baseline: the first of a process, one
      after a counter reset, and one after a gap of the monitoring loop. */
  lemma {:induction false} RatioBaselinesExactly(run: seq<Evaluation>, name: string, k: nat)
    requires k < |run| && Alone(run, name)
    ensures var vs, env := Answers(run, |run|), run[k].env;
            (vs[k].Stutters() <==>
               (Open(run[k].alarm.exempt, run[k].alarm.gates, env) && (env.pid == "" || env.startTicks == ""))
               || (ContinuesBaseline(run, vs, name, k)
                   && 0 <= env.prevScrapeAge < env.minEvalWindow && env.prevScrapeAge < env.gapStaleThreshold))
            && (vs[k] == CollectingBaseline <==>
                Ready(run[k]) && (ContinuesBaseline(run, vs, name, k) ==>
                                    0 <= env.prevScrapeAge && env.gapStaleThreshold <= env.prevScrapeAge))
  {
    var vs := Answers(run, |run|);
    RatioRunMeaning(run, name, k);
    VerdictsAt(RatioMachine(), NoFile, run, |run|, k);
    var a := LastWrite(run, vs, name, k);
    if a >= 0 {
      SidesCount(run[a]);
    }
    OtherAnswers(Shared(run, k), run[k]);
  }
}
