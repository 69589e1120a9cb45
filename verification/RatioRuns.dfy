/**
 Whole runs of the counter-ratio alarms: sharing one file is as good as one file per alarm as long
 as no process identity comes back, and every delta stays within one process.
 */
module RatioRuns {
  import opened Common
  import opened AlarmTypes
  import opened Runs
  import opened RatioAlarms

  // ----- The shared run and the private ones --------------------------------------------

  function Shared(run: seq<Evaluation>, n: nat): RatioFile
    requires n <= |run|
  {
    StateAfter(RatioMachine(), NoFile, run, n)
  }

  function Answers(run: seq<Evaluation>, n: nat): (vs: seq<Verdict>)
    requires n <= |run|
    ensures |vs| == n
  {
    Verdicts(RatioMachine(), NoFile, run, n)
  }

  /** Which evaluations are of the alarm `name`. */
  function OwnMask(run: seq<Evaluation>, name: string): (keep: seq<bool>)
    ensures |keep| == |run|
    ensures forall i :: 0 <= i < |run| ==> (keep[i] <==> run[i].alarm.name == name)
  {
    seq(|run|, i requires 0 <= i < |run| => run[i].alarm.name == name)
  }

  /** The alarm's own evaluations among the first `n`. */
  function Own(run: seq<Evaluation>, name: string, n: nat): seq<Evaluation>
    requires n <= |run|
  {
    Kept(run, OwnMask(run, name), n)
  }

  /** The alarm evaluated alone, with a snapshot file of its own. */
  function Private(run: seq<Evaluation>, name: string, n: nat): RatioFile
    requires n <= |run|
  {
    Shared(Own(run, name, n), |Own(run, name, n)|)
  }

  // ----- Identities ---------------------------------------------------------------------

  predicate ShownAt(run: seq<Evaluation>, i: nat, process: Identity)
    requires i < |run|
  {
    run[i].env.HasIdentity() && run[i].env.Process() == process
  }

  /** No process identity is seen again after a different one was. */
  ghost predicate IdentitiesNeverReturn(run: seq<Evaluation>) {
    forall i, j, k ::
      0 <= i < j < k < |run| && run[j].env.HasIdentity()
      && ShownAt(run, i, run[k].env.Process()) && ShownAt(run, k, run[k].env.Process())
      ==> run[j].env.Process() == run[k].env.Process()
  }

  // ----- What the observations alone say ------------------------------------------------

  /** The evaluation gets as far as the alarm's baseline. */
  predicate Proceeds(e: Evaluation) {
    Stopped(e).None?
  }

  lemma {:induction false} ProceedingHasCounters(e: Evaluation)
    requires Proceeds(e)
    ensures Numerator(e).Ok? && Denominator(e).Ok? && e.env.HasIdentity()
  {
  }

  /** The later evaluation can be measured against the earlier one: same process, no counter below
      its baseline, no stale gap. */
  predicate Measurable(from: Evaluation, to: Evaluation) {
    from.env.Process() == to.env.Process()
    && (to.env.prevScrapeAge < 0 || to.env.prevScrapeAge < to.env.gapStaleThreshold)
    && Numerator(from).Ok? && Numerator(to).Ok? && Numerator(from).value <= Numerator(to).value
    && Denominator(from).Ok? && Denominator(to).Ok? && Denominator(from).value <= Denominator(to).value
  }

  /** The alarm's last evaluation before `n` that is neither stopped nor a duplicate, or -1: the one
      whose counters a file of its own would hold. */
  function OwnBaseline(run: seq<Evaluation>, name: string, n: nat): (b: int)
    requires n <= |run|
    ensures -1 <= b < n
    ensures b >= 0 ==> run[b].alarm.name == name && Proceeds(run[b])
  {
    if n == 0 then -1
    else
      var e, b := run[n - 1], OwnBaseline(run, name, n - 1);
      var duplicate := 0 <= e.env.prevScrapeAge < e.env.minEvalWindow;
      if e.alarm.name != name || !Proceeds(e) || (b >= 0 && Measurable(run[b], e) && duplicate) then b
      else n - 1
  }

  /** Another process is evaluated, by any alarm, between the baseline and `n`. */
  ghost predicate Interrupted(run: seq<Evaluation>, b: nat, n: nat)
    requires b < |run| && n <= |run|
  {
    exists j :: b < j < n && Proceeds(run[j]) && run[j].env.Process() != run[b].env.Process()
  }

  /** The evaluation could be measured against the alarm's own baseline of the same process, but the
      shared file has been started over for another process in between. */
  ghost predicate Lost(run: seq<Evaluation>, name: string, k: nat)
    requires k < |run|
  {
    var b := OwnBaseline(run, name, k);
    run[k].alarm.name == name && Proceeds(run[k])
    && b >= 0 && Measurable(run[b], run[k]) && Interrupted(run, b, k)
  }

  ghost predicate NoneLost(run: seq<Evaluation>, name: string, n: nat)
    requires n <= |run|
  {
    n == 0 || (NoneLost(run, name, n - 1) && !Lost(run, name, n - 1))
  }

  lemma {:induction false} NoneLostMeans(run: seq<Evaluation>, name: string, n: nat)
    requires n <= |run|
    ensures NoneLost(run, name, n) <==> forall k :: 0 <= k < n ==> !Lost(run, name, k)
  {
    if n > 0 {
      NoneLostMeans(run, name, n - 1);
    }
  }

  // ----- Refinement ---------------------------------------------------------------------

  /** The entry holds the counters of the evaluation. */
  predicate Holds(e: Evaluation, entry: Entry) {
    Numerator(e) == Result.Ok(entry.numerator) && Denominator(e) == Result.Ok(entry.denominator)
  }

  /** The private file holds the alarm's own baseline; the shared file holds the same under the same
      process, unless another process was evaluated since, in which case it holds nothing. */
  ghost predicate Relates(run: seq<Evaluation>, name: string, n: nat, shared: RatioFile, own: RatioFile)
    requires n <= |run|
  {
    var b := OwnBaseline(run, name, n);
    if b == -1 then !Has(shared, name) && !Has(own, name)
    else
      Has(own, name) && own.process == run[b].env.Process() && Holds(run[b], own.entries[name])
      && (if Interrupted(run, b, n) then !Has(shared, name)
          else Has(shared, name) && shared.process == own.process && shared.entries[name] == own.entries[name])
  }

  lemma {:induction false} InterruptedMoves(run: seq<Evaluation>, b: nat, k: nat)
    requires b <= k < |run|
    ensures Interrupted(run, b, k + 1)
            <==> Interrupted(run, b, k) || (Proceeds(run[k]) && run[k].env.Process() != run[b].env.Process())
  {
  }

  lemma {:induction false} NotYetInterrupted(run: seq<Evaluation>, k: nat)
    requires k < |run|
    ensures !Interrupted(run, k, k + 1)
  {
  }

  /** What one evaluation does to the alarm's own baseline in any file. */
  lemma {:induction false} OwnStep(file: RatioFile, e: Evaluation)
    ensures var (next, verdict), known := RatioStep(file, e), Known(file, e.env.Process(), e.alarm.name);
            if !Proceeds(e) then
              Has(next, e.alarm.name) == Has(file, e.alarm.name)
              && (Has(file, e.alarm.name) ==>
                  var was := file.entries[e.alarm.name];
                  next.process == file.process
                  && next.entries[e.alarm.name] == if verdict.Resets() then was.(streak := 0) else was)
              && verdict == Skipped(Stopped(e).value)
            else
              var judged := Judge(known, e.alarm, e.env, Numerator(e).value, Denominator(e).value);
              verdict == judged.1
              && (if judged.0.None? then next == file
                  else Has(next, e.alarm.name) && next.process == e.env.Process()
                       && next.entries[e.alarm.name] == judged.0.value)
  {
  }

  lemma {:induction false} JudgeWrites(known: Option<Entry>, alarm: RatioAlarm, env: Env, num: nat, den: nat)
    ensures var (written, verdict) := Judge(known, alarm, env, num, den);
            (written.None? <==> known.Some? && known.value.numerator <= num && known.value.denominator <= den
                                && !env.GapStale() && env.TooFresh())
            && (written.Some? ==> written.value.numerator == num && written.value.denominator == den)
            && (verdict == CollectingBaseline <==>
                known.None? || num < known.value.numerator || den < known.value.denominator || env.GapStale())
            && (verdict == CollectingBaseline ==> written == Some(Entry(num, den, 0)))
  {
  }

  /** On the alarm's own evaluation the two files give the same verdict exactly when nothing was lost,
      and stay related then. */
  lemma {:induction false} OwnStepRelates(run: seq<Evaluation>, name: string, k: nat, shared: RatioFile, own: RatioFile)
    requires k < |run| && run[k].alarm.name == name && Relates(run, name, k, shared, own)
    ensures RatioStep(shared, run[k]).1 == RatioStep(own, run[k]).1 <==> !Lost(run, name, k)
    ensures !Lost(run, name, k) ==>
              Relates(run, name, k + 1, RatioStep(shared, run[k]).0, RatioStep(own, run[k]).0)
  {
    var e, b := run[k], OwnBaseline(run, name, k);
    OwnStep(shared, e);
    OwnStep(own, e);
    NotYetInterrupted(run, k);
    if b >= 0 {
      InterruptedMoves(run, b, k);
    }
    if Proceeds(e) {
      ProceedingHasCounters(e);
      var num, den := Numerator(e).value, Denominator(e).value;
      JudgeWrites(Known(shared, e.env.Process(), name), e.alarm, e.env, num, den);
      JudgeWrites(Known(own, e.env.Process(), name), e.alarm, e.env, num, den);
    }
  }

  /** Another alarm's evaluation leaves the baseline alone, or starts the file over. */
  lemma {:induction false} OtherStepRelates(run: seq<Evaluation>, name: string, k: nat, shared: RatioFile,
                                            own: RatioFile)
    requires k < |run| && run[k].alarm.name != name && Relates(run, name, k, shared, own)
    ensures Relates(run, name, k + 1, RatioStep(shared, run[k]).0, own)
  {
    var b := OwnBaseline(run, name, k);
    if b >= 0 {
      InterruptedMoves(run, b, k);
    }
  }

  lemma {:induction false} OwnGrows(run: seq<Evaluation>, name: string, k: nat)
    requires k < |run|
    ensures var before := Own(run, name, k);
            if run[k].alarm.name == name
            then Own(run, name, k + 1) == before + [run[k]]
                 && Private(run, name, k + 1) == RatioStep(Private(run, name, k), run[k]).0
                 && Answers(Own(run, name, k + 1), |before| + 1)
                    == Answers(before, |before|) + [RatioStep(Private(run, name, k), run[k]).1]
            else Own(run, name, k + 1) == before
  {
    var before := Own(run, name, k);
    if run[k].alarm.name == name {
      EarlierTicksDecide(RatioMachine(), NoFile, before, run[k], |before|);
      assert (before + [run[k]])[|before|] == run[k];
    }
  }

  lemma {:induction false} FilesRelate(run: seq<Evaluation>, name: string, n: nat)
    requires n <= |run| && NoneLost(run, name, n)
    ensures Relates(run, name, n, Shared(run, n), Private(run, name, n))
  {
    if n > 0 {
      var k := n - 1;
      FilesRelate(run, name, k);
      OwnGrows(run, name, k);
      if run[k].alarm.name == name {
        OwnStepRelates(run, name, k, Shared(run, k), Private(run, name, k));
      } else {
        OtherStepRelates(run, name, k, Shared(run, k), Private(run, name, k));
      }
    }
  }

  /** The alarm's verdicts from the shared file are those from a file of its own. */
  ghost predicate ActsPrivate(run: seq<Evaluation>, name: string, n: nat)
    requires n <= |run|
  {
    Kept(Answers(run, n), OwnMask(run, name), n) == Answers(Own(run, name, n), |Own(run, name, n)|)
  }

  /** The evaluation is the alarm's and its verdict depends on which file it reads. */
  predicate Differs(run: seq<Evaluation>, name: string, k: nat)
    requires k < |run|
  {
    run[k].alarm.name == name
    && RatioStep(Shared(run, k), run[k]).1 != RatioStep(Private(run, name, k), run[k]).1
  }

  lemma {:induction false} ActsPrivateMoves(run: seq<Evaluation>, name: string, k: nat)
    requires k < |run|
    ensures ActsPrivate(run, name, k + 1) <==> ActsPrivate(run, name, k) && !Differs(run, name, k)
  {
    OwnGrows(run, name, k);
    var verdict := VerdictAt(RatioMachine(), NoFile, run, k);
    KeptPrefix(Answers(run, k), verdict, OwnMask(run, name), k);
    if run[k].alarm.name == name {
      SameEnds(Kept(Answers(run, k), OwnMask(run, name), k), verdict,
               Answers(Own(run, name, k), |Own(run, name, k)|), RatioStep(Private(run, name, k), run[k]).1);
    }
  }

  lemma {:induction false} SameEnds<X>(a: seq<X>, x: X, b: seq<X>, y: X)
    ensures a + [x] == b + [y] <==> a == b && x == y
  {
    if a + [x] == b + [y] {
      assert (a + [x])[|a|] == x && (b + [y])[|b|] == y;
      assert a == (a + [x])[..|a|] && b == (b + [y])[..|b|];
    }
  }

  lemma {:induction false} StepExactly(run: seq<Evaluation>, name: string, k: nat)
    requires k < |run| && NoneLost(run, name, k)
    ensures Lost(run, name, k) <==> Differs(run, name, k)
  {
    FilesRelate(run, name, k);
    if run[k].alarm.name == name {
      OwnStepRelates(run, name, k, Shared(run, k), Private(run, name, k));
    }
  }

  lemma {:induction false} NoneLostMoves(run: seq<Evaluation>, name: string, k: nat)
    requires k < |run|
    ensures NoneLost(run, name, k + 1) <==> NoneLost(run, name, k) && !Lost(run, name, k)
  {
  }

  /** `acts` and `none` stand for the two sides of the equivalence, before and after one evaluation. */
  lemma {:induction false} Chain(acts: bool, none: bool, differs: bool, lost: bool)
    requires (acts <==> none) && (none ==> (lost <==> differs))
    ensures acts && !differs <==> none && !lost
  {
  }

  /** Over any run an alarm gets from the shared file the verdicts of a file of its own exactly when no
      evaluation of it is lost: none that could be measured against its last baseline of the same
      process finds that another process was evaluated in between. */
  lemma {:induction false} SharedFileExactly(run: seq<Evaluation>, name: string, n: nat)
    requires n <= |run|
    ensures ActsPrivate(run, name, n) <==> NoneLost(run, name, n)
  {
    if n == 0 {
      StartsPrivate(run, name);
    } else {
      SharedFileExactly(run, name, n - 1);
      SharedFileMoves(run, name, n - 1);
    }
  }

  lemma {:induction false} StartsPrivate(run: seq<Evaluation>, name: string)
    ensures ActsPrivate(run, name, 0) && NoneLost(run, name, 0)
  {
  }

  lemma {:induction false} SharedFileMoves(run: seq<Evaluation>, name: string, k: nat)
    requires k < |run| && (ActsPrivate(run, name, k) <==> NoneLost(run, name, k))
    ensures ActsPrivate(run, name, k + 1) <==> NoneLost(run, name, k + 1)
  {
    ActsPrivateMoves(run, name, k);
    NoneLostMoves(run, name, k);
    if NoneLost(run, name, k) {
      StepExactly(run, name, k);
    }
    Chain(ActsPrivate(run, name, k), NoneLost(run, name, k), Differs(run, name, k), Lost(run, name, k));
  }

  lemma {:induction false} NothingLost(run: seq<Evaluation>, name: string, n: nat)
    requires n <= |run| && IdentitiesNeverReturn(run)
    ensures NoneLost(run, name, n)
  {
    forall k | 0 <= k < n
      ensures !Lost(run, name, k)
    {
      var b := OwnBaseline(run, name, k);
      if run[k].alarm.name == name && Proceeds(run[k]) && b >= 0 && run[b].env.Process() == run[k].env.Process() {
        NeverInterrupted(run, b, k);
      }
    }
    NoneLostMeans(run, name, n);
  }

  lemma {:induction false} NeverInterrupted(run: seq<Evaluation>, b: nat, k: nat)
    requires b < k < |run| && IdentitiesNeverReturn(run)
    requires Proceeds(run[b]) && Proceeds(run[k]) && run[b].env.Process() == run[k].env.Process()
    ensures !Interrupted(run, b, k)
  {
    ProceedingHasCounters(run[b]);
    ProceedingHasCounters(run[k]);
    assert ShownAt(run, b, run[k].env.Process()) && ShownAt(run, k, run[k].env.Process());
    forall j | b < j < k && Proceeds(run[j])
      ensures run[j].env.Process() == run[b].env.Process()
    {
      ProceedingHasCounters(run[j]);
    }
  }

  /** In particular, while identities never return, every ratio alarm gets from the shared file exactly
      the verdicts it would get from a snapshot file of its own. */
  lemma {:induction false} SharedFileActsPrivate(run: seq<Evaluation>, name: string, n: nat)
    requires n <= |run| && IdentitiesNeverReturn(run)
    ensures ActsPrivate(run, name, n)
  {
    NothingLost(run, name, n);
    SharedFileExactly(run, name, n);
  }

  function SampleEvaluation(name: string, pid: string, count: nat): Evaluation {
    Evaluation(RatioAlarm(name, false, [], {}, false, 0, Above, 0.0, 1),
               Env(pid, "1", -1, 3600, 600, false, false, false, MIN_RATIO_UPTIME, 0, false),
               None, [], Single(Some(count)), Single(Some(count)))
  }

  lemma {:induction false} SampleStarts(file: RatioFile, name: string, pid: string, count: nat)
    requires pid != "" && Known(file, Identity(pid, "1"), name).None?
    ensures RatioStep(file, SampleEvaluation(name, pid, count))
            == (Written(file, Identity(pid, "1"), name, Entry(count, count, 0)), CollectingBaseline)
  {
  }

  lemma {:induction false} SampleFires(file: RatioFile, name: string, pid: string, count: nat)
    requires pid != "" && Known(file, Identity(pid, "1"), name) == Some(Entry(count, count, 0))
    ensures RatioStep(file, SampleEvaluation(name, pid, count + 1)).1 == Firing(Fraction(1, 1), 1, false)
  {
  }

  function SampleRun(): (run: seq<Evaluation>)
    ensures |run| == 3
  {
    [SampleEvaluation("a", "1", 1), SampleEvaluation("b", "2", 1), SampleEvaluation("a", "1", 2)]
  }

  lemma {:induction false} SampleShared()
    ensures Answers(SampleRun(), 3) == [CollectingBaseline, CollectingBaseline, CollectingBaseline]
  {
    var run := SampleRun();
    SampleStarts(NoFile, "a", "1", 1);
    var first := Written(NoFile, Identity("1", "1"), "a", Entry(1, 1, 0));
    SampleStarts(first, "b", "2", 1);
    var second := Written(first, Identity("2", "1"), "b", Entry(1, 1, 0));
    SampleStarts(second, "a", "1", 2);
    assert Shared(run, 0) == NoFile && Shared(run, 1) == first && Shared(run, 2) == second;
    forall k | 0 <= k < 3
      ensures Answers(run, 3)[k] == CollectingBaseline
    {
      VerdictsAt(RatioMachine(), NoFile, run, 3, k);
    }
  }

  lemma {:induction false} SamplePrivate()
    ensures Answers(Own(SampleRun(), "a", 3), 2) == [CollectingBaseline, Firing(Fraction(1, 1), 1, false)]
  {
    var run := SampleRun();
    SampleStarts(NoFile, "a", "1", 1);
    var first := Written(NoFile, Identity("1", "1"), "a", Entry(1, 1, 0));
    SampleFires(first, "a", "1", 1);
    assert Private(run, "a", 0) == NoFile;
    OwnGrows(run, "a", 0);
    OwnGrows(run, "a", 1);
    OwnGrows(run, "a", 2);
  }

  /** The hypothesis is needed: a process that comes back after another one finds its own old
      baseline in a private file, but not in the shared one. */
  lemma {:induction false} ReturningIdentityDiffers()
    ensures var run := SampleRun();
            Kept(Answers(run, 3), OwnMask(run, "a"), 3) == [CollectingBaseline, CollectingBaseline]
            && Answers(Own(run, "a", 3), 2) == [CollectingBaseline, Firing(Fraction(1, 1), 1, false)]
  {
    SampleShared();
    SamplePrivate();
    var run, vs := SampleRun(), Answers(SampleRun(), 3);
    var keep := OwnMask(run, "a");
    assert Kept(vs, keep, 1) == [vs[0]] && Kept(vs, keep, 2) == [vs[0]];
    assert Kept(vs, keep, 3) == [vs[0], vs[2]];
  }
}
