/** What one evaluation tick sees and what an alarm evaluation yields. */
module AlarmTypes {
  import opened Common

  /** The process a scrape was taken from. */
  datatype Identity = Identity(pid: string, startTicks: string)

  /** The environment of one tick, shared by every alarm of the catalog. */
  datatype Env = Env(
    pid: string,
    startTicks: string,
    prevScrapeAge: int,
    gapStaleThreshold: int,
    minEvalWindow: int,
    prevPromInvalid: bool,
    freshStart: bool,
    crashRecovery: bool,
    uptime: int,
    warmupRemaining: int,
    watcher: bool)
  {
    predicate HasIdentity() {
      pid != "" && startTicks != ""
    }

    function Process(): Identity {
      Identity(pid, startTicks)
    }

    /** The baseline spans a gap of the monitoring loop; age -1 means unknown. */
    predicate GapStale() {
      prevScrapeAge >= 0 && prevScrapeAge >= gapStaleThreshold
    }

    /** A duplicate tick: the baseline is younger than the evaluation window. */
    predicate TooFresh() {
      0 <= prevScrapeAge < minEvalWindow
    }
  }

  datatype SkipReason =
    | Exempt
    | WatcherMode
    | Warmup(remaining: int)
    | NotSynced
    | UptimeUnder15m
    | MissingIdentity
    | IntervalTooShort
    | PrevPromInvalid
    | GapStale
    | MetricNotFound
    | NoPreviousData
    | WarmupPrevZero
    | FreshStart
    | LedgerAgeOver30s
    | UptimeUnder10m
    | LabelSetMismatch
    | MissingCounters
    | MissingNumerator
    | NoNumerator
    | MissingDenominator
    | NoDenominator
    | LowVolume(delta: nat, minVolume: int)
    | NumeratorNotFound
    | DenominatorAbsent
    | DenominatorMissing
    | ZeroDenominator

  /** The skips that say nothing about the node and must keep its baselines. */
  predicate PreservesBaseline(reason: SkipReason) {
    reason in {MissingIdentity, IntervalTooShort}
  }

  datatype Reading = Count(n: nat) | Fraction(num: nat, den: nat) | Level(value: real)

  datatype Verdict =
    | Skipped(reason: SkipReason)
    | CollectingBaseline
    | Ok(reading: Reading)
    | Breach(reading: Reading, ticks: nat)
    | Firing(reading: Reading, ticks: nat, postRestart: bool)
    | Cooldown(reading: Reading, ticks: nat, postRestart: bool, remaining: int)
  {
    /** A skip after which the centralized hook must leave the stored state alone. */
    predicate Stutters() {
      Skipped? && PreservesBaseline(reason)
    }

    /** A skip after which the centralized hook resets the stored state. */
    predicate Resets() {
      Skipped? && !PreservesBaseline(reason)
    }
  }

  // ----- Verdicts of a run --------------------------------------------------------------

  /** The last of the first `n` ticks whose verdict was not a preserved skip, or -1. */
  function LastActive(vs: seq<Verdict>, n: nat): (a: int)
    requires n <= |vs|
    ensures -1 <= a < n
  {
    if n == 0 then -1 else if vs[n - 1].Stutters() then LastActive(vs, n - 1) else n - 1
  }

  /** The tick the stored baseline stems from, or -1 without one. */
  function Anchor(vs: seq<Verdict>, n: nat): (a: int)
    requires n <= |vs|
    ensures -1 <= a < n
  {
    var a := LastActive(vs, n);
    if a == -1 || vs[a].Resets() then -1 else a
  }

  // ----- Comparisons --------------------------------------------------------------------

  datatype Op = Above | Below | AtLeast | AtMost | Differs | Equals

  predicate Compare(value: real, op: Op, threshold: real) {
    match op
    case Above => value > threshold
    case Below => value < threshold
    case AtLeast => value >= threshold
    case AtMost => value <= threshold
    case Differs => value != threshold
    case Equals => value == threshold
  }

  /** The six comparisons in terms of one order: each is its own, and the pairs are complements. */
  lemma {:induction false} CompareMeans(value: real, threshold: real)
    ensures Compare(value, AtMost, threshold) <==> value <= threshold
    ensures Compare(value, AtLeast, threshold) <==> Compare(threshold, AtMost, value)
    ensures Compare(value, Above, threshold) <==> !Compare(value, AtMost, threshold)
    ensures Compare(value, Below, threshold) <==> !Compare(value, AtLeast, threshold)
    ensures Compare(value, Equals, threshold) <==>
              Compare(value, AtMost, threshold) && Compare(value, AtLeast, threshold)
    ensures Compare(value, Differs, threshold) <==> !Compare(value, Equals, threshold)
  {
  }

  // ----- Gates --------------------------------------------------------------------------

  datatype Gate = ValidatorOnly | Warmup2Ticks | SyncedOnly | UptimeMin15m

  const SYNCED_UPTIME := 900

  /** Why one gate holds the alarm back, if it does. */
  function GateBlocks(gate: Gate, env: Env): Option<SkipReason> {
    match gate
    case ValidatorOnly => if env.watcher then Some(WatcherMode) else None
    case Warmup2Ticks => if env.warmupRemaining > 0 then Some(Warmup(env.warmupRemaining)) else None
    case SyncedOnly =>
      if env.uptime < SYNCED_UPTIME || env.crashRecovery || env.freshStart then Some(NotSynced) else None
    case UptimeMin15m => if env.uptime < SYNCED_UPTIME then Some(UptimeUnder15m) else None
  }

  /** The reasons the main loop itself gives for not evaluating an alarm. */
  predicate HeldBack(reason: SkipReason) {
    reason.Exempt? || reason.WatcherMode? || reason.Warmup? || reason.NotSynced? || reason.UptimeUnder15m?
  }

  /** Why the alarm is not evaluated at all this tick: it is exempt, or its first closed gate. */
  function Screened(exempt: bool, gates: seq<Gate>, env: Env): (held: Option<SkipReason>)
    ensures held.Some? ==> HeldBack(held.value)
  {
    if exempt then Some(Exempt) else FirstBlocked(gates, env, 0)
  }

  function FirstBlocked(gates: seq<Gate>, env: Env, i: nat): (held: Option<SkipReason>)
    requires i <= |gates|
    ensures held.Some? ==> HeldBack(held.value)
    ensures held.None? <==> forall k :: i <= k < |gates| ==> GateBlocks(gates[k], env).None?
    decreases |gates| - i
  {
    if i == |gates| then None
    else if GateBlocks(gates[i], env).Some? then GateBlocks(gates[i], env)
    else FirstBlocked(gates, env, i + 1)
  }

  /** The alarm is evaluated this tick: it is not exempt, and each gate it lists is open. */
  predicate Open(exempt: bool, gates: seq<Gate>, env: Env) {
    && !exempt
    && (ValidatorOnly in gates ==> !env.watcher)
    && (Warmup2Ticks in gates ==> env.warmupRemaining <= 0)
    && (SyncedOnly in gates ==> env.uptime >= 900 && !env.crashRecovery && !env.freshStart)
    && (UptimeMin15m in gates ==> env.uptime >= 900)
  }

  /** What a reason for holding an alarm back says about it. */
  predicate Justifies(reason: SkipReason, exempt: bool, gates: seq<Gate>, env: Env) {
    match reason
    case Exempt => exempt
    case WatcherMode => !exempt && ValidatorOnly in gates && env.watcher
    case Warmup(remaining) => !exempt && Warmup2Ticks in gates && env.warmupRemaining == remaining > 0
    case NotSynced => !exempt && SyncedOnly in gates && (env.uptime < 900 || env.crashRecovery || env.freshStart)
    case UptimeUnder15m => !exempt && UptimeMin15m in gates && env.uptime < 900
    case _ => false
  }

  lemma {:induction false} FirstBlockedExactly(gates: seq<Gate>, env: Env, i: nat)
    requires i <= |gates|
    ensures var held := FirstBlocked(gates, env, i);
            if held.None? then Open(false, gates[i..], env) else Justifies(held.value, false, gates[i..], env)
    decreases |gates| - i
  {
    if i < |gates| {
      assert gates[i..] == [gates[i]] + gates[i + 1..];
      FirstBlockedExactly(gates, env, i + 1);
    }
  }

  /** An alarm is held back exactly when it is not open, and then for a reason that is true. */
  lemma {:induction false} ScreenedExactly(exempt: bool, gates: seq<Gate>, env: Env)
    ensures var held := Screened(exempt, gates, env);
            (held.None? <==> Open(exempt, gates, env))
            && (held.Some? ==> Justifies(held.value, exempt, gates, env))
  {
    FirstBlockedExactly(gates, env, 0);
    assert gates[0..] == gates;
    var held := Screened(exempt, gates, env);
    if held.Some? && !exempt {
      assert Justifies(held.value, false, gates, env);
    }
  }

  /** The gates in catalog order: all must be open, and the first closed one gives the reason. */
  method GatesPass(gates: seq<Gate>, env: Env) returns (passed: bool, reason: Option<SkipReason>)
    ensures passed <==> forall k :: 0 <= k < |gates| ==> GateBlocks(gates[k], env).None?
    ensures passed <==> Open(false, gates, env)
    ensures passed ==> reason.None?
    ensures !passed ==> exists k :: 0 <= k < |gates| && reason == GateBlocks(gates[k], env)
                                    && reason.Some?
                                    && forall j :: 0 <= j < k ==> GateBlocks(gates[j], env).None?
    ensures reason == FirstBlocked(gates, env, 0)
  {
    ScreenedExactly(false, gates, env);
    for i := 0 to |gates|
      invariant forall k :: 0 <= k < i ==> GateBlocks(gates[k], env).None?
      invariant FirstBlocked(gates, env, 0) == FirstBlocked(gates, env, i)
    {
      reason := GateBlocks(gates[i], env);
      if reason.Some? {
        return false, reason;
      }
    }
    return true, None;
  }
}
