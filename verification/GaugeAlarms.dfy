/** Gauge and gauge-ratio alarms and their persistence counter. */
module GaugeAlarms {
  import opened Common
  import opened AlarmTypes
  import opened Runs

  datatype GaugeGuard = GaugeGuard(op: Op, threshold: real)

  datatype GaugeAlarm = GaugeAlarm(
    exempt: bool,
    gates: seq<Gate>,
    op: Op,
    threshold: real,
    guard: Option<GaugeGuard>,
    absentDenominatorSkips: bool,
    forTicks: int)

  /** What the scrape shows: one metric, with its guard metric, or the two sides of a ratio. */
  datatype GaugeSource =
    | Metric(value: Option<real>, guardValue: Option<real>)
    | Quotient(numerator: Option<real>, denominator: Option<real>)

  datatype GaugeTick = GaugeTick(env: Env, source: GaugeSource)

  /** The value the threshold applies to, or why there is none. */
  function Observe(alarm: GaugeAlarm, source: GaugeSource): Result<real, SkipReason> {
    match source
    case Metric(value, _) => if value.None? then Err(MetricNotFound) else Result.Ok(value.value)
    case Quotient(num, den) =>
      if num.None? then Err(NumeratorNotFound)
      else if den.None? then Err(if alarm.absentDenominatorSkips then DenominatorAbsent else DenominatorMissing)
      else if den.value == 0.0 then Err(ZeroDenominator)
      else Result.Ok(num.value / den.value)
  }

  /** An unmet guard, or one whose metric is missing, keeps the tick from breaching. */
  predicate GuardHolds(alarm: GaugeAlarm, source: GaugeSource) {
    match source
    case Metric(_, guardValue) =>
      alarm.guard.Some? ==>
        guardValue.Some? && Compare(guardValue.value, alarm.guard.value.op, alarm.guard.value.threshold)
    case Quotient(_, _) => true
  }

  predicate Breaching(alarm: GaugeAlarm, source: GaugeSource) {
    Observe(alarm, source).Ok?
    && Compare(Observe(alarm, source).value, alarm.op, alarm.threshold)
    && GuardHolds(alarm, source)
  }

  /** The persistence counter and the verdict; the counter is only used by persistent alarms. */
  function EvalGauge(alarm: GaugeAlarm, count: nat, tick: GaugeTick): (nat, Verdict) {
    var observed := Observe(alarm, tick.source);
    if observed.Err? then (count, Skipped(observed.error))
    else
      var reading, breaching := Level(observed.value), Breaching(alarm, tick.source);
      if alarm.forTicks <= 1 then (count, if breaching then Firing(reading, 1, false) else Verdict.Ok(reading))
      else if !breaching then (0, Verdict.Ok(reading))
      else if tick.env.prevPromInvalid then (1, Breach(reading, 1))
      else
        (count + 1,
         if count + 1 >= alarm.forTicks then Firing(reading, count + 1, false) else Breach(reading, count + 1))
  }

  /** Any skip breaks the chain of a persistent alarm. */
  function AfterHook(alarm: GaugeAlarm, count: nat, verdict: Verdict): nat {
    if verdict.Skipped? && alarm.forTicks > 1 then 0 else count
  }

  function GaugeStep(alarm: GaugeAlarm, count: nat, tick: GaugeTick): (nat, Verdict) {
    var held := Screened(alarm.exempt, alarm.gates, tick.env);
    var next := if held.Some? then (count, Skipped(held.value)) else EvalGauge(alarm, count, tick);
    (AfterHook(alarm, next.0, next.1), next.1)
  }

  function GaugeMachine(alarm: GaugeAlarm): (nat, GaugeTick) -> (nat, Verdict) {
    (count, tick) => GaugeStep(alarm, count, tick)
  }

  // ----- Whole runs ---------------------------------------------------------------------

  /** The persistence counter after the first `n` ticks. */
  function Persisted(alarm: GaugeAlarm, ticks: seq<GaugeTick>, n: nat): nat
    requires n <= |ticks|
  {
    var none: nat := 0;
    StateAfter(GaugeMachine(alarm), none, ticks, n)
  }

  function VerdictOf(alarm: GaugeAlarm, ticks: seq<GaugeTick>, k: nat): Verdict
    requires k < |ticks|
  {
    var none: nat := 0;
    VerdictAt(GaugeMachine(alarm), none, ticks, k)
  }

  /** The alarm is open and what it looks at is beyond its threshold: a metric that is there, together with
      its guard metric if it has a guard, or the quotient of two metrics that are there. */
  predicate BreachesAt(alarm: GaugeAlarm, tick: GaugeTick) {
    Open(alarm.exempt, alarm.gates, tick.env)
    && match tick.source
       case Metric(value, guardValue) =>
         value.Some? && Compare(value.value, alarm.op, alarm.threshold)
         && (alarm.guard.Some? ==>
             guardValue.Some? && Compare(guardValue.value, alarm.guard.value.op, alarm.guard.value.threshold))
       case Quotient(num, den) =>
         num.Some? && den.Some? && den.value != 0.0
         && Compare(num.value / den.value, alarm.op, alarm.threshold)
  }

  /** The `m` ticks before `n` all breach, and each but the first has a valid predecessor. */
  ghost predicate BreachWindow(alarm: GaugeAlarm, ticks: seq<GaugeTick>, m: nat, n: nat)
    requires n <= |ticks|
  {
    m <= n
    && (forall i :: n - m <= i < n ==> BreachesAt(alarm, ticks[i]))
    && (forall i :: n - m < i < n ==> !ticks[i].env.prevPromInvalid)
  }

  lemma {:induction false} GaugeStepCounts(alarm: GaugeAlarm, count: nat, tick: GaugeTick)
    requires alarm.forTicks > 1
    ensures GaugeStep(alarm, count, tick).0
            == if !BreachesAt(alarm, tick) then 0 else if tick.env.prevPromInvalid then 1 else count + 1
    ensures GaugeStep(alarm, count, tick).1.Firing? <==>
            BreachesAt(alarm, tick) && !tick.env.prevPromInvalid && count + 1 >= alarm.forTicks
  {
    ScreenedExactly(alarm.exempt, alarm.gates, tick.env);
  }

  lemma {:induction false} WindowGrows(alarm: GaugeAlarm, ticks: seq<GaugeTick>, m: nat, n: nat)
    requires 0 < m && 0 < n <= |ticks|
    ensures BreachWindow(alarm, ticks, m, n) <==>
            BreachesAt(alarm, ticks[n - 1])
            && (m == 1 || (BreachWindow(alarm, ticks, m - 1, n - 1) && !ticks[n - 1].env.prevPromInvalid))
  {
    if BreachWindow(alarm, ticks, m, n) && m > 1 {
      assert n - m < n - 1 < n;
    }
  }

  /** The persistence counter reaches `m` exactly when the last `m` ticks form such a window. */
  lemma {:induction false} CounterMeasuresWindow(alarm: GaugeAlarm, ticks: seq<GaugeTick>, m: nat, n: nat)
    requires alarm.forTicks > 1 && 0 < m && n <= |ticks|
    ensures Persisted(alarm, ticks, n) >= m <==> BreachWindow(alarm, ticks, m, n)
  {
    if n > 0 {
      GaugeStepCounts(alarm, Persisted(alarm, ticks, n - 1), ticks[n - 1]);
      WindowGrows(alarm, ticks, m, n);
      if m > 1 {
        CounterMeasuresWindow(alarm, ticks, m - 1, n - 1);
      }
    }
  }

  /** A persistent gauge fires exactly when its last `forTicks` ticks were all evaluated and
      breached, and the previous scrape was valid for each of them but the first. */
  lemma {:induction false} GaugeFiresOnFullWindow(alarm: GaugeAlarm, ticks: seq<GaugeTick>, k: nat)
    requires alarm.forTicks > 1 && k < |ticks|
    ensures VerdictOf(alarm, ticks, k).Firing? <==> BreachWindow(alarm, ticks, alarm.forTicks, k + 1)
    ensures VerdictOf(alarm, ticks, k).Firing? ==>
              VerdictOf(alarm, ticks, k).ticks == Persisted(alarm, ticks, k + 1)
  {
    var count := Persisted(alarm, ticks, k);
    GaugeStepCounts(alarm, count, ticks[k]);
    CounterMeasuresWindow(alarm, ticks, alarm.forTicks - 1, k);
    WindowGrows(alarm, ticks, alarm.forTicks, k + 1);
  }

  /** A gauge without persistence fires exactly on the ticks that breach. */
  lemma {:induction false} GaugeFiresAtOnce(alarm: GaugeAlarm, ticks: seq<GaugeTick>, k: nat)
    requires alarm.forTicks <= 1 && k < |ticks|
    ensures VerdictOf(alarm, ticks, k).Firing? <==> BreachesAt(alarm, ticks[k])
  {
    ScreenedExactly(alarm.exempt, alarm.gates, ticks[k].env);
  }
}
