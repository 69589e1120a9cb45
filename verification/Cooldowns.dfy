/** Suppression of alarms that were already reported within their cooldown window. */
module Cooldowns {
  import opened Common
  import opened AlarmTypes
  import opened Runs

  /** What one evaluation passes on: only the metrics family is subject to cooldowns. */
  datatype Report = Report(inMetrics: bool, verdict: Verdict, key: string, seconds: int)
  {
    predicate Eligible() {
      inMetrics && verdict.Firing?
    }
  }

  /** An entry of the cooldown file; either part may be absent in old files. */
  datatype Fired = Fired(lastFired: Option<int>, seconds: Option<int>)

  type CooldownEntries = map<string, Fired>

  /** A report and the time it is made. */
  datatype Item = Item(report: Report, now: int)

  function LastFired(entries: CooldownEntries, key: string): Option<int> {
    if key in entries then entries[key].lastFired else None
  }

  predicate InWindow(entries: CooldownEntries, item: Item) {
    var last := LastFired(entries, item.report.key);
    last.Some? && item.now - last.value < item.report.seconds
  }

  function Suppressed(report: Report, remaining: int): Report
    requires report.verdict.Firing?
  {
    report.(verdict := Cooldown(report.verdict.reading, report.verdict.ticks, report.verdict.postRestart, remaining))
  }

  /** One report through the cooldown file. */
  function CooldownStep(entries: CooldownEntries, item: Item): (CooldownEntries, Report) {
    var report := item.report;
    if !report.Eligible() then (entries, report)
    else if InWindow(entries, item) then
      (entries, Suppressed(report, report.seconds - (item.now - LastFired(entries, report.key).value)))
    else (entries[report.key := Fired(Some(item.now), Some(report.seconds))], report)
  }

  function CooldownMachine(): (CooldownEntries, Item) -> (CooldownEntries, Report) {
    (entries, item) => CooldownStep(entries, item)
  }

  /** The reports of one tick. */
  function Items(reports: seq<Report>, now: int): (items: seq<Item>)
    ensures |items| == |reports|
    ensures forall i :: 0 <= i < |reports| ==> items[i] == Item(reports[i], now)
  {
    seq(|reports|, i requires 0 <= i < |reports| => Item(reports[i], now))
  }

  function EntriesAfter(entries: CooldownEntries, items: seq<Item>, n: nat): CooldownEntries
    requires n <= |items|
  {
    StateAfter(CooldownMachine(), entries, items, n)
  }

  function ReportsOf(entries: CooldownEntries, items: seq<Item>): (reports: seq<Report>)
    ensures |reports| == |items|
  {
    Verdicts(CooldownMachine(), entries, items, |items|)
  }

  lemma {:induction false} ReportIs(entries: CooldownEntries, items: seq<Item>, k: nat)
    requires k < |items|
    ensures var step := CooldownStep(EntriesAfter(entries, items, k), items[k]);
            EntriesAfter(entries, items, k + 1) == step.0 && ReportsOf(entries, items)[k] == step.1
  {
    VerdictsAt(CooldownMachine(), entries, items, |items|, k);
  }

  /** Reports may be put before the file in one go or in two. */
  lemma {:induction false} ReportsContinue(entries: CooldownEntries, before: seq<Item>, items: seq<Item>)
    ensures var reached := EntriesAfter(entries, before, |before|);
            EntriesAfter(entries, before + items, |before + items|) == EntriesAfter(reached, items, |items|)
            && forall k :: 0 <= k < |items| ==>
                 ReportsOf(entries, before + items)[|before| + k] == ReportsOf(reached, items)[k]
  {
    ContinueRun(CooldownMachine(), entries, before, items, |items|);
    forall k | 0 <= k < |items|
      ensures ReportsOf(entries, before + items)[|before| + k]
              == ReportsOf(EntriesAfter(entries, before, |before|), items)[k]
    {
      ContinueRun(CooldownMachine(), entries, before, items, k);
      ReportIs(entries, before + items, |before| + k);
      ReportIs(EntriesAfter(entries, before, |before|), items, k);
      assert (before + items)[|before| + k] == items[k];
    }
  }

  /** The contents of the cooldown file while one tick works on them. */
  class CooldownData {
    var entries: CooldownEntries

    constructor (stored: CooldownEntries)
      ensures entries == stored
    {
      entries := stored;
    }

    /** The reports of one tick, suppressed in place; fresh fires are recorded. */
    method ApplyCooldowns(results: array<Report>, now: int)
      modifies this, results
      ensures entries == EntriesAfter(old(entries), Items(old(results[..]), now), results.Length)
      ensures results[..] == ReportsOf(old(entries), Items(old(results[..]), now))
    {
      ghost var items := Items(results[..], now);
      ghost var before := entries;
      for i := 0 to results.Length
        invariant entries == EntriesAfter(before, items, i)
        invariant forall k :: 0 <= k < i ==> results[k] == ReportsOf(before, items)[k]
        invariant forall k :: i <= k < results.Length ==> results[k] == old(results[k])
      {
        ReportIs(before, items, i);
        var report := results[i];
        if report.inMetrics && report.verdict.Firing? {
          var last := LastFired(entries, report.key);
          if last.Some? && now - last.value < report.seconds {
            results[i] := Suppressed(report, report.seconds - (now - last.value));
          } else {
            entries := entries[report.key := Fired(Some(now), Some(report.seconds))];
          }
        }
      }
    }
  }

  // ----- Whole runs ---------------------------------------------------------------------

  ghost predicate TimeNeverRunsBack(items: seq<Item>) {
    forall i, j :: 0 <= i <= j < |items| ==> items[i].now <= items[j].now
  }

  predicate ReportedFor(reports: seq<Report>, i: nat, key: string)
    requires i < |reports|
  {
    reports[i].inMetrics && reports[i].verdict.Firing? && reports[i].key == key
  }

  /** The last report made for `key` before `n`, or -1. */
  function LastReported(reports: seq<Report>, key: string, n: nat): (a: int)
    requires n <= |reports|
    ensures -1 <= a < n
    ensures a >= 0 ==> ReportedFor(reports, a, key)
    ensures forall i :: a < i < n ==> !ReportedFor(reports, i, key)
  {
    if n == 0 then -1
    else if ReportedFor(reports, n - 1, key) then n - 1
    else LastReported(reports, key, n - 1)
  }

  /** The file always holds the time and window of the last report for a key, and what it held before the
      first one; suppression never moves an entry. */
  lemma {:induction false} FileKnowsLastReport(entries: CooldownEntries, items: seq<Item>, key: string, n: nat)
    requires n <= |items|
    ensures var a, after := LastReported(ReportsOf(entries, items), key, n), EntriesAfter(entries, items, n);
            if a >= 0 then key in after && after[key] == Fired(Some(items[a].now), Some(items[a].report.seconds))
            else (key in after <==> key in entries) && (key in entries ==> after[key] == entries[key])
  {
    if n > 0 {
      FileKnowsLastReport(entries, items, key, n - 1);
      ReportIs(entries, items, n - 1);
    }
  }

  /** An earlier report for the same key lies strictly inside the window. */
  ghost predicate ReportedWithin(items: seq<Item>, reports: seq<Report>, j: nat)
    requires j < |items| == |reports|
  {
    var report := items[j].report;
    exists i :: 0 <= i < j && ReportedFor(reports, i, report.key) && items[j].now - items[i].now < report.seconds
  }

  lemma {:induction false} LastReportDecides(items: seq<Item>, reports: seq<Report>, j: nat)
    requires j < |items| == |reports| && TimeNeverRunsBack(items)
    ensures var a := LastReported(reports, items[j].report.key, j);
            ReportedWithin(items, reports, j) <==> a >= 0 && items[j].now - items[a].now < items[j].report.seconds
  {
    var key := items[j].report.key;
    var a := LastReported(reports, key, j);
    forall i | 0 <= i < j && ReportedFor(reports, i, key)
      ensures i <= a && items[i].now <= items[a].now
    {
    }
  }

  lemma {:induction false} StepDecides(entries: CooldownEntries, item: Item, last: Option<int>)
    requires LastFired(entries, item.report.key) == last
    ensures CooldownStep(entries, item).1
            == if item.report.Eligible() && last.Some? && item.now - last.value < item.report.seconds
               then Suppressed(item.report, item.report.seconds - (item.now - last.value))
               else item.report
  {
  }

  /** The time the window is measured from: the last report of the run, or what was stored before it. */
  function LastKnown(entries: CooldownEntries, items: seq<Item>, key: string, n: nat): Option<int>
    requires n <= |items|
  {
    var a := LastReported(ReportsOf(entries, items), key, n);
    if a >= 0 then Some(items[a].now) else if key in entries then entries[key].lastFired else None
  }

  lemma {:induction false} ReportFollowsLast(entries: CooldownEntries, items: seq<Item>, j: nat)
    requires j < |items|
    ensures var report := items[j].report;
            var last := LastKnown(entries, items, report.key, j);
            ReportsOf(entries, items)[j]
            == if report.Eligible() && last.Some? && items[j].now - last.value < report.seconds
               then Suppressed(report, report.seconds - (items[j].now - last.value))
               else report
  {
    FileKnowsLastReport(entries, items, items[j].report.key, j);
    StepDecides(EntriesAfter(entries, items, j), items[j], LastKnown(entries, items, items[j].report.key, j));
    ReportIs(entries, items, j);
  }

  /** A report of the run lies strictly inside the window, or, without any report for the key yet, the
      stored entry does. */
  ghost predicate WindowHolds(entries: CooldownEntries, items: seq<Item>, j: nat)
    requires j < |items|
  {
    var report, reports := items[j].report, ReportsOf(entries, items);
    ReportedWithin(items, reports, j)
    || (LastReported(reports, report.key, j) == -1
        && report.key in entries && entries[report.key].lastFired.Some?
        && items[j].now - entries[report.key].lastFired.value < report.seconds)
  }

  /** A firing report turned into a cooldown with that many seconds, more than none, left: what it says
      about the alarm and how it is filed stays. */
  predicate CooledDown(report: Report, out: Report, remaining: int)
    requires report.verdict.Firing?
  {
    out.verdict.Cooldown? && out.verdict.remaining == remaining > 0
    && out.verdict.reading == report.verdict.reading && out.verdict.ticks == report.verdict.ticks
    && out.verdict.postRestart == report.verdict.postRestart
    && out.inMetrics == report.inMetrics && out.key == report.key && out.seconds == report.seconds
  }

  /** Whatever the file held, with a clock that does not run back a firing alarm is suppressed exactly
      when an earlier report for its key lies strictly inside its window, or, before the first such
      report, when the stored entry does. The remaining time counts from the last report, or from the
      entry. Everything else passes unchanged. */
  lemma {:induction false} SuppressedExactly(entries: CooldownEntries, items: seq<Item>, j: nat)
    requires j < |items| && TimeNeverRunsBack(items)
    ensures var report := items[j].report;
            var last := LastKnown(entries, items, report.key, j);
            if report.inMetrics && report.verdict.Firing? && WindowHolds(entries, items, j)
            then last.Some?
                 && CooledDown(report, ReportsOf(entries, items)[j], report.seconds - (items[j].now - last.value))
            else ReportsOf(entries, items)[j] == report
  {
    ReportFollowsLast(entries, items, j);
    LastReportDecides(items, ReportsOf(entries, items), j);
  }

  /** Two reports for the same key are at least the later alarm's cooldown apart, whatever the
      file held before. */
  lemma {:induction false} ReportsAreApart(entries: CooldownEntries, items: seq<Item>, key: string, i: nat, j: nat)
    requires i < j < |items| && TimeNeverRunsBack(items)
    requires ReportedFor(ReportsOf(entries, items), i, key) && ReportedFor(ReportsOf(entries, items), j, key)
    ensures items[j].now - items[i].now >= items[j].report.seconds
  {
    var reports := ReportsOf(entries, items);
    FileKnowsLastReport(entries, items, key, j);
    ReportIs(entries, items, j);
    var a := LastReported(reports, key, j);
    assert a >= i;
    assert items[i].now <= items[a].now;
  }
}
