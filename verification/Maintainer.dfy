/**
 Database maintenance: retention thresholds, eviction of stale publish queue entries, and
 deletion in small chunks with bounded retry.
 */
module Maintainer {
  import opened Common

  const MAINTENANCE_CHUNK_LEDGERS: nat := 2
  const MAINTENANCE_DELETE_MAX_ATTEMPTS: nat := 3
  const MAX_PUBLISH_QUEUE_CHECKPOINT_DISTANCE: nat := 30

  function Min(a: nat, b: nat): nat {
    if a <= b then a else b
  }

  function SaturatingSub(a: nat, b: nat): nat {
    if a <= b then 0 else a - b
  }

  // ----- Tables -------------------------------------------------------------------------

  /** The rows one delete call covers for one ledger. */
  datatype LedgerRows = LedgerRows(ledger: nat, rows: nat)

  /** A table in ledger order. */
  type Table = seq<LedgerRows>

  ghost predicate IsTable(t: Table) {
    (forall i, j :: 0 <= i < j < |t| ==> t[i].ledger < t[j].ledger)
    && (forall i :: 0 <= i < |t| ==> t[i].rows > 0)
  }

  /** First position from `i` whose ledger is above `maxLedger`. */
  function EligibleFrom(t: Table, i: nat, maxLedger: nat): (end: nat)
    requires i <= |t|
    ensures i <= end <= |t|
    ensures forall k :: i <= k < end ==> t[k].ledger <= maxLedger
    ensures end < |t| ==> t[end].ledger > maxLedger
    decreases |t| - i
  {
    if i < |t| && t[i].ledger <= maxLedger then EligibleFrom(t, i + 1, maxLedger) else i
  }

  /** Number of ledgers at or below `maxLedger`. */
  function Eligible(t: Table, maxLedger: nat): (n: nat)
    ensures n <= |t|
  {
    EligibleFrom(t, 0, maxLedger)
  }

  /** Position of the oldest row left after deleting the `count` oldest eligible ledgers from
      position `from` on. */
  function Advance(eligible: nat, from: nat, count: nat): nat {
    from + Min(count, SaturatingSub(eligible, from))
  }

  function RowsFrom(t: Table, i: nat): nat
    requires i <= |t|
    decreases |t| - i
  {
    if i == |t| then 0 else t[i].rows + RowsFrom(t, i + 1)
  }

  lemma {:induction false} RowsDrop(t: Table, i: nat, k: nat)
    requires i <= k <= |t| && IsTable(t)
    ensures RowsFrom(t, k) <= RowsFrom(t, i)
    ensures RowsFrom(t, k) == RowsFrom(t, i) <==> k == i
    decreases k - i
  {
    if i < k {
      RowsDrop(t, i + 1, k);
    }
  }

  lemma {:induction false} EligibleCovers(t: Table, maxLedger: nat)
    requires IsTable(t)
    ensures forall k :: 0 <= k < |t| ==> (k < Eligible(t, maxLedger) <==> t[k].ledger <= maxLedger)
  {
    var n := Eligible(t, maxLedger);
    forall k | n <= k < |t|
      ensures t[k].ledger > maxLedger
    {
      assert n < k ==> t[n].ledger < t[k].ledger;
    }
  }

  // ----- Deletion calls -----------------------------------------------------------------

  /** What the database does with one call. */
  datatype Fault = Fine | Busy | Fatal

  /** The outcome of each call in turn; calls past the end succeed. */
  type Script = seq<Fault>

  function FaultAt(faults: Script, call: nat): Fault {
    if call < |faults| then faults[call] else Fine
  }

  datatype DeleteResult = Deleted(rows: nat) | Failed(fault: Fault)

  /** Ledger `l` has rows from position `i` on. */
  ghost predicate HasFrom(t: Table, i: nat, l: nat) {
    exists k :: i <= k < |t| && t[k].ledger == l
  }

  /** A table in ledger order and the delete calls made on it. Only oldest ledgers are ever
      deleted, so what is left is `ledgers` from position `oldest` on. Each call is atomic: it
      removes the oldest distinct ledgers at or below the threshold, or fails and removes nothing. */
  class MaintainedTable {
    const ledgers: Table
    const faults: Script
    var oldest: nat
    var calls: nat

    ghost predicate Valid()
      reads this
    {
      IsTable(ledgers) && oldest <= |ledgers|
    }

    /** The table still has the rows of ledger `l`. */
    ghost predicate Has(l: nat)
      reads this
    {
      HasFrom(ledgers, oldest, l)
    }

    function RowCount(): nat
      requires Valid()
      reads this
    {
      RowsFrom(ledgers, oldest)
    }

    constructor (ledgers: Table, faults: Script)
      requires IsTable(ledgers)
      ensures Valid() && this.ledgers == ledgers && this.faults == faults && oldest == 0 && calls == 0
    {
      this.ledgers, this.faults, oldest, calls := ledgers, faults, 0, 0;
    }

    method DeleteChunk(maxLedger: nat, count: nat) returns (r: DeleteResult)
      requires Valid() && count > 0
      modifies this
      ensures Valid() && calls == old(calls) + 1
      ensures FaultAt(faults, old(calls)) != Fine ==>
                r == Failed(FaultAt(faults, old(calls))) && oldest == old(oldest)
      ensures FaultAt(faults, old(calls)) == Fine ==>
                r.Deleted? && oldest == Advance(Eligible(ledgers, maxLedger), old(oldest), count)
                && r.rows + RowCount() == old(RowCount())
                && (r.rows == 0 <==> oldest == old(oldest))
    {
      var fault := FaultAt(faults, calls);
      calls := calls + 1;
      if fault != Fine {
        return Failed(fault);
      }
      var next := Advance(Eligible(ledgers, maxLedger), oldest, count);
      RowsDrop(ledgers, oldest, next);
      r := Deleted(RowsFrom(ledgers, oldest) - RowsFrom(ledgers, next));
      oldest := next;
    }

    /** One chunk: a busy database is tried again, any other failure ends the chunk at once. */
    method DeleteWithRetry(maxLedger: nat, chunk: nat) returns (outcome: DeleteResult)
      requires Valid() && chunk > 0
      modifies this
      ensures Valid()
      // One to three calls; all but the last were busy, and only the third busy one is given up on.
      ensures 1 <= calls - old(calls) <= 3
      ensures forall k :: old(calls) <= k < calls - 1 ==> FaultAt(faults, k) == Busy
      ensures FaultAt(faults, calls - 1) == Busy ==> calls == old(calls) + 3
      ensures if FaultAt(faults, calls - 1) == Fine then outcome.Deleted?
              else outcome == Failed(FaultAt(faults, calls - 1))
      ensures outcome.Failed? ==> oldest == old(oldest)
      ensures outcome.Deleted? ==>
                oldest == Advance(Eligible(ledgers, maxLedger), old(oldest), chunk)
                && outcome.rows + RowCount() == old(RowCount())
                && (outcome.rows == 0 <==> oldest == old(oldest))
    {
      outcome := Deleted(0);
      var attempts: nat := 0;
      while attempts < MAINTENANCE_DELETE_MAX_ATTEMPTS
        invariant attempts <= MAINTENANCE_DELETE_MAX_ATTEMPTS
        invariant Valid() && oldest == old(oldest) && calls == old(calls) + attempts
        invariant attempts > 0 ==> outcome == Failed(Busy)
        invariant forall k :: old(calls) <= k < calls ==> FaultAt(faults, k) == Busy
      {
        attempts := attempts + 1;
        outcome := DeleteChunk(maxLedger, chunk);
        if outcome != Failed(Busy) {
          break;
        }
      }
    }

    /** `requested` ledgers and `made` calls after starting from position `from` and call `start`,
        the deletion is on its way to `goal`. */
    ghost predicate OnTheWay(maxLedger: nat, goal: Trim, from: nat, start: nat, requested: nat, made: nat,
                             remaining: nat)
      reads this
    {
      var end := Eligible(ledgers, maxLedger);
      oldest == Advance(end, from, requested) && calls == start + made
      && OnSchedule(faults, goal, SaturatingSub(end, from), requested, made, start + made, remaining)
    }

    ghost predicate Arrived(maxLedger: nat, goal: Trim, from: nat, start: nat)
      reads this
    {
      oldest == Advance(Eligible(ledgers, maxLedger), from, goal.requested) && calls == start + goal.calls
    }

    /** One chunk with its retries. No rows removed, or an error, ends the deletion. */
    method DeleteNextChunk(maxLedger: nat, remaining: nat, ghost goal: Trim, ghost from: nat, ghost start: nat,
                           ghost requested: nat, ghost made: nat)
      returns (chunk: nat, rows: nat, ghost used: nat)
      requires Valid() && remaining > 0 && OnTheWay(maxLedger, goal, from, start, requested, made, remaining)
      modifies this
      ensures Valid() && 0 < chunk <= remaining
      ensures rows + RowCount() == old(RowCount())
      ensures if rows == 0 then Arrived(maxLedger, goal, from, start)
              else OnTheWay(maxLedger, goal, from, start, requested + chunk, made + used, remaining - chunk)
    {
      chunk := Min(remaining, MAINTENANCE_CHUNK_LEDGERS);
      used := Attempt(faults, calls, MAINTENANCE_DELETE_MAX_ATTEMPTS).used;
      ghost var end := Eligible(ledgers, maxLedger);
      AdvanceFurther(end, from, requested, chunk);
      var outcome := DeleteWithRetry(maxLedger, chunk);
      AttemptMeans(faults, old(calls), MAINTENANCE_DELETE_MAX_ATTEMPTS);
      rows := if outcome.Deleted? then outcome.rows else 0;
      if rows == 0 {
        LastChunk(faults, goal, SaturatingSub(end, from), requested, made, start + made, remaining);
      } else {
        NextChunk(faults, goal, SaturatingSub(end, from), requested, made, start + made, remaining, used);
      }
    }

    /** Runs the chunked deletion; returns the number of rows removed. */
    method DeleteInChunks(maxLedger: nat, totalBudget: nat) returns (totalRows: nat)
      requires Valid()
      modifies this
      ensures Valid()
      ensures var eligible := Eligible(ledgers, maxLedger);
              var trim := Chunks(faults, old(calls), totalBudget, SaturatingSub(eligible, old(oldest)));
              oldest == Advance(eligible, old(oldest), trim.requested) && calls == old(calls) + trim.calls
      ensures totalRows + RowCount() == old(RowCount())
    {
      var remaining: nat := totalBudget;
      totalRows := 0;
      ghost var requested: nat, made: nat, from: nat, start: nat := 0, 0, oldest, calls;
      ghost var goal := Chunks(faults, start, totalBudget, SaturatingSub(Eligible(ledgers, maxLedger), from));
      while remaining > 0
        invariant Valid() && OnTheWay(maxLedger, goal, from, start, requested, made, remaining)
        invariant totalRows + RowCount() == old(RowCount())
      {
        var chunk, rows;
        ghost var used;
        chunk, rows, used := DeleteNextChunk(maxLedger, remaining, goal, from, start, requested, made);
        if rows == 0 {
          return;
        }
        totalRows := totalRows + rows;
        remaining := remaining - chunk;
        requested, made := requested + chunk, made + used;
      }
    }
  }

  /** With `requested` ledgers and `made` calls behind it, the rest of the schedule leads to `goal`. */
  predicate OnSchedule(faults: Script, goal: Trim, eligible: nat, requested: nat, made: nat, pos: nat,
                       remaining: nat) {
    goal == Chunks(faults, pos, remaining, SaturatingSub(eligible, requested)).After(requested, made)
  }

  /** Two advances in a row, and when the second one stands still. */
  lemma {:induction false} AdvanceFurther(eligible: nat, from: nat, requested: nat, chunk: nat)
    requires chunk > 0
    ensures var reached := Advance(eligible, from, requested);
            Advance(eligible, reached, chunk) == Advance(eligible, from, requested + chunk)
            && (Advance(eligible, reached, chunk) == reached <==> SaturatingSub(eligible, from) <= requested)
  {
  }

  lemma {:induction false} LastChunk(faults: Script, goal: Trim, eligible: nat, requested: nat, made: nat, pos: nat,
                                     remaining: nat)
    requires remaining > 0 && OnSchedule(faults, goal, eligible, requested, made, pos, remaining)
    requires Attempt(faults, pos, MAINTENANCE_DELETE_MAX_ATTEMPTS).fault != Fine || eligible <= requested
    ensures goal == Trim(requested, made + Attempt(faults, pos, MAINTENANCE_DELETE_MAX_ATTEMPTS).used)
  {
  }

  lemma {:induction false} NextChunk(faults: Script, goal: Trim, eligible: nat, requested: nat, made: nat, pos: nat,
                                     remaining: nat, used: nat)
    requires remaining > 0 && OnSchedule(faults, goal, eligible, requested, made, pos, remaining)
    requires Attempt(faults, pos, MAINTENANCE_DELETE_MAX_ATTEMPTS) == Tried(Fine, used) && eligible > requested
    ensures var chunk := Min(remaining, MAINTENANCE_CHUNK_LEDGERS);
            OnSchedule(faults, goal, eligible, requested + chunk, made + used, pos + used, remaining - chunk)
  {
    var chunk := Min(remaining, MAINTENANCE_CHUNK_LEDGERS);
    assert SaturatingSub(SaturatingSub(eligible, requested), chunk) == SaturatingSub(eligible, requested + chunk);
  }

  // ----- The retry and chunk schedule -----------------------------------------------------

  datatype Tried = Tried(fault: Fault, used: nat)

  /** The result of up to `tries` attempts from call `pos`: only a busy call is tried again. */
  function Attempt(faults: Script, pos: nat, tries: nat): (r: Tried)
    requires tries > 0
    ensures 1 <= r.used <= tries
    decreases tries, pos
  {
    if FaultAt(faults, pos) != Busy || tries == 1 then Tried(FaultAt(faults, pos), 1)
    else Retried(1, Attempt(faults, pos + 1, tries - 1))
  }

  function Retried(earlier: nat, later: Tried): Tried {
    later.(used := later.used + earlier)
  }

  /** The attempts end at the first call that is not busy, or with the last one allowed. */
  lemma {:induction false} AttemptMeans(faults: Script, pos: nat, tries: nat)
    requires tries > 0
    ensures var tried := Attempt(faults, pos, tries);
            && tried.fault == FaultAt(faults, pos + tried.used - 1)
            && (forall k :: pos <= k < pos + tried.used - 1 ==> FaultAt(faults, k) == Busy)
            && (tried.fault == Busy ==> tried.used == tries)
    decreases tries
  {
    if FaultAt(faults, pos) == Busy && tries > 1 {
      AttemptMeans(faults, pos + 1, tries - 1);
    }
  }

  /** Ledgers requested per table by the chunks that removed rows, and calls made. */
  datatype Trim = Trim(requested: nat, calls: nat) {
    function After(earlierRequested: nat, earlierCalls: nat): Trim {
      Trim(earlierRequested + requested, earlierCalls + calls)
    }
  }

  function Chunks(faults: Script, pos: nat, remaining: nat, eligible: nat): Trim
    decreases remaining
  {
    if remaining == 0 then Trim(0, 0)
    else
      var chunk := Min(remaining, MAINTENANCE_CHUNK_LEDGERS);
      var tried := Attempt(faults, pos, MAINTENANCE_DELETE_MAX_ATTEMPTS);
      if tried.fault != Fine || eligible == 0 then Trim(0, tried.used)
      else
        var rest := Chunks(faults, pos + tried.used, remaining - chunk, SaturatingSub(eligible, chunk));
        Trim(chunk + rest.requested, tried.used + rest.calls)
  }

  /** The next `chunks` chunks each succeed: at the first call, or after one or two busy ones. */
  predicate ChunksSucceed(faults: Script, pos: nat, chunks: nat)
    decreases chunks
  {
    chunks == 0
    || (if FaultAt(faults, pos) == Fine then ChunksSucceed(faults, pos + 1, chunks - 1)
        else FaultAt(faults, pos) == Busy
             && if FaultAt(faults, pos + 1) == Fine then ChunksSucceed(faults, pos + 2, chunks - 1)
                else FaultAt(faults, pos + 1) == Busy && FaultAt(faults, pos + 2) == Fine
                     && ChunksSucceed(faults, pos + 3, chunks - 1))
  }

  /** One chunk of the schedule in terms of single attempts. */
  lemma {:induction false} ChunkSucceeds(faults: Script, pos: nat, chunks: nat)
    requires chunks > 0
    ensures var tried := Attempt(faults, pos, MAINTENANCE_DELETE_MAX_ATTEMPTS);
            ChunksSucceed(faults, pos, chunks)
            <==> tried.fault == Fine && ChunksSucceed(faults, pos + tried.used, chunks - 1)
  {
    var tried := Attempt(faults, pos, MAINTENANCE_DELETE_MAX_ATTEMPTS);
    AttemptMeans(faults, pos, MAINTENANCE_DELETE_MAX_ATTEMPTS);
    assert FaultAt(faults, pos + tried.used - 1) == tried.fault;
    assert tried.used > 1 ==> FaultAt(faults, pos) == Busy;
    assert tried.used > 2 ==> FaultAt(faults, pos + 1) == Busy;
  }

  /** Never more than the budget is asked for, nor more than the eligible ledgers and a rest of one chunk;
      and at most one chunk is tried after they are gone. */
  lemma {:induction false} ChunksWithinBudget(faults: Script, pos: nat, remaining: nat, eligible: nat)
    ensures var trim := Chunks(faults, pos, remaining, eligible);
            && trim.requested <= remaining && trim.requested <= eligible + 1
            && trim.calls <= 3 * ((remaining + 1) / 2) && trim.calls <= 3 * ((eligible + 1) / 2 + 1)
    decreases remaining
  {
    if remaining > 0 {
      var chunk := Min(remaining, MAINTENANCE_CHUNK_LEDGERS);
      var tried := Attempt(faults, pos, MAINTENANCE_DELETE_MAX_ATTEMPTS);
      if tried.fault == Fine && eligible > 0 {
        ChunksWithinBudget(faults, pos + tried.used, remaining - chunk, SaturatingSub(eligible, chunk));
      }
    }
  }

  /** How far the chunks get: `n` of the eligible ledgers within budget are asked for exactly when the
      first ceil(n/2) chunks succeed. */
  lemma {:induction false} ChunksReach(faults: Script, pos: nat, remaining: nat, eligible: nat, n: nat)
    requires n <= Min(remaining, eligible)
    ensures Chunks(faults, pos, remaining, eligible).requested >= n <==> ChunksSucceed(faults, pos, (n + 1) / 2)
    decreases remaining
  {
    if n > 0 {
      var chunk := Min(remaining, MAINTENANCE_CHUNK_LEDGERS);
      var tried := Attempt(faults, pos, MAINTENANCE_DELETE_MAX_ATTEMPTS);
      ChunkSucceeds(faults, pos, (n + 1) / 2);
      if tried.fault == Fine {
        ChunksReach(faults, pos + tried.used, remaining - chunk, SaturatingSub(eligible, chunk),
                    SaturatingSub(n, chunk));
      }
    }
  }

  /** Chunked deletion refines one bulk deletion: it removes the oldest min(budget, eligible) ledgers
      when the chunks succeed, and otherwise the prefix of them covered by those that do. */
  lemma {:induction false} ChunksRefineBulk(eligible: nat, from: nat, faults: Script, pos: nat, budget: nat)
    ensures var left := SaturatingSub(eligible, from);
            var chunked := Advance(eligible, from, Chunks(faults, pos, budget, left).requested);
            var bulk := Advance(eligible, from, budget);
            && from <= chunked <= bulk
            && (chunked == bulk <==> ChunksSucceed(faults, pos, (Min(budget, left) + 1) / 2))
            && forall chunks: nat :: chunks <= (Min(budget, left) + 1) / 2 ==>
                 (ChunksSucceed(faults, pos, chunks) <==> chunked >= from + Min(2 * chunks, Min(budget, left)))
  {
    var left := SaturatingSub(eligible, from);
    ChunksWithinBudget(faults, pos, budget, left);
    forall chunks: nat | chunks <= (Min(budget, left) + 1) / 2
      ensures ChunksSucceed(faults, pos, chunks)
              <==> Chunks(faults, pos, budget, left).requested >= Min(2 * chunks, Min(budget, left))
    {
      var n := Min(2 * chunks, Min(budget, left));
      ChunksReach(faults, pos, budget, left, n);
      assert (n + 1) / 2 == chunks;
    }
  }

  lemma {:induction false} FineChunksSucceed(faults: Script, pos: nat, chunks: nat)
    requires forall call :: call >= pos ==> FaultAt(faults, call) == Fine
    ensures ChunksSucceed(faults, pos, chunks)
    decreases chunks
  {
    if chunks > 0 {
      assert FaultAt(faults, pos) == Fine;
      FineChunksSucceed(faults, pos + 1, chunks - 1);
    }
  }

  // ----- The publish queue ----------------------------------------------------------------

  ghost predicate Ascending(q: seq<nat>) {
    forall i, j :: 0 <= i < j < |q| ==> q[i] < q[j]
  }

  /** Position of the first queued checkpoint, from `i`, at or above `threshold`. */
  function FirstKept(q: seq<nat>, i: nat, threshold: nat): (k: nat)
    requires i <= |q|
    ensures i <= k <= |q|
    ensures forall j :: i <= j < k ==> q[j] < threshold
    ensures k < |q| ==> q[k] >= threshold
    decreases |q| - i
  {
    if i < |q| && q[i] < threshold then FirstKept(q, i + 1, threshold) else i
  }

  /** Queued checkpoint ledgers waiting for publication, in ascending order. */
  class PublishQueue {
    var checkpoints: seq<nat>
    const evictionFails: bool
    const readFails: bool

    ghost predicate Valid()
      reads this
    {
      Ascending(checkpoints)
    }

    constructor (checkpoints: seq<nat>, evictionFails: bool, readFails: bool)
      requires Ascending(checkpoints)
      ensures Valid() && this.checkpoints == checkpoints
      ensures this.evictionFails == evictionFails && this.readFails == readFails
    {
      this.checkpoints, this.evictionFails, this.readFails := checkpoints, evictionFails, readFails;
    }

    /** Removes the entries strictly below `threshold`. */
    method RemoveBelow(threshold: nat) returns (removed: Option<nat>)
      requires Valid()
      modifies this
      ensures Valid()
      ensures evictionFails ==> removed == None && checkpoints == old(checkpoints)
      ensures !evictionFails ==>
                var k := FirstKept(old(checkpoints), 0, threshold);
                removed == Some(k) && checkpoints == old(checkpoints)[k..]
    {
      if evictionFails {
        return None;
      }
      var k := FirstKept(checkpoints, 0, threshold);
      checkpoints := checkpoints[k..];
      removed := Some(k);
    }

    /** The oldest entry, if any; `None` outside means the read failed. */
    method LoadOldest() returns (r: Option<Option<nat>>)
      requires Valid()
      ensures r == if readFails then None else Some(Oldest(checkpoints))
    {
      r := if readFails then None else Some(Oldest(checkpoints));
    }
  }

  function Oldest(q: seq<nat>): Option<nat> {
    if q == [] then None else Some(q[0])
  }

  // ----- Thresholds -----------------------------------------------------------------------

  /** The oldest queued checkpoint maintenance has to respect. */
  function QueueMinimum(lcl: nat, minQueued: Option<nat>): nat {
    match minQueued
    case None => lcl
    case Some(q) => Min(q, lcl)
  }

  function PublishThreshold(lcl: nat, frequency: nat, minQueued: Option<nat>): nat {
    SaturatingSub(QueueMinimum(lcl, minQueued), frequency)
  }

  function SharedThreshold(lcl: nat, frequency: nat, minQueued: Option<nat>, rpcWindow: Option<nat>): nat {
    var publish := PublishThreshold(lcl, frequency, minQueued);
    match rpcWindow
    case None => publish
    case Some(w) => Min(publish, SaturatingSub(lcl, w))
  }

  /** Ledger 0, or a ledger more than a checkpoint before both the last closed and the oldest queued one. */
  predicate PublishedBy(lcl: nat, frequency: nat, minQueued: Option<nat>, l: nat) {
    l == 0 || (l + frequency <= lcl && (minQueued.Some? ==> l + frequency <= minQueued.value))
  }

  predicate OutsideWindow(lcl: nat, rpcWindow: Option<nat>, l: nat) {
    rpcWindow.Some? ==> l == 0 || l + rpcWindow.value <= lcl
  }

  /** Which ledgers each threshold admits. */
  lemma {:induction false} ThresholdsExactly(lcl: nat, frequency: nat, minQueued: Option<nat>, rpcWindow: Option<nat>,
                                             l: nat)
    ensures l <= PublishThreshold(lcl, frequency, minQueued) <==> PublishedBy(lcl, frequency, minQueued, l)
    ensures l <= SharedThreshold(lcl, frequency, minQueued, rpcWindow) <==>
              PublishedBy(lcl, frequency, minQueued, l) && OutsideWindow(lcl, rpcWindow, l)
    ensures l <= StalenessThreshold(lcl, frequency) <==> l == 0 || l + 30 * frequency <= lcl
  {
  }

  /** Entries below this are abandoned. */
  function StalenessThreshold(lcl: nat, frequency: nat): nat {
    SaturatingSub(lcl, MAX_PUBLISH_QUEUE_CHECKPOINT_DISTANCE * frequency)
  }

  /** No queued checkpoint is older than `minQueued`. */
  ghost predicate Covers(minQueued: Option<nat>, queue: seq<nat>) {
    match minQueued
    case None => queue == []
    case Some(m) => forall q :: q in queue ==> m <= q
  }

  /** The ledgers that publishing checkpoint `q` needs, ledger 0 left aside. */
  predicate NeededBy(q: nat, frequency: nat, l: nat) {
    0 < l && q - frequency < l <= q
  }

  class Database {
    const queue: PublishQueue
    const scp: MaintainedTable
    const headers: MaintainedTable
    const txHistory: MaintainedTable
    const events: MaintainedTable
    const closeMeta: MaintainedTable

    ghost predicate Valid()
      reads this, queue, scp, headers, txHistory, events, closeMeta
    {
      && queue.Valid() && scp.Valid() && headers.Valid() && txHistory.Valid() && events.Valid() && closeMeta.Valid()
      && scp != headers && scp != txHistory && scp != events && scp != closeMeta
      && headers != txHistory && headers != events && headers != closeMeta
      && txHistory != events && txHistory != closeMeta && events != closeMeta
    }

    constructor (queue: PublishQueue, scp: MaintainedTable, headers: MaintainedTable, txHistory: MaintainedTable,
                 events: MaintainedTable, closeMeta: MaintainedTable)
      ensures this.queue == queue && this.scp == scp && this.headers == headers && this.txHistory == txHistory
      ensures this.events == events && this.closeMeta == closeMeta
    {
      this.queue, this.scp, this.headers, this.txHistory := queue, scp, headers, txHistory;
      this.events, this.closeMeta := events, closeMeta;
    }

    /** Evicts stale entries and says which minimum the thresholds may use. Fails closed. */
    method EvictStale(lcl: nat, frequency: nat, minQueued: Option<nat>) returns (effective: Option<nat>)
      requires Valid()
      modifies queue
      ensures Valid()
      ensures Covers(minQueued, old(queue.checkpoints)) ==> Covers(effective, queue.checkpoints)
      ensures forall q :: q in queue.checkpoints ==> q in old(queue.checkpoints)
      ensures forall q :: q in old(queue.checkpoints) && q >= StalenessThreshold(lcl, frequency) ==>
                q in queue.checkpoints
      ensures minQueued == Oldest(old(queue.checkpoints)) && !queue.evictionFails ==>
                QueueMinimum(lcl, effective) >= StalenessThreshold(lcl, frequency)
                && forall q :: q in queue.checkpoints ==> q >= StalenessThreshold(lcl, frequency)
      ensures queue.evictionFails ==> effective == minQueued && queue.checkpoints == old(queue.checkpoints)
      ensures minQueued == Oldest(old(queue.checkpoints)) && !queue.evictionFails && !queue.readFails ==>
                effective == Oldest(queue.checkpoints)
                || (queue.checkpoints == [] && effective == Some(StalenessThreshold(lcl, frequency)))
    {
      if minQueued.None? {
        return None;
      }
      var origMin := minQueued.value;
      var staleness := StalenessThreshold(lcl, frequency);
      if staleness > 0 && origMin < staleness {
        var removed := queue.RemoveBelow(staleness);
        match removed {
          case None =>
            effective := minQueued;
          case Some(0) =>
            effective := minQueued;
          case Some(_) =>
            var reread := queue.LoadOldest();
            match reread {
              case None => effective := Some(staleness);
              case Some(None) => effective := Some(staleness);
              case Some(Some(q)) => effective := Some(q);
            }
        }
      } else {
        effective := minQueued;
      }
    }

    /** Chunked deletion of one table, its row count left aside. */
    static method Trim(t: MaintainedTable, threshold: nat, count: nat)
      requires t.Valid()
      modifies t
      ensures t.Valid() && TrimmedTo(t, threshold, count)
      ensures KeepsAbove(t, threshold)
    {
      var _ := t.DeleteInChunks(threshold, count);
      TrimKeeps(t.ledgers, old(t.oldest), t.oldest, threshold);
    }

    /** The tables of one pass: the RPC tables only when their retention is configured. */
    method TrimTables(publish: nat, shared: nat, rpc: Option<nat>, count: nat)
      requires Valid()
      modifies scp, headers, txHistory, events, closeMeta
      ensures Valid()
      ensures TrimmedTo(scp, publish, count) && KeepsAbove(scp, publish)
      ensures TrimmedTo(headers, shared, count) && KeepsAbove(headers, shared)
      ensures TrimmedTo(txHistory, shared, count) && KeepsAbove(txHistory, shared)
      ensures rpc.Some? ==>
                TrimmedTo(events, rpc.value, count) && KeepsAbove(events, rpc.value)
                && TrimmedTo(closeMeta, rpc.value, count) && KeepsAbove(closeMeta, rpc.value)
      ensures rpc.None? ==>
                events.oldest == old(events.oldest) && closeMeta.oldest == old(closeMeta.oldest)
    {
      Trim(scp, publish, count);
      Trim(headers, shared, count);
      Trim(txHistory, shared, count);
      if rpc.Some? {
        Trim(events, rpc.value, count);
        Trim(closeMeta, rpc.value, count);
      }
    }

    /** Trims every table to its threshold for a minimum already decided on. */
    method TrimByThresholds(lcl: nat, frequency: nat, used: Option<nat>, rpcWindow: Option<nat>, count: nat)
      requires Valid()
      modifies scp, headers, txHistory, events, closeMeta
      ensures Valid()
      ensures TrimmedTo(scp, PublishThreshold(lcl, frequency, used), count)
      ensures TrimmedTo(headers, SharedThreshold(lcl, frequency, used, rpcWindow), count)
      ensures TrimmedTo(txHistory, SharedThreshold(lcl, frequency, used, rpcWindow), count)
      ensures rpcWindow.Some? ==>
                TrimmedTo(events, SaturatingSub(lcl, rpcWindow.value), count)
                && TrimmedTo(closeMeta, SaturatingSub(lcl, rpcWindow.value), count)
      ensures rpcWindow.None? ==>
                events.oldest == old(events.oldest) && closeMeta.oldest == old(closeMeta.oldest)
      ensures used.Some? ==>
                forall q: nat, l :: used.value <= q && NeededBy(q, frequency, l) ==>
                  Keeps(scp, l) && Keeps(headers, l) && Keeps(txHistory, l)
      ensures rpcWindow.Some? ==>
                forall l :: 0 < l && lcl - rpcWindow.value < l ==>
                  Keeps(headers, l) && Keeps(txHistory, l) && Keeps(events, l) && Keeps(closeMeta, l)
    {
      var publish := PublishThreshold(lcl, frequency, used);
      var shared := SharedThreshold(lcl, frequency, used, rpcWindow);
      TrimTables(publish, shared, if rpcWindow.Some? then Some(SaturatingSub(lcl, rpcWindow.value)) else None, count);
      QueuedLedgersAboveThresholds(lcl, frequency, used, rpcWindow);
    }

    /** One maintenance pass. */
    method RunMaintenance(lcl: nat, minQueued: Option<nat>, rpcWindow: Option<nat>, count: nat, frequency: nat)
      returns (ghost effective: Option<nat>)
      requires Valid()
      modifies queue, scp, headers, txHistory, events, closeMeta
      ensures Valid()
      ensures Covers(minQueued, old(queue.checkpoints)) ==> Covers(effective, queue.checkpoints)
      ensures minQueued == Oldest(old(queue.checkpoints)) && !queue.evictionFails ==>
                QueueMinimum(lcl, effective) >= StalenessThreshold(lcl, frequency)
      // When eviction does not fail the publish threshold trails by at most 31 checkpoint intervals.
      ensures minQueued == Oldest(old(queue.checkpoints)) && !queue.evictionFails ==>
                PublishThreshold(lcl, frequency, effective) >= lcl - 31 * frequency
      ensures TrimmedTo(scp, PublishThreshold(lcl, frequency, effective), count)
      ensures TrimmedTo(headers, SharedThreshold(lcl, frequency, effective, rpcWindow), count)
      ensures TrimmedTo(txHistory, SharedThreshold(lcl, frequency, effective, rpcWindow), count)
      ensures rpcWindow.Some? ==>
                TrimmedTo(events, SaturatingSub(lcl, rpcWindow.value), count)
                && TrimmedTo(closeMeta, SaturatingSub(lcl, rpcWindow.value), count)
      ensures rpcWindow.None? ==>
                events.oldest == old(events.oldest) && closeMeta.oldest == old(closeMeta.oldest)
      // Publication is safe, whatever failed: the ledgers of every checkpoint still queued are kept.
      ensures Covers(minQueued, old(queue.checkpoints)) ==>
                forall q, l :: q in queue.checkpoints && NeededBy(q, frequency, l) ==>
                  Keeps(scp, l) && Keeps(headers, l) && Keeps(txHistory, l)
      // RPC retention is safe: the window up to the last closed ledger is kept.
      ensures rpcWindow.Some? ==>
                forall l :: 0 < l && lcl - rpcWindow.value < l ==>
                  Keeps(headers, l) && Keeps(txHistory, l) && Keeps(events, l) && Keeps(closeMeta, l)
    {
      var used := EvictStale(lcl, frequency, minQueued);
      effective := used;
      LagUnlessStale(lcl, frequency, used);
      TrimByThresholds(lcl, frequency, used, rpcWindow, count);
    }
  }

  /** Position of the oldest row left by one chunked deletion. */
  function Trimmed(t: Table, faults: Script, from: nat, pos: nat, threshold: nat, count: nat): nat {
    var eligible := Eligible(t, threshold);
    Advance(eligible, from, Chunks(faults, pos, count, SaturatingSub(eligible, from)).requested)
  }

  /** The table has been through one chunked deletion with this threshold. */
  twostate predicate TrimmedTo(t: MaintainedTable, threshold: nat, count: nat)
    reads t
  {
    t.oldest == Trimmed(t.ledgers, t.faults, old(t.oldest), old(t.calls), threshold, count)
  }

  /** The table has kept the rows it had for ledger `l`. */
  twostate predicate Keeps(t: MaintainedTable, l: nat)
    reads t
  {
    old(t.Has(l)) ==> t.Has(l)
  }

  twostate predicate KeepsAbove(t: MaintainedTable, threshold: nat)
    reads t
  {
    forall l :: l > threshold ==> Keeps(t, l)
  }

  /** No further call fails, and the budget covers the table. */
  ghost predicate Unhindered(t: Table, faults: Script, from: nat, pos: nat, count: nat) {
    from + count >= |t| && forall call: nat :: call >= pos ==> FaultAt(faults, call) == Fine
  }

  /** An unhindered trim leaves nothing at or below its threshold. */
  lemma {:induction false} TrimClears(t: Table, faults: Script, from: nat, pos: nat, threshold: nat, count: nat)
    requires IsTable(t) && Unhindered(t, faults, from, pos, count)
    ensures forall l: nat :: l <= threshold ==> !HasFrom(t, Trimmed(t, faults, from, pos, threshold, count), l)
  {
    EligibleCovers(t, threshold);
    var left := SaturatingSub(Eligible(t, threshold), from);
    FineChunksSucceed(faults, pos, (Min(count, left) + 1) / 2);
    ChunksRefineBulk(Eligible(t, threshold), from, faults, pos, count);
  }

  /** Retention ends: an unhindered trim to the shared threshold removes every ledger that neither
      publishing nor the RPC window needs, and one to the publish threshold all that publishing does not. */
  lemma {:induction false} UnneededLedgersGo(t: Table, faults: Script, from: nat, pos: nat, count: nat, lcl: nat,
                                             frequency: nat, minQueued: Option<nat>, rpcWindow: Option<nat>, l: nat)
    requires IsTable(t) && Unhindered(t, faults, from, pos, count) && PublishedBy(lcl, frequency, minQueued, l)
    ensures !HasFrom(t, Trimmed(t, faults, from, pos, PublishThreshold(lcl, frequency, minQueued), count), l)
    ensures var shared := SharedThreshold(lcl, frequency, minQueued, rpcWindow);
            OutsideWindow(lcl, rpcWindow, l) ==> !HasFrom(t, Trimmed(t, faults, from, pos, shared, count), l)
  {
    ThresholdsExactly(lcl, frequency, minQueued, rpcWindow, l);
    TrimClears(t, faults, from, pos, PublishThreshold(lcl, frequency, minQueued), count);
    TrimClears(t, faults, from, pos, SharedThreshold(lcl, frequency, minQueued, rpcWindow), count);
  }

  /** A trim never touches a ledger above its threshold. */
  lemma {:induction false} TrimKeeps(t: Table, from: nat, to: nat, threshold: nat)
    requires IsTable(t) && (to <= from || to <= Eligible(t, threshold))
    ensures forall l :: l > threshold && HasFrom(t, from, l) ==> HasFrom(t, to, l)
  {
    EligibleCovers(t, threshold);
    forall l | l > threshold && HasFrom(t, from, l)
      ensures HasFrom(t, to, l)
    {
      var k :| from <= k < |t| && t[k].ledger == l;
      assert k >= Eligible(t, threshold);
    }
  }

  /** The ledgers a queued checkpoint needs lie above both publish thresholds. Ledger 0 is the
      one exception: a saturated threshold of 0 still allows it to be deleted. */
  lemma {:induction false} PublishLedgersAboveThresholds(lcl: nat, frequency: nat, effective: Option<nat>,
                                                         rpcWindow: Option<nat>, q: nat, l: nat)
    requires effective.Some? && effective.value <= q && q - frequency < l
    ensures l > PublishThreshold(lcl, frequency, effective) <==> l > 0
    ensures l > SharedThreshold(lcl, frequency, effective, rpcWindow) <==> l > 0
  {
  }

  lemma {:induction false} QueuedLedgersAboveThresholds(lcl: nat, frequency: nat, effective: Option<nat>,
                                                        rpcWindow: Option<nat>)
    ensures effective.Some? ==>
              forall q: nat, l: nat :: effective.value <= q && NeededBy(q, frequency, l) ==>
                l > PublishThreshold(lcl, frequency, effective)
                && l > SharedThreshold(lcl, frequency, effective, rpcWindow)
  {
  }

  /** When eviction does not fail, the publish threshold trails the last closed ledger by at
      most 31 checkpoint intervals. */
  lemma {:induction false} PublishThresholdLag(lcl: nat, frequency: nat, effective: Option<nat>)
    requires QueueMinimum(lcl, effective) >= StalenessThreshold(lcl, frequency)
    ensures PublishThreshold(lcl, frequency, effective) >= lcl - 31 * frequency
  {
  }

  lemma {:induction false} LagUnlessStale(lcl: nat, frequency: nat, effective: Option<nat>)
    ensures QueueMinimum(lcl, effective) >= StalenessThreshold(lcl, frequency) ==>
              PublishThreshold(lcl, frequency, effective) >= lcl - 31 * frequency
  {
    if QueueMinimum(lcl, effective) >= StalenessThreshold(lcl, frequency) {
      PublishThresholdLag(lcl, frequency, effective);
    }
  }
}
