/**
 * Whole runs of the job ledger: what every reachable ledger looks like, how often the sweep can
 * requeue a step that keeps crashing, and why a queue of crashing steps empties.
 */
module JobRuns {
  import opened Runs
  import opened Ordering
  import opened JobLedger

  datatype Event =
    | Enqueue(pair: Pair, id: nat, correlationId: string, now: int)
    | Claim(now: int)
    | Complete(id: nat, now: int)
    | Fail(id: nat, text: string, now: int)
    | Sweep(ids: seq<nat>, now: int)

  /** `None` where the statement throws, or where a uuid would repeat. `reason` is the sweep's own text. */
  ghost function Step(reason: string, rows: seq<Job>, e: Event): Option<seq<Job>> {
    match e
    case Enqueue(pair, id, correlationId, now) =>
      if NewId(rows, id) then Some(Enqueued(rows, pair, id, correlationId, now)) else None
    case Claim(now) => Some(Claimed(rows, now))
    case Complete(id, now) =>
      if NewId(rows, id) then None else Some(Finished(rows, id, Succeeded, None, now))
    case Fail(id, text, now) =>
      if NewId(rows, id) then None else Some(Finished(rows, id, Failed, Some(Slice(text)), now))
    case Sweep(ids, now) =>
      if |Abandoned(rows)| <= |ids| && NewIds(rows, ids) then Some(Swept(rows, Abandoned(rows), reason, ids, now))
      else None
  }

  ghost function Steps(reason: string): (seq<Job>, Event) -> Option<seq<Job>> {
    (rows, e) => Step(reason, rows, e)
  }

  lemma StepKeepsValid(reason: string, rows: seq<Job>, e: Event)
    requires Valid(rows) && Step(reason, rows, e).Some?
    ensures Valid(Step(reason, rows, e).value)
  {
    match e
    case Enqueue(pair, id, correlationId, now) => EnqueueKeepsValid(rows, pair, id, correlationId, now);
    case Claim(now) =>
      if Claimed(rows, now) != rows {
        var i := ClaimTakesTheOldest(rows, now);
      }
    case Complete(id, now) => FinishKeepsValid(rows, id, Succeeded, None, now);
    case Fail(id, text, now) => FinishKeepsValid(rows, id, Failed, Some(Slice(text)), now);
    case Sweep(ids, now) => SweepLeavesNothingRunning(rows, reason, ids, now);
  }

  lemma {:induction false} RunKeepsValid(reason: string, rows: seq<Job>, events: seq<Event>)
    requires Valid(rows) && Run(Steps(reason), rows, events).Some?
    ensures Valid(Run(Steps(reason), rows, events).value)
    decreases |events|
  {
    if events != [] {
      StepKeepsValid(reason, rows, events[0]);
      RunKeepsValid(reason, Step(reason, rows, events[0]).value, events[1..]);
    }
  }

  /**
   * In every ledger the statements can reach, whatever row each one names: ids differ, a pair's
   * attempts are 1, 2, 3, ... in the order they were queued, and only its latest may be unfinished.
   */
  lemma ReachableLedger(reason: string, events: seq<Event>, i: nat)
    requires Run(Steps(reason), [], events).Some?
    requires i < |Run(Steps(reason), [], events).value|
    ensures var rows := Run(Steps(reason), [], events).value;
            && rows[i].attempt == |History(rows[..i], rows[i].pair)| + 1
            && rows[i].attempt <= |History(rows, rows[i].pair)| == MaxAttempt(rows, rows[i].pair)
            && (Unfinished(rows[i]) ==> rows[i].attempt == MaxAttempt(rows, rows[i].pair))
            && (forall j :: 0 <= j < |rows| && j != i ==> rows[j].id != rows[i].id)
            && (forall j :: 0 <= j < i && rows[j].pair == rows[i].pair ==>
                  rows[j].attempt < rows[i].attempt && !Unfinished(rows[j]))
            // On the columns alone.
            && rows[i].attempt >= 1
            && (forall a :: 1 <= a < rows[i].attempt ==> HasAttempt(rows[..i], rows[i].pair, a))
            && (rows[i].status == Pending || rows[i].status == Running ==>
                  forall j :: 0 <= j < |rows| && j != i && rows[j].pair == rows[i].pair ==>
                    j < i && rows[j].attempt < rows[i].attempt && (rows[j].status == Succeeded || rows[j].status == Failed))
  {
    RunKeepsValid(reason, [], events);
    var rows := Run(Steps(reason), [], events).value;
    HistoryAt(rows, i);
    assert HistoryOk(History(rows, rows[i].pair));
    MaxAttemptIsLength(rows, rows[i].pair);
    forall j | 0 <= j < i && rows[j].pair == rows[i].pair
      ensures rows[j].attempt < rows[i].attempt && !Unfinished(rows[j])
    {
      EarlierOfThePair(rows, j, i);
    }
    forall a: int | 1 <= a < rows[i].attempt
      ensures HasAttempt(rows[..i], rows[i].pair, a)
    {
      EarlierAttempt(rows, i, a);
    }
    if Unfinished(rows[i]) {
      forall j | i < j < |rows|
        ensures rows[j].pair != rows[i].pair
      {
        if rows[j].pair == rows[i].pair {
          EarlierOfThePair(rows, i, j);
        }
      }
    }
  }

  ghost predicate HasAttempt(rows: seq<Job>, pair: Pair, attempt: int) {
    exists j :: 0 <= j < |rows| && rows[j].pair == pair && rows[j].attempt == attempt
  }

  lemma EarlierOfThePair(rows: seq<Job>, j: nat, i: nat)
    requires Valid(rows) && j < i < |rows| && rows[j].pair == rows[i].pair
    ensures rows[j].attempt < rows[i].attempt && !Unfinished(rows[j])
  {
    var h := History(rows, rows[i].pair);
    assert HistoryOk(h);
    HistoryAt(rows, i);
    HistoryAt(rows, j);
    assert rows[..i][..j] == rows[..j] && rows[..i][j] == rows[j];
    HistoryAt(rows[..i], j);
  }

  lemma EarlierAttempt(rows: seq<Job>, i: nat, a: nat)
    requires Valid(rows) && i < |rows| && 1 <= a < rows[i].attempt
    ensures HasAttempt(rows[..i], rows[i].pair, a)
  {
    var pair := rows[i].pair;
    var h := History(rows, pair);
    assert HistoryOk(h);
    HistoryAt(rows, i);
    var j := HistoryIsRows(rows, pair, a - 1);
    if j > i {
      EarlierOfThePair(rows, i, j);
    }
    assert rows[..i][j] == rows[j];
  }

  // -------------------------------------------------------------------------------------------
  // How often the sweep requeues
  // -------------------------------------------------------------------------------------------

  /** Only the worker that claimed a row finishes it, and it does not write the sweep's text. */
  ghost predicate WorkerOnly(reason: string, rows: seq<Job>, e: Event) {
    match e
    case Complete(id, now) => exists i :: 0 <= i < |rows| && rows[i].id == id && rows[i].status == Running
    case Fail(id, text, now) =>
      && (exists i :: 0 <= i < |rows| && rows[i].id == id && rows[i].status == Running)
      && !StartsWith(text, reason)
    case _ => true
  }

  ghost predicate Disciplined(reason: string, rows: seq<Job>, events: seq<Event>)
    decreases |events|
  {
    events != [] ==>
      && WorkerOnly(reason, rows, events[0])
      && (Step(reason, rows, events[0]).Some? ==>
            Disciplined(reason, Step(reason, rows, events[0]).value, events[1..]))
  }

  /** The rows of a pair that the sweeps of a run inserted. */
  ghost function Requeued(reason: string, rows: seq<Job>, events: seq<Event>, pair: Pair): int
    decreases |events|
  {
    if events == [] || Step(reason, rows, events[0]).None? then 0
    else
      var next := Step(reason, rows, events[0]).value;
      (if events[0].Sweep? then |History(next, pair)| - |History(rows, pair)| else 0)
      + Requeued(reason, next, events[1..], pair)
  }

  /** The finished rows of a history that ended any other way than by the sweep. */
  ghost function EndedOtherwise(h: seq<Job>, reason: string): nat {
    if h == [] then 0
    else
      var last := h[|h| - 1];
      EndedOtherwise(h[..|h| - 1], reason) + if Unfinished(last) || SweepFailed(last, reason) then 0 else 1
  }

  ghost function Credit(h: seq<Job>, reason: string): nat {
    2 * EndedOtherwise(h, reason) + Min(2, CrashTail(h, reason))
  }

  /** Replacing the last entry, or adding one, as far as the credit can tell. */
  lemma CreditOfLast(h: seq<Job>, job: Job, reason: string)
    ensures Unfinished(job) ==>
              CrashTail(h + [job], reason) == CrashTail(h, reason) && Credit(h + [job], reason) == Credit(h, reason)
    ensures SweepFailed(job, reason) ==>
              Credit(h + [job], reason) == 2 * EndedOtherwise(h, reason) + Min(2, CrashTail(h, reason) + 1)
    ensures !Unfinished(job) && !SweepFailed(job, reason) ==>
              Credit(h + [job], reason) == 2 * EndedOtherwise(h, reason) + 2
  {
    assert (h + [job])[..|h|] == h;
  }

  lemma SweepErrorStartsWithReason(rows: seq<Job>, row: Job, reason: string)
    ensures |reason| <= MAX_JOB_ERROR_LENGTH ==> StartsWith(SweepError(rows, row, reason), reason)
    ensures |SweepError(rows, row, reason)| <= MAX_JOB_ERROR_LENGTH
  {
    hide ConsecutiveSweepFailures;
  }

  /** Failing a pair's unfinished row and queueing at most one new one, seen in the histories. */
  lemma HistoryOfSwept(rows: seq<Job>, i: nat, job: Job, extra: seq<Job>, pair: Pair)
    requires Valid(rows) && i < |rows| && Unfinished(rows[i]) && !Unfinished(job)
    requires job.id == rows[i].id && job.pair == rows[i].pair && job.attempt == rows[i].attempt
    requires |extra| <= 1 && forall k :: 0 <= k < |extra| ==> extra[k].pair == job.pair
    ensures var h := History(rows, pair);
            && (pair != job.pair ==> History(rows[i := job] + extra, pair) == h)
            && (pair == job.pair ==>
                  && h != [] && h == h[..|h| - 1] + [rows[i]]
                  && History(rows[i := job] + extra, pair) == h[..|h| - 1] + [job] + extra)
  {
    hide *;
    var failed := rows[i := job];
    if pair == job.pair {
      FailedIsFound(rows, i, job);
    } else {
      HistoryUpdate(rows, i, job, pair);
    }
    if extra == [] {
      assert failed + extra == failed;
    } else {
      assert extra == [extra[0]];
      HistoryAppend(failed, extra[0], pair);
    }
  }

  /** The row a sweep queues after `rows[i]`, if it queues one. */
  ghost function Requeue(rows: seq<Job>, i: nat, reason: string, id: nat, now: int): seq<Job>
    requires i < |rows|
  {
    var row := rows[i];
    if CrashTail(History(rows, row.pair), reason) >= 2 then []
    else [NewRow(rows[i := SweepFailedRow(rows, row, reason, now)], row.pair, id, row.correlationId, now)]
  }

  lemma SweptOneParts(rows: seq<Job>, i: nat, reason: string, id: nat, now: int)
    requires Valid(rows) && i < |rows| && rows[i].status == Running && NewId(rows, id)
    ensures var job := SweepFailedRow(rows, rows[i], reason, now);
            var extra := Requeue(rows, i, reason, id, now);
            && SweptOne(rows, rows[i], reason, id, now) == rows[i := job] + extra
            && job.id == rows[i].id && job.pair == rows[i].pair && job.attempt == rows[i].attempt
            && job.status == Failed && (|reason| <= MAX_JOB_ERROR_LENGTH ==> SweepFailed(job, reason))
            && |extra| == (if CrashTail(History(rows, job.pair), reason) >= 2 then 0 else 1)
            && (forall k :: 0 <= k < |extra| ==> extra[k].pair == job.pair && extra[k].status == Pending)
  {
    hide CapText, HistoryOk;
    SweptOneEffect(rows, i, reason, id, now);
    SweepErrorStartsWithReason(rows, rows[i], reason);
  }

  /** One swept row pays for the row it queues. */
  lemma SweptOneCredit(rows: seq<Job>, i: nat, reason: string, id: nat, now: int, pair: Pair)
    requires Valid(rows) && i < |rows| && rows[i].status == Running && NewId(rows, id)
    requires |reason| <= MAX_JOB_ERROR_LENGTH
    ensures var after := SweptOne(rows, rows[i], reason, id, now);
            Credit(History(after, pair), reason) - Credit(History(rows, pair), reason)
            >= |History(after, pair)| - |History(rows, pair)|
  {
    hide SweptOne, SweepFailedRow, Requeue, Valid, History, CrashTail, EndedOtherwise;
    var job := SweepFailedRow(rows, rows[i], reason, now);
    var extra := Requeue(rows, i, reason, id, now);
    SweptOneParts(rows, i, reason, id, now);
    HistoryOfSwept(rows, i, job, extra, pair);
    if pair == rows[i].pair {
      var h := History(rows, pair);
      var earlier := h[..|h| - 1];
      CreditOfLast(earlier, rows[i], reason);
      CreditOfLast(earlier, job, reason);
      if extra != [] {
        assert extra == [extra[0]];
        CreditOfLast(earlier + [job], extra[0], reason);
      } else {
        assert earlier + [job] + extra == earlier + [job];
      }
    }
  }

  lemma {:induction false} SweptCredit(rows: seq<Job>, k: nat, reason: string, ids: seq<nat>, now: int, pair: Pair)
    requires Valid(rows) && k <= |Abandoned(rows)| <= |ids| && NewIds(rows, ids)
    requires |reason| <= MAX_JOB_ERROR_LENGTH
    ensures var after := Swept(rows, Abandoned(rows)[..k], reason, ids, now);
            Credit(History(after, pair), reason) - Credit(History(rows, pair), reason)
            >= |History(after, pair)| - |History(rows, pair)|
    decreases k
  {
    hide SweptOne, Valid, History, Credit;
    if k > 0 {
      var list := Abandoned(rows);
      SweptCredit(rows, k - 1, reason, ids, now, pair);
      SweepReaches(rows, k - 1, reason, ids, now);
      assert list[..k][..k - 1] == list[..k - 1];
      var mid := Swept(rows, list[..k - 1], reason, ids, now);
      var i := AbandonedRow(rows, k - 1);
      assert mid[i] == rows[i];
      SweptOneCredit(mid, i, reason, ids[k - 1], now, pair);
    }
  }

  /** An in-place change to a pair's unfinished row. */
  lemma UnfinishedUpdateCredit(rows: seq<Job>, i: nat, job: Job, reason: string, pair: Pair)
    requires Valid(rows) && i < |rows| && Unfinished(rows[i])
    requires job.pair == rows[i].pair && (Unfinished(job) || !SweepFailed(job, reason))
    ensures Credit(History(rows[i := job], pair), reason) >= Credit(History(rows, pair), reason)
  {
    HistoryUpdate(rows, i, job, pair);
    if pair == job.pair {
      UnfinishedIsFound(rows, i);
      HistoryAt(rows, i);
      var h := History(rows, pair);
      var earlier := h[..|h| - 1];
      assert h == earlier + [rows[i]];
      assert h[|h| - 1 := job] == earlier + [job];
      CreditOfLast(earlier, rows[i], reason);
      CreditOfLast(earlier, job, reason);
    }
  }

  lemma StepCredit(reason: string, rows: seq<Job>, e: Event, pair: Pair)
    requires Valid(rows) && Step(reason, rows, e).Some? && WorkerOnly(reason, rows, e)
    requires |reason| <= MAX_JOB_ERROR_LENGTH
    ensures var next := Step(reason, rows, e).value;
            Credit(History(next, pair), reason) - Credit(History(rows, pair), reason)
            >= if e.Sweep? then |History(next, pair)| - |History(rows, pair)| else 0
  {
    hide Credit, History, HistoryOk, NewIds;
    match e
    case Enqueue(p, id, correlationId, now) =>
      var next := Enqueued(rows, p, id, correlationId, now);
      if next != rows {
        HistoryAppend(rows, next[|rows|], pair);
        CreditOfLast(History(rows, pair), next[|rows|], reason);
        assert History(rows, pair) + [] == History(rows, pair);
      }
    case Claim(now) =>
      if Claimed(rows, now) != rows {
        var i := ClaimTakesTheOldest(rows, now);
        UnfinishedUpdateCredit(rows, i, rows[i].(status := Running, startedAt := Some(now)), reason, pair);
      }
    case Complete(id, now) =>
      var i :| 0 <= i < |rows| && rows[i].id == id && rows[i].status == Running;
      FinishedAt(rows, id, Succeeded, None, now, i);
      UnfinishedUpdateCredit(rows, i, rows[i].(status := Succeeded, error := None, finishedAt := Some(now)), reason, pair);
    case Fail(id, text, now) =>
      var i :| 0 <= i < |rows| && rows[i].id == id && rows[i].status == Running;
      FinishedAt(rows, id, Failed, Some(Slice(text)), now, i);
      UnfinishedUpdateCredit(rows, i, rows[i].(status := Failed, error := Some(Slice(text)), finishedAt := Some(now)), reason, pair);
    case Sweep(ids, now) =>
      var n := |Abandoned(rows)|;
      SweptCredit(rows, n, reason, ids, now, pair);
      assert Abandoned(rows)[..n] == Abandoned(rows);
  }

  lemma {:induction false} RequeuedWithinCredit(reason: string, rows: seq<Job>, events: seq<Event>, pair: Pair)
    requires Valid(rows) && Run(Steps(reason), rows, events).Some? && Disciplined(reason, rows, events)
    requires |reason| <= MAX_JOB_ERROR_LENGTH
    ensures Requeued(reason, rows, events, pair)
            <= Credit(History(Run(Steps(reason), rows, events).value, pair), reason) - Credit(History(rows, pair), reason)
    decreases |events|
  {
    if events != [] {
      var next := Step(reason, rows, events[0]).value;
      StepKeepsValid(reason, rows, events[0]);
      StepCredit(reason, rows, events[0], pair);
      RequeuedWithinCredit(reason, next, events[1..], pair);
    }
  }

  /**
   * Crash loops stop: over any run the sweeps insert, for one step of one recording, at most two
   * rows more than twice that pair's rows that ended some other way.
   */
  lemma SweepRequeuesAreBounded(reason: string, events: seq<Event>, pair: Pair)
    requires Run(Steps(reason), [], events).Some? && Disciplined(reason, [], events)
    requires |reason| <= MAX_JOB_ERROR_LENGTH
    ensures Requeued(reason, [], events, pair)
            <= 2 * (1 + EndedOtherwise(History(Run(Steps(reason), [], events).value, pair), reason))
  {
    RequeuedWithinCredit(reason, [], events, pair);
  }

  // -------------------------------------------------------------------------------------------
  // A reason too long for the column
  // -------------------------------------------------------------------------------------------

  ghost predicate ErrorsFit(rows: seq<Job>) {
    forall i :: 0 <= i < |rows| && rows[i].error.Some? ==> |rows[i].error.value| <= MAX_JOB_ERROR_LENGTH
  }

  lemma SweptOneErrorsFit(rows: seq<Job>, row: Job, reason: string, id: nat, now: int)
    requires ErrorsFit(rows)
    ensures ErrorsFit(SweptOne(rows, row, reason, id, now))
  {
    hide CapText, ConsecutiveSweepFailures;
  }

  lemma {:induction false} SweptErrorsFit(rows: seq<Job>, k: nat, reason: string, ids: seq<nat>, now: int)
    requires ErrorsFit(rows) && k <= |Abandoned(rows)| <= |ids|
    ensures ErrorsFit(Swept(rows, Abandoned(rows)[..k], reason, ids, now))
    decreases k
  {
    hide CapText;
    if k > 0 {
      var list := Abandoned(rows);
      SweptErrorsFit(rows, k - 1, reason, ids, now);
      assert list[..k][..k - 1] == list[..k - 1];
      SweptOneErrorsFit(Swept(rows, list[..k - 1], reason, ids, now), list[k - 1], reason, ids[k - 1], now);
    }
  }

  lemma {:induction false} ReachableErrorsFit(reason: string, rows: seq<Job>, events: seq<Event>)
    requires ErrorsFit(rows) && Run(Steps(reason), rows, events).Some?
    ensures ErrorsFit(Run(Steps(reason), rows, events).value)
    decreases |events|
  {
    if events != [] {
      hide SweptOne;
      if events[0].Sweep? {
        var n := |Abandoned(rows)|;
        SweptErrorsFit(rows, n, reason, events[0].ids, events[0].now);
        assert Abandoned(rows)[..n] == Abandoned(rows);
      }
      ReachableErrorsFit(reason, Step(reason, rows, events[0]).value, events[1..]);
    }
  }

  lemma {:induction false} NoTail(h: seq<Job>, reason: string)
    requires forall k :: 0 <= k < |h| && h[k].error.Some? ==> |h[k].error.value| < |reason|
    ensures CrashTail(h, reason) == 0
    decreases |h|
  {
    if h != [] && Unfinished(h[|h| - 1]) {
      NoTail(h[..|h| - 1], reason);
    }
  }

  /** The cap depends on the reason fitting the column: a longer one is never recognised, and every crash requeues. */
  lemma TooLongAReasonIsNeverCapped(reason: string, events: seq<Event>, i: nat, id: nat, now: int)
    requires |reason| > MAX_JOB_ERROR_LENGTH && Run(Steps(reason), [], events).Some?
    requires i < |Run(Steps(reason), [], events).value|
    requires Run(Steps(reason), [], events).value[i].status == Running
    requires NewId(Run(Steps(reason), [], events).value, id)
    ensures var rows := Run(Steps(reason), [], events).value;
            |SweptOne(rows, rows[i], reason, id, now)| == |rows| + 1
  {
    RunKeepsValid(reason, [], events);
    ReachableErrorsFit(reason, [], events);
    var rows := Run(Steps(reason), [], events).value;
    var h := History(rows, rows[i].pair);
    forall k | 0 <= k < |h| && h[k].error.Some?
      ensures |h[k].error.value| < |reason|
    {
      var j := HistoryIsRows(rows, rows[i].pair, k);
    }
    NoTail(h, reason);
    SweptOneEffect(rows, i, reason, id, now);
  }

  // -------------------------------------------------------------------------------------------
  // A queue of crashing steps empties
  // -------------------------------------------------------------------------------------------

  /** What a row still owes: two events for each crash the sweep will absorb, one less once claimed. */
  ghost function Weight(job: Job, h: seq<Job>, reason: string): nat {
    var crashes := 2 * (3 - Min(2, CrashTail(h, reason)));
    match job.status
    case Pending => crashes
    case Running => crashes - 1
    case _ => 0
  }

  ghost function Measure(rows: seq<Job>, all: seq<Job>, reason: string): nat {
    if rows == [] then 0
    else
      var last := rows[|rows| - 1];
      Measure(rows[..|rows| - 1], all, reason) + Weight(last, History(all, last.pair), reason)
  }

  /** When the other rows weigh what they did, the measure moves by the changed row's weight. */
  lemma {:induction false} MeasureUpdate(rows: seq<Job>, i: nat, job: Job, all: seq<Job>, all': seq<Job>, reason: string)
    requires i < |rows|
    requires forall j :: 0 <= j < |rows| && j != i ==>
               Weight(rows[j], History(all, rows[j].pair), reason) == Weight(rows[j], History(all', rows[j].pair), reason)
    ensures Measure(rows[i := job], all', reason) - Weight(job, History(all', job.pair), reason)
            == Measure(rows, all, reason) - Weight(rows[i], History(all, rows[i].pair), reason)
    decreases |rows|
  {
    hide Weight, History;
    var n := |rows| - 1;
    var rows' := rows[i := job];
    var init := rows[..n];
    assert forall j :: 0 <= j < n ==> init[j] == rows[j];
    if i < n {
      assert rows'[..n] == init[i := job];
      MeasureUpdate(init, i, job, all, all', reason);
    } else {
      assert rows'[..n] == init;
      MeasureSame(init, all, all', reason);
    }
  }

  lemma {:induction false} MeasureSame(rows: seq<Job>, all: seq<Job>, all': seq<Job>, reason: string)
    requires forall j :: 0 <= j < |rows| ==>
               Weight(rows[j], History(all, rows[j].pair), reason) == Weight(rows[j], History(all', rows[j].pair), reason)
    ensures Measure(rows, all, reason) == Measure(rows, all', reason)
    decreases |rows|
  {
    if rows != [] {
      MeasureSame(rows[..|rows| - 1], all, all', reason);
    }
  }

  lemma MeasureAppend(rows: seq<Job>, job: Job, all: seq<Job>, reason: string)
    ensures Measure(rows + [job], all, reason) == Measure(rows, all, reason) + Weight(job, History(all, job.pair), reason)
  {
    assert (rows + [job])[..|rows|] == rows;
  }

  /** The other rows of the unfinished row's pair are finished, so they weigh nothing. */
  lemma OthersWeighTheSame(rows: seq<Job>, i: nat, rows': seq<Job>, j: nat, reason: string)
    requires Valid(rows) && i < |rows| && Unfinished(rows[i]) && j < |rows| && j != i
    requires rows[j].pair != rows[i].pair ==> History(rows', rows[j].pair) == History(rows, rows[j].pair)
    ensures Weight(rows[j], History(rows, rows[j].pair), reason) == Weight(rows[j], History(rows', rows[j].pair), reason)
  {
    if rows[j].pair == rows[i].pair && Unfinished(rows[j]) {
      UnfinishedIsFound(rows, i);
      UnfinishedIsFound(rows, j);
      assert false;
    }
  }

  lemma ClaimDecreases(rows: seq<Job>, now: int, reason: string)
    requires Valid(rows) && Claimed(rows, now) != rows
    ensures Measure(Claimed(rows, now), Claimed(rows, now), reason) == Measure(rows, rows, reason) - 1
  {
    var i := ClaimTakesTheOldest(rows, now);
    var job := rows[i].(status := Running, startedAt := Some(now));
    var rows' := Claimed(rows, now);
    UnfinishedIsFound(rows, i);
    HistoryAt(rows, i);
    HistoryUpdate(rows, i, job, job.pair);
    var h := History(rows, job.pair);
    var h' := History(rows', job.pair);
    assert h'[..|h| - 1] == h[..|h| - 1];
    forall j | 0 <= j < |rows| && j != i
      ensures Weight(rows[j], History(rows, rows[j].pair), reason) == Weight(rows[j], History(rows', rows[j].pair), reason)
    {
      HistoryUpdate(rows, i, job, rows[j].pair);
      OthersWeighTheSame(rows, i, rows', j, reason);
    }
    MeasureUpdate(rows, i, job, rows, rows', reason);
  }

  lemma SweptOneDecreases(rows: seq<Job>, i: nat, reason: string, id: nat, now: int)
    requires Valid(rows) && i < |rows| && rows[i].status == Running && NewId(rows, id)
    requires |reason| <= MAX_JOB_ERROR_LENGTH
    ensures var after := SweptOne(rows, rows[i], reason, id, now);
            Measure(after, after, reason) == Measure(rows, rows, reason) - 1
  {
    hide SweptOne, SweepFailedRow, Requeue, Valid, History, CrashTail, Measure;
    var job := SweepFailedRow(rows, rows[i], reason, now);
    var extra := Requeue(rows, i, reason, id, now);
    var after := SweptOne(rows, rows[i], reason, id, now);
    SweptOneParts(rows, i, reason, id, now);
    HistoryOfSwept(rows, i, job, extra, job.pair);
    forall j | 0 <= j < |rows| && j != i
      ensures Weight(rows[j], History(rows, rows[j].pair), reason) == Weight(rows[j], History(after, rows[j].pair), reason)
    {
      HistoryOfSwept(rows, i, job, extra, rows[j].pair);
      OthersWeighTheSame(rows, i, after, j, reason);
    }
    MeasureUpdate(rows, i, job, rows, after, reason);
    if extra == [] {
      assert after == rows[i := job];
    } else {
      assert extra == [extra[0]];
      MeasureAppend(rows[i := job], extra[0], after, reason);
      var h := History(rows, job.pair);
      TailOfRequeue(h[..|h| - 1], rows[i], job, extra[0], reason);
    }
  }

  lemma TailOfRequeue(earlier: seq<Job>, row: Job, job: Job, queued: Job, reason: string)
    requires Unfinished(row) && Unfinished(queued) && !Unfinished(job) && SweepFailed(job, reason)
    ensures CrashTail(earlier + [row], reason) == CrashTail(earlier, reason)
    ensures CrashTail(earlier + [job] + [queued], reason) == CrashTail(earlier, reason) + 1
  {
    assert (earlier + [row])[..|earlier|] == earlier;
    assert (earlier + [job])[..|earlier|] == earlier;
    assert (earlier + [job] + [queued])[..|earlier| + 1] == earlier + [job];
  }

  lemma {:induction false} SweptDecreases(rows: seq<Job>, k: nat, reason: string, ids: seq<nat>, now: int)
    requires Valid(rows) && k <= |Abandoned(rows)| <= |ids| && NewIds(rows, ids)
    requires |reason| <= MAX_JOB_ERROR_LENGTH
    ensures var after := Swept(rows, Abandoned(rows)[..k], reason, ids, now);
            Measure(after, after, reason) == Measure(rows, rows, reason) - k
    decreases k
  {
    hide Valid, Measure, SweptOne;
    if k > 0 {
      var list := Abandoned(rows);
      SweptDecreases(rows, k - 1, reason, ids, now);
      SweepReaches(rows, k - 1, reason, ids, now);
      assert list[..k][..k - 1] == list[..k - 1];
      var mid := Swept(rows, list[..k - 1], reason, ids, now);
      var i := AbandonedRow(rows, k - 1);
      assert mid[i] == rows[i];
      SweptOneDecreases(mid, i, reason, ids[k - 1], now);
    }
  }

  /** Claims that take a row and sweeps that find one: what happens when every claim ends in a crash. */
  ghost predicate OnlyCrashes(reason: string, rows: seq<Job>, events: seq<Event>)
    decreases |events|
  {
    events != [] ==>
      && (events[0].Claim? || events[0].Sweep?)
      && (events[0].Claim? ==> Claimed(rows, events[0].now) != rows)
      && (events[0].Sweep? ==> Abandoned(rows) != [])
      && (Step(reason, rows, events[0]).Some? ==>
            OnlyCrashes(reason, Step(reason, rows, events[0]).value, events[1..]))
  }

  /** With nothing enqueued from outside and every claim crashing, only so many events can happen. */
  lemma {:induction false} CrashLoopsEnd(reason: string, rows: seq<Job>, events: seq<Event>)
    requires Valid(rows) && |reason| <= MAX_JOB_ERROR_LENGTH
    requires Run(Steps(reason), rows, events).Some? && OnlyCrashes(reason, rows, events)
    ensures var end := Run(Steps(reason), rows, events).value;
            |events| + Measure(end, end, reason) <= Measure(rows, rows, reason)
    decreases |events|
  {
    hide Valid, Measure, SweptOne;
    if events != [] {
      StepKeepsValid(reason, rows, events[0]);
      match events[0] {
        case Claim(now) => ClaimDecreases(rows, now, reason);
        case Sweep(ids, now) =>
          var n := |Abandoned(rows)|;
          SweptDecreases(rows, n, reason, ids, now);
          assert Abandoned(rows)[..n] == Abandoned(rows);
      }
      CrashLoopsEnd(reason, Step(reason, rows, events[0]).value, events[1..]);
    }
  }

  /** And when neither a claim nor a sweep finds anything, the queue is empty. */
  lemma StuckMeansEmpty(rows: seq<Job>, now: int)
    requires Valid(rows) && Claimed(rows, now) == rows && Abandoned(rows) == []
    ensures forall job :: job in rows ==> !Unfinished(job)
  {
    ClaimIsIdleExactlyWhenNothingWaits(rows, now);
    OldestFirstList(rows, Running);
    forall job | job in rows
      ensures !Unfinished(job)
    {
      assert job !in Abandoned(rows);
    }
  }

  /**
   * A re-run that itself crashes does not start the count again: with two crashes already at the end
   * of a pair's history, the row an admin queues and the worker claims is failed and not queued again.
   */
  lemma AReRunDoesNotRestartTheCount(
    rows: seq<Job>, pair: Pair, reason: string, first: nat, second: nat, correlationId: string, now: int)
    requires Valid(rows) && FindUnfinished(rows, pair) == None && CrashTail(History(rows, pair), reason) >= 2
    requires NewId(rows, first) && NewId(rows, second) && first != second
    ensures var queued := Enqueued(rows, pair, first, correlationId, now);
            && |queued| == |rows| + 1
            && var row := queued[|rows|].(status := Running, startedAt := Some(now));
            var claimed := queued[|rows| := row];
            && row.pair == pair && Valid(claimed)
            && |SweptOne(claimed, row, reason, second, now)| == |claimed|
  {
    EnqueueKeepsValid(rows, pair, first, correlationId, now);
    var queued := Enqueued(rows, pair, first, correlationId, now);
    var row := queued[|rows|].(status := Running, startedAt := Some(now));
    var claimed := queued[|rows| := row];
    UpdateKeepsValid(queued, |rows|, row);
    assert claimed == rows + [row];
    HistoryAppend(rows, row, pair);
    var h := History(rows, pair);
    assert (h + [row])[..|h|] == h;
    SweptOneParts(claimed, |rows|, reason, second, now);
    hide SweptOne, SweepFailedRow;
    assert Requeue(claimed, |rows|, reason, second, now) == [];
  }
}
