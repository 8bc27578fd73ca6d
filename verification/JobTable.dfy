/** The ledger as the table the worker changes in place (packages/db/src/jobs.ts). */
module JobTable {
  import opened Runs
  import opened Ordering
  import opened JobLedger
  import opened JobRuns

  /** Two abandoned rows are of different pairs. */
  lemma AbandonedPairsDiffer(rows: seq<Job>, j: nat, k: nat)
    requires Valid(rows) && j < k < |Abandoned(rows)|
    ensures Abandoned(rows)[j].pair != Abandoned(rows)[k].pair
  {
    var i := AbandonedRow(rows, j);
    var m := AbandonedRow(rows, k);
    assert Abandoned(rows)[j] in Abandoned(rows)[..k];
    UnfinishedIsFound(rows, i);
    UnfinishedIsFound(rows, m);
  }

  /** Until its own row is swept, a pair's history is as it was. */
  lemma {:induction false} UnsweptHistory(rows: seq<Job>, k: nat, m: nat, reason: string, ids: seq<nat>, now: int)
    requires Valid(rows) && k <= m < |Abandoned(rows)| <= |ids| && NewIds(rows, ids)
    ensures var pair := Abandoned(rows)[m].pair;
            History(Swept(rows, Abandoned(rows)[..k], reason, ids, now), pair) == History(rows, pair)
    decreases k
  {
    hide SweptOne, HistoryOk, History, SweepFailedRow, Requeue;
    if k > 0 {
      var list := Abandoned(rows);
      UnsweptHistory(rows, k - 1, m, reason, ids, now);
      SweepReaches(rows, k - 1, reason, ids, now);
      assert list[..k][..k - 1] == list[..k - 1];
      var mid := Swept(rows, list[..k - 1], reason, ids, now);
      var i := AbandonedRow(rows, k - 1);
      assert mid[i] == rows[i];
      AbandonedPairsDiffer(rows, k - 1, m);
      SweptOneParts(mid, i, reason, ids[k - 1], now);
      HistoryOfSwept(mid, i, SweepFailedRow(mid, mid[i], reason, now), Requeue(mid, i, reason, ids[k - 1], now), list[m].pair);
    }
  }

  /** What holds when the sweep comes to its `k`th abandoned row. */
  lemma SweepOneFacts(before: seq<Job>, k: nat, reason: string, ids: seq<nat>, now: int)
    requires Valid(before) && k < |Abandoned(before)| <= |ids| && NewIds(before, ids)
    ensures var row := Abandoned(before)[k];
            var rows := Swept(before, Abandoned(before)[..k], reason, ids, now);
            var failed := Finished(rows, row.id, Failed, Some(SweepError(rows, row, reason)), now);
            && Valid(rows) && Valid(failed) && Valid(SweptOne(rows, row, reason, ids[k], now))
            && !NewId(rows, row.id) && NewId(failed, ids[k]) && row in rows && DistinctIds(rows)
            && ConsecutiveSweepFailures(rows, row, reason) == Min(3, CrashTail(History(before, row.pair), reason))
            && FindUnfinished(failed, row.pair) == None && MaxAttempt(failed, row.pair) == row.attempt
  {
    hide CapText, History, HistoryOk, SweptOne, Slice;
    var row := Abandoned(before)[k];
    var rows := Swept(before, Abandoned(before)[..k], reason, ids, now);
    SweepReaches(before, k, reason, ids, now);
    UnsweptHistory(before, k, k, reason, ids, now);
    var i := AbandonedRow(before, k);
    assert rows[i] == row;
    SweptOneEffect(rows, i, reason, ids[k], now);
    ConsecutiveIsTail(rows, row, reason);
    var error := Some(SweepError(rows, row, reason));
    FinishKeepsValid(rows, row.id, Failed, error, now);
    FinishedAt(rows, row.id, Failed, error, now, i);
    AttemptAfterFailing(rows, i, SweepFailedRow(rows, row, reason, now));
  }

  /** The pair's row with this attempt is one a sweep failed: its error begins with the sweep's reason. */
  ghost predicate CrashedAt(rows: seq<Job>, pair: Pair, attempt: int, reason: string) {
    exists job :: job in rows && job.pair == pair && job.attempt == attempt && job.status == Failed
                  && job.error.Some? && |reason| <= |job.error.value| && job.error.value[..|reason|] == reason
  }

  /** The two attempts directly before the row both crashed. */
  ghost predicate CrashedTwiceBefore(rows: seq<Job>, row: Job, reason: string) {
    CrashedAt(rows, row.pair, row.attempt - 1, reason) && CrashedAt(rows, row.pair, row.attempt - 2, reason)
  }

  /** An attempt's row is the one at its place in the pair's history. */
  lemma CrashedIsAPlace(rows: seq<Job>, pair: Pair, attempt: int, reason: string)
    requires Valid(rows)
    ensures CrashedAt(rows, pair, attempt, reason) <==>
            1 <= attempt <= |History(rows, pair)| && SweepFailed(History(rows, pair)[attempt - 1], reason)
  {
    var h := History(rows, pair);
    assert HistoryOk(h);
    if 1 <= attempt <= |h| && SweepFailed(h[attempt - 1], reason) {
      var i := HistoryIsRows(rows, pair, attempt - 1);
      assert rows[i] in rows;
    }
    if CrashedAt(rows, pair, attempt, reason) {
      var job :| job in rows && job.pair == pair && job.attempt == attempt && job.status == Failed
                 && job.error.Some? && |reason| <= |job.error.value| && job.error.value[..|reason|] == reason;
      var i :| 0 <= i < |rows| && rows[i] == job;
      HistoryAt(rows, i);
    }
  }

  lemma TailIsCrashedTwice(rows: seq<Job>, row: Job, reason: string)
    requires Valid(rows) && FindUnfinished(rows, row.pair) == Some(row)
    ensures CrashTail(History(rows, row.pair), reason) >= 2 <==> CrashedTwiceBefore(rows, row, reason)
  {
    var h := History(rows, row.pair);
    var n := |h|;
    FindUnfinishedIsLast(rows, row.pair);
    CrashedIsAPlace(rows, row.pair, row.attempt - 1, reason);
    CrashedIsAPlace(rows, row.pair, row.attempt - 2, reason);
    assert HistoryOk(h) && row == h[n - 1] && row.attempt == n;
    hide CrashedAt, History, SweepFailed;
    if n >= 2 && SweepFailed(h[n - 2], reason) {
      assert h[..n - 1][..n - 2] == h[..n - 2];
      assert CrashTail(h[..n - 1], reason) == 1 + CrashTail(h[..n - 2], reason);
    }
  }

  /** The `update ... where id =`, on the columns. */
  ghost predicate FinishedWhere(before: seq<Job>, after: seq<Job>, id: nat, status: Status, error: Option<string>, now: int) {
    && |after| == |before|
    && forall i :: 0 <= i < |before| ==>
         after[i] == if before[i].id != id then before[i]
                     else Job(id, before[i].pair, status, before[i].attempt, error, before[i].correlationId,
                              before[i].enqueuedAt, before[i].startedAt, Some(now))
  }

  /** Each event of a run but the sweep, on the columns; the sweep is `SweepRunning`. */
  lemma WhatEachEventWrites(reason: string, rows: seq<Job>, e: Event)
    requires Valid(rows) && Step(reason, rows, e).Some?
    ensures var after := Step(reason, rows, e).value;
            match e
            case Enqueue(pair, id, correlationId, now) =>
              if exists row :: row in rows && row.pair == pair && (row.status == Pending || row.status == Running) then after == rows
              else |after| == |rows| + 1 && after[..|rows|] == rows
                   && after[|rows|] == Job(id, pair, Pending, after[|rows|].attempt, None, correlationId, now, None, None)
            case Claim(now) =>
              && |after| == |rows|
              && forall i :: 0 <= i < |rows| ==>
                   after[i] == rows[i]
                   || (rows[i].status == Pending && after[i] == rows[i].(status := Running, startedAt := Some(now)))
            case Complete(id, now) => FinishedWhere(rows, after, id, Succeeded, None, now)
            case Fail(id, text, now) =>
              FinishedWhere(rows, after, id, Failed, Some(if |text| <= 2000 then text else text[..2000]), now)
            case Sweep(_, _) => true
  {
    match e
    case Enqueue(pair, id, correlationId, now) => FoundIsInFlight(rows, pair);
    case Claim(now) =>
      if Claimed(rows, now) != rows {
        var i := ClaimTakesTheOldest(rows, now);
      }
    case _ =>
  }

  class JobTable {
    var rows: seq<Job>

    constructor ()
      ensures rows == [] && Valid(rows)
    {
      rows := [];
    }

    /** Answers the job now in flight for the pair: the new row, or the one already there. */
    method EnqueueJob(pair: Pair, id: nat, correlationId: string, now: int) returns (job: Job)
      requires Valid(rows) && NewId(rows, id)
      modifies this
      ensures Valid(rows) && rows == Enqueued(old(rows), pair, id, correlationId, now)
      ensures FindUnfinished(rows, pair) == Some(job)
      ensures FindUnfinished(old(rows), pair).None? ==>
                rows == old(rows) + [job] && job.attempt == MaxAttempt(old(rows), pair) + 1 && job.id == id
      ensures job in rows && job.pair == pair && (job.status == Pending || job.status == Running)
      ensures if forall row :: row in old(rows) && row.pair == pair ==> row.status != Pending && row.status != Running then
                && rows == old(rows) + [job]
                && job == Job(id, pair, Pending, job.attempt, None, correlationId, now, None, None)
                && (forall row :: row in old(rows) && row.pair == pair ==> row.attempt < job.attempt)
                && (job.attempt == 1 || exists row :: row in old(rows) && row.pair == pair && row.attempt == job.attempt - 1)
              else rows == old(rows)
    {
      FoundIsInFlight(rows, pair);
      NextAttempt(rows, pair);
      EnqueueKeepsValid(rows, pair, id, correlationId, now);
      var existing := FindUnfinished(rows, pair);
      if existing.None? {
        job := NewRow(rows, pair, id, correlationId, now);
        rows := rows + [job];
      } else {
        job := existing.value;
      }
    }

    /** `update ... where id = ... returning`: the row as it now reads, or `None` where the source throws. */
    method Finish(id: nat, status: Status, error: Option<string>, now: int) returns (job: Option<Job>)
      requires Valid(rows) && (status == Succeeded || status == Failed)
      modifies this
      ensures Valid(rows) && rows == Finished(old(rows), id, status, error, now)
      ensures job.None? <==> NewId(old(rows), id)
      ensures FinishedWhere(old(rows), rows, id, status, error, now)
      ensures job.Some? ==> job.value in rows && job.value.id == id && job.value.status == status && job.value.error == error
    {
      FinishKeepsValid(rows, id, status, error, now);
      job := None;
      var before := rows;
      rows := Finished(rows, id, status, error, now);
      var i := 0;
      while i < |rows|
        invariant 0 <= i <= |rows|
        invariant job.None? ==> forall k :: 0 <= k < i ==> before[k].id != id
        invariant job.Some? ==> job.value in rows && job.value.id == id
        invariant job.Some? ==> exists k :: 0 <= k < i && before[k].id == id && rows[k] == job.value
      {
        if rows[i].id == id {
          job := Some(rows[i]);
        }
        i := i + 1;
      }
    }

    method CompleteJob(id: nat, now: int) returns (job: Option<Job>)
      requires Valid(rows)
      modifies this
      ensures Valid(rows) && rows == Finished(old(rows), id, Succeeded, None, now)
      ensures FinishedWhere(old(rows), rows, id, Succeeded, None, now)
      ensures job.None? <==> NewId(old(rows), id)
      ensures job.Some? ==> job.value in rows && job.value.id == id
    {
      job := Finish(id, Succeeded, None, now);
    }

    method FailJob(id: nat, reason: string, now: int) returns (job: Option<Job>)
      requires Valid(rows)
      modifies this
      ensures Valid(rows) && rows == Finished(old(rows), id, Failed, Some(Slice(reason)), now)
      ensures FinishedWhere(old(rows), rows, id, Failed, Some(if |reason| <= 2000 then reason else reason[..2000]), now)
      ensures job.None? <==> NewId(old(rows), id)
      ensures job.Some? ==> job.value in rows && job.value.id == id && job.value.status == Failed
    {
      job := Finish(id, Failed, Some(Slice(reason)), now);
    }

    /** The oldest waiting job, now running; `None` exactly when nothing waits. */
    method ClaimNextJob(now: int) returns (job: Option<Job>)
      requires Valid(rows)
      modifies this
      ensures Valid(rows) && rows == Claimed(old(rows), now)
      ensures job.None? <==> forall one :: one in old(rows) ==> one.status != Pending
      ensures job.Some? ==>
                && job.value in rows && job.value.status == Running && |rows| == |old(rows)|
                && (exists i :: 0 <= i < |old(rows)| && old(rows)[i].status == Pending && rows[i] == job.value
                      && job.value == old(rows)[i].(status := Running, startedAt := Some(now))
                      && forall k :: 0 <= k < |rows| && k != i ==>
                           && rows[k] == old(rows)[k]
                           && (rows[k].status == Pending ==>
                                 old(rows)[i].enqueuedAt < rows[k].enqueuedAt
                                 || (old(rows)[i].enqueuedAt == rows[k].enqueuedAt && old(rows)[i].id < rows[k].id)))
      ensures job.None? ==> rows == old(rows)
    {
      var waiting := Waiting(rows);
      ClaimIsIdleExactlyWhenNothingWaits(rows, now);
      OldestFirstList(rows, Pending);
      if waiting == [] {
        return None;
      }
      assert waiting[0] in waiting;
      ghost var i := ClaimTakesTheOldest(rows, now);
      var oldest := waiting[0];
      assert rows[i].id == oldest.id && rows[i] == oldest by {
        var m :| 0 <= m < |rows| && rows[m] == oldest;
        assert Claimed(rows, now)[m].status == Running;
      }
      rows := Claimed(rows, now);
      job := Some(oldest.(status := Running, startedAt := Some(now)));
    }

    method ConsecutiveFailures(row: Job, reason: string) returns (count: nat)
      ensures count == ConsecutiveSweepFailures(rows, row, reason)
    {
      var earlier := Earlier(rows, row);
      count := 0;
      while count < |earlier| && SweepFailed(earlier[count], reason)
        invariant 0 <= count <= |earlier|
        invariant LeadingSweepFailures(earlier, reason) == count + LeadingSweepFailures(earlier[count..], reason)
      {
        count := count + 1;
      }
    }

    /**
     * One sweep. Every row that was running is failed; a fresh attempt is queued for it unless two
     * crashes already stood directly before it, over attempts alone.
     */
    method SweepRunning(reason: string, ids: seq<nat>, now: int) returns (reclaimed: seq<Reclaimed>)
      requires Valid(rows) && |Abandoned(rows)| <= |ids| && NewIds(rows, ids)
      modifies this
      ensures Valid(rows) && rows == Swept(old(rows), Abandoned(old(rows)), reason, ids, now)
      ensures forall job :: job in rows ==> job.status != Running
      ensures var list := Abandoned(old(rows));
              |reclaimed| == |list| &&
              forall k :: 0 <= k < |list| ==>
                Reclaims(reclaimed[k], list[k], CrashedTwiceBefore(old(rows), list[k], reason), reason, ids[k], now)
      ensures var list := Abandoned(old(rows));
              && (forall job :: job in list <==> job in old(rows) && job.status == Running)
              && (forall j, k :: 0 <= j < k < |list| ==>
                    list[j].enqueuedAt < list[k].enqueuedAt
                    || (list[j].enqueuedAt == list[k].enqueuedAt && list[j].id < list[k].id))
      ensures Accounted(old(rows), rows, reclaimed)
    {
      hide *;
      AbandonedInOrder(rows);
      StartsAccounted(rows);
      SweptNone(rows, Abandoned(rows), reason, ids, now);
      ghost var before := rows;
      var abandoned := Abandoned(rows);
      reclaimed := [];
      for k := 0 to |abandoned|
        invariant rows == Swept(before, abandoned[..k], reason, ids, now) && Valid(rows)
        invariant |reclaimed| == k
        invariant forall m :: 0 <= m < k ==>
                    Reclaims(reclaimed[m], abandoned[m], CrashedTwiceBefore(before, abandoned[m], reason), reason, ids[m], now)
        invariant Accounted(before, rows, reclaimed)
      {
        OtherRowsDiffer(before, k, ids);
        SweptOneAtATime(before, abandoned, k, reason, ids, now);
        ghost var mid := rows;
        var one := SweepOne(abandoned[k], reason, ids[k], now, before, k, ids);
        ReclaimedIds(before, abandoned, reclaimed, k, reason, ids, now);
        AccountOneMore(before, mid, rows, reclaimed, one, abandoned[k]);
        reclaimed := reclaimed + [one];
      }
      assert abandoned[..|abandoned|] == abandoned;
      SweepLeavesNothingRunning(before, reason, ids, now);
    }

    /** The body of the sweep's loop, for the `k`th abandoned row. */
    method SweepOne(row: Job, reason: string, id: nat, now: int, ghost before: seq<Job>, ghost k: nat, ghost ids: seq<nat>)
      returns (one: Reclaimed)
      requires Valid(before) && k < |Abandoned(before)| <= |ids| && NewIds(before, ids)
      requires rows == Swept(before, Abandoned(before)[..k], reason, ids, now)
      requires row == Abandoned(before)[k] && id == ids[k]
      modifies this
      ensures Valid(rows) && rows == SweptOne(old(rows), row, reason, id, now)
      ensures Reclaims(one, row, CrashedTwiceBefore(before, row, reason), reason, id, now)
      ensures one.failed in rows && (one.requeued.Some? ==> one.requeued.value in rows)
      ensures forall job :: job in old(rows) && job.id != row.id ==> job in rows
      ensures forall job :: job in rows ==> job in old(rows) || OneOf(job, one)
    {
      hide *;
      SweepOneFacts(before, k, reason, ids, now);
      CapExactlyWhenCrashedTwice(before, k, reason, ids, now);
      SweptOneIs(rows, row, reason, id, now);
      var earlier := ConsecutiveFailures(row, reason);
      var crashes := earlier + 1;
      ghost var error := Some(SweepErrorAfter(reason, crashes));
      ErrorTells(reason, crashes);
      if crashes >= MAX_SWEEP_RECLAIMS {
        one := FailForGood(row, CapText(reason, crashes), now);
      } else {
        one := FailAndQueue(row, reason, id, now);
      }
      ReclaimsIs(one, row, CrashedTwiceBefore(before, row, reason), reason, id, now);
    }

    /** The capped branch: the row is failed, and nothing is queued. */
    method FailForGood(row: Job, text: string, now: int) returns (one: Reclaimed)
      requires Valid(rows) && row in rows && !NewId(rows, row.id)
      modifies this
      ensures Valid(rows) && rows == Finished(old(rows), row.id, Failed, Some(Slice(text)), now)
      ensures one == Reclaimed(row.(status := Failed, error := Some(Slice(text)), finishedAt := Some(now)), None)
      ensures one.failed in rows
      ensures forall job :: job in old(rows) && job.id != row.id ==> job in rows
      ensures forall job :: job in rows ==> job in old(rows) || OneOf(job, one)
    {
      IdsDiffer(rows);
      var capped := FailJob(row.id, text, now);
      hide *;
      OneFinished(old(rows), rows, row, Failed, Some(Slice(text)), now, capped.value);
      one := Reclaimed(capped.value, None);
      OneOfIs(capped.value, one);
    }

    /** The other branch: the row is failed, and the pair's next attempt queued under the same correlation id. */
    method FailAndQueue(row: Job, reason: string, id: nat, now: int) returns (one: Reclaimed)
      requires Valid(rows) && row in rows && !NewId(rows, row.id)
      requires var failed := Finished(rows, row.id, Failed, Some(Slice(reason)), now);
               NewId(failed, id) && FindUnfinished(failed, row.pair) == None && MaxAttempt(failed, row.pair) == row.attempt
      modifies this
      ensures Valid(rows)
      ensures rows == Enqueued(Finished(old(rows), row.id, Failed, Some(Slice(reason)), now), row.pair, id, row.correlationId, now)
      ensures one == Reclaimed(row.(status := Failed, error := Some(Slice(reason)), finishedAt := Some(now)),
                               Some(Job(id, row.pair, Pending, row.attempt + 1, None, row.correlationId, now, None, None)))
      ensures one.failed in rows && one.requeued.value in rows
      ensures forall job :: job in old(rows) && job.id != row.id ==> job in rows
      ensures forall job :: job in rows ==> job in old(rows) || OneOf(job, one)
    {
      IdsDiffer(rows);
      var reclaimed := FailJob(row.id, reason, now);
      hide *;
      OneFinished(old(rows), rows, row, Failed, Some(Slice(reason)), now, reclaimed.value);
      FoundIsInFlight(rows, row.pair);
      var requeued := EnqueueJob(row.pair, id, row.correlationId, now);
      one := Reclaimed(reclaimed.value, Some(requeued));
      OneOfIs(reclaimed.value, one);
      OneOfIs(requeued, one);
    }
  }

  lemma IdsDiffer(rows: seq<Job>)
    requires Valid(rows)
    ensures DistinctIds(rows)
  {
  }

  function SweepErrorAfter(reason: string, crashes: nat): string {
    Slice(if crashes >= MAX_SWEEP_RECLAIMS then CapText(reason, crashes) else reason)
  }

  lemma SweptOneIs(rows: seq<Job>, row: Job, reason: string, id: nat, now: int)
    ensures var crashes := ConsecutiveSweepFailures(rows, row, reason) + 1;
            SweptOne(rows, row, reason, id, now) ==
            if crashes >= MAX_SWEEP_RECLAIMS then Finished(rows, row.id, Failed, Some(Slice(CapText(reason, crashes))), now)
            else Enqueued(Finished(rows, row.id, Failed, Some(Slice(reason)), now), row.pair, id, row.correlationId, now)
    ensures var crashes := ConsecutiveSweepFailures(rows, row, reason) + 1;
            SweepError(rows, row, reason) == Slice(if crashes >= MAX_SWEEP_RECLAIMS then CapText(reason, crashes) else reason)
    ensures forall text :: Slice(text) == if |text| <= 2000 then text else text[..2000]
    ensures MAX_SWEEP_RECLAIMS == 3
  {
    hide Finished, Enqueued, CapText, ConsecutiveSweepFailures;
  }

  lemma ErrorTells(reason: string, crashes: nat)
    ensures SweepErrorAfter(reason, crashes) == Slice(if crashes >= MAX_SWEEP_RECLAIMS then CapText(reason, crashes) else reason)
    ensures Tells(SweepErrorAfter(reason, crashes), reason, crashes >= MAX_SWEEP_RECLAIMS)
  {
    CapTextSaysMore(reason);
    hide CapText;
    var text := CapText(reason, crashes);
    assert forall c :: 0 <= c < |reason| ==> text[c] == text[..|reason|][c];
  }

  lemma CapExactlyWhenCrashedTwice(before: seq<Job>, k: nat, reason: string, ids: seq<nat>, now: int)
    requires Valid(before) && k < |Abandoned(before)| <= |ids| && NewIds(before, ids)
    ensures var row := Abandoned(before)[k];
            var rows := Swept(before, Abandoned(before)[..k], reason, ids, now);
            ConsecutiveSweepFailures(rows, row, reason) + 1 >= MAX_SWEEP_RECLAIMS <==> CrashedTwiceBefore(before, row, reason)
  {
    SweepOneFacts(before, k, reason, ids, now);
    AbandonedIsInFlight(before, k);
    TailIsCrashedTwice(before, Abandoned(before)[k], reason);
    hide CrashTail, CrashedTwiceBefore, ConsecutiveSweepFailures, Swept, Abandoned, HistoryOk, History, CapText, Valid;
  }

  lemma ReclaimsIs(one: Reclaimed, row: Job, crashedTwice: bool, reason: string, id: nat, now: int)
    requires one.failed.error.Some? && Tells(one.failed.error.value, reason, crashedTwice)
    requires one.failed == Job(row.id, row.pair, Failed, row.attempt, one.failed.error, row.correlationId,
                               row.enqueuedAt, row.startedAt, Some(now))
    requires one.requeued == if crashedTwice then None
                             else Some(Job(id, row.pair, Pending, row.attempt + 1, None, row.correlationId, now, None, None))
    ensures Reclaims(one, row, crashedTwice, reason, id, now)
  {
  }

  lemma OneOfIs(job: Job, one: Reclaimed)
    requires job == one.failed || Some(job) == one.requeued
    ensures OneOf(job, one)
  {
  }

  /** The next attempt of a pair whose latest row has just been failed. */
  lemma AttemptAfterFailing(rows: seq<Job>, i: nat, job: Job)
    requires Valid(rows) && i < |rows| && Unfinished(rows[i]) && !Unfinished(job)
    requires job.id == rows[i].id && job.pair == rows[i].pair && job.attempt == rows[i].attempt
    ensures MaxAttempt(rows[i := job], job.pair) == rows[i].attempt
  {
    FailedIsFound(rows, i, job);
    UpdateKeepsValid(rows, i, job);
    assert HistoryOk(History(rows, job.pair)) && HistoryOk(History(rows[i := job], job.pair));
    MaxAttemptIsLength(rows[i := job], job.pair);
  }

  /** The one row an update by id reaches, and all the others. */
  lemma OneFinished(
    before: seq<Job>, after: seq<Job>, row: Job, status: Status, error: Option<string>, now: int, job: Job)
    requires DistinctIds(before) && row in before && FinishedWhere(before, after, row.id, status, error, now)
    requires job in after && job.id == row.id
    ensures job == Job(row.id, row.pair, status, row.attempt, error, row.correlationId, row.enqueuedAt, row.startedAt, Some(now))
    ensures forall other :: other in before && other.id != row.id ==> other in after
    ensures forall other :: other in after ==> other in before || other == job
  {
    var i :| 0 <= i < |before| && before[i] == row;
    var j :| 0 <= j < |after| && after[j] == job;
    assert j == i;
    forall other | other in before && other.id != row.id
      ensures other in after
    {
      var k :| 0 <= k < |before| && before[k] == other;
      assert after[k] == other;
    }
    forall other | other in after
      ensures other in before || other == job
    {
      var k :| 0 <= k < |after| && after[k] == other;
      if k != i {
        assert after[k] == before[k];
      }
    }
  }

  /** Every row a sweep answers is in the table, no row that was not running has changed, and there is nothing else new. */
  ghost predicate Accounted(before: seq<Job>, rows: seq<Job>, reclaimed: seq<Reclaimed>) {
    && (forall k :: 0 <= k < |reclaimed| ==>
          reclaimed[k].failed in rows && (reclaimed[k].requeued.Some? ==> reclaimed[k].requeued.value in rows))
    && (forall job :: job in before && job.status != Running ==> job in rows)
    && (forall job :: job in rows ==> job in before || exists k :: 0 <= k < |reclaimed| && OneOf(job, reclaimed[k]))
  }

  lemma StartsAccounted(rows: seq<Job>)
    ensures Accounted(rows, rows, [])
  {
  }

  lemma AccountOneMore(
    before: seq<Job>, mid: seq<Job>, after: seq<Job>, done: seq<Reclaimed>, one: Reclaimed, row: Job)
    requires Accounted(before, mid, done)
    requires forall job :: job in before && job.status != Running ==> job.id != row.id
    requires forall k :: 0 <= k < |done| ==>
               done[k].failed.id != row.id && (done[k].requeued.Some? ==> done[k].requeued.value.id != row.id)
    requires one.failed in after && (one.requeued.Some? ==> one.requeued.value in after)
    requires forall job :: job in mid && job.id != row.id ==> job in after
    requires forall job :: job in after ==> job in mid || OneOf(job, one)
    ensures Accounted(before, after, done + [one])
  {
    var all := done + [one];
    forall job | job in after
      ensures job in before || exists k :: 0 <= k < |all| && OneOf(job, all[k])
    {
      if OneOf(job, one) {
        assert all[|done|] == one;
      } else if job !in before {
        var k :| 0 <= k < |done| && OneOf(job, done[k]);
        assert all[k] == done[k];
      }
    }
  }

  lemma ReclaimedIds(
    before: seq<Job>, abandoned: seq<Job>, reclaimed: seq<Reclaimed>, k: nat, reason: string, ids: seq<nat>, now: int)
    requires |reclaimed| == k < |abandoned| <= |ids|
    requires forall m :: 0 <= m < k ==>
               Reclaims(reclaimed[m], abandoned[m], CrashedTwiceBefore(before, abandoned[m], reason), reason, ids[m], now)
    requires forall m :: 0 <= m < k ==> abandoned[m].id != abandoned[k].id && ids[m] != abandoned[k].id
    ensures forall m :: 0 <= m < k ==>
              && reclaimed[m].failed.id != abandoned[k].id
              && (reclaimed[m].requeued.Some? ==> reclaimed[m].requeued.value.id != abandoned[k].id)
  {
    hide CrashedTwiceBefore, Tells;
  }

  lemma AbandonedInOrder(rows: seq<Job>)
    requires Valid(rows)
    ensures var list := Abandoned(rows);
            && (forall job :: job in list <==> job in rows && job.status == Running)
            && (forall j, k :: 0 <= j < k < |list| ==>
                  list[j].enqueuedAt < list[k].enqueuedAt
                  || (list[j].enqueuedAt == list[k].enqueuedAt && list[j].id < list[k].id))
  {
    OldestFirstList(rows, Running);
    var list := Abandoned(rows);
    forall j, k | 0 <= j < k < |list|
      ensures OlderFirst(list[j], list[k])
    {
    }
  }

  lemma SweptNone(rows: seq<Job>, list: seq<Job>, reason: string, ids: seq<nat>, now: int)
    requires |list| <= |ids|
    ensures Swept(rows, list[..0], reason, ids, now) == rows
  {
  }

  lemma SweptOneAtATime(before: seq<Job>, list: seq<Job>, k: nat, reason: string, ids: seq<nat>, now: int)
    requires k < |list| <= |ids|
    ensures Swept(before, list[..k + 1], reason, ids, now) ==
            SweptOne(Swept(before, list[..k], reason, ids, now), list[k], reason, ids[k], now)
  {
    SweptSnoc(before, list, k + 1, reason, ids, now);
  }

  /** The row is the one a sweep failed or the one it queued in its place. */
  ghost predicate OneOf(job: Job, one: Reclaimed) {
    job == one.failed || Some(job) == one.requeued
  }

  /** What a sweep answers for a row, the two attempts before which both crashed or did not. */
  ghost predicate Reclaims(one: Reclaimed, row: Job, crashedTwice: bool, reason: string, id: nat, now: int) {
    && one.failed.error.Some?
    && one.failed == Job(row.id, row.pair, Failed, row.attempt, one.failed.error, row.correlationId,
                         row.enqueuedAt, row.startedAt, Some(now))
    && Tells(one.failed.error.value, reason, crashedTwice)
    && one.requeued == if crashedTwice then None
                       else Some(Job(id, row.pair, Pending, row.attempt + 1, None, row.correlationId, now, None, None))
  }

  /** The error is the reason, with more after it where the row is not queued again, cut to what the column holds. */
  ghost predicate Tells(error: string, reason: string, crashedTwice: bool) {
    && |error| <= 2000
    && (forall c :: 0 <= c < |error| && c < |reason| ==> error[c] == reason[c])
    && (|reason| <= 2000 ==> |error| >= |reason|)
    && (|reason| < 2000 ==> (|error| > |reason| <==> crashedTwice))
  }

  lemma CapTextSaysMore(reason: string)
    ensures forall crashes :: |CapText(reason, crashes)| > |reason| && CapText(reason, crashes)[..|reason|] == reason
  {
  }

  lemma AbandonedIsInFlight(rows: seq<Job>, k: nat)
    requires Valid(rows) && k < |Abandoned(rows)|
    ensures FindUnfinished(rows, Abandoned(rows)[k].pair) == Some(Abandoned(rows)[k])
  {
    var i := AbandonedRow(rows, k);
    UnfinishedIsFound(rows, i);
  }

  lemma OtherRowsDiffer(rows: seq<Job>, k: nat, ids: seq<nat>)
    requires Valid(rows) && k < |Abandoned(rows)| <= |ids| && NewIds(rows, ids)
    ensures Abandoned(rows)[k] in rows && Abandoned(rows)[k].status == Running
    ensures forall job :: job in rows && job.status != Running ==> job.id != Abandoned(rows)[k].id
    ensures forall m :: 0 <= m < k ==> Abandoned(rows)[m].id != Abandoned(rows)[k].id && ids[m] != Abandoned(rows)[k].id
  {
    OldestFirstList(rows, Running);
    var i := AbandonedRow(rows, k);
    hide HistoryOk, History;
    forall m | 0 <= m < k
      ensures ids[m] != Abandoned(rows)[k].id
    {
      assert NewId(rows, ids[m]);
    }
  }

  lemma {:induction false} FoundIsInFlight(rows: seq<Job>, pair: Pair)
    ensures match FindUnfinished(rows, pair)
            case Some(job) => job in rows && job.pair == pair && (job.status == Pending || job.status == Running)
            case None => forall row :: row in rows && row.pair == pair ==> row.status != Pending && row.status != Running
    decreases |rows|
  {
    if rows != [] {
      FoundIsInFlight(rows[..|rows| - 1], pair);
    }
  }

  lemma {:induction false} NextAttempt(rows: seq<Job>, pair: Pair)
    ensures forall row :: row in rows && row.pair == pair ==> row.attempt <= MaxAttempt(rows, pair)
    ensures MaxAttempt(rows, pair) == 0 || exists row :: row in rows && row.pair == pair && row.attempt == MaxAttempt(rows, pair)
    decreases |rows|
  {
    if rows != [] {
      var n := |rows| - 1;
      NextAttempt(rows[..n], pair);
      assert forall row :: row in rows <==> row in rows[..n] || row == rows[n];
    }
  }
}
