/**
 * The job ledger (packages/db/src/jobs.ts): an append-only table that is also the queue. Each
 * SQL statement is one atomic step; a sweep is one transaction.
 */
module JobLedger {
  import opened Runs
  import opened Ordering

  datatype JobStep =
    | ProcessAudio | Transcribe | GenerateChapters | GenerateDraft | GenerateQuestions | Embed
    | CrossReference | ReprocessAudio | PreviewAudio

  datatype Status = Pending | Running | Succeeded | Failed

  datatype Pair = Pair(recording: nat, step: JobStep)

  datatype Job = Job(
    id: nat, pair: Pair, status: Status, attempt: nat, error: Option<string>, correlationId: string,
    enqueuedAt: int, startedAt: Option<int>, finishedAt: Option<int>)

  datatype Reclaimed = Reclaimed(failed: Job, requeued: Option<Job>)

  const MAX_JOB_ERROR_LENGTH: nat := 2000
  const MAX_SWEEP_RECLAIMS: nat := 3

  predicate Unfinished(job: Job) {
    job.status == Pending || job.status == Running
  }

  // -------------------------------------------------------------------------------------------
  // The statements
  // -------------------------------------------------------------------------------------------

  /** The pair's rows, in the order they were inserted. */
  function History(rows: seq<Job>, pair: Pair): seq<Job> {
    if rows == [] then []
    else
      var last := rows[|rows| - 1];
      History(rows[..|rows| - 1], pair) + if last.pair == pair then [last] else []
  }

  /** `coalesce(max(attempt), 0)` over the pair's rows. */
  function MaxAttempt(rows: seq<Job>, pair: Pair): nat {
    if rows == [] then 0
    else
      var last := rows[|rows| - 1];
      var rest := MaxAttempt(rows[..|rows| - 1], pair);
      if last.pair == pair && rest < last.attempt then last.attempt else rest
  }

  function FindUnfinished(rows: seq<Job>, pair: Pair): Option<Job> {
    if rows == [] then None
    else
      var last := rows[|rows| - 1];
      if last.pair == pair && Unfinished(last) then Some(last)
      else FindUnfinished(rows[..|rows| - 1], pair)
  }

  function NewRow(rows: seq<Job>, pair: Pair, id: nat, correlationId: string, now: int): Job {
    Job(id, pair, Pending, MaxAttempt(rows, pair) + 1, None, correlationId, now, None, None)
  }

  /** `insert ... on conflict do nothing` under the partial unique index over unfinished rows. */
  function Enqueued(rows: seq<Job>, pair: Pair, id: nat, correlationId: string, now: int): seq<Job> {
    if FindUnfinished(rows, pair).Some? then rows else rows + [NewRow(rows, pair, id, correlationId, now)]
  }

  /** `update ... where id = `: a finished row keeps everything but its status, error and end. */
  function Finished(rows: seq<Job>, id: nat, status: Status, error: Option<string>, now: int): seq<Job> {
    seq(|rows|, i requires 0 <= i < |rows| =>
      if rows[i].id == id then rows[i].(status := status, error := error, finishedAt := Some(now)) else rows[i])
  }

  function Slice(text: string): string {
    if |text| <= MAX_JOB_ERROR_LENGTH then text else text[..MAX_JOB_ERROR_LENGTH]
  }

  predicate StartsWith(text: string, prefix: string) {
    prefix <= text
  }

  predicate OlderFirst(a: Job, b: Job) {
    a.enqueuedAt < b.enqueuedAt || (a.enqueuedAt == b.enqueuedAt && a.id < b.id)
  }

  predicate HigherAttempt(a: Job, b: Job) {
    a.attempt > b.attempt
  }

  function WithStatus(rows: seq<Job>, status: Status): seq<Job> {
    if rows == [] then []
    else
      var last := rows[|rows| - 1];
      WithStatus(rows[..|rows| - 1], status) + if last.status == status then [last] else []
  }

  /** The claim's inner select: every waiting row, oldest first. */
  function Waiting(rows: seq<Job>): seq<Job> {
    Sort(OlderFirst, WithStatus(rows, Pending))
  }

  function Claimed(rows: seq<Job>, now: int): seq<Job> {
    if Waiting(rows) == [] then rows
    else
      var id := Waiting(rows)[0].id;
      seq(|rows|, i requires 0 <= i < |rows| =>
        if rows[i].id == id then rows[i].(status := Running, startedAt := Some(now)) else rows[i])
  }

  // -------------------------------------------------------------------------------------------
  // The sweep
  // -------------------------------------------------------------------------------------------

  predicate SweepFailed(job: Job, reason: string) {
    job.status == Failed && job.error.Some? && StartsWith(job.error.value, reason)
  }

  function Below(rows: seq<Job>, pair: Pair, attempt: nat): seq<Job> {
    if rows == [] then []
    else
      var last := rows[|rows| - 1];
      Below(rows[..|rows| - 1], pair, attempt) + if last.pair == pair && last.attempt < attempt then [last] else []
  }

  /** The pair's attempts below this one, latest first, as many as the cap looks at. */
  function Earlier(rows: seq<Job>, row: Job): seq<Job> {
    Take(Sort(HigherAttempt, Below(rows, row.pair, row.attempt)), MAX_SWEEP_RECLAIMS)
  }

  function LeadingSweepFailures(jobs: seq<Job>, reason: string): nat {
    if jobs == [] || !SweepFailed(jobs[0], reason) then 0 else 1 + LeadingSweepFailures(jobs[1..], reason)
  }

  function ConsecutiveSweepFailures(rows: seq<Job>, row: Job, reason: string): nat {
    LeadingSweepFailures(Earlier(rows, row), reason)
  }

  function Digit(n: nat): string {
    if n < 10 then [('0' as int + n) as char] else "?"
  }

  /** What the row says when the sweep stops requeueing it. */
  function CapText(reason: string, crashes: nat): string {
    reason + "; that is " + Digit(crashes) + " times in a row, so it is not queued again \U{2014} "
    + "re-run the step from the pipeline view once the cause is understood"
  }

  function SweptOne(rows: seq<Job>, row: Job, reason: string, id: nat, now: int): seq<Job> {
    var crashes := ConsecutiveSweepFailures(rows, row, reason) + 1;
    if crashes >= MAX_SWEEP_RECLAIMS then
      Finished(rows, row.id, Failed, Some(Slice(CapText(reason, crashes))), now)
    else
      Enqueued(Finished(rows, row.id, Failed, Some(Slice(reason)), now), row.pair, id, row.correlationId, now)
  }

  function Swept(rows: seq<Job>, abandoned: seq<Job>, reason: string, ids: seq<nat>, now: int): seq<Job>
    requires |abandoned| <= |ids|
  {
    if abandoned == [] then rows
    else
      var n := |abandoned| - 1;
      SweptOne(Swept(rows, abandoned[..n], reason, ids, now), abandoned[n], reason, ids[n], now)
  }

  function Abandoned(rows: seq<Job>): seq<Job> {
    Sort(OlderFirst, WithStatus(rows, Running))
  }

  // -------------------------------------------------------------------------------------------
  // What every reachable ledger satisfies
  // -------------------------------------------------------------------------------------------

  /** Attempts are exactly 1..n, and only the last one may be unfinished. */
  ghost predicate HistoryOk(h: seq<Job>) {
    && (forall k :: 0 <= k < |h| ==> h[k].attempt == k + 1)
    && (forall k :: 0 <= k < |h| - 1 ==> !Unfinished(h[k]))
  }

  ghost predicate DistinctIds(rows: seq<Job>) {
    forall i, j :: 0 <= i < j < |rows| ==> rows[i].id != rows[j].id
  }

  ghost predicate Valid(rows: seq<Job>) {
    DistinctIds(rows) && forall pair :: HistoryOk(History(rows, pair))
  }

  ghost predicate NewId(rows: seq<Job>, id: nat) {
    forall i :: 0 <= i < |rows| ==> rows[i].id != id
  }

  lemma HistoryAppend(rows: seq<Job>, job: Job, pair: Pair)
    ensures History(rows + [job], pair) == History(rows, pair) + if job.pair == pair then [job] else []
  {
    assert (rows + [job])[..|rows|] == rows;
  }

  /** A row stands in its pair's history after the rows of the pair inserted before it. */
  lemma {:induction false} HistoryAt(rows: seq<Job>, i: nat)
    requires i < |rows|
    ensures |History(rows[..i], rows[i].pair)| < |History(rows, rows[i].pair)|
    ensures History(rows, rows[i].pair)[|History(rows[..i], rows[i].pair)|] == rows[i]
    decreases |rows|
  {
    var n := |rows| - 1;
    if i < n {
      assert rows[..n][..i] == rows[..i];
      HistoryAt(rows[..n], i);
    }
  }

  lemma HistoryLast(rows: seq<Job>, pair: Pair)
    requires rows != []
    ensures var last := rows[|rows| - 1];
            History(rows, pair) == History(rows[..|rows| - 1], pair) + if last.pair == pair then [last] else []
  {
  }

  lemma UpdateInFront(h: seq<Job>, tail: seq<Job>, k: nat, job: Job)
    requires k < |h|
    ensures h[k := job] + tail == (h + tail)[k := job]
  {
  }

  lemma UpdateAtEnd(h: seq<Job>, last: Job, job: Job)
    ensures (h + [last])[|h| := job] == h + [job]
  {
  }

  /** Changing a row in place changes one entry of one history. */
  lemma {:induction false} HistoryUpdate(rows: seq<Job>, i: nat, job: Job, pair: Pair)
    requires i < |rows| && job.pair == rows[i].pair
    ensures |History(rows[..i], job.pair)| < |History(rows, job.pair)|
    ensures History(rows[i := job], pair) ==
            if pair == job.pair then History(rows, pair)[|History(rows[..i], pair)| := job] else History(rows, pair)
    decreases |rows|
  {
    hide History;
    var n := |rows| - 1;
    var init := rows[..n];
    HistoryAt(rows, i);
    HistoryLast(rows, pair);
    HistoryLast(rows[i := job], pair);
    if i < n {
      assert rows[i := job][..n] == init[i := job];
      assert init[..i] == rows[..i];
      HistoryUpdate(init, i, job, pair);
      if pair == job.pair {
        UpdateInFront(History(init, pair), if rows[n].pair == pair then [rows[n]] else [], |History(rows[..i], pair)|, job);
      }
    } else {
      assert rows[i := job][..n] == init;
      UpdateAtEnd(History(init, pair), rows[n], job);
    }
  }

  /** Every entry of a history is a row of the table. */
  lemma {:induction false} HistoryIsRows(rows: seq<Job>, pair: Pair, k: nat) returns (i: nat)
    requires k < |History(rows, pair)|
    ensures i < |rows| && rows[i].pair == pair && rows[i] == History(rows, pair)[k]
    ensures |History(rows[..i], pair)| == k
    decreases |rows|
  {
    var n := |rows| - 1;
    if k < |History(rows[..n], pair)| {
      i := HistoryIsRows(rows[..n], pair, k);
      assert rows[..n][..i] == rows[..i];
    } else {
      i := n;
    }
  }

  lemma {:induction false} MaxAttemptIsLength(rows: seq<Job>, pair: Pair)
    requires forall k :: 0 <= k < |History(rows, pair)| ==> History(rows, pair)[k].attempt == k + 1
    ensures MaxAttempt(rows, pair) == |History(rows, pair)|
    decreases |rows|
  {
    if rows != [] {
      var n := |rows| - 1;
      var h := History(rows, pair);
      var rest := History(rows[..n], pair);
      assert forall k :: 0 <= k < |rest| ==> rest[k] == h[k];
      MaxAttemptIsLength(rows[..n], pair);
      if rows[n].pair == pair {
        assert h[|h| - 1] == rows[n];
      }
    }
  }

  /** The unfinished row of a pair is the last of its history, and there is no other. */
  lemma {:induction false} FindUnfinishedIsLast(rows: seq<Job>, pair: Pair)
    requires HistoryOk(History(rows, pair))
    ensures var h := History(rows, pair);
            FindUnfinished(rows, pair) == if h != [] && Unfinished(h[|h| - 1]) then Some(h[|h| - 1]) else None
    decreases |rows|
  {
    if rows != [] {
      var n := |rows| - 1;
      var h := History(rows, pair);
      var rest := History(rows[..n], pair);
      assert forall k :: 0 <= k < |rest| ==> rest[k] == h[k];
      FindUnfinishedIsLast(rows[..n], pair);
      if rows[n].pair == pair && rest != [] {
        assert !Unfinished(h[|rest| - 1]);
      }
    }
  }

  lemma AppendKeepsHistoryOk(rows: seq<Job>, job: Job, pair: Pair)
    requires HistoryOk(History(rows, pair))
    requires job.pair == pair ==>
               job.attempt == |History(rows, pair)| + 1 && FindUnfinished(rows, pair) == None
    ensures HistoryOk(History(rows + [job], pair))
  {
    HistoryAppend(rows, job, pair);
    FindUnfinishedIsLast(rows, pair);
  }

  lemma EnqueueKeepsValid(rows: seq<Job>, pair: Pair, id: nat, correlationId: string, now: int)
    requires Valid(rows) && NewId(rows, id)
    ensures Valid(Enqueued(rows, pair, id, correlationId, now))
    ensures FindUnfinished(Enqueued(rows, pair, id, correlationId, now), pair).Some?
  {
    hide HistoryOk;
    if FindUnfinished(rows, pair).None? {
      var job := NewRow(rows, pair, id, correlationId, now);
      var rows' := rows + [job];
      assert HistoryOk(History(rows, pair));
      AttemptOfNewRow(rows, pair);
      forall p
        ensures HistoryOk(History(rows', p))
      {
        assert HistoryOk(History(rows, p));
        AppendKeepsHistoryOk(rows, job, p);
      }
      assert rows'[..|rows|] == rows && rows'[|rows|] == job;
    }
  }

  lemma AttemptOfNewRow(rows: seq<Job>, pair: Pair)
    requires HistoryOk(History(rows, pair))
    ensures MaxAttempt(rows, pair) == |History(rows, pair)|
  {
    MaxAttemptIsLength(rows, pair);
  }

  /** An in-place change that does not make a finished row unfinished keeps the ledger valid. */
  lemma UpdateKeepsValid(rows: seq<Job>, i: nat, job: Job)
    requires Valid(rows) && i < |rows|
    requires job.id == rows[i].id && job.pair == rows[i].pair && job.attempt == rows[i].attempt
    requires Unfinished(job) ==> Unfinished(rows[i])
    ensures Valid(rows[i := job])
  {
    HistoryAt(rows, i);
    var rows' := rows[i := job];
    forall p
      ensures HistoryOk(History(rows', p))
    {
      HistoryUpdate(rows, i, job, p);
      assert HistoryOk(History(rows, p));
    }
  }

  lemma {:induction false} FinishedAt(rows: seq<Job>, id: nat, status: Status, error: Option<string>, now: int, i: nat)
    requires DistinctIds(rows) && i < |rows| && rows[i].id == id
    ensures Finished(rows, id, status, error, now) ==
            rows[i := rows[i].(status := status, error := error, finishedAt := Some(now))]
  {
  }

  /** Whichever row is finished, and however often, the ledger stays valid. */
  lemma FinishKeepsValid(rows: seq<Job>, id: nat, status: Status, error: Option<string>, now: int)
    requires Valid(rows) && (status == Succeeded || status == Failed)
    ensures Valid(Finished(rows, id, status, error, now))
    ensures forall other :: NewId(rows, other) ==> NewId(Finished(rows, id, status, error, now), other)
  {
    if i :| 0 <= i < |rows| && rows[i].id == id {
      FinishedAt(rows, id, status, error, now, i);
      UpdateKeepsValid(rows, i, rows[i].(status := status, error := error, finishedAt := Some(now)));
    } else {
      assert Finished(rows, id, status, error, now) == rows;
    }
  }

  lemma {:induction false} WithStatusIsFilter(rows: seq<Job>, status: Status)
    requires DistinctIds(rows)
    ensures Elements(WithStatus(rows, status)) == set job | job in rows && job.status == status
    ensures DistinctIds(WithStatus(rows, status))
    decreases |rows|
  {
    if rows != [] {
      var n := |rows| - 1;
      WithStatusIsFilter(rows[..n], status);
      assert rows == rows[..n] + [rows[n]];
      var rest := WithStatus(rows[..n], status);
      assert forall k :: 0 <= k < |rest| ==> rest[k] in Elements(rest);
      assert Elements(WithStatus(rows, status)) == Elements(rest) + if rows[n].status == status then {rows[n]} else {};
    }
  }

  /** `order by enqueued_at, id` over the rows with a status: all of them, each once, oldest first. */
  lemma OldestFirstList(rows: seq<Job>, status: Status)
    requires DistinctIds(rows)
    ensures var list := Sort(OlderFirst, WithStatus(rows, status));
            && Ascending(OlderFirst, list) && DistinctIds(list)
            && (forall job :: job in list <==> job in rows && job.status == status)
  {
    var found := WithStatus(rows, status);
    WithStatusIsFilter(rows, status);
    assert forall a, b :: a in rows && b in rows && a.id == b.id ==> a == b;
    SortSorts(OlderFirst, found);
    var list := Sort(OlderFirst, found);
    assert forall k :: 0 <= k < |list| ==> list[k] in Elements(list);
    assert forall job :: job in list <==> job in Elements(list);
  }

  /** The claim takes the oldest waiting row, and only when there is none does it take nothing. */
  lemma ClaimTakesTheOldest(rows: seq<Job>, now: int) returns (i: nat)
    requires Valid(rows) && Claimed(rows, now) != rows
    ensures i < |rows| && rows[i].status == Pending
    ensures Claimed(rows, now) == rows[i := rows[i].(status := Running, startedAt := Some(now))]
    ensures forall j :: 0 <= j < |rows| && j != i && rows[j].status == Pending ==> OlderFirst(rows[i], rows[j])
    ensures Valid(Claimed(rows, now))
  {
    OldestFirstList(rows, Pending);
    var list := Waiting(rows);
    assert list[0] in list;
    i :| 0 <= i < |rows| && rows[i] == list[0];
    forall j | 0 <= j < |rows| && j != i && rows[j].status == Pending
      ensures OlderFirst(rows[i], rows[j])
    {
      assert rows[j] in list;
      var k :| 0 <= k < |list| && list[k] == rows[j];
      assert k > 0;
    }
    assert Claimed(rows, now) == rows[i := rows[i].(status := Running, startedAt := Some(now))];
    UpdateKeepsValid(rows, i, rows[i].(status := Running, startedAt := Some(now)));
  }

  lemma ClaimIsIdleExactlyWhenNothingWaits(rows: seq<Job>, now: int)
    requires Valid(rows)
    ensures Claimed(rows, now) == rows <==> forall job :: job in rows ==> job.status != Pending
  {
    OldestFirstList(rows, Pending);
    if Waiting(rows) != [] {
      assert Waiting(rows)[0] in Waiting(rows);
      var i :| 0 <= i < |rows| && rows[i] == Waiting(rows)[0];
      assert Claimed(rows, now)[i].status == Running;
    } else {
      forall job | job in rows
        ensures job.status != Pending
      {
        assert job !in Waiting(rows);
      }
    }
  }

  // -------------------------------------------------------------------------------------------
  // The crash count
  // -------------------------------------------------------------------------------------------

  /** How many rows at the end of a history the sweep failed, leaving out the unfinished one. */
  ghost function CrashTail(h: seq<Job>, reason: string): nat {
    if h == [] then 0
    else
      var last := h[|h| - 1];
      if Unfinished(last) then CrashTail(h[..|h| - 1], reason)
      else if SweepFailed(last, reason) then 1 + CrashTail(h[..|h| - 1], reason)
      else 0
  }

  lemma {:induction false} BelowIsPrefix(rows: seq<Job>, pair: Pair, attempt: nat)
    requires attempt >= 1
    requires forall k :: 0 <= k < |History(rows, pair)| ==> History(rows, pair)[k].attempt == k + 1
    ensures Below(rows, pair, attempt) == Take(History(rows, pair), attempt - 1)
    decreases |rows|
  {
    if rows != [] {
      var n := |rows| - 1;
      var h := History(rows, pair);
      var rest := History(rows[..n], pair);
      assert forall k :: 0 <= k < |rest| ==> rest[k] == h[k];
      BelowIsPrefix(rows[..n], pair, attempt);
      if rows[n].pair == pair {
        assert h[|rest|] == rows[n];
      }
    }
  }

  function Reversed(xs: seq<Job>): seq<Job> {
    if xs == [] then [] else [xs[|xs| - 1]] + Reversed(xs[..|xs| - 1])
  }

  lemma {:induction false} ReversedSnoc(x: Job, xs: seq<Job>)
    ensures Reversed([x] + xs) == Reversed(xs) + [x]
    decreases |xs|
  {
    if xs == [] {
      assert [x] + xs == [x];
      assert [x][..0] == [];
      assert Reversed([x]) == [x];
    } else {
      assert ([x] + xs)[..|xs|] == [x] + xs[..|xs| - 1];
      ReversedSnoc(x, xs[..|xs| - 1]);
    }
  }

  lemma {:induction false} InsertLast(x: Job, xs: seq<Job>)
    requires forall k :: 0 <= k < |xs| ==> xs[k].attempt > x.attempt
    ensures InsertSorted(HigherAttempt, x, xs) == xs + [x]
    decreases |xs|
  {
    if xs != [] {
      InsertLast(x, xs[1..]);
    }
  }

  lemma {:induction false} ReversedElements(xs: seq<Job>, k: nat)
    requires k < |Reversed(xs)|
    ensures Reversed(xs)[k] in xs
    decreases |xs|
  {
    if k > 0 {
      ReversedElements(xs[..|xs| - 1], k - 1);
    }
  }

  /** Latest first is the history backwards. */
  lemma {:induction false} SortIsReversed(xs: seq<Job>)
    requires forall i, j :: 0 <= i < j < |xs| ==> xs[i].attempt < xs[j].attempt
    ensures Sort(HigherAttempt, xs) == Reversed(xs)
    decreases |xs|
  {
    if xs != [] {
      SortIsReversed(xs[1..]);
      var rest := Reversed(xs[1..]);
      forall k | 0 <= k < |rest|
        ensures rest[k].attempt > xs[0].attempt
      {
        ReversedElements(xs[1..], k);
      }
      InsertLast(xs[0], rest);
      ReversedSnoc(xs[0], xs[1..]);
      assert xs == [xs[0]] + xs[1..];
    }
  }

  function Min(a: nat, b: nat): nat {
    if a < b then a else b
  }

  lemma {:induction false} LeadingIsTail(h: seq<Job>, reason: string, limit: nat)
    requires forall k :: 0 <= k < |h| ==> !Unfinished(h[k])
    ensures LeadingSweepFailures(Take(Reversed(h), limit), reason) == Min(limit, CrashTail(h, reason))
    decreases |h|
  {
    if h != [] && limit > 0 {
      var taken := Take(Reversed(h), limit);
      assert taken[1..] == Take(Reversed(h[..|h| - 1]), limit - 1);
      LeadingIsTail(h[..|h| - 1], reason, limit - 1);
    }
  }

  /** What the sweep counts for a pair's unfinished row, over attempts alone and whoever enqueued them. */
  lemma ConsecutiveIsTail(rows: seq<Job>, row: Job, reason: string)
    requires Valid(rows) && FindUnfinished(rows, row.pair) == Some(row)
    ensures ConsecutiveSweepFailures(rows, row, reason) == Min(MAX_SWEEP_RECLAIMS, CrashTail(History(rows, row.pair), reason))
  {
    var h := History(rows, row.pair);
    FindUnfinishedIsLast(rows, row.pair);
    var earlier := h[..|h| - 1];
    BelowIsPrefix(rows, row.pair, row.attempt);
    assert Below(rows, row.pair, row.attempt) == earlier;
    SortIsReversed(earlier);
    LeadingIsTail(earlier, reason, MAX_SWEEP_RECLAIMS);
  }

  // -------------------------------------------------------------------------------------------
  // One abandoned row
  // -------------------------------------------------------------------------------------------

  ghost function SweepError(rows: seq<Job>, row: Job, reason: string): string {
    var crashes := ConsecutiveSweepFailures(rows, row, reason) + 1;
    Slice(if crashes >= MAX_SWEEP_RECLAIMS then CapText(reason, crashes) else reason)
  }

  /** The row after the sweep failed it. */
  ghost function SweepFailedRow(rows: seq<Job>, row: Job, reason: string, now: int): Job {
    row.(status := Failed, error := Some(SweepError(rows, row, reason)), finishedAt := Some(now))
  }

  /**
   * Sweeping a running row fails it, and queues the pair's next attempt unless two crashes already
   * stand directly before it. The new row is always a fresh one: nothing is unfinished by then.
   */
  lemma SweptOneEffect(rows: seq<Job>, i: nat, reason: string, id: nat, now: int)
    requires Valid(rows) && i < |rows| && rows[i].status == Running && NewId(rows, id)
    ensures var row := rows[i];
            var failed := rows[i := SweepFailedRow(rows, row, reason, now)];
            && FindUnfinished(rows, row.pair) == Some(row)
            && FindUnfinished(failed, row.pair) == None
            && SweptOne(rows, row, reason, id, now) ==
               (if CrashTail(History(rows, row.pair), reason) >= 2 then failed
                else failed + [NewRow(failed, row.pair, id, row.correlationId, now)])
            && Valid(failed) && Valid(SweptOne(rows, row, reason, id, now))
  {
    var row := rows[i];
    UnfinishedIsFound(rows, i);
    ConsecutiveIsTail(rows, row, reason);
    var error := Some(SweepError(rows, row, reason));
    FinishedAt(rows, row.id, Failed, error, now, i);
    FinishKeepsValid(rows, row.id, Failed, error, now);
    var failed := rows[i := SweepFailedRow(rows, row, reason, now)];
    FailedIsFound(rows, i, failed[i]);
    EnqueueKeepsValid(failed, row.pair, id, row.correlationId, now);
  }

  lemma UnfinishedIsFound(rows: seq<Job>, i: nat)
    requires Valid(rows) && i < |rows| && Unfinished(rows[i])
    ensures FindUnfinished(rows, rows[i].pair) == Some(rows[i])
    ensures |History(rows[..i], rows[i].pair)| == |History(rows, rows[i].pair)| - 1
  {
    HistoryAt(rows, i);
    assert HistoryOk(History(rows, rows[i].pair));
    FindUnfinishedIsLast(rows, rows[i].pair);
  }

  /** Finishing the unfinished row of a pair: its history's last entry changes, and nothing is unfinished. */
  lemma FailedIsFound(rows: seq<Job>, i: nat, job: Job)
    requires Valid(rows) && i < |rows| && Unfinished(rows[i]) && !Unfinished(job)
    requires job.id == rows[i].id && job.pair == rows[i].pair && job.attempt == rows[i].attempt
    ensures FindUnfinished(rows[i := job], job.pair) == None
    ensures var h := History(rows, job.pair);
            h != [] && h[|h| - 1] == rows[i] && History(rows[i := job], job.pair) == h[..|h| - 1] + [job]
  {
    UnfinishedIsFound(rows, i);
    HistoryAt(rows, i);
    HistoryUpdate(rows, i, job, job.pair);
    UpdateKeepsValid(rows, i, job);
    FindUnfinishedIsLast(rows[i := job], job.pair);
  }

  // -------------------------------------------------------------------------------------------
  // A whole sweep
  // -------------------------------------------------------------------------------------------

  ghost predicate NewIds(rows: seq<Job>, ids: seq<nat>) {
    && (forall k :: 0 <= k < |ids| ==> NewId(rows, ids[k]))
    && (forall j, k :: 0 <= j < k < |ids| ==> ids[j] != ids[k])
  }

  /** Part way through: what is done is not running, and what is left is as it was. */
  ghost predicate SweepPoint(before: seq<Job>, list: seq<Job>, k: nat, rows: seq<Job>)
    requires k <= |list|
  {
    && Valid(rows)
    && |before| <= |rows|
    && (forall i :: 0 <= i < |before| ==> rows[i].id == before[i].id && rows[i].pair == before[i].pair)
    && (forall i :: 0 <= i < |before| && before[i] !in list[..k] ==> rows[i] == before[i])
    && (forall i :: 0 <= i < |before| && before[i] in list[..k] ==> rows[i].status == Failed)
    && (forall i :: |before| <= i < |rows| ==> rows[i].status == Pending)
  }

  /** Sweeping one row changes that row and at most appends a pending one. */
  lemma SweptOneFrame(rows: seq<Job>, i: nat, reason: string, id: nat, now: int)
    requires Valid(rows) && i < |rows| && rows[i].status == Running && NewId(rows, id)
    ensures var after := SweptOne(rows, rows[i], reason, id, now);
            && Valid(after) && |rows| <= |after| <= |rows| + 1
            && after[i].status == Failed && after[i].id == rows[i].id && after[i].pair == rows[i].pair
            && (forall j :: 0 <= j < |rows| && j != i ==> after[j] == rows[j])
            && (|after| > |rows| ==> after[|rows|].status == Pending && after[|rows|].id == id)
            && (forall other :: NewId(rows, other) && other != id ==> NewId(after, other))
  {
    hide CapText, HistoryOk;
    SweptOneEffect(rows, i, reason, id, now);
  }

  lemma SweepPointStep(before: seq<Job>, list: seq<Job>, k: nat, i: nat, rows: seq<Job>, after: seq<Job>)
    requires DistinctIds(before) && 0 < k <= |list| && i < |before| && before[i] == list[k - 1]
    requires SweepPoint(before, list, k - 1, rows) && Valid(after) && |rows| <= |after| <= |rows| + 1
    requires after[i].status == Failed && after[i].id == rows[i].id && after[i].pair == rows[i].pair
    requires forall j :: 0 <= j < |rows| && j != i ==> after[j] == rows[j]
    requires |after| > |rows| ==> after[|rows|].status == Pending
    ensures SweepPoint(before, list, k, after)
  {
    assert list[..k] == list[..k - 1] + [list[k - 1]];
    forall j | 0 <= j < |before| && j != i
      ensures before[j] in list[..k] <==> before[j] in list[..k - 1]
    {
      assert before[j].id != before[i].id;
    }
  }

  lemma SweptSnoc(before: seq<Job>, list: seq<Job>, k: nat, reason: string, ids: seq<nat>, now: int)
    requires 0 < k <= |list| <= |ids|
    ensures Swept(before, list[..k], reason, ids, now) ==
            SweptOne(Swept(before, list[..k - 1], reason, ids, now), list[k - 1], reason, ids[k - 1], now)
  {
    hide SweptOne;
    assert list[..k][..k - 1] == list[..k - 1];
  }

  lemma SweepPointAt(before: seq<Job>, list: seq<Job>, k: nat, rows: seq<Job>, i: nat)
    requires k <= |list| && SweepPoint(before, list, k, rows) && i < |before| && before[i] !in list[..k]
    ensures Valid(rows) && i < |rows| && rows[i] == before[i]
  {
  }

  lemma IdsStayNew(rows: seq<Job>, after: seq<Job>, ids: seq<nat>, k: nat)
    requires 0 < k <= |ids| && forall j, m :: 0 <= j < m < |ids| ==> ids[j] != ids[m]
    requires forall m :: k - 1 <= m < |ids| ==> NewId(rows, ids[m])
    requires forall other :: NewId(rows, other) && other != ids[k - 1] ==> NewId(after, other)
    ensures forall m :: k <= m < |ids| ==> NewId(after, ids[m])
  {
  }

  lemma {:induction false} SweepReaches(before: seq<Job>, k: nat, reason: string, ids: seq<nat>, now: int)
    requires Valid(before) && k <= |Abandoned(before)| <= |ids| && NewIds(before, ids)
    ensures SweepPoint(before, Abandoned(before), k, Swept(before, Abandoned(before)[..k], reason, ids, now))
    ensures forall m :: k <= m < |ids| ==> NewId(Swept(before, Abandoned(before)[..k], reason, ids, now), ids[m])
    decreases k
  {
    var list := Abandoned(before);
    if k == 0 {
      hide HistoryOk, History, Abandoned;
    } else {
      SweepReaches(before, k - 1, reason, ids, now);
      var mid := Swept(before, list[..k - 1], reason, ids, now);
      SweptSnoc(before, list, k, reason, ids, now);
      var i := AbandonedRow(before, k - 1);
      SweepPointAt(before, list, k - 1, mid, i);
      SweptOneFrame(mid, i, reason, ids[k - 1], now);
      hide SweptOne, Swept, SweepPoint, History, HistoryOk, NewId, Abandoned;
      SweepPointStep(before, list, k, i, mid, SweptOne(mid, list[k - 1], reason, ids[k - 1], now));
      IdsStayNew(mid, SweptOne(mid, list[k - 1], reason, ids[k - 1], now), ids, k);
    }
  }

  /** An abandoned row is a running row of the table, and it is in the list once. */
  lemma AbandonedRow(rows: seq<Job>, k: nat) returns (i: nat)
    requires Valid(rows) && k < |Abandoned(rows)|
    ensures i < |rows| && rows[i] == Abandoned(rows)[k] && rows[i].status == Running
    ensures rows[i] !in Abandoned(rows)[..k]
  {
    OldestFirstList(rows, Running);
    var list := Abandoned(rows);
    assert list[k] in list;
    i :| 0 <= i < |rows| && rows[i] == list[k];
    assert forall m :: 0 <= m < k ==> list[m].id != list[k].id;
  }

  /** A sweep leaves a valid ledger with nothing running; what it queued is pending. */
  lemma SweepLeavesNothingRunning(rows: seq<Job>, reason: string, ids: seq<nat>, now: int)
    requires Valid(rows) && |Abandoned(rows)| <= |ids| && NewIds(rows, ids)
    ensures var after := Swept(rows, Abandoned(rows), reason, ids, now);
            && Valid(after) && |rows| <= |after|
            && (forall job :: job in after ==> job.status != Running)
            && (forall i :: 0 <= i < |rows| && rows[i].status != Running ==> after[i] == rows[i])
  {
    var list := Abandoned(rows);
    SweepReaches(rows, |list|, reason, ids, now);
    assert list[..|list|] == list;
    OldestFirstList(rows, Running);
    var after := Swept(rows, list, reason, ids, now);
    forall job | job in after
      ensures job.status != Running
    {
      var i :| 0 <= i < |after| && after[i] == job;
      if i < |rows| && rows[i] !in list {
        assert rows[i] in rows;
      }
    }
    forall i | 0 <= i < |rows| && rows[i].status != Running
      ensures after[i] == rows[i]
    {
      assert rows[i] !in list;
    }
  }
}
