/** The pipeline dashboard: the latest attempt of each chain step (packages/db/src/pipeline.ts). */
module Pipeline {
  import opened Runs
  import opened JobLedger
  import opened JobRuns

  const PIPELINE_STEPS: seq<JobStep> :=
    [ProcessAudio, Transcribe, GenerateChapters, GenerateDraft, GenerateQuestions, Embed, CrossReference]

  datatype Recording = Recording(id: nat, title: string, recordedAt: int, createdAt: int)

  /** One row of the left join: a recording and the latest attempt of one of its steps, or none. */
  datatype Joined = Joined(recording: Recording, job: Option<Job>)

  datatype StepRow = StepRow(
    step: JobStep, status: Option<Status>, attempt: Option<nat>, error: Option<string>,
    enqueuedAt: Option<int>, startedAt: Option<int>, finishedAt: Option<int>)

  datatype PipelineRow = PipelineRow(recording: Recording, steps: seq<StepRow>)

  /** `distinct on (recording_id, step) ... order by attempt desc`. */
  function Latest(rows: seq<Job>, pair: Pair): Option<Job> {
    if rows == [] then None
    else
      var last := rows[|rows| - 1];
      var rest := Latest(rows[..|rows| - 1], pair);
      if last.pair != pair then rest
      else if rest.Some? && rest.value.attempt > last.attempt then rest
      else Some(last)
  }

  lemma {:induction false} LatestIsLast(rows: seq<Job>, pair: Pair)
    requires HistoryOk(History(rows, pair))
    ensures var h := History(rows, pair);
            Latest(rows, pair) == if h == [] then None else Some(h[|h| - 1])
    decreases |rows|
  {
    if rows != [] {
      var n := |rows| - 1;
      var h := History(rows, pair);
      var rest := History(rows[..n], pair);
      assert forall k :: 0 <= k < |rest| ==> rest[k] == h[k];
      LatestIsLast(rows[..n], pair);
    }
  }

  function StepOf(step: JobStep, job: Option<Job>): StepRow {
    match job
    case None => StepRow(step, None, None, None, None, None, None)
    case Some(j) => StepRow(step, Some(j.status), Some(j.attempt), j.error, Some(j.enqueuedAt), j.startedAt, j.finishedAt)
  }

  // -------------------------------------------------------------------------------------------
  // The fold
  // -------------------------------------------------------------------------------------------

  /** The recordings of the join in the order they first appear. */
  ghost function Order(rows: seq<Joined>): seq<nat> {
    if rows == [] then []
    else
      var rest := Order(rows[..|rows| - 1]);
      var id := rows[|rows| - 1].recording.id;
      if id in rest then rest else rest + [id]
  }

  /** The last row of the join for a recording and a step. */
  ghost function JobFor(rows: seq<Joined>, id: nat, step: JobStep): Option<Job> {
    if rows == [] then None
    else
      var last := rows[|rows| - 1];
      if last.recording.id == id && last.job.Some? && last.job.value.pair.step == step then last.job
      else JobFor(rows[..|rows| - 1], id, step)
  }

  ghost function FirstRow(rows: seq<Joined>, id: nat): Option<Recording> {
    if rows == [] then None
    else
      var rest := FirstRow(rows[..|rows| - 1], id);
      var last := rows[|rows| - 1].recording;
      if rest.None? && last.id == id then Some(last) else rest
  }

  lemma FoldEmpty()
    ensures Order([]) == []
    ensures forall id :: FirstRow([], id) == None
    ensures forall id, step :: JobFor([], id, step) == None
  {
  }

  /** What one more row of the join changes. */
  lemma FoldSnoc(rows: seq<Joined>, row: Joined)
    ensures Order(rows + [row]) == if row.recording.id in Order(rows) then Order(rows) else Order(rows) + [row.recording.id]
    ensures forall id :: FirstRow(rows + [row], id) ==
              if FirstRow(rows, id).None? && row.recording.id == id then Some(row.recording) else FirstRow(rows, id)
    ensures forall id, step :: JobFor(rows + [row], id, step) ==
              if row.recording.id == id && row.job.Some? && row.job.value.pair.step == step then row.job
              else JobFor(rows, id, step)
  {
    assert (rows + [row])[..|rows|] == rows;
  }

  /** One entry per recording in the join's order, and inside it one entry per chain step. */
  method Assemble(rows: seq<Joined>) returns (out: seq<PipelineRow>)
    ensures |out| == |Order(rows)|
    ensures forall i :: 0 <= i < |out| ==>
              && FirstRow(rows, Order(rows)[i]) == Some(out[i].recording)
              && |out[i].steps| == |PIPELINE_STEPS|
              && forall k :: 0 <= k < |PIPELINE_STEPS| ==>
                   out[i].steps[k] == StepOf(PIPELINE_STEPS[k], JobFor(rows, Order(rows)[i], PIPELINE_STEPS[k]))
  {
    hide Order, FirstRow, JobFor, PIPELINE_STEPS, StepOf;
    FoldEmpty();
    var order: seq<nat> := [];
    var found: map<nat, Recording> := map[];
    var jobs: map<nat, map<JobStep, Job>> := map[];
    for n := 0 to |rows|
      invariant order == Order(rows[..n])
      invariant found.Keys == jobs.Keys == set id | id in order
      invariant forall id :: FirstRow(rows[..n], id) == if id in found then Some(found[id]) else None
      invariant forall id, step :: JobFor(rows[..n], id, step) ==
                  if id in jobs && step in jobs[id] then Some(jobs[id][step]) else None
    {
      assert rows[..n + 1] == rows[..n] + [rows[n]];
      FoldSnoc(rows[..n], rows[n]);
      var row := rows[n];
      var id := row.recording.id;
      if id !in found {
        order := order + [id];
        found := found[id := row.recording];
        jobs := jobs[id := map[]];
      }
      if row.job.Some? {
        jobs := jobs[id := jobs[id][row.job.value.pair.step := row.job.value]];
      }
    }
    assert rows[..|rows|] == rows;

    out := [];
    for i := 0 to |order|
      invariant |out| == i
      invariant forall m :: 0 <= m < i ==>
                  && order[m] in found && out[m].recording == found[order[m]]
                  && |out[m].steps| == |PIPELINE_STEPS|
                  && forall k :: 0 <= k < |PIPELINE_STEPS| ==>
                       out[m].steps[k] == StepOf(PIPELINE_STEPS[k], JobFor(rows, order[m], PIPELINE_STEPS[k]))
    {
      var id := order[i];
      var steps := seq(|PIPELINE_STEPS|, k requires 0 <= k < |PIPELINE_STEPS| =>
        var step := PIPELINE_STEPS[k];
        StepOf(step, if step in jobs[id] then Some(jobs[id][step]) else None));
      out := out + [PipelineRow(found[id], steps)];
    }
  }

  // -------------------------------------------------------------------------------------------
  // What the screen says about the ledger
  // -------------------------------------------------------------------------------------------

  /** `order by recorded_at desc, created_at desc`; recordings equal in both may come back either way round, row by row. */
  predicate Newer(a: Recording, b: Recording) {
    a.recordedAt > b.recordedAt || (a.recordedAt == b.recordedAt && a.createdAt > b.createdAt)
  }

  ghost predicate NewestFirst(rows: seq<Joined>) {
    forall i, j :: 0 <= i < j < |rows| ==> !Newer(rows[j].recording, rows[i].recording)
  }

  /** The left join of the recordings with the latest attempts of their steps, newest first. */
  ghost predicate IsJoin(rows: seq<Joined>, recordings: set<Recording>, ledger: seq<Job>) {
    && (forall a, b :: a in recordings && b in recordings && a.id == b.id ==> a == b)
    && NewestFirst(rows)
    && (forall i :: 0 <= i < |rows| ==>
          && rows[i].recording in recordings
          && (rows[i].job.Some? ==>
                && rows[i].job.value.pair.recording == rows[i].recording.id
                && Latest(ledger, rows[i].job.value.pair) == rows[i].job))
    && (forall r :: r in recordings ==> exists i :: 0 <= i < |rows| && rows[i].recording == r)
    && (forall r, step :: r in recordings && Latest(ledger, Pair(r.id, step)).Some? ==>
          exists i :: 0 <= i < |rows| && rows[i].job == Latest(ledger, Pair(r.id, step)))
  }

  lemma LatestHasThePair(rows: seq<Job>, pair: Pair)
    ensures Latest(rows, pair).Some? ==> Latest(rows, pair).value.pair == pair
  {
  }

  /** The fold meets each id once, and keeps a row of its own for it. */
  lemma {:induction false} OrderHas(rows: seq<Joined>)
    ensures forall id :: id in Order(rows) <==> exists i :: 0 <= i < |rows| && rows[i].recording.id == id
    ensures forall i, j :: 0 <= i < j < |Order(rows)| ==> Order(rows)[i] != Order(rows)[j]
    ensures forall id :: if id in Order(rows) then
                           FirstRow(rows, id).Some? && exists i :: 0 <= i < |rows| && rows[i].recording == FirstRow(rows, id).value
                         else FirstRow(rows, id) == None
    ensures forall id :: id in Order(rows) ==> FirstRow(rows, id).value.id == id
    decreases |rows|
  {
    if rows != [] {
      var n := |rows| - 1;
      OrderHas(rows[..n]);
      forall id
        ensures id in Order(rows) <==> exists i :: 0 <= i < |rows| && rows[i].recording.id == id
      {
        assert id in Order(rows) <==> id in Order(rows[..n]) || id == rows[n].recording.id;
        if i :| 0 <= i < |rows| && rows[i].recording.id == id {
          assert i < n ==> rows[..n][i] == rows[i];
        }
      }
      forall id | id in Order(rows)
        ensures FirstRow(rows, id).Some? && exists i :: 0 <= i < |rows| && rows[i].recording == FirstRow(rows, id).value
      {
        if id in Order(rows[..n]) {
          var i :| 0 <= i < n && rows[..n][i].recording == FirstRow(rows[..n], id).value;
          assert rows[i].recording == FirstRow(rows, id).value;
        } else {
          assert rows[n].recording == FirstRow(rows, id).value;
        }
      }
    }
  }

  /** So the entries stay newest first. */
  lemma {:induction false} OrderIsNewestFirst(rows: seq<Joined>, i: nat, j: nat)
    requires NewestFirst(rows) && i < j < |Order(rows)|
    ensures FirstRow(rows, Order(rows)[i]).Some? && FirstRow(rows, Order(rows)[j]).Some?
    ensures !Newer(FirstRow(rows, Order(rows)[j]).value, FirstRow(rows, Order(rows)[i]).value)
    decreases |rows|
  {
    var n := |rows| - 1;
    OrderHas(rows);
    OrderHas(rows[..n]);
    assert Order(rows)[i] in Order(rows) && Order(rows)[j] in Order(rows);
    assert forall k :: 0 <= k < |Order(rows[..n])| ==> Order(rows)[k] == Order(rows[..n])[k];
    if j < |Order(rows[..n])| {
      OrderIsNewestFirst(rows[..n], i, j);
      assert FirstRow(rows, Order(rows)[i]) == FirstRow(rows[..n], Order(rows)[i]);
    } else {
      var k :| 0 <= k < n && rows[..n][k].recording == FirstRow(rows[..n], Order(rows)[i]).value;
      assert rows[k].recording == FirstRow(rows, Order(rows)[i]).value;
      assert rows[n].recording == FirstRow(rows, Order(rows)[j]).value;
    }
  }

  /** Rows of one step that all carry the same attempt: the fold finds it wherever it stands. */
  lemma {:induction false} JobForIs(rows: seq<Joined>, id: nat, step: JobStep, latest: Option<Job>)
    requires latest.Some? ==> latest.value.pair.step == step
    requires forall i :: 0 <= i < |rows| && rows[i].recording.id == id && rows[i].job.Some? ==>
               rows[i].job.value.pair.step == step ==> rows[i].job == latest
    ensures JobFor(rows, id, step) ==
            if exists i :: 0 <= i < |rows| && rows[i].recording.id == id && rows[i].job.Some? && rows[i].job == latest
            then latest else None
    decreases |rows|
  {
    if rows != [] {
      var n := |rows| - 1;
      assert forall i :: 0 <= i < n ==> rows[..n][i] == rows[i];
      JobForIs(rows[..n], id, step, latest);
      if i :| 0 <= i < |rows| && rows[i].recording.id == id && rows[i].job.Some? && rows[i].job == latest {
        assert i < n ==> rows[..n][i] == rows[i];
      }
    }
  }

  /** The join, read back: one entry a recording, newest first, each step carrying its latest attempt. */
  ghost predicate Reads(rows: seq<Joined>, recordings: set<Recording>, ledger: seq<Job>) {
    && (forall id :: id in Order(rows) <==> exists r :: r in recordings && r.id == id)
    && (forall i, j :: 0 <= i < j < |Order(rows)| ==> Order(rows)[i] != Order(rows)[j])
    && (forall r :: r in recordings ==> FirstRow(rows, r.id) == Some(r))
    && (forall r, step :: r in recordings ==> JobFor(rows, r.id, step) == Latest(ledger, Pair(r.id, step)))
    && (forall i, j :: 0 <= i < j < |Order(rows)|
                       && FirstRow(rows, Order(rows)[i]).Some? && FirstRow(rows, Order(rows)[j]).Some? ==>
          !Newer(FirstRow(rows, Order(rows)[j]).value, FirstRow(rows, Order(rows)[i]).value))
  }

  lemma StepReadsLatest(rows: seq<Joined>, recordings: set<Recording>, ledger: seq<Job>, r: Recording, step: JobStep)
    requires IsJoin(rows, recordings, ledger) && r in recordings
    ensures JobFor(rows, r.id, step) == Latest(ledger, Pair(r.id, step))
  {
    hide JobFor, Latest;
    var latest := Latest(ledger, Pair(r.id, step));
    LatestHasThePair(ledger, Pair(r.id, step));
    forall i | 0 <= i < |rows| && rows[i].recording.id == r.id && rows[i].job.Some? && rows[i].job.value.pair.step == step
      ensures rows[i].job == latest
    {
      assert rows[i].job.value.pair == Pair(r.id, step);
    }
    JobForIs(rows, r.id, step, latest);
    if latest.Some? {
      var i :| 0 <= i < |rows| && rows[i].job == latest;
      assert rows[i].recording.id == r.id;
    }
  }

  /** However the rows of recordings that tie fall between each other. */
  lemma JoinReadsLatest(rows: seq<Joined>, recordings: set<Recording>, ledger: seq<Job>)
    requires IsJoin(rows, recordings, ledger)
    ensures Reads(rows, recordings, ledger)
  {
    hide Order, FirstRow, JobFor, Latest;
    OrderHas(rows);
    forall r, step | r in recordings
      ensures JobFor(rows, r.id, step) == Latest(ledger, Pair(r.id, step))
    {
      StepReadsLatest(rows, recordings, ledger, r, step);
    }
    forall i, j | 0 <= i < j < |Order(rows)|
      ensures FirstRow(rows, Order(rows)[i]).Some? && FirstRow(rows, Order(rows)[j]).Some?
      ensures !Newer(FirstRow(rows, Order(rows)[j]).value, FirstRow(rows, Order(rows)[i]).value)
    {
      OrderIsNewestFirst(rows, i, j);
    }
    forall r | r in recordings
      ensures r.id in Order(rows) && FirstRow(rows, r.id) == Some(r)
    {
      var i :| 0 <= i < |rows| && rows[i].recording == r;
      assert r.id in Order(rows);
    }
  }

  ghost predicate ShowsRow(shown: StepRow, job: Job) {
    && shown.status == Some(job.status) && shown.attempt == Some(job.attempt) && shown.error == job.error
    && shown.enqueuedAt == Some(job.enqueuedAt) && shown.startedAt == job.startedAt && shown.finishedAt == job.finishedAt
  }

  ghost predicate ShowsNothing(shown: StepRow) {
    && shown.status == None && shown.attempt == None && shown.error == None
    && shown.enqueuedAt == None && shown.startedAt == None && shown.finishedAt == None
  }

  /** The latest row of a pair is a row of the ledger above every other attempt of the pair. */
  lemma LatestRow(ledger: seq<Job>, pair: Pair)
    requires Valid(ledger)
    ensures match Latest(ledger, pair)
            case Some(job) =>
              && job in ledger && job.pair == pair
              && forall other :: other in ledger && other.pair == pair && other != job ==> other.attempt < job.attempt
            case None => forall other :: other in ledger ==> other.pair != pair
  {
    var h := History(ledger, pair);
    assert HistoryOk(h);
    LatestIsLast(ledger, pair);
    forall other | other in ledger && other.pair == pair
      ensures h != [] && (other == h[|h| - 1] || other.attempt < |h|)
    {
      var i :| 0 <= i < |ledger| && ledger[i] == other;
      HistoryAt(ledger, i);
    }
    if h != [] {
      var i := HistoryIsRows(ledger, pair, |h| - 1);
      assert ledger[i] in ledger;
    }
  }

  lemma {:induction false} FoundAmong(ledger: seq<Job>, pair: Pair)
    ensures FindUnfinished(ledger, pair).Some? <==>
            exists job :: job in ledger && job.pair == pair && (job.status == Pending || job.status == Running)
    decreases |ledger|
  {
    if ledger != [] {
      var n := |ledger| - 1;
      FoundAmong(ledger[..n], pair);
      assert forall job :: job in ledger <==> job in ledger[..n] || job == ledger[n];
    }
  }

  /**
   * The dashboard of a reachable ledger: a chain step shows pending or running exactly when the
   * ledger holds an unfinished row for it, and then shows that row; it shows nothing exactly when
   * the step was never enqueued. Whatever the status, every column is the highest attempt's own.
   */
  lemma DashboardShowsTheLedger(
    ledger: seq<Job>, rows: seq<Joined>, recordings: set<Recording>, recording: Recording, step: JobStep)
    requires Valid(ledger) && IsJoin(rows, recordings, ledger) && recording in recordings
    ensures var pair := Pair(recording.id, step);
            var shown := StepOf(step, JobFor(rows, recording.id, step));
            && (shown.status == Some(Pending) || shown.status == Some(Running) <==> FindUnfinished(ledger, pair).Some?)
            && (FindUnfinished(ledger, pair).Some? ==>
                  shown.attempt == Some(FindUnfinished(ledger, pair).value.attempt)
                  && shown.status == Some(FindUnfinished(ledger, pair).value.status))
            && (shown.status.None? <==> History(ledger, pair) == [])
            && (shown.attempt.Some? ==> shown.attempt.value == MaxAttempt(ledger, pair))
            && shown.step == step
            && (if exists job :: job in ledger && job.pair == pair then
                  exists job :: job in ledger && job.pair == pair
                    && (forall other :: other in ledger && other.pair == pair && other != job ==> other.attempt < job.attempt)
                    && ShowsRow(shown, job)
                else ShowsNothing(shown))
            && ((exists job :: job in ledger && job.pair == pair && (job.status == Pending || job.status == Running)) <==>
                shown.status == Some(Pending) || shown.status == Some(Running))
  {
    LatestRow(ledger, Pair(recording.id, step));
    FoundAmong(ledger, Pair(recording.id, step));
    var pair := Pair(recording.id, step);
    StepReadsLatest(rows, recordings, ledger, recording, step);
    assert HistoryOk(History(ledger, pair));
    LatestIsLast(ledger, pair);
    FindUnfinishedIsLast(ledger, pair);
    MaxAttemptIsLength(ledger, pair);
  }
}
