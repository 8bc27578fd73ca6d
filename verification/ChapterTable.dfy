/** The `chapter` table, changed in place (packages/db/src/chapters.ts:79-238). */
module ChapterTable {
  import opened Runs
  import opened Ordering
  import opened Chapters

  /** The rows of one run's list, under the ids the database gives them. */
  function Written(recording: nat, list: seq<NewChapter>, generatedBy: string, ids: seq<nat>): Rows
    requires |ids| == |list|
    decreases |list|
  {
    if list == [] then map[]
    else
      var n := |list| - 1;
      Written(recording, list[..n], generatedBy, ids[..n])
        [ids[n] := Chapter(recording, list[n].startMs, list[n].title, list[n].summary, generatedBy, list[n].editedByAdmin)]
  }

  lemma {:induction false} WrittenKeys(recording: nat, list: seq<NewChapter>, generatedBy: string, ids: seq<nat>)
    requires |ids| == |list|
    ensures Written(recording, list, generatedBy, ids).Keys == Elements(ids)
    decreases |list|
  {
    if list != [] {
      var n := |list| - 1;
      WrittenKeys(recording, list[..n], generatedBy, ids[..n]);
      assert ids == ids[..n] + [ids[n]];
      SnocElements(ids[..n], ids[n]);
    }
  }

  lemma {:induction false} WrittenAt(recording: nat, list: seq<NewChapter>, generatedBy: string, ids: seq<nat>, k: nat)
    requires |ids| == |list| && Distinct(ids) && k < |ids|
    ensures var rows := Written(recording, list, generatedBy, ids);
            ids[k] in rows &&
            rows[ids[k]] == Chapter(recording, list[k].startMs, list[k].title, list[k].summary, generatedBy, list[k].editedByAdmin)
    decreases |list|
  {
    var n := |list| - 1;
    if k < n {
      WrittenAt(recording, list[..n], generatedBy, ids[..n], k);
    }
  }

  lemma WrittenRows(recording: nat, list: seq<NewChapter>, generatedBy: string, ids: seq<nat>)
    requires |ids| == |list| && Distinct(ids)
    ensures forall k :: 0 <= k < |ids| ==>
              var rows := Written(recording, list, generatedBy, ids);
              ids[k] in rows &&
              rows[ids[k]] == Chapter(recording, list[k].startMs, list[k].title, list[k].summary, generatedBy, list[k].editedByAdmin)
    ensures Written(recording, list, generatedBy, ids).Keys == Elements(ids)
  {
    WrittenKeys(recording, list, generatedBy, ids);
    forall k | 0 <= k < |ids|
      ensures var rows := Written(recording, list, generatedBy, ids);
              ids[k] in rows &&
              rows[ids[k]] == Chapter(recording, list[k].startMs, list[k].title, list[k].summary, generatedBy, list[k].editedByAdmin)
    {
      WrittenAt(recording, list, generatedBy, ids, k);
    }
  }

  /** What the unique index and the check ask of a run's list. */
  ghost predicate Acceptable(list: seq<NewChapter>) {
    && (forall i :: 0 <= i < |list| ==> list[i].startMs >= 0)
    && (forall i, j :: 0 <= i < j < |list| ==> list[i].startMs != list[j].startMs)
  }

  /** A table without the recording, with a run's list written into it. */
  lemma WithWritten(kept: Rows, recording: nat, list: seq<NewChapter>, generatedBy: string, ids: seq<nat>)
    requires Valid(kept) && OfRecording(kept, recording) == {} && |ids| == |list| && Distinct(ids)
    requires forall id :: id in ids ==> id !in kept
    ensures var rows := kept + Written(recording, list, generatedBy, ids);
            && (Valid(rows) <==> Acceptable(list))
            && (forall id :: id in OfRecording(rows, recording) <==> id in ids)
            && (forall other :: other != recording ==> OfRecording(rows, other) == OfRecording(kept, other))
  {
    WrittenKeys(recording, list, generatedBy, ids);
    var rows := kept + Written(recording, list, generatedBy, ids);
    forall k | 0 <= k < |ids|
      ensures ids[k] in rows && rows[ids[k]].recording == recording && rows[ids[k]].startMs == list[k].startMs
    {
      WrittenAt(recording, list, generatedBy, ids, k);
    }
    hide Written, Distinct;
    forall id
      ensures id in rows <==> id in kept || id in ids
      ensures id in ids ==> id in rows && rows[id].recording == recording
      ensures id in kept ==> id in rows && rows[id] == kept[id] && kept[id].recording != recording
    {
      if id in ids {
        var k :| 0 <= k < |ids| && ids[k] == id;
      }
      if id in kept {
        assert id !in OfRecording(kept, recording);
      }
    }
    hide Valid;
    WrittenIsValid(kept, rows, recording, list, ids);
  }

  /** The table is one the schema accepts exactly when the list is. */
  lemma WrittenIsValid(kept: Rows, rows: Rows, recording: nat, list: seq<NewChapter>, ids: seq<nat>)
    requires Valid(kept) && |ids| == |list| && Distinct(ids)
    requires forall id :: id in rows <==> id in kept || id in ids
    requires forall id :: id in kept && id !in ids ==> rows[id] == kept[id] && kept[id].recording != recording
    requires forall k :: 0 <= k < |ids| ==> ids[k] in rows && rows[ids[k]].recording == recording && rows[ids[k]].startMs == list[k].startMs
    ensures Valid(rows) <==> Acceptable(list)
  {
    if Acceptable(list) {
      AcceptableIsValid(kept, rows, recording, list, ids);
    } else if i :| 0 <= i < |list| && list[i].startMs < 0 {
      assert !(rows[ids[i]].startMs >= 0);
    } else {
      var i, j :| 0 <= i < j < |list| && list[i].startMs == list[j].startMs;
      assert rows[ids[i]].startMs == rows[ids[j]].startMs && ids[i] != ids[j];
    }
  }

  lemma AcceptableIsValid(kept: Rows, rows: Rows, recording: nat, list: seq<NewChapter>, ids: seq<nat>)
    requires Valid(kept) && |ids| == |list| && Acceptable(list)
    requires forall id :: id in rows <==> id in kept || id in ids
    requires forall id :: id in kept && id !in ids ==> rows[id] == kept[id] && kept[id].recording != recording
    requires forall k :: 0 <= k < |ids| ==> ids[k] in rows && rows[ids[k]].recording == recording && rows[ids[k]].startMs == list[k].startMs
    ensures Valid(rows)
  {
    forall a, b | a in rows && b in rows && a != b && rows[a].recording == rows[b].recording
      ensures rows[a].startMs != rows[b].startMs
    {
      if a in ids && b in ids {
        var i :| 0 <= i < |ids| && ids[i] == a;
        var j :| 0 <= j < |ids| && ids[j] == b;
      }
    }
    forall a | a in rows
      ensures rows[a].startMs >= 0
    {
      if a in ids {
        var i :| 0 <= i < |ids| && ids[i] == a;
      }
    }
  }

  // -------------------------------------------------------------------------------------------
  // The writes
  // -------------------------------------------------------------------------------------------

  datatype Write =
    | Replace(recording: nat, list: seq<NewChapter>, generatedBy: string, ids: seq<nat>)
    | Edit(id: nat, title: string, summary: string, startMs: int)
    | Split(id: nat, row: Chapter)
    | Merge(id: nat)

  /** The recording's rows out and the run's in, unless the schema refuses one of them. */
  function Replaced(rows: Rows, recording: nat, list: seq<NewChapter>, generatedBy: string, ids: seq<nat>): Rows
    requires |ids| == |list|
  {
    var next := (rows - OfRecording(rows, recording)) + Written(recording, list, generatedBy, ids);
    if Valid(next) then next else rows
  }

  function Edited(rows: Rows, id: nat, title: string, summary: string, startMs: int): Rows {
    if id in rows && StartIsFree(rows, rows[id].recording, startMs, Some(id)) then
      rows[id := rows[id].(title := title, summary := summary, startMs := startMs, editedByAdmin := true)]
    else rows
  }

  /** `None` only where the ids given to new rows are not new. A write the schema refuses changes nothing. */
  ghost function Apply(rows: Rows, write: Write): Option<Rows> {
    match write
    case Replace(recording, list, generatedBy, ids) =>
      if |ids| == |list| && Distinct(ids) && (forall id :: id in ids ==> id !in rows) then
        Some(Replaced(rows, recording, list, generatedBy, ids))
      else None
    case Edit(id, title, summary, startMs) => Some(Edited(rows, id, title, summary, startMs))
    case Split(id, row) =>
      if id in rows then None
      else Some(if StartIsFree(rows, row.recording, row.startMs, None) then rows[id := row] else rows)
    case Merge(id) => Some(rows - {id})
  }

  lemma ApplyKeepsValid(rows: Rows, write: Write)
    requires Valid(rows) && Apply(rows, write).Some?
    ensures Valid(Apply(rows, write).value)
  {
    hide Written, Distinct;
  }

  lemma {:induction false} RunKeepsValid(rows: Rows, writes: seq<Write>)
    requires Valid(rows) && Run(Apply, rows, writes).Some?
    ensures Valid(Run(Apply, rows, writes).value)
    decreases |writes|
  {
    hide Apply, Valid;
    if writes != [] {
      ApplyKeepsValid(rows, writes[0]);
      RunKeepsValid(Apply(rows, writes[0]).value, writes[1..]);
    }
  }

  /**
   * After any sequence of replaces, edits, splits and merges, every instant from a recording's first
   * start on lies in exactly one derived span, and the query picks that chapter and no other.
   */
  lemma EveryInstantHasItsChapter(writes: seq<Write>, recording: nat, lastEnd: int, offset: int)
    requires Run(Apply, map[], writes).Some?
    ensures var rows := Run(Apply, map[], writes).value;
            && Valid(rows)
            && (Listing(rows, recording) != [] && StartAt(rows, recording, 0) <= offset < lastEnd ==>
                  && (exists i: nat :: InSpan(rows, recording, i, lastEnd, offset))
                  && (forall i: nat, j: nat ::
                        InSpan(rows, recording, i, lastEnd, offset) && InSpan(rows, recording, j, lastEnd, offset) ==> i == j)
                  && (forall i: nat :: i < |Listing(rows, recording)| ==>
                        (Picks(rows, recording, offset, Listing(rows, recording)[i]) <==>
                         InSpan(rows, recording, i, lastEnd, offset))))
  {
    RunKeepsValid(map[], writes);
    var rows := Run(Apply, map[], writes).value;
    hide Apply, Valid, Listing, StartAt, InSpan, Picks;
    if Listing(rows, recording) != [] && StartAt(rows, recording, 0) <= offset < lastEnd {
      SpansTile(rows, recording, lastEnd, offset);
      forall i: nat | i < |Listing(rows, recording)|
        ensures Picks(rows, recording, offset, Listing(rows, recording)[i]) <==> InSpan(rows, recording, i, lastEnd, offset)
      {
        QueryPicksTheSpan(rows, recording, lastEnd, offset, Listing(rows, recording)[i], i);
      }
    }
  }

  lemma SplitFacts(rows: Rows, id: nat, row: Chapter)
    requires Valid(rows) && id !in rows
    ensures StartIsFree(rows, row.recording, row.startMs, None) <==>
            row.startMs >= 0
            && forall other :: other in rows && rows[other].startMs == row.startMs ==> rows[other].recording != row.recording
    ensures StartIsFree(rows, row.recording, row.startMs, None) ==>
              Valid(rows[id := row]) && rows[id := row] - {id} == rows
  {
    if StartIsFree(rows, row.recording, row.startMs, None) {
      SplitThenMergeRestores(rows, id, row, row.recording);
    }
    hide Valid;
  }

  class ChapterTable {
    var rows: Rows

    constructor ()
      ensures rows == map[] && Valid(rows)
    {
      rows := map[];
    }

    /**
     * Deletes the recording's list and inserts the run's, in one transaction: all of it or, when a
     * row is refused, none of it. An empty list deletes everything.
     */
    method ReplaceChapters(recording: nat, list: seq<NewChapter>, generatedBy: string, ids: seq<nat>) returns (ok: bool)
      requires Valid(rows) && |ids| == |list| && Distinct(ids) && forall id :: id in ids ==> id !in rows
      modifies this
      ensures Valid(rows)
      ensures ok <==> Acceptable(list)
      ensures Apply(old(rows), Replace(recording, list, generatedBy, ids)) == Some(rows)
      ensures !ok ==> rows == old(rows)
      ensures ok ==> forall id :: id in OfRecording(rows, recording) <==> id in ids
      ensures ok ==> forall other :: other != recording ==> OfRecording(rows, other) == OfRecording(old(rows), other)
      ensures ok ==> forall k :: 0 <= k < |ids| ==>
                ids[k] in rows
                && rows[ids[k]] == Chapter(recording, list[k].startMs, list[k].title, list[k].summary, generatedBy, list[k].editedByAdmin)
      ensures ok ==> forall id :: id in rows && id !in ids ==>
                id in old(rows) && rows[id] == old(rows)[id] && old(rows)[id].recording != recording
      ensures ok ==> forall id :: id in old(rows) && old(rows)[id].recording != recording ==> id in rows
    {
      var before := rows;
      WrittenRows(recording, list, generatedBy, ids);
      rows := rows - OfRecording(rows, recording);
      WithWritten(rows, recording, list, generatedBy, ids);
      assert forall other :: other != recording ==> OfRecording(rows, other) == OfRecording(before, other);
      rows := rows + Written(recording, list, generatedBy, ids);
      ok := Valid(rows);
      if !ok {
        rows := before;
      }
    }

    /** An edit by hand: refused, leaving every row alone, when there is no such row or its new start is taken. */
    method UpdateChapter(id: nat, title: string, summary: string, startMs: int) returns (ok: bool)
      requires Valid(rows)
      modifies this
      ensures Valid(rows)
      ensures ok <==> id in old(rows) && StartIsFree(old(rows), old(rows)[id].recording, startMs, Some(id))
      ensures ok <==> id in old(rows) && startMs >= 0
                      && forall other :: other in old(rows) && other != id && old(rows)[other].startMs == startMs ==>
                           old(rows)[other].recording != old(rows)[id].recording
      ensures ok ==> id in rows && rows[id] == Chapter(old(rows)[id].recording, startMs, title, summary, old(rows)[id].generatedBy, true)
      ensures !ok ==> rows == old(rows)
      ensures Apply(old(rows), Edit(id, title, summary, startMs)) == Some(rows)
      ensures ok ==> rows.Keys == old(rows).Keys && rows[id].editedByAdmin
      ensures forall other :: other in old(rows) && other != id ==> other in rows && rows[other] == old(rows)[other]
    {
      ok := id in rows && StartIsFree(rows, rows[id].recording, startMs, Some(id));
      if ok {
        rows := rows[id := rows[id].(title := title, summary := summary, startMs := startMs, editedByAdmin := true)];
      }
    }

    /** A split: one new boundary, refused where a chapter already starts. */
    method InsertChapter(id: nat, row: Chapter) returns (ok: bool)
      requires Valid(rows) && id !in rows
      modifies this
      ensures Valid(rows)
      ensures ok <==> StartIsFree(old(rows), row.recording, row.startMs, None)
      ensures ok <==> row.startMs >= 0
                      && forall other :: other in old(rows) && old(rows)[other].startMs == row.startMs ==>
                           old(rows)[other].recording != row.recording
      ensures ok ==> id in rows && rows[id] == row
      ensures !ok ==> rows == old(rows)
      ensures Apply(old(rows), Split(id, row)) == Some(rows)
      ensures ok ==> rows - {id} == old(rows)
    {
      SplitFacts(rows, id, row);
      ok := StartIsFree(rows, row.recording, row.startMs, None);
      hide Valid, StartIsFree;
      if ok {
        rows := rows[id := row];
      }
    }

    /** A merge: one boundary removed, and nothing written to the chapter before it. */
    method DeleteChapter(id: nat) returns (gone: bool)
      requires Valid(rows)
      modifies this
      ensures Valid(rows) && gone == (id in old(rows)) && Apply(old(rows), Merge(id)) == Some(rows)
      ensures id !in rows
      ensures forall other :: other != id ==>
                (other in rows <==> other in old(rows)) && (other in rows ==> rows[other] == old(rows)[other])
    {
      gone := id in rows;
      rows := rows - {id};
    }
  }
}
