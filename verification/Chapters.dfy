/**
 * Chapters as starts only (packages/db/src/chapters.ts:79-238, packages/db/src/schema.ts:1358-1369):
 * the table, the spans derived from it, and the chapter an instant falls in.
 */
module Chapters {
  import opened Runs
  import opened Ordering

  datatype Chapter = Chapter(
    recording: nat, startMs: int, title: string, summary: string, generatedBy: string, editedByAdmin: bool)

  datatype NewChapter = NewChapter(startMs: int, title: string, summary: string, editedByAdmin: bool)

  type Rows = map<nat, Chapter>

  /** `chapter_recording_start_unique` and `chapter_start_non_negative`. */
  predicate Valid(rows: Rows) {
    && (forall id :: id in rows ==> rows[id].startMs >= 0)
    && (forall a, b :: a in rows && b in rows && a != b && rows[a].recording == rows[b].recording ==>
          rows[a].startMs != rows[b].startMs)
  }

  function OfRecording(rows: Rows, recording: nat): set<nat> {
    set id | id in rows && rows[id].recording == recording
  }

  /** No other chapter of the recording starts there, and the start is not negative. */
  predicate StartIsFree(rows: Rows, recording: nat, startMs: int, self: Option<nat>) {
    startMs >= 0 &&
    forall id :: id in rows && rows[id].recording == recording && Some(id) != self ==> rows[id].startMs != startMs
  }

  predicate ByStart(rows: Rows, a: nat, b: nat) {
    a in rows && b in rows && rows[a].startMs < rows[b].startMs
  }

  ghost function StartOrder(rows: Rows): (nat, nat) -> bool {
    (a: nat, b: nat) => ByStart(rows, a, b)
  }

  lemma StartOrderIsTotal(rows: Rows, recording: nat)
    requires Valid(rows)
    ensures StrictTotal(StartOrder(rows), OfRecording(rows, recording))
  {
  }

  /** `listChapters`: the recording's chapters by start. */
  ghost function Listing(rows: Rows, recording: nat): (ids: seq<nat>)
    requires Valid(rows)
    ensures Elements(ids) == OfRecording(rows, recording)
  {
    StartOrderIsTotal(rows, recording);
    Sorted(StartOrder(rows), OfRecording(rows, recording))
  }

  ghost function StartAt(rows: Rows, recording: nat, i: nat): int
    requires Valid(rows) && i < |Listing(rows, recording)|
  {
    assert Listing(rows, recording)[i] in Elements(Listing(rows, recording));
    rows[Listing(rows, recording)[i]].startMs
  }

  lemma ListingRises(rows: Rows, recording: nat, i: nat, j: nat)
    requires Valid(rows) && i < |Listing(rows, recording)| && j < |Listing(rows, recording)|
    ensures i < j ==> StartAt(rows, recording, i) < StartAt(rows, recording, j)
    ensures i > j ==> StartAt(rows, recording, i) > StartAt(rows, recording, j)
  {
    StartOrderIsTotal(rows, recording);
    var ids := Listing(rows, recording);
    assert i < j ==> StartOrder(rows)(ids[i], ids[j]);
    assert i > j ==> StartOrder(rows)(ids[j], ids[i]);
  }

  lemma PlaceInListing(rows: Rows, recording: nat, id: nat) returns (i: nat)
    requires Valid(rows) && id in rows && rows[id].recording == recording
    ensures i < |Listing(rows, recording)| && Listing(rows, recording)[i] == id
    ensures StartAt(rows, recording, i) == rows[id].startMs
  {
    hide Listing;
    assert id in Elements(Listing(rows, recording));
    i :| 0 <= i < |Listing(rows, recording)| && Listing(rows, recording)[i] == id;
  }

  lemma ListedRow(rows: Rows, recording: nat, i: nat)
    requires Valid(rows) && i < |Listing(rows, recording)|
    ensures Listing(rows, recording)[i] in rows && rows[Listing(rows, recording)[i]].recording == recording
    ensures rows[Listing(rows, recording)[i]].startMs == StartAt(rows, recording, i)
  {
    hide Listing;
    assert Listing(rows, recording)[i] in Elements(Listing(rows, recording));
  }

  // -------------------------------------------------------------------------------------------
  // Spans
  // -------------------------------------------------------------------------------------------

  /** Where the chapter at a place in the listing ends: where the next one starts, and the last at `lastEnd`. */
  ghost function EndAt(rows: Rows, recording: nat, i: nat, lastEnd: int): int
    requires Valid(rows) && i < |Listing(rows, recording)|
  {
    if i + 1 < |Listing(rows, recording)| then StartAt(rows, recording, i + 1) else lastEnd
  }

  ghost predicate InSpan(rows: Rows, recording: nat, i: nat, lastEnd: int, offset: int)
    requires Valid(rows)
  {
    i < |Listing(rows, recording)| && StartAt(rows, recording, i) <= offset < EndAt(rows, recording, i, lastEnd)
  }

  /** No instant is in two spans, wherever the last one ends. */
  lemma SpansDoNotOverlap(rows: Rows, recording: nat, lastEnd: int, offset: int, i: nat, j: nat)
    requires Valid(rows) && InSpan(rows, recording, i, lastEnd, offset) && InSpan(rows, recording, j, lastEnd, offset)
    ensures i == j
  {
    hide Listing, StartAt;
    var first, second := if i < j then i else j, if i < j then j else i;
    if first + 1 < |Listing(rows, recording)| {
      ListingRises(rows, recording, first + 1, second);
    }
  }

  /** The last place in the listing whose start is not after the instant. */
  lemma {:induction false} PlaceOf(rows: Rows, recording: nat, offset: int, upTo: nat) returns (i: nat)
    requires Valid(rows) && upTo < |Listing(rows, recording)| && StartAt(rows, recording, 0) <= offset
    ensures i <= upTo && StartAt(rows, recording, i) <= offset
    ensures i < upTo ==> StartAt(rows, recording, i + 1) > offset
    decreases upTo
  {
    hide Listing, StartAt;
    if StartAt(rows, recording, upTo) <= offset {
      i := upTo;
    } else {
      i := PlaceOf(rows, recording, offset, upTo - 1);
    }
  }

  /**
   * The spans tile: an instant is in some span, and then in exactly one, exactly when it is not before
   * the first start and is before the last start or the end.
   */
  lemma SpansTile(rows: Rows, recording: nat, lastEnd: int, offset: int)
    requires Valid(rows) && Listing(rows, recording) != []
    ensures (exists i: nat :: InSpan(rows, recording, i, lastEnd, offset)) <==>
            && StartAt(rows, recording, 0) <= offset
            && (offset < StartAt(rows, recording, |Listing(rows, recording)| - 1) || offset < lastEnd)
    ensures forall i: nat, j: nat ::
              InSpan(rows, recording, i, lastEnd, offset) && InSpan(rows, recording, j, lastEnd, offset) ==> i == j
  {
    hide Listing, StartAt;
    forall i: nat, j: nat | InSpan(rows, recording, i, lastEnd, offset) && InSpan(rows, recording, j, lastEnd, offset)
      ensures i == j
    {
      SpansDoNotOverlap(rows, recording, lastEnd, offset, i, j);
    }
    var n := |Listing(rows, recording)|;
    forall i: nat | InSpan(rows, recording, i, lastEnd, offset)
      ensures StartAt(rows, recording, 0) <= offset && (offset < StartAt(rows, recording, n - 1) || offset < lastEnd)
    {
      ListingRises(rows, recording, 0, i);
      if i + 1 < n { ListingRises(rows, recording, i + 1, n - 1); }
    }
    if StartAt(rows, recording, 0) <= offset && (offset < StartAt(rows, recording, n - 1) || offset < lastEnd) {
      var i := PlaceOf(rows, recording, offset, n - 1);
      assert InSpan(rows, recording, i, lastEnd, offset);
    }
  }

  // -------------------------------------------------------------------------------------------
  // The chapter an instant falls in, as a query
  // -------------------------------------------------------------------------------------------

  /** A chapter with no nearer start at or before the instant. */
  predicate Picks(rows: Rows, recording: nat, offset: int, id: nat) {
    && id in rows && rows[id].recording == recording && rows[id].startMs <= offset
    && !exists nearer :: nearer in rows && rows[nearer].recording == recording
                         && rows[nearer].startMs <= offset && rows[nearer].startMs > rows[id].startMs
  }

  /** The query picks the chapter whose span the instant is in, when the last span runs on past it. */
  lemma QueryPicksTheSpan(rows: Rows, recording: nat, lastEnd: int, offset: int, id: nat, i: nat)
    requires Valid(rows) && offset < lastEnd
    requires i < |Listing(rows, recording)| && Listing(rows, recording)[i] == id
    ensures Picks(rows, recording, offset, id) <==> InSpan(rows, recording, i, lastEnd, offset)
  {
    hide Listing, StartAt;
    ListedRow(rows, recording, i);
    if i + 1 < |Listing(rows, recording)| {
      ListingRises(rows, recording, i, i + 1);
      ListedRow(rows, recording, i + 1);
    }
    if InSpan(rows, recording, i, lastEnd, offset) {
      forall nearer | nearer in rows && rows[nearer].recording == recording && rows[nearer].startMs > rows[id].startMs
        ensures rows[nearer].startMs > offset
      {
        var j := PlaceInListing(rows, recording, nearer);
        ListingRises(rows, recording, i, j);
        ListingRises(rows, recording, i + 1, j);
      }
    }
  }

  /** From the first start on, the query always answers, and with one chapter. */
  lemma QueryPicksOne(rows: Rows, recording: nat, offset: int)
    requires Valid(rows)
    ensures (exists id :: Picks(rows, recording, offset, id)) <==>
            exists id :: id in rows && rows[id].recording == recording && rows[id].startMs <= offset
    ensures forall a, b :: Picks(rows, recording, offset, a) && Picks(rows, recording, offset, b) ==> a == b
  {
    hide Listing, StartAt, InSpan;
    forall a, b | Picks(rows, recording, offset, a) && Picks(rows, recording, offset, b)
      ensures a == b
    {
    }
    if id :| id in rows && rows[id].recording == recording && rows[id].startMs <= offset {
      var k := PlaceInListing(rows, recording, id);
      ListingRises(rows, recording, 0, k);
      SpansTile(rows, recording, offset + 1, offset);
      var i: nat :| InSpan(rows, recording, i, offset + 1, offset);
      assert i < |Listing(rows, recording)| by { InSpanIsListed(rows, recording, i, offset + 1, offset); }
      QueryPicksTheSpan(rows, recording, offset + 1, offset, Listing(rows, recording)[i], i);
    }
  }

  lemma InSpanIsListed(rows: Rows, recording: nat, i: nat, lastEnd: int, offset: int)
    requires Valid(rows) && InSpan(rows, recording, i, lastEnd, offset)
    ensures i < |Listing(rows, recording)|
  {
  }

  // -------------------------------------------------------------------------------------------
  // Split and merge
  // -------------------------------------------------------------------------------------------

  /** A new boundary takes over exactly the instants from it to the next start, and nothing else moves. */
  lemma SplitCutsOneSpan(rows: Rows, newId: nat, row: Chapter, offset: int, id: nat, recording: nat)
    requires Valid(rows) && newId !in rows && StartIsFree(rows, row.recording, row.startMs, None)
    ensures Valid(rows[newId := row])
    ensures id != newId ==>
              (Picks(rows[newId := row], recording, offset, id) <==>
               Picks(rows, recording, offset, id)
               && (recording != row.recording || offset < row.startMs || rows[id].startMs > row.startMs))
    ensures Picks(rows[newId := row], row.recording, offset, newId) <==>
            row.startMs <= offset
            && forall other :: Picks(rows, row.recording, offset, other) ==> rows[other].startMs < row.startMs
  {
    var after := rows[newId := row];
    assert forall other :: other in after <==> other in rows || other == newId;
    assert Valid(after);
    QueryPicksOne(rows, row.recording, offset);
    hide Valid;
    forall nearer | nearer in rows && rows[nearer].recording == row.recording && rows[nearer].startMs <= offset
      ensures exists other :: Picks(rows, row.recording, offset, other) && rows[nearer].startMs <= rows[other].startMs
    {
      var other :| Picks(rows, row.recording, offset, other);
      assert rows[nearer].startMs <= rows[other].startMs;
    }
  }

  /**
   * Joining a chapter to the one before: exactly its own instants go to the chapter before it, or to
   * none when it was the first, and every other instant stays where it was.
   */
  lemma MergeGivesTheSpanBack(rows: Rows, gone: nat, offset: int, id: nat, recording: nat)
    requires Valid(rows) && gone in rows && id != gone
    ensures Valid(rows - {gone})
    ensures Picks(rows - {gone}, recording, offset, id) <==>
            || Picks(rows, recording, offset, id)
            || (Picks(rows, recording, offset, gone) && IsBefore(rows, id, gone))
    ensures Picks(rows, recording, offset, gone) ==>
              ((forall other :: !Picks(rows - {gone}, recording, offset, other)) <==>
               (forall other :: !IsBefore(rows, other, gone)))
  {
    var after := rows - {gone};
    assert forall other :: other in after <==> other in rows && other != gone;
    PicksAfterMerge(rows, gone, offset, id, recording);
    if Picks(rows, recording, offset, gone) {
      forall other
        ensures Picks(after, recording, offset, other) <==> IsBefore(rows, other, gone)
      {
        if other != gone {
          PicksAfterMerge(rows, gone, offset, other, recording);
        }
      }
    }
  }

  /** The chapter before another one: the nearest earlier start of the same recording. */
  predicate IsBefore(rows: Rows, id: nat, next: nat) {
    && id in rows && next in rows && rows[id].recording == rows[next].recording
    && rows[id].startMs < rows[next].startMs
    && !exists other :: other in rows && rows[other].recording == rows[next].recording
                        && rows[id].startMs < rows[other].startMs < rows[next].startMs
  }

  lemma PicksAfterMerge(rows: Rows, gone: nat, offset: int, id: nat, recording: nat)
    requires Valid(rows) && gone in rows && id != gone
    ensures Picks(rows - {gone}, recording, offset, id) <==>
            || Picks(rows, recording, offset, id)
            || (Picks(rows, recording, offset, gone) && IsBefore(rows, id, gone))
  {
    var after := rows - {gone};
    assert forall other :: other in after <==> other in rows && other != gone;
  }

  /** Joining a chapter to the one before gives back the table, the listing and every span as they were before the split. */
  lemma SplitThenMergeRestores(rows: Rows, newId: nat, row: Chapter, recording: nat)
    requires Valid(rows) && newId !in rows && StartIsFree(rows, row.recording, row.startMs, None)
    ensures rows[newId := row] - {newId} == rows && Valid(rows[newId := row])
    ensures Listing(rows[newId := row] - {newId}, recording) == Listing(rows, recording)
    ensures |Listing(rows[newId := row], row.recording)| == |Listing(rows, row.recording)| + 1
  {
    var after := rows[newId := row];
    assert after - {newId} == rows;
    SplitCutsOneSpan(rows, newId, row, 0, newId, recording);
    StartOrderIsTotal(rows, row.recording);
    StartOrderIsTotal(after, row.recording);
    assert OfRecording(after, row.recording) == OfRecording(rows, row.recording) + {newId};
  }
}
