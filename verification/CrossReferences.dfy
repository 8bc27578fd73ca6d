/**
 * Cross-references stored in both directions (packages/db/src/cross-references.ts:147-296,
 * packages/db/src/schema.ts:1994-2043).
 */
module CrossReferences {
  import opened Runs

  datatype Basis = Semantic

  datatype Row = Row(
    sourceRecording: nat, sourceSegment: nat, targetRecording: nat, targetSegment: nat,
    score: real, basis: Basis, computedFor: nat)

  datatype NewLink = NewLink(
    sourceRecording: nat, sourceSegment: nat, targetRecording: nat, targetSegment: nat, score: real, basis: Basis)

  function RowFor(link: NewLink, run: nat): Row {
    Row(link.sourceRecording, link.sourceSegment, link.targetRecording, link.targetSegment, link.score, link.basis, run)
  }

  function Mirror(row: Row): Row {
    row.(sourceRecording := row.targetRecording, sourceSegment := row.targetSegment,
         targetRecording := row.sourceRecording, targetSegment := row.sourceSegment)
  }

  // -------------------------------------------------------------------------------------------
  // The table
  // -------------------------------------------------------------------------------------------

  /** The three checks. */
  predicate Checked(row: Row) {
    && 0.0 <= row.score <= 1.0 && row.sourceRecording != row.targetRecording
    && (row.computedFor == row.sourceRecording || row.computedFor == row.targetRecording)
  }

  /** `cross_reference_pair_per_run_unique`. */
  predicate SameKey(a: Row, b: Row) {
    a.sourceSegment == b.sourceSegment && a.targetSegment == b.targetSegment && a.computedFor == b.computedFor
  }

  ghost predicate Valid(rows: set<Row>) {
    && (forall row :: row in rows ==> Checked(row))
    && (forall a, b :: a in rows && b in rows && SameKey(a, b) ==> a == b)
  }

  /** Whatever is stored is stored the other way round too, with the same score, basis and owner. */
  ghost predicate Closed(rows: set<Row>) {
    forall row :: row in rows ==> Mirror(row) in rows
  }

  function Owned(rows: set<Row>, run: nat): set<Row> {
    set row | row in rows && row.computedFor == run
  }

  // -------------------------------------------------------------------------------------------
  // A run's rows
  // -------------------------------------------------------------------------------------------

  /** The rows of the insert: each link and its mirror. */
  function Entries(links: seq<NewLink>, run: nat): seq<Row> {
    seq(2 * |links|, k requires 0 <= k < 2 * |links| =>
      if k % 2 == 0 then RowFor(links[k / 2], run) else Mirror(RowFor(links[k / 2], run)))
  }

  predicate Insertable(entries: seq<Row>) {
    && (forall k :: 0 <= k < |entries| ==> Checked(entries[k]))
    && (forall j, k :: 0 <= j < k < |entries| ==> !SameKey(entries[j], entries[k]))
  }

  predicate SamePair(a: NewLink, b: NewLink) {
    || (a.sourceSegment == b.sourceSegment && a.targetSegment == b.targetSegment)
    || (a.sourceSegment == b.targetSegment && a.targetSegment == b.sourceSegment)
  }

  /** What a run may write: links between two teachings, one of them its own, each pair of passages once. */
  ghost predicate GoodRun(links: seq<NewLink>, run: nat) {
    && (forall i :: 0 <= i < |links| ==>
          Checked(RowFor(links[i], run)) && links[i].sourceSegment != links[i].targetSegment)
    && (forall i, j :: 0 <= i < j < |links| ==> !SamePair(links[i], links[j]))
  }

  lemma EntryPair(links: seq<NewLink>, run: nat, i: nat)
    requires i < |links|
    ensures |Entries(links, run)| == 2 * |links|
    ensures Entries(links, run)[2 * i] == RowFor(links[i], run)
    ensures Entries(links, run)[2 * i + 1] == Mirror(RowFor(links[i], run))
  {
  }

  /** The schema takes the run's rows exactly when it says each pair of passages once. */
  lemma InsertableExactlyWhenGood(links: seq<NewLink>, run: nat)
    ensures Insertable(Entries(links, run)) <==> GoodRun(links, run)
  {
    var entries := Entries(links, run);
    if GoodRun(links, run) {
      forall k | 0 <= k < |entries|
        ensures Checked(entries[k])
      {
        assert Checked(RowFor(links[k / 2], run));
      }
      forall j, k | 0 <= j < k < |entries|
        ensures !SameKey(entries[j], entries[k])
      {
        if j / 2 == k / 2 {
          assert links[j / 2].sourceSegment != links[j / 2].targetSegment;
        } else {
          assert !SamePair(links[j / 2], links[k / 2]);
        }
      }
    }
    if Insertable(entries) {
      forall i | 0 <= i < |links|
        ensures Checked(RowFor(links[i], run)) && links[i].sourceSegment != links[i].targetSegment
      {
        EntryPair(links, run, i);
        assert !SameKey(entries[2 * i], entries[2 * i + 1]);
      }
      forall i, j | 0 <= i < j < |links|
        ensures !SamePair(links[i], links[j])
      {
        EntryPair(links, run, i);
        EntryPair(links, run, j);
        assert !SameKey(entries[2 * i], entries[2 * j]);
        assert !SameKey(entries[2 * i], entries[2 * j + 1]);
      }
    }
  }

  function RowsOf(links: seq<NewLink>, run: nat): set<Row> {
    set k | 0 <= k < 2 * |links| :: Entries(links, run)[k]
  }

  /** A run's rows are its links and their mirrors, and nothing else. */
  lemma RowsOfAre(links: seq<NewLink>, run: nat, row: Row)
    ensures row in RowsOf(links, run) <==>
            exists i :: 0 <= i < |links| && (row == RowFor(links[i], run) || row == Mirror(RowFor(links[i], run)))
    ensures row in RowsOf(links, run) ==> Mirror(row) in RowsOf(links, run) && row.computedFor == run
  {
    var entries := Entries(links, run);
    if i :| 0 <= i < |links| && (row == RowFor(links[i], run) || row == Mirror(RowFor(links[i], run))) {
      EntryPair(links, run, i);
      assert entries[2 * i] in RowsOf(links, run) && entries[2 * i + 1] in RowsOf(links, run);
    }
    if row in RowsOf(links, run) {
      var k :| 0 <= k < 2 * |links| && entries[k] == row;
      EntryPair(links, run, k / 2);
      assert entries[2 * (k / 2)] in RowsOf(links, run) && entries[2 * (k / 2) + 1] in RowsOf(links, run);
    }
  }

  /** The row says what the link says, in the link's own direction or from the other end, and whose run it is. */
  ghost predicate Says(row: Row, link: NewLink, run: nat) {
    && row.score == link.score && row.basis == link.basis && row.computedFor == run
    && (|| (row.sourceRecording == link.sourceRecording && row.sourceSegment == link.sourceSegment
            && row.targetRecording == link.targetRecording && row.targetSegment == link.targetSegment)
        || (row.sourceRecording == link.targetRecording && row.sourceSegment == link.targetSegment
            && row.targetRecording == link.sourceRecording && row.targetSegment == link.sourceSegment))
  }

  /** The run may write the link: a score between 0 and 1, two teachings, one the run's own, two passages. */
  ghost predicate MayWrite(link: NewLink, run: nat) {
    && 0.0 <= link.score <= 1.0
    && link.sourceRecording != link.targetRecording && (run == link.sourceRecording || run == link.targetRecording)
    && link.sourceSegment != link.targetSegment
  }

  /** The run's links by columns, and the rows they become. */
  lemma RunsByColumns(links: seq<NewLink>, run: nat)
    ensures GoodRun(links, run) <==>
            && (forall i :: 0 <= i < |links| ==> MayWrite(links[i], run))
            && forall i, j :: 0 <= i < j < |links| ==>
                 {links[i].sourceSegment, links[i].targetSegment} != {links[j].sourceSegment, links[j].targetSegment}
    ensures forall row :: row in RowsOf(links, run) <==> exists i :: 0 <= i < |links| && Says(row, links[i], run)
  {
    forall row
      ensures row in RowsOf(links, run) <==> exists i :: 0 <= i < |links| && Says(row, links[i], run)
    {
      RowsOfAre(links, run, row);
      forall i | 0 <= i < |links|
        ensures Says(row, links[i], run) <==> row == RowFor(links[i], run) || row == Mirror(RowFor(links[i], run))
      {
      }
    }
    forall i | 0 <= i < |links|
      ensures MayWrite(links[i], run) <==>
              Checked(RowFor(links[i], run)) && links[i].sourceSegment != links[i].targetSegment
    {
    }
    forall a: NewLink, b: NewLink
      ensures SamePair(a, b) && a.sourceSegment != a.targetSegment && b.sourceSegment != b.targetSegment ==>
                {a.sourceSegment, a.targetSegment} == {b.sourceSegment, b.targetSegment}
      ensures {a.sourceSegment, a.targetSegment} == {b.sourceSegment, b.targetSegment} ==> SamePair(a, b)
    {
      PairsAreSets(a, b);
    }
    hide RowsOf, RowFor, Mirror, Says;
    if forall i :: 0 <= i < |links| ==> MayWrite(links[i], run) {
      forall i, j | 0 <= i < j < |links|
        ensures SamePair(links[i], links[j]) <==>
                {links[i].sourceSegment, links[i].targetSegment} == {links[j].sourceSegment, links[j].targetSegment}
      {
        assert MayWrite(links[i], run) && MayWrite(links[j], run);
      }
    }
  }

  lemma PairsAreSets(a: NewLink, b: NewLink)
    ensures SamePair(a, b) ==> {a.sourceSegment, a.targetSegment} == {b.sourceSegment, b.targetSegment}
    ensures {a.sourceSegment, a.targetSegment} == {b.sourceSegment, b.targetSegment} ==> SamePair(a, b)
  {
    if {a.sourceSegment, a.targetSegment} == {b.sourceSegment, b.targetSegment} {
      assert a.sourceSegment in {b.sourceSegment, b.targetSegment} && a.targetSegment in {b.sourceSegment, b.targetSegment};
      assert b.sourceSegment in {a.sourceSegment, a.targetSegment} && b.targetSegment in {a.sourceSegment, a.targetSegment};
    }
  }

  // -------------------------------------------------------------------------------------------
  // The writes
  // -------------------------------------------------------------------------------------------

  /** The table after a run's replace; a refused row rolls the whole of it back. */
  function Replaced(rows: set<Row>, run: nat, links: seq<NewLink>): set<Row> {
    if Insertable(Entries(links, run)) then (rows - Owned(rows, run)) + RowsOf(links, run) else rows
  }

  function Touching(rows: set<Row>, recording: nat): set<Row> {
    set row | row in rows && (row.sourceRecording == recording || row.targetRecording == recording)
  }

  /** A replace that goes through makes the run's rows exactly the new ones, touches nobody else's, and keeps the closure. */
  lemma ReplaceKeeps(rows: set<Row>, run: nat, links: seq<NewLink>)
    requires Valid(rows) && Closed(rows)
    ensures var after := Replaced(rows, run, links);
            && Valid(after) && Closed(after)
            && Owned(after, run) == (if GoodRun(links, run) then RowsOf(links, run) else Owned(rows, run))
            && (forall other :: other != run ==> Owned(after, other) == Owned(rows, other))
  {
    InsertableExactlyWhenGood(links, run);
    var after := Replaced(rows, run, links);
    if Insertable(Entries(links, run)) {
      RunRowsHold(links, run);
      hide RowsOf, Insertable;
    }
  }

  lemma SameKeySameEntry(entries: seq<Row>, j: nat, k: nat)
    requires Insertable(entries) && j < |entries| && k < |entries| && SameKey(entries[j], entries[k])
    ensures j == k
  {
    var first, second := if j < k then j else k, if j < k then k else j;
    assert first == second || !SameKey(entries[first], entries[second]);
  }

  lemma RunRowsHold(links: seq<NewLink>, run: nat)
    requires Insertable(Entries(links, run))
    ensures Valid(RowsOf(links, run)) && Closed(RowsOf(links, run))
    ensures forall row :: row in RowsOf(links, run) ==> row.computedFor == run
  {
    var entries := Entries(links, run);
    forall row
      ensures row in RowsOf(links, run) ==> Mirror(row) in RowsOf(links, run) && row.computedFor == run
    {
      RowsOfAre(links, run, row);
    }
    forall a, b | a in RowsOf(links, run) && b in RowsOf(links, run) && SameKey(a, b)
      ensures a == b
    {
      var j :| 0 <= j < |entries| && entries[j] == a;
      var k :| 0 <= k < |entries| && entries[k] == b;
      SameKeySameEntry(entries, j, k);
    }
  }

  /** Running the step again with the same links leaves the table as it is. */
  lemma ReplaceIsIdempotent(rows: set<Row>, run: nat, links: seq<NewLink>)
    requires Valid(rows) && Closed(rows)
    ensures Replaced(Replaced(rows, run, links), run, links) == Replaced(rows, run, links)
  {
    ReplaceKeeps(rows, run, links);
    InsertableExactlyWhenGood(links, run);
    var after := Replaced(rows, run, links);
    if GoodRun(links, run) {
      assert after - Owned(after, run) == rows - Owned(rows, run);
    }
  }

  /** Unpublishing removes every row touching the recording, on either end, and keeps the closure. */
  lemma RemovalKeeps(rows: set<Row>, recording: nat)
    requires Valid(rows) && Closed(rows)
    ensures var after := rows - Touching(rows, recording);
            && Valid(after) && Closed(after) && Touching(after, recording) == {} && Owned(after, recording) == {}
            && forall row :: row in rows && row.sourceRecording != recording && row.targetRecording != recording ==> row in after
  {
    var after := rows - Touching(rows, recording);
    assert forall row :: row in rows ==> Mirror(Mirror(row)) == row;
    assert forall row :: row in Owned(after, recording) ==> Checked(row);
  }

  /** A transcript that is replaced takes its segments' rows with it, from both ends at once. */
  lemma SegmentCascadeKeeps(rows: set<Row>, segments: set<nat>)
    requires Valid(rows) && Closed(rows)
    ensures var after := set row | row in rows && row.sourceSegment !in segments && row.targetSegment !in segments;
            Valid(after) && Closed(after)
  {
  }

  // -------------------------------------------------------------------------------------------
  // The read
  // -------------------------------------------------------------------------------------------

  /** Every link out of this teaching whose target is published. */
  function Outgoing(rows: set<Row>, published: set<nat>, recording: nat): set<Row> {
    set row | row in rows && row.sourceRecording == recording && row.targetRecording in published
  }

  /** Between two published teachings, each lists exactly the links the other lists, seen from its own end. */
  lemma BothEndsListTheLink(rows: set<Row>, published: set<nat>, a: nat, b: nat, row: Row)
    requires Closed(rows) && a in published && b in published
    requires row.sourceRecording == a && row.targetRecording == b
    ensures row in Outgoing(rows, published, a) <==> Mirror(row) in Outgoing(rows, published, b)
    ensures row in Outgoing(rows, published, a) <==> row in rows
    ensures forall other :: other in Outgoing(rows, published, a) ==>
              other in rows && other.sourceRecording == a && other.targetRecording in published
    ensures forall other :: other in rows && other.sourceRecording == a && other.targetRecording in published ==>
              other in Outgoing(rows, published, a)
  {
    assert Mirror(Mirror(row)) == row;
  }

  // -------------------------------------------------------------------------------------------
  // Every run of the table
  // -------------------------------------------------------------------------------------------

  datatype Write =
    | Replace(run: nat, links: seq<NewLink>)
    | Unpublish(recording: nat)
    | DropSegments(segments: set<nat>)

  ghost function Apply(rows: set<Row>, write: Write): Option<set<Row>> {
    match write
    case Replace(run, links) => Some(Replaced(rows, run, links))
    case Unpublish(recording) => Some(rows - Touching(rows, recording))
    case DropSegments(segments) =>
      Some(set row | row in rows && row.sourceSegment !in segments && row.targetSegment !in segments)
  }

  /** In every state the table reaches, each link is there from both ends. */
  lemma {:induction false} AlwaysClosed(writes: seq<Write>, rows: set<Row>)
    requires Valid(rows) && Closed(rows)
    ensures Run(Apply, rows, writes).Some?
    ensures Valid(Run(Apply, rows, writes).value) && Closed(Run(Apply, rows, writes).value)
    ensures forall row :: row in Run(Apply, rows, writes).value ==>
              Row(row.targetRecording, row.targetSegment, row.sourceRecording, row.sourceSegment,
                  row.score, row.basis, row.computedFor) in Run(Apply, rows, writes).value
    decreases |writes|
  {
    if writes != [] {
      match writes[0]
      case Replace(run, links) => ReplaceKeeps(rows, run, links);
      case Unpublish(recording) => RemovalKeeps(rows, recording);
      case DropSegments(segments) => SegmentCascadeKeeps(rows, segments);
    }
    if writes != [] {
      AlwaysClosed(writes[1..], Apply(rows, writes[0]).value);
    } else {
      BothEndsAreStored(rows);
    }
  }

  lemma BothEndsAreStored(rows: set<Row>)
    requires Closed(rows)
    ensures forall row :: row in rows ==>
              Row(row.targetRecording, row.targetSegment, row.sourceRecording, row.sourceSegment,
                  row.score, row.basis, row.computedFor) in rows
  {
    forall row | row in rows
      ensures Row(row.targetRecording, row.targetSegment, row.sourceRecording, row.sourceSegment,
                  row.score, row.basis, row.computedFor) in rows
    {
      assert Mirror(row) in rows;
    }
  }

  class CrossReferenceTable {
    var rows: set<Row>

    constructor ()
      ensures rows == {} && Valid(rows) && Closed(rows)
    {
      rows := {};
    }

    method ReplaceCrossReferencesForRun(run: nat, links: seq<NewLink>) returns (ok: bool)
      requires Valid(rows) && Closed(rows)
      modifies this
      ensures Valid(rows) && Closed(rows)
      ensures ok <==> GoodRun(links, run)
      ensures rows == Replaced(old(rows), run, links)
      ensures ok <==>
              && (forall i :: 0 <= i < |links| ==> MayWrite(links[i], run))
              && forall i, j :: 0 <= i < j < |links| ==>
                   {links[i].sourceSegment, links[i].targetSegment} != {links[j].sourceSegment, links[j].targetSegment}
      ensures ok ==> forall row :: row in rows <==>
                (row in old(rows) && row.computedFor != run) || exists i :: 0 <= i < |links| && Says(row, links[i], run)
      ensures ok ==> Owned(rows, run) == RowsOf(links, run)
      ensures !ok ==> rows == old(rows)
    {
      ReplaceKeeps(rows, run, links);
      InsertableExactlyWhenGood(links, run);
      RunsByColumns(links, run);
      hide GoodRun, Says, MayWrite, Insertable, Valid, Closed;
      var before := rows;
      rows := rows - Owned(rows, run);
      if links == [] {
        return true;
      }
      var entries := Entries(links, run);
      ok := Insertable(entries);
      rows := if ok then rows + RowsOf(links, run) else before;
    }

    /** Answers how many rows went. */
    method DeleteCrossReferencesTouching(recording: nat) returns (count: nat)
      requires Valid(rows) && Closed(rows)
      modifies this
      ensures Valid(rows) && Closed(rows) && Touching(rows, recording) == {}
      ensures forall row :: row in rows <==>
                row in old(rows) && row.sourceRecording != recording && row.targetRecording != recording
      ensures rows == old(rows) - Touching(old(rows), recording) && count == |old(rows)| - |rows|
    {
      RemovalKeeps(rows, recording);
      var touching := Touching(rows, recording);
      count := |touching|;
      rows := rows - touching;
    }
  }
}
