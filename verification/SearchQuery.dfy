/**
 * The whole statement (packages/db/src/search.ts:117-255): the sources read back beside each hit,
 * and what the answer depends on.
 */
module SearchQuery {
  import opened Runs
  import opened Ordering
  import opened Search
  import opened SearchResults

  datatype ResultRow = ResultRow(
    id: nat, kind: Kind, source: nat, recording: nat, recordingTitle: string, recordedAt: int,
    series: Option<nat>, seriesTitle: Option<string>, seriesArtworkKey: Option<string>,
    text: string, textMarked: string, startMs: Option<int>, before: Option<string>, after: Option<string>,
    vectorRank: Option<nat>, textRank: Option<nat>, similarity: Option<real>, score: real)

  // -------------------------------------------------------------------------------------------
  // The joins
  // -------------------------------------------------------------------------------------------

  ghost function EarlierLines(db: Database, line: nat): set<nat> {
    set other | line in db.segments && other in db.segments
                && db.segments[other].transcript == db.segments[line].transcript
                && db.segments[other].startMs < db.segments[line].startMs
  }

  ghost function LaterLines(db: Database, line: nat): set<nat> {
    set other | line in db.segments && other in db.segments
                && db.segments[other].transcript == db.segments[line].transcript
                && db.segments[other].startMs > db.segments[line].startMs
  }

  /** `order by start_ms`, a tie broken by id; `down` is `desc`. */
  ghost function ByStart(db: Database, down: bool): (nat, nat) -> bool {
    (a: nat, b: nat) =>
      && a in db.segments && b in db.segments
      && (|| (if down then db.segments[a].startMs > db.segments[b].startMs
              else db.segments[a].startMs < db.segments[b].startMs)
          || (db.segments[a].startMs == db.segments[b].startMs && a < b))
  }

  ghost function Nearest(db: Database, lines: set<nat>, down: bool): Option<string>
    requires lines <= db.segments.Keys
  {
    if lines == {} then None else Some(db.segments[Least(ByStart(db, down), lines)].text)
  }

  /** The column read off the segment, chapter or note the row stands for. */
  function StartMs(db: Database, e: EmbeddingRow): Option<int> {
    match e.kind
    case Segment => if e.source in db.segments then Some(db.segments[e.source].startMs) else None
    case Chapter => if e.source in db.chapters then Some(db.chapters[e.source]) else None
    case Note => if e.source in db.notes then db.notes[e.source].timestampMs else None
    case _ => None
  }

  function SeriesOf(db: Database, recording: RecordingRow): Option<nat> {
    if recording.series.Some? && recording.series.value in db.series then recording.series else None
  }

  function OrElse(a: Option<nat>, b: nat): nat {
    if a.Some? then a.value else b
  }

  /** Everything read back beside a row from the tables joined to it. */
  datatype Joined = Joined(
    recording: RecordingRow, series: Option<nat>, seriesRow: Option<SeriesRow>,
    startMs: Option<int>, before: Option<string>, after: Option<string>)

  ghost function JoinedTo(db: Database, e: EmbeddingRow): Joined
    requires e.recording.Some? && e.recording.value in db.recordings
  {
    var recording := db.recordings[e.recording.value];
    var series := SeriesOf(db, recording);
    Joined(
      recording, series, if series.Some? then Some(db.series[series.value]) else None, StartMs(db, e),
      if e.kind == Segment then Nearest(db, EarlierLines(db, OrElse(e.windowFirst, e.source)), true) else None,
      if e.kind == Segment then Nearest(db, LaterLines(db, OrElse(e.windowLast, e.source)), false) else None)
  }

  ghost function RowFor(engine: Engine, db: Database, q: Query, hit: Hit): ResultRow
    requires hit.id in Candidates(db, q)
  {
    var e := db.embeddings[hit.id];
    var joined := JoinedTo(db, e);
    var series := joined.seriesRow;
    ResultRow(
      hit.id, e.kind, e.source, e.recording.value, joined.recording.title, joined.recording.recordedAt,
      joined.series,
      if series.Some? then Some(series.value.title) else None,
      if series.Some? then series.value.artworkKey else None,
      e.text,
      if hit.textRank.Some? then engine.headline(e.text, q.text) else e.text,
      joined.startMs, joined.before, joined.after,
      hit.vectorRank, hit.textRank,
      if hit.vectorRank.Some? && q.vector.Some? then Some(1.0 - engine.distance(e.vector, q.vector.value)) else None,
      hit.score)
  }

  // -------------------------------------------------------------------------------------------
  // The query
  // -------------------------------------------------------------------------------------------

  ghost function TeachingsOf(db: Database, q: Query): Teachings {
    map id | id in Candidates(db, q) :: db.embeddings[id].recording.value
  }

  /** Every id that comes back: visible, of a kind asked for, and placed by an arm. */
  lemma FusedAreCandidates(engine: Engine, db: Database, q: Query)
    ensures Fused(ArmsOf(engine, db, q)) <= Candidates(db, q)
  {
  }

  ghost function HitIds(engine: Engine, db: Database, q: Query): (ids: seq<nat>)
    ensures Elements(ids) <= Candidates(db, q)
  {
    FusedAreCandidates(engine, db, q);
    var all := Listing(ArmsOf(engine, db, q), TeachingsOf(db, q), q.perTeaching);
    PageOfDistinct(all, q.offset, q.limit);
    Page(all, q.offset, q.limit)
  }

  ghost function SearchEmbeddings(engine: Engine, db: Database, q: Query): seq<ResultRow> {
    var ids := HitIds(engine, db, q);
    seq(|ids|, k requires 0 <= k < |ids| =>
      assert ids[k] in Elements(ids);
      RowFor(engine, db, q, HitFor(ArmsOf(engine, db, q), ids[k])))
  }

  // -------------------------------------------------------------------------------------------
  // What the answer depends on
  // -------------------------------------------------------------------------------------------

  /** The transcript a line belongs to reads the same in both databases, or the line is in neither. */
  ghost predicate SameTranscript(a: Database, b: Database, line: nat) {
    && (line in a.segments <==> line in b.segments)
    && (line in a.segments ==>
          && a.segments[line] == b.segments[line]
          && forall s :: (s in a.segments && a.segments[s].transcript == a.segments[line].transcript
                          <==> s in b.segments && b.segments[s].transcript == b.segments[line].transcript)
                         && (s in a.segments && a.segments[s].transcript == a.segments[line].transcript ==>
                               a.segments[s] == b.segments[s]))
  }

  /** The source rows joined to `e` are the same in both. */
  ghost predicate SameSources(a: Database, b: Database, e: EmbeddingRow)
    requires e.recording.Some? && e.recording.value in a.recordings && e.recording.value in b.recordings
  {
    && a.recordings[e.recording.value] == b.recordings[e.recording.value]
    && SeriesOf(a, a.recordings[e.recording.value]) == SeriesOf(b, b.recordings[e.recording.value])
    && (var series := SeriesOf(a, a.recordings[e.recording.value]);
        series.Some? ==> a.series[series.value] == b.series[series.value])
    && StartMs(a, e) == StartMs(b, e)
    && (e.kind == Segment ==>
          && SameTranscript(a, b, OrElse(e.windowFirst, e.source))
          && SameTranscript(a, b, OrElse(e.windowLast, e.source)))
  }

  /** The two databases agree on the rows the reader may see of the kinds asked for, and on what is joined to them. */
  ghost predicate AgreeForReader(a: Database, b: Database, q: Query) {
    && Candidates(a, q) == Candidates(b, q)
    && forall id :: id in Candidates(a, q) ==>
         a.embeddings[id] == b.embeddings[id] && SameSources(a, b, a.embeddings[id])
  }

  lemma SortedAgrees(less: (nat, nat) -> bool, other: (nat, nat) -> bool, s: set<nat>)
    requires StrictTotal(less, s) && StrictTotal(other, s)
    requires forall x, y :: x in s && y in s ==> less(x, y) == other(x, y)
    ensures Sorted(less, s) == Sorted(other, s)
  {
    var xs := Sorted(other, s);
    assert forall i :: 0 <= i < |xs| ==> xs[i] in Elements(xs);
    assert Ascending(less, xs);
    AscendingIsUnique(less, Sorted(less, s), xs);
  }

  lemma TopAgrees(less: (nat, nat) -> bool, other: (nat, nat) -> bool, s: set<nat>, n: nat)
    requires StrictTotal(less, s) && StrictTotal(other, s)
    requires forall x, y :: x in s && y in s ==> less(x, y) == other(x, y)
    ensures Top(less, s, n) == Top(other, s, n)
  {
    SortedAgrees(less, other, s);
  }

  /** As far as the arms go, only the visible embedding rows count. */
  ghost predicate SameCandidates(a: Database, b: Database, q: Query) {
    && Candidates(a, q) == Candidates(b, q)
    && forall id :: id in Candidates(a, q) ==> a.embeddings[id] == b.embeddings[id]
  }

  lemma VectorArmAgrees(engine: Engine, a: Database, b: Database, q: Query)
    requires SameCandidates(a, b, q)
    ensures VectorArm(engine, a, q) == VectorArm(engine, b, q)
  {
    var ids := Candidates(a, q);
    assert ids <= a.embeddings.Keys && ids <= b.embeddings.Keys;
    hide Candidates, Top;
    if q.vector.Some? {
      var v := q.vector.value;
      ArmOrdersAreTotal(engine, a, v, q.text, ids);
      ArmOrdersAreTotal(engine, b, v, q.text, ids);
      assert forall x, y :: x in ids && y in ids ==> ByDistance(engine, a, v)(x, y) == ByDistance(engine, b, v)(x, y);
      hide StrictTotal, ByDistance, SameCandidates;
      TopAgrees(ByDistance(engine, a, v), ByDistance(engine, b, v), ids, q.perArm);
    }
  }

  lemma WordArmAgrees(engine: Engine, a: Database, b: Database, q: Query)
    requires SameCandidates(a, b, q)
    ensures WordArm(engine, a, q) == WordArm(engine, b, q)
  {
    var ids := Matching(engine, a, q);
    assert ids == Matching(engine, b, q);
    assert ids <= a.embeddings.Keys && ids <= b.embeddings.Keys && ids <= Candidates(a, q);
    hide Candidates, Top, Matching;
    ArmOrdersAreTotal(engine, a, [], q.text, ids);
    ArmOrdersAreTotal(engine, b, [], q.text, ids);
    assert forall x, y :: x in ids && y in ids ==> ByTextRank(engine, a, q.text)(x, y) == ByTextRank(engine, b, q.text)(x, y);
    hide StrictTotal, ByTextRank, SameCandidates;
    TopAgrees(ByTextRank(engine, a, q.text), ByTextRank(engine, b, q.text), ids, q.perArm);
  }

  lemma ByStartIsTotal(db: Database, lines: set<nat>, down: bool)
    requires lines <= db.segments.Keys
    ensures StrictTotal(ByStart(db, down), lines)
  {
  }

  lemma NearestAgrees(a: Database, b: Database, lines: set<nat>, down: bool)
    requires lines <= a.segments.Keys && lines <= b.segments.Keys
    requires forall s :: s in lines ==> a.segments[s] == b.segments[s]
    ensures Nearest(a, lines, down) == Nearest(b, lines, down)
  {
    if lines != {} {
      ByStartIsTotal(a, lines, down);
      ByStartIsTotal(b, lines, down);
      hide StrictTotal;
      var x, y := Least(ByStart(a, down), lines), Least(ByStart(b, down), lines);
      assert ByStart(a, down)(x, y) == ByStart(b, down)(x, y);
    }
  }

  lemma LinesAgree(a: Database, b: Database, line: nat)
    requires SameTranscript(a, b, line)
    ensures Nearest(a, EarlierLines(a, line), true) == Nearest(b, EarlierLines(b, line), true)
    ensures Nearest(a, LaterLines(a, line), false) == Nearest(b, LaterLines(b, line), false)
  {
    assert EarlierLines(a, line) == EarlierLines(b, line);
    assert LaterLines(a, line) == LaterLines(b, line);
    NearestAgrees(a, b, EarlierLines(a, line), true);
    NearestAgrees(a, b, LaterLines(a, line), false);
  }

  lemma JoinedAgrees(a: Database, b: Database, e: EmbeddingRow)
    requires e.recording.Some? && e.recording.value in a.recordings && e.recording.value in b.recordings
    requires SameSources(a, b, e)
    ensures JoinedTo(a, e) == JoinedTo(b, e)
  {
    hide Nearest, EarlierLines, LaterLines, SameTranscript, StartMs;
    if e.kind == Segment {
      LinesAgree(a, b, OrElse(e.windowFirst, e.source));
      LinesAgree(a, b, OrElse(e.windowLast, e.source));
    }
  }

  lemma RowsAgree(engine: Engine, a: Database, b: Database, q: Query, hit: Hit)
    requires AgreeForReader(a, b, q) && hit.id in Candidates(a, q)
    ensures RowFor(engine, a, q, hit) == RowFor(engine, b, q, hit)
  {
    assert a.embeddings[hit.id] == b.embeddings[hit.id];
    JoinedAgrees(a, b, a.embeddings[hit.id]);
    hide JoinedTo, SameSources, AgreeForReader;
  }

  /** Search depends on nothing but what the reader may see: agreeing databases answer identically. */
  lemma SearchDependsOnTheVisible(engine: Engine, a: Database, b: Database, q: Query)
    requires AgreeForReader(a, b, q)
    ensures SearchEmbeddings(engine, a, q) == SearchEmbeddings(engine, b, q)
  {
    assert ArmsOf(engine, a, q) == ArmsOf(engine, b, q) && TeachingsOf(a, q) == TeachingsOf(b, q) by {
      SeesTheSame(engine, a, b, q);
    }
    var ids := HitIds(engine, a, q);
    assert ids == HitIds(engine, b, q) by {
      hide ArmsOf, TeachingsOf, Listing, Candidates;
    }
    hide ArmsOf, TeachingsOf, HitIds, HitFor, AgreeForReader, Candidates, RowFor;
    forall k | 0 <= k < |ids|
      ensures ids[k] in Candidates(a, q) && ids[k] in Candidates(b, q)
      ensures RowFor(engine, a, q, HitFor(ArmsOf(engine, a, q), ids[k])) ==
              RowFor(engine, b, q, HitFor(ArmsOf(engine, b, q), ids[k]))
    {
      assert ids[k] in Elements(ids);
      RowsAgree(engine, a, b, q, HitFor(ArmsOf(engine, a, q), ids[k]));
    }
  }

  lemma SeesTheSame(engine: Engine, a: Database, b: Database, q: Query)
    requires AgreeForReader(a, b, q)
    ensures ArmsOf(engine, a, q) == ArmsOf(engine, b, q) && TeachingsOf(a, q) == TeachingsOf(b, q)
  {
    assert SameCandidates(a, b, q) && TeachingsOf(a, q) == TeachingsOf(b, q);
    VectorArmAgrees(engine, a, b, q);
    WordArmAgrees(engine, a, b, q);
    hide VectorArm, WordArm;
  }

  /** A row the reader may not see can be added, changed or taken away without a trace in the answer. */
  lemma HiddenRowsDoNotMatter(engine: Engine, db: Database, q: Query, embeddings: map<nat, EmbeddingRow>)
    requires forall id :: id in db.embeddings && VisibleTo(db, q.reader, db.embeddings[id]) ==>
               id in embeddings && embeddings[id] == db.embeddings[id]
    requires forall id :: id in embeddings && VisibleTo(db, q.reader, embeddings[id]) ==>
               id in db.embeddings && embeddings[id] == db.embeddings[id]
    ensures SearchEmbeddings(engine, db.(embeddings := embeddings), q) == SearchEmbeddings(engine, db, q)
  {
    var other := db.(embeddings := embeddings);
    forall e, reader
      ensures VisibleTo(other, reader, e) <==> VisibleTo(db, reader, e)
    {
    }
    hide SearchEmbeddings;
    assert Candidates(other, q) == Candidates(db, q);
    forall id | id in Candidates(db, q)
      ensures SameSources(other, db, db.embeddings[id])
    {
    }
    SearchDependsOnTheVisible(engine, other, db, q);
  }

  /** The ids that come back are fused candidates, each once. */
  lemma HitIdsAreDistinct(engine: Engine, db: Database, q: Query)
    ensures Distinct(HitIds(engine, db, q)) && Elements(HitIds(engine, db, q)) <= Fused(ArmsOf(engine, db, q))
  {
    var arms, teachings := ArmsOf(engine, db, q), TeachingsOf(db, q);
    var all := Listing(arms, teachings, q.perTeaching);
    InOrderIsTotal(arms, KeptIds(arms, teachings, q.perTeaching));
    hide StrictTotal, InOrder;
    assert Ascending(InOrder(arms), all) && Elements(all) <= Fused(arms);
    AscendingDistinct(InOrder(arms), all);
    PageOfDistinct(all, q.offset, q.limit);
  }

  /** Nothing comes back that the reader may not see, or of a kind they did not ask for, or twice. */
  lemma EveryRowIsVisible(engine: Engine, db: Database, q: Query, k: nat)
    requires k < |SearchEmbeddings(engine, db, q)|
    ensures var row := SearchEmbeddings(engine, db, q)[k];
            && row.id in db.embeddings && VisibleTo(db, q.reader, db.embeddings[row.id]) && row.kind in q.kinds
            && (row.vectorRank.Some? || row.textRank.Some?)
            && forall j :: 0 <= j < k ==> SearchEmbeddings(engine, db, q)[j].id != row.id
  {
    HitIdsAreDistinct(engine, db, q);
    var arms := ArmsOf(engine, db, q);
    var ids := HitIds(engine, db, q);
    hide HitIds, ArmsOf, VisibleTo, StartMs, Nearest, SeriesOf;
    assert ids[k] in Elements(ids);
    RankIsWithin(arms.vector, ids[k]);
    RankIsWithin(arms.words, ids[k]);
    hide RankIn;
  }
}
