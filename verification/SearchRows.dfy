/**
 * The search answer on the tables' own columns (packages/db/src/search.ts:117-255,
 * packages/db/src/visibility.ts:529-551): which rows come back, in what order, and what each says.
 */
module SearchRows {
  import opened Runs
  import opened Ordering
  import opened Search
  import opened SearchResults
  import opened SearchQuery

  /** The reader may see the row, and asked for its kind. */
  ghost predicate Allowed(db: Database, q: Query, id: nat) {
    && id in db.embeddings
    && var e := db.embeddings[id];
    && (exists r :: r in db.recordings && e.recording == Some(r) && db.recordings[r].publishedAt != None)
    && (e.kind == Summary ==> e.source in db.summaries && db.summaries[e.source] != None)
    && (e.owner == None || e.owner == Some(q.reader))
    && (e.kind == Note ==>
          e.source in db.notes
          && forall pair :: pair in db.blocks ==>
               pair != (q.reader, db.notes[e.source].author) && pair != (db.notes[e.source].author, q.reader))
    && e.kind in q.kinds
  }

  lemma CandidatesAreAllowed(db: Database, q: Query, id: nat)
    ensures id in Candidates(db, q) <==> Allowed(db, q, id)
  {
  }

  // -------------------------------------------------------------------------------------------
  // The ranks
  // -------------------------------------------------------------------------------------------

  /** The allowed rows nearer to the query than this one, a tie broken by id. */
  ghost function NearerRows(engine: Engine, db: Database, q: Query, v: Vector, id: nat): set<nat>
    requires id in db.embeddings
  {
    var here := engine.distance(db.embeddings[id].vector, v);
    set other | other in db.embeddings && Allowed(db, q, other)
                && (engine.distance(db.embeddings[other].vector, v) < here
                    || (engine.distance(db.embeddings[other].vector, v) == here && other < id))
  }

  /** The allowed rows that match the words better than this one, a tie broken by id. */
  ghost function StrongerRows(engine: Engine, db: Database, q: Query, id: nat): set<nat>
    requires id in db.embeddings
  {
    var here := engine.textRank(db.embeddings[id].text, q.text);
    set other | other in db.embeddings && Allowed(db, q, other) && engine.matches(db.embeddings[other].text, q.text)
                && (engine.textRank(db.embeddings[other].text, q.text) > here
                    || (engine.textRank(db.embeddings[other].text, q.text) == here && other < id))
  }

  /** The meaning arm placed the row at this rank. */
  ghost predicate PlacedByMeaning(engine: Engine, db: Database, q: Query, id: nat, rank: nat) {
    && q.vector.Some? && Allowed(db, q, id)
    && rank == |NearerRows(engine, db, q, q.vector.value, id)| + 1 && rank <= q.perArm
  }

  /** The word arm did; it does not run when all the weight is on meaning. */
  ghost predicate PlacedByWords(engine: Engine, db: Database, q: Query, id: nat, rank: nat) {
    && q.blend != 1.0 && Allowed(db, q, id) && engine.matches(db.embeddings[id].text, q.text)
    && rank == |StrongerRows(engine, db, q, id)| + 1 && rank <= q.perArm
  }

  lemma MeaningRankIsTrue(engine: Engine, db: Database, q: Query, id: nat, rank: nat)
    ensures RankIn(VectorArm(engine, db, q), id) == Some(rank) <==> PlacedByMeaning(engine, db, q, id, rank)
  {
    VectorArmIsTheTrueTop(engine, db, q, id);
    RankIsWithin(VectorArm(engine, db, q), id);
    CandidatesAreAllowed(db, q, id);
    if q.vector.Some? && id in db.embeddings {
      var before := Before(ByDistance(engine, db, q.vector.value), Candidates(db, q), id);
      forall other
        ensures other in before <==> other in NearerRows(engine, db, q, q.vector.value, id)
      {
        CandidatesAreAllowed(db, q, other);
      }
      assert before == NearerRows(engine, db, q, q.vector.value, id);
      hide NearerRows, Before, ByDistance;
    }
    hide VectorArm, RankIn, Candidates, Allowed;
  }

  lemma WordRankIsTrue(engine: Engine, db: Database, q: Query, id: nat, rank: nat)
    ensures RankIn(WordArm(engine, db, q), id) == Some(rank) <==> PlacedByWords(engine, db, q, id, rank)
  {
    WordArmIsTheTrueTop(engine, db, q, id);
    RankIsWithin(WordArm(engine, db, q), id);
    CandidatesAreAllowed(db, q, id);
    if id in db.embeddings {
      var before := Before(ByTextRank(engine, db, q.text), Matching(engine, db, q), id);
      forall other
        ensures other in before <==> other in StrongerRows(engine, db, q, id)
      {
        CandidatesAreAllowed(db, q, other);
      }
      assert before == StrongerRows(engine, db, q, id);
    }
    hide WordArm, RankIn, Candidates, Allowed, Before, ByTextRank, StrongerRows;
  }

  // -------------------------------------------------------------------------------------------
  // The lines around a passage
  // -------------------------------------------------------------------------------------------

  /** The text is that of the nearest line of the transcript that starts before this one; absent when none does. */
  ghost predicate SaysTheLineBefore(db: Database, line: nat, text: Option<string>) {
    if line in db.segments
       && exists other :: other in db.segments && db.segments[other].transcript == db.segments[line].transcript
                          && db.segments[other].startMs < db.segments[line].startMs
    then
      exists other :: other in db.segments && db.segments[other].transcript == db.segments[line].transcript
        && db.segments[other].startMs < db.segments[line].startMs && text == Some(db.segments[other].text)
        && forall between :: between in db.segments && db.segments[between].transcript == db.segments[line].transcript ==>
             !(db.segments[other].startMs < db.segments[between].startMs < db.segments[line].startMs)
    else text == None
  }

  ghost predicate SaysTheLineAfter(db: Database, line: nat, text: Option<string>) {
    if line in db.segments
       && exists other :: other in db.segments && db.segments[other].transcript == db.segments[line].transcript
                          && db.segments[other].startMs > db.segments[line].startMs
    then
      exists other :: other in db.segments && db.segments[other].transcript == db.segments[line].transcript
        && db.segments[other].startMs > db.segments[line].startMs && text == Some(db.segments[other].text)
        && forall between :: between in db.segments && db.segments[between].transcript == db.segments[line].transcript ==>
             !(db.segments[line].startMs < db.segments[between].startMs < db.segments[other].startMs)
    else text == None
  }

  lemma NearestIsNext(db: Database, lines: set<nat>, down: bool) returns (next: nat)
    requires lines != {} && lines <= db.segments.Keys
    ensures next in lines && Nearest(db, lines, down) == Some(db.segments[next].text)
    ensures forall other :: other in lines ==>
              if down then db.segments[other].startMs <= db.segments[next].startMs
              else db.segments[other].startMs >= db.segments[next].startMs
  {
    ByStartIsTotal(db, lines, down);
    next := Least(ByStart(db, down), lines);
    hide StrictTotal;
    forall other | other in lines && other != next
      ensures if down then db.segments[other].startMs <= db.segments[next].startMs
              else db.segments[other].startMs >= db.segments[next].startMs
    {
      assert ByStart(db, down)(next, other);
    }
  }

  lemma LineBefore(db: Database, line: nat)
    ensures SaysTheLineBefore(db, line, Nearest(db, EarlierLines(db, line), true))
  {
    var lines := EarlierLines(db, line);
    assert forall other :: other in lines <==>
      line in db.segments && other in db.segments && db.segments[other].transcript == db.segments[line].transcript
      && db.segments[other].startMs < db.segments[line].startMs;
    if lines == {} {
      assert Nearest(db, lines, true) == None;
    } else {
      var next := NearestIsNext(db, lines, true);
    }
    hide Nearest, EarlierLines;
  }

  lemma LineAfter(db: Database, line: nat)
    ensures SaysTheLineAfter(db, line, Nearest(db, LaterLines(db, line), false))
  {
    var lines := LaterLines(db, line);
    assert forall other :: other in lines <==>
      line in db.segments && other in db.segments && db.segments[other].transcript == db.segments[line].transcript
      && db.segments[other].startMs > db.segments[line].startMs;
    if lines == {} {
      assert Nearest(db, lines, false) == None;
    } else {
      var next := NearestIsNext(db, lines, false);
    }
    hide Nearest, LaterLines;
  }

  // -------------------------------------------------------------------------------------------
  // What a row says
  // -------------------------------------------------------------------------------------------

  /** The columns of the row, its teaching and its series. */
  ghost predicate SaysItsSource(db: Database, row: ResultRow) {
    && row.id in db.embeddings
    && var e := db.embeddings[row.id];
    && row.kind == e.kind && row.source == e.source && row.text == e.text
    && e.recording == Some(row.recording) && row.recording in db.recordings
    && row.recordingTitle == db.recordings[row.recording].title
    && row.recordedAt == db.recordings[row.recording].recordedAt
    && (match row.series
        case Some(s) =>
          && db.recordings[row.recording].series == Some(s) && s in db.series
          && row.seriesTitle == Some(db.series[s].title) && row.seriesArtworkKey == db.series[s].artworkKey
        case None =>
          && (db.recordings[row.recording].series.Some? ==> db.recordings[row.recording].series.value !in db.series)
          && row.seriesTitle == None && row.seriesArtworkKey == None)
  }

  /** Where in the teaching it is, and the lines around it. */
  ghost predicate SaysItsPlace(db: Database, row: ResultRow) {
    && row.id in db.embeddings
    && var e := db.embeddings[row.id];
    && (e.kind == Segment ==>
          && row.startMs == (if e.source in db.segments then Some(db.segments[e.source].startMs) else None)
          && SaysTheLineBefore(db, if e.windowFirst.Some? then e.windowFirst.value else e.source, row.before)
          && SaysTheLineAfter(db, if e.windowLast.Some? then e.windowLast.value else e.source, row.after))
    && (e.kind != Segment ==> row.before == None && row.after == None)
    && (e.kind == Chapter ==> row.startMs == (if e.source in db.chapters then Some(db.chapters[e.source]) else None))
    && (e.kind == Note ==> row.startMs == (if e.source in db.notes then db.notes[e.source].timestampMs else None))
    && (e.kind == Summary || e.kind == Recording ==> row.startMs == None)
  }

  /** The two rank columns are the row's true places among the rows the reader may see. */
  ghost predicate TrueRanks(
    engine: Engine, db: Database, q: Query, id: nat, vectorRank: Option<nat>, textRank: Option<nat>)
  {
    forall rank: nat ::
      && (vectorRank == Some(rank) <==> PlacedByMeaning(engine, db, q, id, rank))
      && (textRank == Some(rank) <==> PlacedByWords(engine, db, q, id, rank))
  }

  /** Weighted reciprocal rank fusion, an arm that did not place the row adding nothing. */
  ghost predicate IsFusedScore(blend: real, vectorRank: Option<nat>, textRank: Option<nat>, score: real) {
    score == (if vectorRank.Some? then blend / ((60 + vectorRank.value) as real) else 0.0)
             + (if textRank.Some? then (1.0 - blend) / ((60 + textRank.value) as real) else 0.0)
  }

  /** Where each arm placed it, and what follows from that. */
  ghost predicate SaysItsRanks(engine: Engine, db: Database, q: Query, row: ResultRow) {
    && row.id in db.embeddings
    && var e := db.embeddings[row.id];
    && TrueRanks(engine, db, q, row.id, row.vectorRank, row.textRank)
    && (row.vectorRank.Some? || row.textRank.Some?)
    && (match row.vectorRank
        case None => row.similarity == None
        case Some(_) => q.vector.Some? ==> row.similarity == Some(1.0 - engine.distance(e.vector, q.vector.value)))
    && row.textMarked == (if row.textRank == None then e.text else engine.headline(e.text, q.text))
    && IsFusedScore(q.blend, row.vectorRank, row.textRank, row.score)
  }

  lemma RowSaysItsSource(engine: Engine, db: Database, q: Query, hit: Hit)
    requires hit.id in Candidates(db, q)
    ensures SaysItsSource(db, RowFor(engine, db, q, hit))
  {
    hide Nearest, EarlierLines, LaterLines, StartMs;
  }

  lemma RowSaysItsPlace(engine: Engine, db: Database, q: Query, hit: Hit)
    requires hit.id in Candidates(db, q)
    ensures SaysItsPlace(db, RowFor(engine, db, q, hit))
  {
    var e := db.embeddings[hit.id];
    RowKeepsItsLines(engine, db, q, hit);
    hide RowFor, JoinedTo;
    LineBefore(db, OrElse(e.windowFirst, e.source));
    LineAfter(db, OrElse(e.windowLast, e.source));
    hide Nearest, EarlierLines, LaterLines, SaysTheLineBefore, SaysTheLineAfter, VisibleTo, SeriesOf;
  }

  lemma RowKeepsItsLines(engine: Engine, db: Database, q: Query, hit: Hit)
    requires hit.id in Candidates(db, q)
    ensures var row, e := RowFor(engine, db, q, hit), db.embeddings[hit.id];
            && row.id == hit.id && row.startMs == StartMs(db, e)
            && (e.kind == Segment ==>
                  && row.before == Nearest(db, EarlierLines(db, OrElse(e.windowFirst, e.source)), true)
                  && row.after == Nearest(db, LaterLines(db, OrElse(e.windowLast, e.source)), false))
            && (e.kind != Segment ==> row.before == None && row.after == None)
  {
    hide Nearest, EarlierLines, LaterLines, StartMs, SeriesOf, VisibleTo;
  }

  lemma RowKeepsItsHit(engine: Engine, db: Database, q: Query, hit: Hit)
    requires hit.id in Candidates(db, q)
    ensures var row, e := RowFor(engine, db, q, hit), db.embeddings[hit.id];
            && row.id == hit.id && row.vectorRank == hit.vectorRank && row.textRank == hit.textRank && row.score == hit.score
            && row.textMarked == (if hit.textRank == None then e.text else engine.headline(e.text, q.text))
            && row.similarity == if hit.vectorRank.Some? && q.vector.Some?
                                 then Some(1.0 - engine.distance(e.vector, q.vector.value)) else None
  {
    hide JoinedTo;
  }

  lemma HitScores(arms: Arms, id: nat)
    ensures var hit := HitFor(arms, id);
            && hit.vectorRank == RankIn(arms.vector, id) && hit.textRank == RankIn(arms.words, id)
            && IsFusedScore(arms.blend, hit.vectorRank, hit.textRank, hit.score)
    ensures id in Fused(arms) ==> HitFor(arms, id).vectorRank.Some? || HitFor(arms, id).textRank.Some?
  {
    RankIsWithin(arms.vector, id);
    RankIsWithin(arms.words, id);
    hide RankIn;
  }

  lemma RanksAreTrue(engine: Engine, db: Database, q: Query, id: nat)
    ensures TrueRanks(engine, db, q, id, RankIn(VectorArm(engine, db, q), id), RankIn(WordArm(engine, db, q), id))
  {
    forall rank: nat
      ensures RankIn(VectorArm(engine, db, q), id) == Some(rank) <==> PlacedByMeaning(engine, db, q, id, rank)
      ensures RankIn(WordArm(engine, db, q), id) == Some(rank) <==> PlacedByWords(engine, db, q, id, rank)
    {
      MeaningRankIsTrue(engine, db, q, id, rank);
      WordRankIsTrue(engine, db, q, id, rank);
    }
    hide VectorArm, WordArm, RankIn, PlacedByMeaning, PlacedByWords;
  }

  lemma RanksFromParts(engine: Engine, db: Database, q: Query, row: ResultRow, hit: Hit)
    requires row.id == hit.id && row.vectorRank == hit.vectorRank && row.textRank == hit.textRank && row.score == hit.score
    requires row.id in db.embeddings && TrueRanks(engine, db, q, hit.id, hit.vectorRank, hit.textRank)
    requires hit.vectorRank.Some? || hit.textRank.Some?
    requires IsFusedScore(q.blend, hit.vectorRank, hit.textRank, hit.score)
    requires var e := db.embeddings[hit.id];
             && row.textMarked == (if hit.textRank == None then e.text else engine.headline(e.text, q.text))
             && row.similarity == if hit.vectorRank.Some? && q.vector.Some?
                                  then Some(1.0 - engine.distance(e.vector, q.vector.value)) else None
    ensures SaysItsRanks(engine, db, q, row)
  {
    hide TrueRanks, IsFusedScore;
  }

  lemma RowSaysItsRanks(engine: Engine, db: Database, q: Query, id: nat)
    requires id in Candidates(db, q) && id in Fused(ArmsOf(engine, db, q))
    ensures SaysItsRanks(engine, db, q, RowFor(engine, db, q, HitFor(ArmsOf(engine, db, q), id)))
  {
    var arms := ArmsOf(engine, db, q);
    assert id in db.embeddings && arms == Arms(VectorArm(engine, db, q), WordArm(engine, db, q), q.blend);
    hide *;
    var hit := HitFor(arms, id);
    RanksAreTrue(engine, db, q, id);
    RowKeepsItsHit(engine, db, q, hit);
    HitScores(arms, id);
    RanksFromParts(engine, db, q, RowFor(engine, db, q, hit), hit);
  }

  /** Every row that comes back is one the reader may see, and says what the tables say. */
  lemma EachRowSaysWhatTheTablesSay(engine: Engine, db: Database, q: Query, k: nat)
    requires k < |SearchEmbeddings(engine, db, q)|
    ensures var row := SearchEmbeddings(engine, db, q)[k];
            && Allowed(db, q, row.id)
            && SaysItsSource(db, row) && SaysItsPlace(db, row) && SaysItsRanks(engine, db, q, row)
  {
    var ids := HitIds(engine, db, q);
    HitIdsAreDistinct(engine, db, q);
    hide HitIds, SaysItsSource, SaysItsPlace, SaysItsRanks, Allowed, Fused, HitFor, RowFor, Candidates, ArmsOf;
    assert ids[k] in Elements(ids);
    CandidatesAreAllowed(db, q, ids[k]);
    var hit := HitFor(ArmsOf(engine, db, q), ids[k]);
    RowSaysItsSource(engine, db, q, hit);
    RowSaysItsPlace(engine, db, q, hit);
    RowSaysItsRanks(engine, db, q, ids[k]);
    RowKeepsItsHit(engine, db, q, hit);
  }

  // -------------------------------------------------------------------------------------------
  // Which rows come back, and in what order
  // -------------------------------------------------------------------------------------------

  /** Higher score first, then the better meaning rank, then the better word rank, a missing rank last, then the id. */
  ghost predicate IsAhead(a: ResultRow, b: ResultRow) {
    || a.score > b.score
    || (a.score == b.score &&
        (|| (a.vectorRank.Some? && (b.vectorRank.Some? ==> a.vectorRank.value < b.vectorRank.value))
         || (a.vectorRank == b.vectorRank &&
             (|| (a.textRank.Some? && (b.textRank.Some? ==> a.textRank.value < b.textRank.value))
              || (a.textRank == b.textRank && a.id < b.id)))))
  }

  lemma RowsAreInOrder(engine: Engine, db: Database, q: Query, i: nat, j: nat)
    requires i < j < |SearchEmbeddings(engine, db, q)|
    ensures IsAhead(SearchEmbeddings(engine, db, q)[i], SearchEmbeddings(engine, db, q)[j])
  {
    var arms, ids := ArmsOf(engine, db, q), HitIds(engine, db, q);
    var a, b := HitFor(arms, ids[i]), HitFor(arms, ids[j]);
    HitsAscend(engine, db, q);
    assert ids[i] in Elements(ids) && ids[j] in Elements(ids);
    assert Precedes(a, b);
    hide HitIds, ArmsOf, HitFor, RowFor, Candidates;
    RowKeepsItsHit(engine, db, q, a);
    RowKeepsItsHit(engine, db, q, b);
  }

  lemma HitsAscend(engine: Engine, db: Database, q: Query)
    ensures Ascending(InOrder(ArmsOf(engine, db, q)), HitIds(engine, db, q))
  {
    var arms, teachings := ArmsOf(engine, db, q), TeachingsOf(db, q);
    ListingElements(arms, teachings, q.perTeaching);
    hide InOrder, ArmsOf, TeachingsOf, Listing, KeptIds;
    var all, page := Listing(arms, teachings, q.perTeaching), HitIds(engine, db, q);
    assert forall k :: 0 <= k < |page| ==> page[k] == all[q.offset + k];
  }

  /** The query with no cap and no page: every row both arms placed. */
  function Whole(db: Database, q: Query): Query {
    q.(perTeaching := None, offset := 0, limit := |db.embeddings|)
  }

  ghost function RowsOf(engine: Engine, db: Database, q: Query, ids: seq<nat>): seq<ResultRow>
    requires Elements(ids) <= Candidates(db, q)
  {
    seq(|ids|, k requires 0 <= k < |ids| =>
      assert ids[k] in Elements(ids);
      RowFor(engine, db, q, HitFor(ArmsOf(engine, db, q), ids[k])))
  }

  lemma WholeListing(engine: Engine, db: Database, q: Query)
    ensures HitIds(engine, db, Whole(db, q)) == Listing(ArmsOf(engine, db, q), TeachingsOf(db, q), None)
    ensures Elements(Listing(ArmsOf(engine, db, q), TeachingsOf(db, q), None)) == Fused(ArmsOf(engine, db, q))
    ensures Distinct(Listing(ArmsOf(engine, db, q), TeachingsOf(db, q), None))
    ensures Fused(ArmsOf(engine, db, q)) <= Candidates(db, q)
  {
    var whole := Whole(db, q);
    SameArms(engine, db, q);
    var arms, teachings := ArmsOf(engine, db, q), TeachingsOf(db, q);
    var all := Listing(arms, teachings, None);
    FusedAreCandidates(engine, db, q);
    ListingElements(arms, teachings, None);
    InOrderIsTotal(arms, Fused(arms));
    hide InOrder, ArmsOf, TeachingsOf, Listing, KeptIds, StrictTotal, Fused;
    AscendingDistinct(InOrder(arms), all);
    DistinctCount(all);
    assert Candidates(db, q) <= db.embeddings.Keys;
    SubsetCount(Elements(all), db.embeddings.Keys);
    assert Page(all, 0, |db.embeddings|) == all;
  }

  /** Cap and page decide nothing about the arms. */
  lemma SameArms(engine: Engine, db: Database, q: Query)
    ensures Candidates(db, Whole(db, q)) == Candidates(db, q)
    ensures ArmsOf(engine, db, Whole(db, q)) == ArmsOf(engine, db, q)
    ensures TeachingsOf(db, Whole(db, q)) == TeachingsOf(db, q)
  {
    var whole := Whole(db, q);
    assert Candidates(db, whole) == Candidates(db, q);
    assert Matching(engine, db, whole) == Matching(engine, db, q);
    assert VectorArm(engine, db, whole) == VectorArm(engine, db, q);
    assert WordArm(engine, db, whole) == WordArm(engine, db, q);
  }

  /** Uncapped and unpaged, the answer holds exactly the rows an arm placed, each once. */
  lemma WholeAnswerIsEveryPlacedRow(engine: Engine, db: Database, q: Query, id: nat)
    ensures var rows := SearchEmbeddings(engine, db, Whole(db, q));
            (exists k :: 0 <= k < |rows| && rows[k].id == id) <==>
            exists rank: nat :: PlacedByMeaning(engine, db, q, id, rank) || PlacedByWords(engine, db, q, id, rank)
  {
    WholeHoldsTheFused(engine, db, q, id);
    FusedIsPlaced(engine, db, q, id);
    hide *;
  }

  lemma FusedIsPlaced(engine: Engine, db: Database, q: Query, id: nat)
    ensures id in Fused(ArmsOf(engine, db, q)) <==>
            exists rank: nat :: PlacedByMeaning(engine, db, q, id, rank) || PlacedByWords(engine, db, q, id, rank)
  {
    var v, w := VectorArm(engine, db, q), WordArm(engine, db, q);
    assert ArmsOf(engine, db, q) == Arms(v, w, q.blend);
    assert id in Fused(ArmsOf(engine, db, q)) <==> id in v || id in w;
    RanksAreTrue(engine, db, q, id);
    RankIsWithin(v, id);
    RankIsWithin(w, id);
    hide ArmsOf, Fused, VectorArm, WordArm, RankIn, PlacedByMeaning, PlacedByWords;
    assert id in v ==> PlacedByMeaning(engine, db, q, id, RankIn(v, id).value);
    assert id in w ==> PlacedByWords(engine, db, q, id, RankIn(w, id).value);
  }

  lemma WholeHoldsTheFused(engine: Engine, db: Database, q: Query, id: nat)
    ensures var rows := SearchEmbeddings(engine, db, Whole(db, q));
            (exists k :: 0 <= k < |rows| && rows[k].id == id) <==> id in Fused(ArmsOf(engine, db, q))
  {
    var rows, ids := SearchEmbeddings(engine, db, Whole(db, q)), HitIds(engine, db, Whole(db, q));
    hide HitIds, SearchEmbeddings, ArmsOf, Listing, Whole, Candidates, Fused, TeachingsOf, Distinct;
    WholeListing(engine, db, q);
    WholeIds(engine, db, q);
    assert id in Elements(ids) <==> exists k :: 0 <= k < |ids| && ids[k] == id;
  }

  lemma WholeIds(engine: Engine, db: Database, q: Query)
    ensures var rows, ids := SearchEmbeddings(engine, db, Whole(db, q)), HitIds(engine, db, Whole(db, q));
            |rows| == |ids| && forall k :: 0 <= k < |ids| ==> rows[k].id == ids[k]
  {
    hide HitIds, ArmsOf, HitFor, Candidates, JoinedTo, Whole;
    var ids := HitIds(engine, db, Whole(db, q));
    forall k | 0 <= k < |ids|
      ensures ids[k] in Candidates(db, Whole(db, q))
    {
      assert ids[k] in Elements(ids);
    }
  }

  // -------------------------------------------------------------------------------------------
  // The cap and the page, on the rows
  // -------------------------------------------------------------------------------------------

  /** How many of the rows are of the teaching. */
  function CountOf(rows: seq<ResultRow>, recording: nat): nat {
    if rows == [] then 0
    else CountOf(rows[..|rows| - 1], recording) + if rows[|rows| - 1].recording == recording then 1 else 0
  }

  /** The rows with fewer than the cap of their own teaching above them. */
  function Cut(rows: seq<ResultRow>, cap: Option<nat>): seq<ResultRow> {
    if rows == [] then []
    else
      var above, row := rows[..|rows| - 1], rows[|rows| - 1];
      Cut(above, cap) + if cap.None? || CountOf(above, row.recording) < cap.value then [row] else []
  }

  lemma {:induction false} OnlySnoc(xs: seq<nat>, x: nat, keep: set<nat>)
    ensures Only(xs + [x], keep) == Only(xs, keep) + if x in keep then [x] else []
    decreases |xs|
  {
    var ys, tail := xs + [x], if x in keep then [x] else [];
    if xs == [] {
      assert ys == [x] && ys[1..] == [];
      assert tail + [] == tail && Only([], keep) + tail == tail;
    } else {
      assert ys[1..] == xs[1..] + [x] && ys[0] == xs[0];
      OnlySnoc(xs[1..], x, keep);
      var head := if xs[0] in keep then [xs[0]] else [];
      assert head + (Only(xs[1..], keep) + tail) == head + Only(xs[1..], keep) + tail;
    }
  }

  ghost function OfTeachingIn(ids: seq<nat>, teachings: Teachings, id: nat): set<nat> {
    set other | other in ids && SameTeaching(teachings, other, id)
  }

  lemma RowOfTeaching(engine: Engine, db: Database, q: Query, id: nat)
    requires id in Candidates(db, q)
    ensures id in TeachingsOf(db, q)
    ensures RowFor(engine, db, q, HitFor(ArmsOf(engine, db, q), id)).recording == TeachingsOf(db, q)[id]
  {
    hide JoinedTo;
  }

  lemma RowsOfSnoc(engine: Engine, db: Database, q: Query, ids: seq<nat>, id: nat)
    requires Elements(ids) <= Candidates(db, q) && id in Candidates(db, q)
    ensures Elements(ids + [id]) <= Candidates(db, q)
    ensures RowsOf(engine, db, q, ids + [id]) ==
            RowsOf(engine, db, q, ids) + [RowFor(engine, db, q, HitFor(ArmsOf(engine, db, q), id))]
  {
    hide RowFor, HitFor, ArmsOf, Candidates;
    SnocElements(ids, id);
    forall k | 0 <= k < |ids|
      ensures RowsOf(engine, db, q, ids + [id])[k] == RowsOf(engine, db, q, ids)[k]
    {
      assert (ids + [id])[k] == ids[k];
    }
  }

  /** Counting the rows of a teaching is counting its ids. */
  lemma {:induction false} CountIsSize(engine: Engine, db: Database, q: Query, ids: seq<nat>, id: nat)
    requires Elements(ids) <= Candidates(db, q) && Distinct(ids) && id in Candidates(db, q)
    ensures id in TeachingsOf(db, q)
    ensures CountOf(RowsOf(engine, db, q, ids), TeachingsOf(db, q)[id]) == |OfTeachingIn(ids, TeachingsOf(db, q), id)|
    decreases |ids|
  {
    var teachings := TeachingsOf(db, q);
    RowOfTeaching(engine, db, q, id);
    if ids == [] {
      assert OfTeachingIn(ids, teachings, id) == {};
    } else {
      var n := |ids| - 1;
      var last := ids[n];
      assert ids == ids[..n] + [last];
      assert Elements(ids[..n]) <= Elements(ids) && last in Elements(ids);
      CountIsSize(engine, db, q, ids[..n], id);
      RowsOfSnoc(engine, db, q, ids[..n], last);
      RowOfTeaching(engine, db, q, last);
      hide RowsOf, RowFor, HitFor, ArmsOf, TeachingsOf, Candidates;
      var before := OfTeachingIn(ids[..n], teachings, id);
      var rows := RowsOf(engine, db, q, ids);
      assert rows[..|rows| - 1] == RowsOf(engine, db, q, ids[..n]);
      assert last !in before;
      assert OfTeachingIn(ids, teachings, id) == if SameTeaching(teachings, last, id) then before + {last} else before;
    }
  }

  /** `keep` holds the ids with fewer than the cap of their own teaching above them. */
  ghost predicate KeepsByCap(ids: seq<nat>, teachings: Teachings, cap: Option<nat>, keep: set<nat>) {
    forall k :: 0 <= k < |ids| ==> (ids[k] in keep <==> cap.None? || |OfTeachingIn(ids[..k], teachings, ids[k])| < cap.value)
  }

  lemma KeepsByCapInit(ids: seq<nat>, teachings: Teachings, cap: Option<nat>, keep: set<nat>)
    requires ids != [] && KeepsByCap(ids, teachings, cap, keep)
    ensures var n := |ids| - 1;
            && KeepsByCap(ids[..n], teachings, cap, keep)
            && (ids[n] in keep <==> cap.None? || |OfTeachingIn(ids[..n], teachings, ids[n])| < cap.value)
  {
    hide OfTeachingIn;
    var n := |ids| - 1;
    forall k | 0 <= k < n
      ensures ids[..n][..k] == ids[..k] && ids[..n][k] == ids[k]
    {
    }
  }

  lemma CutSnoc(rows: seq<ResultRow>, row: ResultRow, cap: Option<nat>)
    ensures Cut(rows + [row], cap) ==
            Cut(rows, cap) + if cap.None? || CountOf(rows, row.recording) < cap.value then [row] else []
  {
    assert (rows + [row])[..|rows|] == rows;
  }

  /** Leaving ids out and leaving rows out is the same. */
  lemma {:induction false} CutIsOnly(engine: Engine, db: Database, q: Query, ids: seq<nat>, keep: set<nat>)
    requires Elements(ids) <= Candidates(db, q) && Distinct(ids)
    requires KeepsByCap(ids, TeachingsOf(db, q), q.perTeaching, keep)
    ensures Elements(Only(ids, keep)) <= Candidates(db, q)
    ensures RowsOf(engine, db, q, Only(ids, keep)) == Cut(RowsOf(engine, db, q, ids), q.perTeaching)
    decreases |ids|
  {
    OnlyElements(ids, keep);
    if ids != [] {
      var n := |ids| - 1;
      var last, init := ids[n], ids[..n];
      assert ids == init + [last];
      assert Elements(init) <= Elements(ids) && last in Elements(ids);
      assert Distinct(init);
      KeepsByCapInit(ids, TeachingsOf(db, q), q.perTeaching, keep);
      hide RowsOf, RowFor, HitFor, ArmsOf, TeachingsOf, Candidates, OfTeachingIn, Only, KeepsByCap, Cut, CountOf, Distinct, Elements;
      CutIsOnly(engine, db, q, init, keep);
      CountIsSize(engine, db, q, init, last);
      RowOfTeaching(engine, db, q, last);
      RowsOfSnoc(engine, db, q, init, last);
      OnlySnoc(init, last, keep);
      CutSnoc(RowsOf(engine, db, q, init), RowFor(engine, db, q, HitFor(ArmsOf(engine, db, q), last)), q.perTeaching);
      if last in keep {
        RowsOfSnoc(engine, db, q, Only(init, keep), last);
      } else {
        assert Only(init, keep) + [] == Only(init, keep);
        assert Cut(RowsOf(engine, db, q, init), q.perTeaching) + [] == Cut(RowsOf(engine, db, q, init), q.perTeaching);
      }
    }
  }

  lemma KeptById(engine: Engine, db: Database, q: Query, k: nat)
    requires k < |Listing(ArmsOf(engine, db, q), TeachingsOf(db, q), None)|
    ensures var all := Listing(ArmsOf(engine, db, q), TeachingsOf(db, q), None);
            all[k] in KeptIds(ArmsOf(engine, db, q), TeachingsOf(db, q), q.perTeaching) <==>
            q.perTeaching.None? || |OfTeachingIn(all[..k], TeachingsOf(db, q), all[k])| < q.perTeaching.value
  {
    var arms, teachings := ArmsOf(engine, db, q), TeachingsOf(db, q);
    var all := Listing(arms, teachings, None);
    hide Listing, KeptIds, ArmsOf, TeachingsOf, SameTeaching;
    ListingElements(arms, teachings, None);
    assert all[k] in all;
    if q.perTeaching.Some? {
      ListingElements(arms, teachings, q.perTeaching);
      CapKeepsTheFirstOfEachTeaching(arms, teachings, q.perTeaching.value, k);
      assert OfTeachingIn(all[..k], teachings, all[k]) == set id | id in all[..k] && SameTeaching(teachings, id, all[k]);
    }
  }

  lemma PageOfRows(engine: Engine, db: Database, q: Query, ids: seq<nat>, offset: nat, limit: nat)
    requires Elements(ids) <= Candidates(db, q)
    ensures Elements(Page(ids, offset, limit)) <= Candidates(db, q)
    ensures RowsOf(engine, db, q, Page(ids, offset, limit)) == Page(RowsOf(engine, db, q, ids), offset, limit)
  {
    hide RowFor, HitFor, ArmsOf, Candidates;
    PageOfDistinct(ids, offset, limit);
    var page, rows := Page(ids, offset, limit), RowsOf(engine, db, q, ids);
    forall k | 0 <= k < |page|
      ensures RowsOf(engine, db, q, page)[k] == Page(rows, offset, limit)[k]
    {
      assert page[k] == ids[offset + k];
    }
  }

  lemma OnlyKeepsAll(xs: seq<nat>, keep: set<nat>, less: (nat, nat) -> bool)
    requires StrictTotal(less, keep) && Ascending(less, xs) && Elements(xs) == keep
    ensures Only(xs, keep) == xs
  {
    OnlyElements(xs, keep);
    OnlyAscends(less, xs, keep);
    assert keep * keep == keep;
    AscendingIsUnique(less, Only(xs, keep), xs);
  }

  lemma ListingIsOnly(arms: Arms, teachings: Teachings, cap: Option<nat>)
    ensures Listing(arms, teachings, cap) == Only(Listing(arms, teachings, None), KeptIds(arms, teachings, cap))
  {
    if cap.Some? {
      RaisingTheCapOnlyAdds(arms, teachings, cap.value, None);
    } else {
      ListingElements(arms, teachings, None);
      InOrderIsTotal(arms, Fused(arms));
      OnlyKeepsAll(Listing(arms, teachings, None), KeptIds(arms, teachings, None), InOrder(arms));
    }
  }

  lemma WholeRows(engine: Engine, db: Database, q: Query)
    ensures Elements(Listing(ArmsOf(engine, db, q), TeachingsOf(db, q), None)) <= Candidates(db, q)
    ensures SearchEmbeddings(engine, db, Whole(db, q)) ==
            RowsOf(engine, db, q, Listing(ArmsOf(engine, db, q), TeachingsOf(db, q), None))
  {
    WholeListing(engine, db, q);
    SameArms(engine, db, q);
    var ids := HitIds(engine, db, Whole(db, q));
    AnswerIsARowEach(engine, db, Whole(db, q));
    hide HitIds, ArmsOf, HitFor, RowFor, Candidates, Whole, Listing, TeachingsOf, Fused, SearchEmbeddings, Distinct;
    forall k | 0 <= k < |ids|
      ensures ids[k] in Candidates(db, q) && ids[k] in Candidates(db, Whole(db, q))
      ensures RowFor(engine, db, Whole(db, q), HitFor(ArmsOf(engine, db, q), ids[k])) ==
              RowFor(engine, db, q, HitFor(ArmsOf(engine, db, q), ids[k]))
    {
      assert ids[k] in Elements(ids);
      RowOfWhole(engine, db, q, HitFor(ArmsOf(engine, db, q), ids[k]));
    }
  }

  lemma RowOfWhole(engine: Engine, db: Database, q: Query, hit: Hit)
    requires hit.id in Candidates(db, q) && hit.id in Candidates(db, Whole(db, q))
    ensures RowFor(engine, db, Whole(db, q), hit) == RowFor(engine, db, q, hit)
  {
    hide JoinedTo, Candidates;
  }

  /**
   * The answer to any query: every placed row in order, less those with the cap of their own teaching
   * above them, from the offset on and no more than the limit.
   */
  lemma AnswerIsTheCutWhole(engine: Engine, db: Database, q: Query)
    ensures var cut := Cut(SearchEmbeddings(engine, db, Whole(db, q)), q.perTeaching);
            SearchEmbeddings(engine, db, q) ==
            if q.offset >= |cut| then [] else if q.offset + q.limit < |cut| then cut[q.offset..q.offset + q.limit]
            else cut[q.offset..]
  {
    var arms, teachings := ArmsOf(engine, db, q), TeachingsOf(db, q);
    var all, kept := Listing(arms, teachings, None), KeptIds(arms, teachings, q.perTeaching);
    AnswerIsARowEach(engine, db, q);
    WholeRows(engine, db, q);
    WholeListing(engine, db, q);
    hide *;
    ListingIsOnly(arms, teachings, q.perTeaching);
    KeptByCap(engine, db, q);
    CutIsOnly(engine, db, q, all, kept);
    PageOfRows(engine, db, q, Only(all, kept), q.offset, q.limit);
    PageIsASlice(RowsOf(engine, db, q, Only(all, kept)), q.offset, q.limit);
  }

  lemma PageIsASlice<T>(xs: seq<T>, offset: nat, limit: nat)
    ensures Page(xs, offset, limit) ==
            if offset >= |xs| then [] else if offset + limit < |xs| then xs[offset..offset + limit] else xs[offset..]
  {
  }

  lemma AnswerIsARowEach(engine: Engine, db: Database, q: Query)
    ensures HitIds(engine, db, q) == Page(Listing(ArmsOf(engine, db, q), TeachingsOf(db, q), q.perTeaching), q.offset, q.limit)
    ensures SearchEmbeddings(engine, db, q) == RowsOf(engine, db, q, HitIds(engine, db, q))
  {
    assert HitIds(engine, db, q) == Page(Listing(ArmsOf(engine, db, q), TeachingsOf(db, q), q.perTeaching), q.offset, q.limit);
    hide HitIds, RowFor, HitFor, ArmsOf, Candidates, Listing;
  }

  lemma KeptByCap(engine: Engine, db: Database, q: Query)
    ensures KeepsByCap(Listing(ArmsOf(engine, db, q), TeachingsOf(db, q), None), TeachingsOf(db, q), q.perTeaching,
                       KeptIds(ArmsOf(engine, db, q), TeachingsOf(db, q), q.perTeaching))
  {
    hide Listing, KeptIds, ArmsOf, TeachingsOf, OfTeachingIn;
    var all := Listing(ArmsOf(engine, db, q), TeachingsOf(db, q), None);
    forall k | 0 <= k < |all|
      ensures all[k] in KeptIds(ArmsOf(engine, db, q), TeachingsOf(db, q), q.perTeaching) <==>
              q.perTeaching.None? || |OfTeachingIn(all[..k], TeachingsOf(db, q), all[k])| < q.perTeaching.value
    {
      KeptById(engine, db, q, k);
    }
  }
}
