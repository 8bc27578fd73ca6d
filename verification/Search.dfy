/**
 * Hybrid search (packages/db/src/search.ts, packages/db/src/visibility.ts:529-551): two filtered
 * top-k arms, their fusion, the cap per teaching, the order and the page. Distances and text ranks
 * are reals given by an abstract engine; a tie of distances is broken by id.
 */
module Search {
  import opened Runs
  import opened Ordering

  datatype Kind = Segment | Chapter | Note | Summary | Recording

  type Vector = seq<real>

  datatype EmbeddingRow = EmbeddingRow(
    kind: Kind, source: nat, recording: Option<nat>, owner: Option<nat>, text: string, vector: Vector,
    windowFirst: Option<nat>, windowLast: Option<nat>)

  datatype RecordingRow = RecordingRow(title: string, recordedAt: int, publishedAt: Option<int>, series: Option<nat>)
  datatype SeriesRow = SeriesRow(title: string, artworkKey: Option<string>)
  datatype SegmentRow = SegmentRow(transcript: nat, startMs: int, text: string)
  datatype NoteRow = NoteRow(author: nat, timestampMs: Option<int>)

  datatype Database = Database(
    embeddings: map<nat, EmbeddingRow>, recordings: map<nat, RecordingRow>, series: map<nat, SeriesRow>,
    summaries: map<nat, Option<int>>, notes: map<nat, NoteRow>, chapters: map<nat, int>,
    segments: map<nat, SegmentRow>, blocks: set<(nat, nat)>)

  /** `<=>`, `@@`, `ts_rank_cd` and `ts_headline`, as functions of the text and the query alone. */
  datatype Engine = Engine(
    distance: (Vector, Vector) -> real, matches: (string, string) -> bool,
    textRank: (string, string) -> real, headline: (string, string) -> string)

  /** `blend` is the meaning arm's weight; `perTeaching` absent keeps every row. */
  datatype Query = Query(
    reader: nat, text: string, vector: Option<Vector>, kinds: set<Kind>, blend: real,
    perTeaching: Option<nat>, perArm: nat, offset: nat, limit: nat)

  const FUSION_K := 60

  // -------------------------------------------------------------------------------------------
  // Who may see what
  // -------------------------------------------------------------------------------------------

  predicate NoBlockBetween(db: Database, a: nat, b: nat) {
    (a, b) !in db.blocks && (b, a) !in db.blocks
  }

  predicate VisibleTo(db: Database, reader: nat, e: EmbeddingRow) {
    && e.recording.Some? && e.recording.value in db.recordings && db.recordings[e.recording.value].publishedAt.Some?
    && (e.kind != Summary || (e.source in db.summaries && db.summaries[e.source].Some?))
    && (e.owner.None? || e.owner.value == reader)
    && (e.kind != Note || (e.source in db.notes && NoBlockBetween(db, reader, db.notes[e.source].author)))
  }

  function Candidates(db: Database, q: Query): set<nat> {
    set id | id in db.embeddings && VisibleTo(db, q.reader, db.embeddings[id]) && db.embeddings[id].kind in q.kinds
  }

  // -------------------------------------------------------------------------------------------
  // The arms
  // -------------------------------------------------------------------------------------------

  /** `order by embedding <=> query`, nearest first. */
  ghost predicate Nearer(engine: Engine, db: Database, v: Vector, a: nat, b: nat) {
    a in db.embeddings && b in db.embeddings &&
    var da, dc := engine.distance(db.embeddings[a].vector, v), engine.distance(db.embeddings[b].vector, v);
    da < dc || (da == dc && a < b)
  }

  /** `order by ts_rank_cd desc, id`. */
  ghost predicate Stronger(engine: Engine, db: Database, text: string, a: nat, b: nat) {
    a in db.embeddings && b in db.embeddings &&
    var ra, rb := engine.textRank(db.embeddings[a].text, text), engine.textRank(db.embeddings[b].text, text);
    ra > rb || (ra == rb && a < b)
  }

  ghost function ByDistance(engine: Engine, db: Database, v: Vector): (nat, nat) -> bool {
    (a: nat, b: nat) => Nearer(engine, db, v, a, b)
  }

  ghost function ByTextRank(engine: Engine, db: Database, text: string): (nat, nat) -> bool {
    (a: nat, b: nat) => Stronger(engine, db, text, a, b)
  }

  lemma ArmOrdersAreTotal(engine: Engine, db: Database, v: Vector, text: string, ids: set<nat>)
    requires ids <= db.embeddings.Keys
    ensures StrictTotal(ByDistance(engine, db, v), ids) && StrictTotal(ByTextRank(engine, db, text), ids)
  {
  }

  ghost function Matching(engine: Engine, db: Database, q: Query): set<nat> {
    set id | id in Candidates(db, q) && engine.matches(db.embeddings[id].text, q.text)
  }

  ghost function VectorArm(engine: Engine, db: Database, q: Query): seq<nat> {
    match q.vector
    case None => []
    case Some(v) =>
      ArmOrdersAreTotal(engine, db, v, q.text, Candidates(db, q));
      Top(ByDistance(engine, db, v), Candidates(db, q), q.perArm)
  }

  ghost function WordArm(engine: Engine, db: Database, q: Query): seq<nat> {
    if q.blend == 1.0 then []
    else
      ArmOrdersAreTotal(engine, db, [], q.text, Matching(engine, db, q));
      Top(ByTextRank(engine, db, q.text), Matching(engine, db, q), q.perArm)
  }

  /** The `rank` column: one more than the place in the arm. */
  ghost function RankIn(arm: seq<nat>, id: nat): Option<nat> {
    if id in arm then
      var k :| 0 <= k < |arm| && arm[k] == id;
      Some(k + 1)
    else None
  }

  /** Where an element of a list stands among the first `n`. */
  lemma PlaceInTake(xs: seq<nat>, n: nat, k: nat)
    requires Distinct(xs) && k < |xs|
    ensures xs[k] in Take(xs, n) <==> k < n
    ensures k < n ==> RankIn(Take(xs, n), xs[k]) == Some(k + 1)
  {
    var arm := Take(xs, n);
    assert forall j :: 0 <= j < |arm| ==> arm[j] == xs[j];
    if k < n {
      assert arm[k] == xs[k];
      var j :| 0 <= j < |arm| && arm[j] == xs[k] && RankIn(arm, xs[k]) == Some(j + 1);
    }
  }

  lemma SortedFacts(less: (nat, nat) -> bool, s: set<nat>, n: nat)
    requires StrictTotal(less, s)
    ensures var xs := Sorted(less, s);
            Top(less, s, n) == Take(xs, n) && Elements(xs) == s && Ascending(less, xs) && Distinct(xs)
  {
    AscendingDistinct(less, Sorted(less, s));
  }

  lemma ElementHasPlace(xs: seq<nat>, id: nat) returns (k: nat)
    requires id in Elements(xs)
    ensures k < |xs| && xs[k] == id
  {
    k :| 0 <= k < |xs| && xs[k] == id;
  }

  lemma TakeIsPart(xs: seq<nat>, n: nat, id: nat)
    ensures id in Take(xs, n) ==> id in Elements(xs)
  {
  }

  /** The first `n` of a sorted set are the elements fewer than `n` others precede, ranked by how many do. */
  lemma TopOfASet(less: (nat, nat) -> bool, s: set<nat>, n: nat, id: nat)
    requires StrictTotal(less, s)
    ensures var arm := Top(less, s, n);
            && (id in arm <==> id in s && |Before(less, s, id)| < n)
            && (id in arm ==> RankIn(arm, id) == Some(|Before(less, s, id)| + 1))
  {
    hide *;
    var xs := Sorted(less, s);
    SortedFacts(less, s, n);
    TakeIsPart(xs, n, id);
    if id in s {
      var k := ElementHasPlace(xs, id);
      RankIsPosition(less, xs, k);
      PlaceInTake(xs, n, k);
    }
  }

  /** The meaning arm is the true top `perArm` of the rows the reader may see, ranked by true position. */
  lemma VectorArmIsTheTrueTop(engine: Engine, db: Database, q: Query, id: nat)
    ensures q.vector.None? ==> VectorArm(engine, db, q) == []
    ensures q.vector.Some? ==>
              var before := Before(ByDistance(engine, db, q.vector.value), Candidates(db, q), id);
              && (id in VectorArm(engine, db, q) <==> id in Candidates(db, q) && |before| < q.perArm)
              && (id in VectorArm(engine, db, q) ==> RankIn(VectorArm(engine, db, q), id) == Some(|before| + 1))
  {
    if q.vector.Some? {
      ArmOrdersAreTotal(engine, db, q.vector.value, q.text, Candidates(db, q));
      hide StrictTotal, ByDistance, Candidates, RankIn, Before, Top, Nearer, Elements, VisibleTo;
      TopOfASet(ByDistance(engine, db, q.vector.value), Candidates(db, q), q.perArm, id);
    }
  }

  /** The word arm likewise, over the rows that match the words; a blend of one empties it. */
  lemma WordArmIsTheTrueTop(engine: Engine, db: Database, q: Query, id: nat)
    ensures q.blend == 1.0 ==> WordArm(engine, db, q) == []
    ensures q.blend != 1.0 ==>
              var before := Before(ByTextRank(engine, db, q.text), Matching(engine, db, q), id);
              && (id in WordArm(engine, db, q) <==> id in Matching(engine, db, q) && |before| < q.perArm)
              && (id in WordArm(engine, db, q) ==> RankIn(WordArm(engine, db, q), id) == Some(|before| + 1))
  {
    ArmOrdersAreTotal(engine, db, [], q.text, Matching(engine, db, q));
    hide StrictTotal, ByTextRank, Matching, Candidates, RankIn, Before, Top, Stronger, Elements, VisibleTo;
    TopOfASet(ByTextRank(engine, db, q.text), Matching(engine, db, q), q.perArm, id);
  }

  // -------------------------------------------------------------------------------------------
  // Fusion
  // -------------------------------------------------------------------------------------------

  datatype Arms = Arms(vector: seq<nat>, words: seq<nat>, blend: real)

  ghost function ArmsOf(engine: Engine, db: Database, q: Query): Arms {
    Arms(VectorArm(engine, db, q), WordArm(engine, db, q), q.blend)
  }

  datatype Hit = Hit(id: nat, vectorRank: Option<nat>, textRank: Option<nat>, score: real)

  function Share(weight: real, rank: Option<nat>): real {
    if rank.Some? then weight / ((FUSION_K + rank.value) as real) else 0.0
  }

  function Score(blend: real, vectorRank: Option<nat>, textRank: Option<nat>): real {
    Share(blend, vectorRank) + Share(1.0 - blend, textRank)
  }

  ghost function HitFor(arms: Arms, id: nat): (hit: Hit)
    ensures hit.id == id
  {
    var v, w := RankIn(arms.vector, id), RankIn(arms.words, id);
    Hit(id, v, w, Score(arms.blend, v, w))
  }

  /** The full outer join of the arms. */
  ghost function Fused(arms: Arms): set<nat> {
    Elements(arms.vector) + Elements(arms.words)
  }

  predicate NullsLast(a: Option<nat>, b: Option<nat>) {
    a.Some? && (b.None? || a.value < b.value)
  }

  /** `score desc, vector_rank asc nulls last, text_rank asc nulls last, id`. */
  predicate Precedes(a: Hit, b: Hit) {
    || a.score > b.score
    || (a.score == b.score
        && (NullsLast(a.vectorRank, b.vectorRank)
            || (a.vectorRank == b.vectorRank
                && (NullsLast(a.textRank, b.textRank) || (a.textRank == b.textRank && a.id < b.id)))))
  }

  ghost function InOrder(arms: Arms): (nat, nat) -> bool {
    (a: nat, b: nat) => Precedes(HitFor(arms, a), HitFor(arms, b))
  }

  lemma PrecedesIsTransitive(a: Hit, b: Hit, c: Hit)
    requires Precedes(a, b) && Precedes(b, c)
    ensures Precedes(a, c)
  {
  }

  lemma InOrderIsTotal(arms: Arms, ids: set<nat>)
    ensures StrictTotal(InOrder(arms), ids)
  {
    hide HitFor;
    forall x, y, z | InOrder(arms)(x, y) && InOrder(arms)(y, z)
      ensures InOrder(arms)(x, z)
    {
      PrecedesIsTransitive(HitFor(arms, x), HitFor(arms, y), HitFor(arms, z));
    }
  }

  // -------------------------------------------------------------------------------------------
  // A row both arms placed against a row one arm placed
  // -------------------------------------------------------------------------------------------

  /** Arms as a query gives them, at most `n` rows each: no row twice, and no word arm when all weight is on meaning. */
  ghost predicate ArmsUpTo(arms: Arms, n: nat) {
    && Distinct(arms.vector) && Distinct(arms.words) && |arms.vector| <= n && |arms.words| <= n
    && (arms.blend == 1.0 ==> arms.words == [])
  }

  lemma TopIsShortAndDistinct(less: (nat, nat) -> bool, s: set<nat>, n: nat)
    requires StrictTotal(less, s)
    ensures Distinct(Top(less, s, n)) && |Top(less, s, n)| <= n
  {
    SortedFacts(less, s, n);
  }

  lemma VectorArmIsShort(engine: Engine, db: Database, q: Query)
    ensures Distinct(VectorArm(engine, db, q)) && |VectorArm(engine, db, q)| <= q.perArm
  {
    if q.vector.Some? {
      ArmOrdersAreTotal(engine, db, q.vector.value, q.text, Candidates(db, q));
      hide StrictTotal, Top, ByDistance, Candidates;
      TopIsShortAndDistinct(ByDistance(engine, db, q.vector.value), Candidates(db, q), q.perArm);
    }
  }

  lemma WordArmIsShort(engine: Engine, db: Database, q: Query)
    ensures Distinct(WordArm(engine, db, q)) && |WordArm(engine, db, q)| <= q.perArm
    ensures q.blend == 1.0 ==> WordArm(engine, db, q) == []
  {
    ArmOrdersAreTotal(engine, db, [], q.text, Matching(engine, db, q));
    hide StrictTotal, Top, ByTextRank, Matching;
    TopIsShortAndDistinct(ByTextRank(engine, db, q.text), Matching(engine, db, q), q.perArm);
  }

  lemma QueriesGiveSuchArms(engine: Engine, db: Database, q: Query)
    ensures ArmsUpTo(ArmsOf(engine, db, q), q.perArm)
  {
    hide VectorArm, WordArm, Distinct;
    VectorArmIsShort(engine, db, q);
    WordArmIsShort(engine, db, q);
  }

  /** In every fusion of such arms, a row both placed scores above a row one placed. */
  ghost predicate BothBeatOne(blend: real, n: nat) {
    forall arms: Arms, both, one ::
      && arms.blend == blend && ArmsUpTo(arms, n)
      && both in arms.vector && both in arms.words && (one in arms.vector <==> one !in arms.words) ==>
        HitFor(arms, both).score > HitFor(arms, one).score
  }

  lemma Quotients(x: real, k: real, y: real, m: real)
    requires k > 0.0 && m > 0.0
    ensures x / k > y / m <==> x * m > y * k
  {
    var a, b := x / k, y / m;
    assert a * k == x && b * m == y;
    assert (a - b) * (k * m) == x * m - y * k by {
      assert a * (k * m) == a * k * m;
      assert b * (k * m) == b * m * k;
      assert (a - b) * (k * m) == a * (k * m) - b * (k * m);
    }
    SignOfProduct(a - b, k * m);
  }

  lemma SignOfProduct(x: real, k: real)
    requires k > 0.0
    ensures x * k > 0.0 <==> x > 0.0
  {
  }

  lemma ShareFalls(weight: real, rank: nat, limit: nat)
    requires weight >= 0.0 && rank <= limit
    ensures Share(weight, Some(rank)) >= Share(weight, Some(limit))
  {
    var a, b := (FUSION_K + rank) as real, (FUSION_K + limit) as real;
    Quotients(weight, b, weight, a);
    assert weight * a <= weight * b;
  }

  lemma WorstOfBoth(blend: real, n: nat)
    ensures Score(blend, Some(n), Some(n)) == 1.0 / ((FUSION_K + n) as real)
  {
    var k := (FUSION_K + n) as real;
    assert blend / k + (1.0 - blend) / k == (blend + (1.0 - blend)) / k;
  }

  function Heavier(blend: real): real {
    if blend >= 0.5 then blend else 1.0 - blend
  }

  /** Both arms' worst rank still scores above the heavier one's best alone. */
  predicate WorstBeats(blend: real, n: nat) {
    Score(blend, Some(n), Some(n)) > Share(Heavier(blend), Some(1))
  }

  lemma WorstAgainstBest(blend: real, n: nat)
    ensures WorstBeats(blend, n) <==> Heavier(blend) * ((FUSION_K + n) as real) < 61.0
  {
    hide Heavier, Score;
    WorstOfBoth(blend, n);
    var k, heavier := (FUSION_K + n) as real, Heavier(blend);
    assert Share(heavier, Some(1)) == heavier / 61.0;
    hide Share;
    Quotients(1.0, k, heavier, 61.0);
    assert heavier * k == Heavier(blend) * ((FUSION_K + n) as real);
  }

  lemma BestAlone(blend: real)
    ensures Share(blend, Some(1)) <= Share(Heavier(blend), Some(1))
    ensures Share(1.0 - blend, Some(1)) <= Share(Heavier(blend), Some(1))
  {
  }

  lemma ScoreAdds(blend: real, v: nat, w: nat)
    ensures Score(blend, Some(v), Some(w)) == Share(blend, Some(v)) + Share(1.0 - blend, Some(w))
    ensures Score(blend, Some(v), None) == Share(blend, Some(v))
    ensures Score(blend, None, Some(w)) == Share(1.0 - blend, Some(w))
  {
  }

  lemma OnePair(blend: real, n: nat, v: nat, w: nat, u: nat)
    requires 0.0 <= blend <= 1.0 && 1 <= v <= n && 1 <= w <= n && 1 <= u <= n
    requires WorstBeats(blend, n)
    ensures Score(blend, Some(v), Some(w)) > Score(blend, Some(u), None)
    ensures Score(blend, Some(v), Some(w)) > Score(blend, None, Some(u))
  {
    hide Share, Score, Heavier;
    ShareFalls(blend, v, n);
    ShareFalls(1.0 - blend, w, n);
    ShareFalls(blend, 1, u);
    ShareFalls(1.0 - blend, 1, u);
    BestAlone(blend);
    ScoreAdds(blend, v, w);
    ScoreAdds(blend, n, n);
    ScoreAdds(blend, u, u);
  }

  lemma RankIsWithin(arm: seq<nat>, id: nat)
    ensures RankIn(arm, id).Some? <==> id in arm
    ensures RankIn(arm, id).Some? ==> 1 <= RankIn(arm, id).value <= |arm|
  {
  }

  lemma RankAt(arm: seq<nat>, k: nat)
    requires Distinct(arm) && k < |arm|
    ensures RankIn(arm, arm[k]) == Some(k + 1)
  {
    PlaceInTake(arm, |arm|, k);
    assert Take(arm, |arm|) == arm;
  }

  /** Both arms' worst is above one arm's best, so any row both placed is above any row one placed. */
  lemma BothBeat(arms: Arms, n: nat, both: nat, one: nat)
    requires 0.0 <= arms.blend <= 1.0 && ArmsUpTo(arms, n)
    requires WorstBeats(arms.blend, n)
    requires both in arms.vector && both in arms.words && (one in arms.vector <==> one !in arms.words)
    ensures HitFor(arms, both).score > HitFor(arms, one).score
  {
    RankIsWithin(arms.vector, both);
    RankIsWithin(arms.words, both);
    RankIsWithin(arms.vector, one);
    RankIsWithin(arms.words, one);
    hide RankIn, WorstBeats, Score;
    var v, w := RankIn(arms.vector, both).value, RankIn(arms.words, both).value;
    var u := if one in arms.vector then RankIn(arms.vector, one).value else RankIn(arms.words, one).value;
    OnePair(arms.blend, n, v, w, u);
  }

  /** Two arms of `n` rows: `n - 1` is the last of both, and 0 the first of the heavier one alone. */
  ghost function WorstArms(blend: real, n: nat): Arms
    requires n >= 2
  {
    var heavy := seq(n, (i: nat) => i);
    var light := seq(n, (i: nat) => if i == n - 1 then i else n + i);
    if blend >= 0.5 then Arms(heavy, light, blend) else Arms(light, heavy, blend)
  }

  lemma WorstArmsScores(blend: real, n: nat)
    requires n >= 2 && blend != 1.0
    ensures var arms := WorstArms(blend, n);
            && ArmsUpTo(arms, n) && n - 1 in arms.vector && n - 1 in arms.words && (0 in arms.vector <==> 0 !in arms.words)
            && HitFor(arms, n - 1).score == Score(blend, Some(n), Some(n))
            && HitFor(arms, 0).score == Share(Heavier(blend), Some(1))
  {
    var arms := WorstArms(blend, n);
    var heavy, light := if blend >= 0.5 then arms.vector else arms.words, if blend >= 0.5 then arms.words else arms.vector;
    assert heavy[0] == 0 && heavy[n - 1] == n - 1 && light[n - 1] == n - 1;
    assert 0 !in light;
    RankAt(heavy, 0);
    RankAt(heavy, n - 1);
    RankAt(light, n - 1);
    ScoreAdds(blend, 1, 1);
    hide RankIn, Score, Share;
  }

  /**
   * What decides it, for every blend: one row an arm leaves no row to compare, all weight on meaning
   * leaves no row both placed, and otherwise it is the heavier arm's best alone against both arms' worst.
   */
  lemma BothBeatOneExactly(blend: real, n: nat)
    requires 0.0 <= blend <= 1.0 && n >= 1
    ensures BothBeatOne(blend, n) <==> n == 1 || blend == 1.0 || Heavier(blend) * ((FUSION_K + n) as real) < 61.0
  {
    hide HitFor;
    WorstAgainstBest(blend, n);
    hide Heavier;
    if n == 1 {
      forall arms: Arms, both, one | ArmsUpTo(arms, n) && both in arms.vector && both in arms.words
        ensures one in arms.vector ==> one in arms.words
        ensures one in arms.words ==> one in arms.vector
      {
        assert arms.vector == [both] && arms.words == [both];
      }
    } else if WorstBeats(blend, n) {
      forall arms: Arms, both, one | arms.blend == blend && ArmsUpTo(arms, n) && both in arms.vector && both in arms.words
                                     && (one in arms.vector <==> one !in arms.words)
        ensures HitFor(arms, both).score > HitFor(arms, one).score
      {
        BothBeat(arms, n, both, one);
      }
    } else if blend != 1.0 {
      WorstArmsScores(blend, n);
      assert HitFor(WorstArms(blend, n), n - 1).score <= HitFor(WorstArms(blend, n), 0).score;
    }
  }

  /** At the balanced stop it holds up to 61 rows an arm and no further: at 62 a row ranked last in both ties the best of one. */
  lemma BalancedBoundIsTight(n: nat)
    requires n >= 1
    ensures BothBeatOne(0.5, n) <==> n <= 61
    ensures Score(0.5, Some(62), Some(62)) == Score(0.5, Some(1), None) == Score(0.5, None, Some(1))
  {
    BothBeatOneExactly(0.5, n);
    WorstOfBoth(0.5, 62);
  }

  /** The candidates an arm the search page asks for. */
  const SEARCH_CANDIDATES_PER_ARM: nat := 100

  /** At the lengths the page asks for, a row both arms placed can rank below one that only one arm placed. */
  lemma ThePagesArmsAreLonger()
    ensures !BothBeatOne(0.5, SEARCH_CANDIDATES_PER_ARM)
    ensures Score(0.5, Some(SEARCH_CANDIDATES_PER_ARM), Some(SEARCH_CANDIDATES_PER_ARM)) < Score(0.5, Some(1), None)
  {
    hide BothBeatOne, Score, Share;
    BalancedBoundIsTight(SEARCH_CANDIDATES_PER_ARM);
    WorstOfBoth(0.5, SEARCH_CANDIDATES_PER_ARM);
    WorstOfBoth(0.5, 62);
  }

  lemma SumOfHalves(a: real, b: real)
    requires a > 0.0 && b > 0.0
    ensures a * b > 0.0 && 0.5 / a + 0.5 / b == (0.5 * (a + b)) / (a * b)
  {
    SignOfProduct(a, b);
    var x, y := 0.5 / a, 0.5 / b;
    assert x * a == 0.5 && y * b == 0.5;
    assert x * (a * b) == 0.5 * b by { assert x * (a * b) == x * a * b; }
    assert y * (a * b) == 0.5 * a by { assert y * (a * b) == y * b * a; }
    assert (x + y) * (a * b) == x * (a * b) + y * (a * b);
    Unquotient(x + y, a * b, 0.5 * (a + b));
  }

  lemma Unquotient(x: real, k: real, y: real)
    requires k > 0.0 && x * k == y
    ensures x == y / k
  {
  }

  /** At the balanced stop, whatever the arms' lengths: a row ranked `v` and `w` beats every row one arm placed exactly when this holds. */
  lemma WhichPairsBeatEverySingle(v: nat, w: nat)
    requires v >= 1 && w >= 1
    ensures (forall u: nat :: u >= 1 ==> Score(0.5, Some(v), Some(w)) > Score(0.5, Some(u), None)
                                         && Score(0.5, Some(v), Some(w)) > Score(0.5, None, Some(u)))
            <==> (v - 1) * (w - 1) < 61 * 61
  {
    var a, b := (FUSION_K + v) as real, (FUSION_K + w) as real;
    SumOfHalves(a, b);
    Quotients(0.5 * (a + b), a * b, 0.5, 61.0);
    Products(v, w);
    assert Score(0.5, Some(v), Some(w)) > Score(0.5, Some(1), None) <==> (v - 1) * (w - 1) < 61 * 61;
    assert Score(0.5, Some(1), None) == Score(0.5, None, Some(1));
    hide Share;
    forall u: nat | u >= 1
      ensures Score(0.5, Some(u), None) <= Score(0.5, Some(1), None)
      ensures Score(0.5, None, Some(u)) <= Score(0.5, None, Some(1))
    {
      ShareFalls(0.5, 1, u);
      ScoreAdds(0.5, u, u);
      ScoreAdds(0.5, 1, 1);
    }
    hide Score;
  }

  lemma Products(v: nat, w: nat)
    ensures var a, b := (FUSION_K + v) as real, (FUSION_K + w) as real;
            0.5 * (a + b) * 61.0 > 0.5 * (a * b) <==> (v - 1) * (w - 1) < 61 * 61
  {
    var i, j := FUSION_K + v, FUSION_K + w;
    var a, b := i as real, j as real;
    assert a * b == (i * j) as real;
    assert 61 * (i + j) > i * j <==> (v - 1) * (w - 1) < 61 * 61 by {
      assert i * j == (v - 1) * (w - 1) + 61 * (v - 1) + 61 * (w - 1) + 61 * 61;
    }
  }

  /** So at the balanced stop, arms of at most 61 rows list every row both placed before any row one placed. */
  lemma BothArmsComeFirst(arms: Arms, both: nat, one: nat)
    requires arms.blend == 0.5 && ArmsUpTo(arms, 61)
    requires both in arms.vector && both in arms.words
    requires one in arms.vector <==> one !in arms.words
    ensures InOrder(arms)(both, one)
  {
    WorstAgainstBest(0.5, 61);
    hide WorstBeats;
    BothBeat(arms, 61, both, one);
  }
}
