/**
 * The chapters of other teachings that speak to a span (packages/db/src/flow-tracker.ts:838-893):
 * each link out of the span, placed in the chapter its target sentence falls in.
 */
module RelatedChapters {
  import opened Runs
  import opened Ordering
  import opened Chapters
  import CrossReferences

  /** The segments' starts, beside the chapters, the links and the published teachings. */
  datatype Library = Library(starts: map<nat, int>, chapters: Rows, links: set<CrossReferences.Row>, published: set<nat>)

  /** The open end the caller gives a last chapter's span: `Number.MAX_SAFE_INTEGER`. */
  const MAX_SAFE_INTEGER := 9007199254740991

  ghost predicate Consistent(lib: Library) {
    && Valid(lib.chapters)
    && (forall link :: link in lib.links ==> link.sourceSegment in lib.starts && link.targetSegment in lib.starts)
    && (forall segment :: segment in lib.starts ==> lib.starts[segment] < MAX_SAFE_INTEGER)
  }

  /** The link leaves the span `[startMs, endMs)` of the recording for a published teaching. */
  predicate LeavesSpan(lib: Library, recording: nat, startMs: int, endMs: int, link: CrossReferences.Row) {
    && link in lib.links && link.sourceRecording == recording
    && link.sourceSegment in lib.starts && startMs <= lib.starts[link.sourceSegment] < endMs
    && link.targetRecording in lib.published
  }

  /** And its target sentence falls in the chapter. */
  predicate LandsIn(lib: Library, link: CrossReferences.Row, chapter: nat) {
    link.targetSegment in lib.starts
    && Picks(lib.chapters, link.targetRecording, lib.starts[link.targetSegment], chapter)
  }

  /** The links out of the span that land in the chapter. */
  function Hits(lib: Library, recording: nat, startMs: int, endMs: int, chapter: nat): set<CrossReferences.Row> {
    set link | link in lib.links && LeavesSpan(lib, recording, startMs, endMs, link) && LandsIn(lib, link, chapter)
  }

  /** `distinct on (tc.id)`: one row per chapter the span's links land in. */
  function Related(lib: Library, recording: nat, startMs: int, endMs: int): set<nat> {
    set chapter | chapter in lib.chapters && Hits(lib, recording, startMs, endMs, chapter) != {}
  }

  ghost predicate IsTopScore(hits: set<CrossReferences.Row>, score: real) {
    && (exists link :: link in hits && link.score == score)
    && (forall link :: link in hits ==> link.score <= score)
  }

  lemma {:induction false} HasTopScore(hits: set<CrossReferences.Row>) returns (score: real)
    requires hits != {}
    ensures IsTopScore(hits, score)
    decreases |hits|
  {
    var link :| link in hits;
    if hits == {link} {
      score := link.score;
    } else {
      var rest := HasTopScore(hits - {link});
      score := if link.score > rest then link.score else rest;
      assert forall other :: other in hits ==> other == link || other in hits - {link};
      if score == rest {
        var best :| best in hits - {link} && best.score == rest;
        assert best in hits;
      }
    }
  }

  /** `order by tc.id, x.score desc`: the row of a chapter carries the strongest link into it. */
  ghost function ScoreOf(lib: Library, recording: nat, startMs: int, endMs: int, chapter: nat): (score: real)
    requires chapter in Related(lib, recording, startMs, endMs)
    ensures IsTopScore(Hits(lib, recording, startMs, endMs, chapter), score)
  {
    var hits := Hits(lib, recording, startMs, endMs, chapter);
    assert exists score :: IsTopScore(hits, score) by {
      var score := HasTopScore(hits);
    }
    var score :| IsTopScore(hits, score);
    score
  }

  /** `order by score desc, chapter_id`. */
  ghost function Strongest(lib: Library, recording: nat, startMs: int, endMs: int): (nat, nat) -> bool {
    (a: nat, b: nat) =>
      && a in Related(lib, recording, startMs, endMs) && b in Related(lib, recording, startMs, endMs)
      && (var sa, sb := ScoreOf(lib, recording, startMs, endMs, a), ScoreOf(lib, recording, startMs, endMs, b);
          sa > sb || (sa == sb && a < b))
  }

  lemma StrongestIsTotal(lib: Library, recording: nat, startMs: int, endMs: int)
    ensures StrictTotal(Strongest(lib, recording, startMs, endMs), Related(lib, recording, startMs, endMs))
  {
    hide Related;
  }

  /** `listRelatedChapters`. */
  ghost function ListRelatedChapters(lib: Library, recording: nat, startMs: int, endMs: int, limit: nat): (ids: seq<nat>)
    ensures |ids| <= limit && Elements(ids) <= Related(lib, recording, startMs, endMs)
  {
    StrongestIsTotal(lib, recording, startMs, endMs);
    Top(Strongest(lib, recording, startMs, endMs), Related(lib, recording, startMs, endMs), limit)
  }

  // -------------------------------------------------------------------------------------------
  // What it promises
  // -------------------------------------------------------------------------------------------

  /** Each link lands in at most one chapter, and in one exactly when its target teaching has started one by then. */
  lemma EachLinkLandsOnce(lib: Library, link: CrossReferences.Row)
    requires Consistent(lib) && link in lib.links
    ensures forall a, b :: LandsIn(lib, link, a) && LandsIn(lib, link, b) ==> a == b
    ensures (exists chapter :: LandsIn(lib, link, chapter)) <==>
            exists id :: id in lib.chapters && lib.chapters[id].recording == link.targetRecording
                         && lib.chapters[id].startMs <= lib.starts[link.targetSegment]
  {
    var at := lib.starts[link.targetSegment];
    QueryPicksOne(lib.chapters, link.targetRecording, at);
    forall a, b | LandsIn(lib, link, a) && LandsIn(lib, link, b)
      ensures a == b
    {
      assert Picks(lib.chapters, link.targetRecording, at, a) && Picks(lib.chapters, link.targetRecording, at, b);
    }
    if chapter :| Picks(lib.chapters, link.targetRecording, at, chapter) {
      assert LandsIn(lib, link, chapter);
    }
  }

  /** A chapter item of a session, with the start its chapter had when it was asked. */
  datatype Asked = Asked(item: nat, startMs: int)

  /** One teaching's chapter items by start; equal starts may stand either way round. */
  ghost predicate InOrder(items: seq<Asked>) {
    forall i, j :: 0 <= i < j < |items| ==> items[i].startMs <= items[j].startMs
  }

  /** `chapterSpans`: an item ends where the next one started, and the last runs on. */
  ghost function EndOf(items: seq<Asked>, i: nat): int
    requires i < |items|
  {
    if i + 1 < |items| then items[i + 1].startMs else MAX_SAFE_INTEGER
  }

  ghost predicate LeavesItem(lib: Library, recording: nat, items: seq<Asked>, i: nat, link: CrossReferences.Row) {
    i < |items| && LeavesSpan(lib, recording, items[i].startMs, EndOf(items, i), link)
  }

  /** The last item that started by then. */
  lemma {:induction false} ItemAt(items: seq<Asked>, offset: int, upTo: nat) returns (i: nat)
    requires upTo < |items| && items[0].startMs <= offset
    ensures i <= upTo && items[i].startMs <= offset
    ensures i < upTo ==> items[i + 1].startMs > offset
    decreases upTo
  {
    if items[upTo].startMs <= offset {
      i := upTo;
    } else {
      i := ItemAt(items, offset, upTo - 1);
    }
  }

  /**
   * The links out of a teaching are shared out among the items a session asked about it, whatever has
   * happened to its chapters since: a link leaves the span of at most one item, and of one exactly when
   * some item had started by its source sentence; and no item that started later had.
   */
  lemma LinksPartitionBySpan(lib: Library, recording: nat, items: seq<Asked>, link: CrossReferences.Row)
    requires Consistent(lib) && InOrder(items) && link in lib.links
    ensures var at := lib.starts[link.sourceSegment];
            && ((exists i :: LeavesItem(lib, recording, items, i, link)) <==>
                && link.sourceRecording == recording && link.targetRecording in lib.published
                && exists k :: 0 <= k < |items| && items[k].startMs <= at)
            && (forall i, j :: LeavesItem(lib, recording, items, i, link) && LeavesItem(lib, recording, items, j, link) ==> i == j)
            && (forall i: nat, j: nat :: LeavesItem(lib, recording, items, i, link) && i < j < |items| ==> items[j].startMs > at)
  {
    var at := lib.starts[link.sourceSegment];
    forall i: nat, j: nat | LeavesItem(lib, recording, items, i, link) && i < j < |items|
      ensures items[j].startMs > at
    {
      assert i + 1 < j ==> items[i + 1].startMs <= items[j].startMs;
    }
    if k :| 0 <= k < |items| && items[k].startMs <= at {
      assert items[0].startMs <= items[k].startMs;
      var i := ItemAt(items, at, |items| - 1);
      assert LeavesItem(lib, recording, items, i, link) <==>
        link.sourceRecording == recording && link.targetRecording in lib.published;
    }
  }

  /**
   * The list is the strongest related chapters of published teachings, each once, each at the highest
   * score of the links that land in it, and nothing unlisted is stronger than anything listed.
   */
  lemma ListIsTheStrongest(lib: Library, recording: nat, startMs: int, endMs: int, limit: nat, chapter: nat)
    ensures var ids := ListRelatedChapters(lib, recording, startMs, endMs, limit);
            && (chapter in ids ==>
                  && chapter in Related(lib, recording, startMs, endMs)
                  && IsTopScore(Hits(lib, recording, startMs, endMs, chapter),
                                ScoreOf(lib, recording, startMs, endMs, chapter))
                  && lib.chapters[chapter].recording in lib.published)
            && (chapter in Related(lib, recording, startMs, endMs) && chapter !in ids ==>
                  |ids| == limit && forall other :: other in ids ==> Strongest(lib, recording, startMs, endMs)(other, chapter))
  {
    var all := Related(lib, recording, startMs, endMs);
    var less := Strongest(lib, recording, startMs, endMs);
    StrongestIsTotal(lib, recording, startMs, endMs);
    TopIsBelow(less, all, limit, chapter);
    if chapter in ListRelatedChapters(lib, recording, startMs, endMs, limit) {
      assert chapter in Elements(ListRelatedChapters(lib, recording, startMs, endMs, limit));
      var link :| link in Hits(lib, recording, startMs, endMs, chapter);
    }
  }

  /** The link leaves the span for a published teaching, and no chapter of it starts nearer to the target sentence than this one. */
  ghost predicate Reaches(lib: Library, recording: nat, startMs: int, endMs: int, link: CrossReferences.Row, chapter: nat) {
    && link in lib.links && link.sourceRecording == recording && link.targetRecording in lib.published
    && link.sourceSegment in lib.starts && startMs <= lib.starts[link.sourceSegment]
    && lib.starts[link.sourceSegment] < endMs
    && link.targetSegment in lib.starts && chapter in lib.chapters
    && lib.chapters[chapter].recording == link.targetRecording
    && lib.chapters[chapter].startMs <= lib.starts[link.targetSegment]
    && forall other :: other in lib.chapters && lib.chapters[other].recording == link.targetRecording
                       && lib.chapters[other].startMs > lib.chapters[chapter].startMs ==>
         lib.chapters[other].startMs > lib.starts[link.targetSegment]
  }

  lemma HitsReach(lib: Library, recording: nat, startMs: int, endMs: int, link: CrossReferences.Row, chapter: nat)
    ensures link in Hits(lib, recording, startMs, endMs, chapter) <==> Reaches(lib, recording, startMs, endMs, link, chapter)
  {
  }

  /** On the tables: a chapter is related exactly when some link reaches it, and its score is the highest of those. */
  lemma WhatIsRelated(lib: Library, recording: nat, startMs: int, endMs: int, chapter: nat)
    ensures chapter in Related(lib, recording, startMs, endMs) <==>
            exists link :: Reaches(lib, recording, startMs, endMs, link, chapter)
    ensures chapter in Related(lib, recording, startMs, endMs) ==>
              && (exists link :: Reaches(lib, recording, startMs, endMs, link, chapter)
                                 && link.score == ScoreOf(lib, recording, startMs, endMs, chapter))
              && forall link :: Reaches(lib, recording, startMs, endMs, link, chapter) ==>
                   link.score <= ScoreOf(lib, recording, startMs, endMs, chapter)
  {
    var hits := Hits(lib, recording, startMs, endMs, chapter);
    forall link
      ensures link in hits <==> Reaches(lib, recording, startMs, endMs, link, chapter)
    {
      HitsReach(lib, recording, startMs, endMs, link, chapter);
    }
    assert chapter in Related(lib, recording, startMs, endMs) <==> chapter in lib.chapters && hits != {};
    if link :| link in hits {
      assert Reaches(lib, recording, startMs, endMs, link, chapter);
    }
    hide Hits, Related;
  }

  /** The list runs from the highest score down, equal scores by id. */
  lemma ListFallsByScore(lib: Library, recording: nat, startMs: int, endMs: int, limit: nat, i: nat, j: nat)
    requires i < j < |ListRelatedChapters(lib, recording, startMs, endMs, limit)|
    ensures var ids := ListRelatedChapters(lib, recording, startMs, endMs, limit);
            && ids[i] in Related(lib, recording, startMs, endMs) && ids[j] in Related(lib, recording, startMs, endMs)
            && var a, b := ScoreOf(lib, recording, startMs, endMs, ids[i]), ScoreOf(lib, recording, startMs, endMs, ids[j]);
               a > b || (a == b && ids[i] < ids[j])
  {
    var less := Strongest(lib, recording, startMs, endMs);
    StrongestIsTotal(lib, recording, startMs, endMs);
    TopAscends(less, Related(lib, recording, startMs, endMs), limit);
    var ids := ListRelatedChapters(lib, recording, startMs, endMs, limit);
    assert less(ids[i], ids[j]);
    hide ListRelatedChapters, Related, ScoreOf, StrictTotal;
  }

  lemma TopAscends(less: (nat, nat) -> bool, all: set<nat>, limit: nat)
    requires StrictTotal(less, all)
    ensures Ascending(less, Top(less, all, limit))
  {
    hide StrictTotal;
  }

  /** What a limit leaves out comes after everything it keeps. */
  lemma TopIsBelow(less: (nat, nat) -> bool, all: set<nat>, limit: nat, x: nat)
    requires StrictTotal(less, all)
    ensures x in all && x !in Top(less, all, limit) ==>
              |Top(less, all, limit)| == limit && forall other :: other in Top(less, all, limit) ==> less(other, x)
  {
    var xs := Sorted(less, all);
    if x in all && x !in Top(less, all, limit) {
      assert x in Elements(xs);
      var k :| 0 <= k < |xs| && xs[k] == x;
      TakeHas(xs, limit, k);
    }
  }
}
