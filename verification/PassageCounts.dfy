/**
 * What a resolution counts and whom it asks (packages/bible/src/passages.ts:92-131), on the table's
 * own rows.
 */
module PassageCounts {
  import opened Runs
  import opened Passages

  /** The citation's verses that the table holds. */
  function HeldVerses(table: Table, translation: string, c: Citation): set<int> {
    set verse: int | c.verseStart <= verse <= c.verseEnd && VerseKey(translation, c.chapter, verse) in table
  }

  /** One of its verses is not held, so the source is asked. */
  ghost predicate Asks(table: Table, translation: string, c: Citation) {
    exists verse :: Spans(c, verse) && VerseKey(translation, c.chapter, verse) !in table
  }

  /** The verses held when each citation's turn came, counted together. */
  function HeldCount(translation: string, source: Source, s: State, citations: seq<Citation>): nat
    decreases |citations|
  {
    if citations == [] then 0
    else
      var n := |citations| - 1;
      HeldCount(translation, source, s, citations[..n])
      + |HeldVerses(Steps(translation, source, s, citations[..n]).table, translation, citations[n])|
  }

  /** How many of the citations were asked for. */
  ghost function AskCount(translation: string, source: Source, s: State, citations: seq<Citation>): nat
    decreases |citations|
  {
    if citations == [] then 0
    else
      var n := |citations| - 1;
      AskCount(translation, source, s, citations[..n])
      + if Asks(Steps(translation, source, s, citations[..n]).table, translation, citations[n]) then 1 else 0
  }

  /** The answer to citation `k`, when it was asked for. */
  ghost function AnswerAt(translation: string, source: Source, s: State, citations: seq<Citation>, k: nat): Option<Answer>
    requires k < |citations|
  {
    if Asks(Steps(translation, source, s, citations[..k]).table, translation, citations[k]) then
      Some(source(s.calls + AskCount(translation, source, s, citations[..k]), citations[k]))
    else None
  }

  /** The identifier of the last answer that carried one, or `none` when no answer did. */
  ghost predicate IsLastId(
    translation: string, source: Source, s: State, citations: seq<Citation>, none: Option<string>, id: Option<string>)
  {
    (|| id == none
     || exists k: nat :: k < |citations| && GaveId(translation, source, s, citations, k) == id) &&
    forall k: nat :: k < |citations| && GaveId(translation, source, s, citations, k).Some? ==>
      id == GaveId(translation, source, s, citations, k)
      || exists later: nat :: k < later < |citations| && GaveId(translation, source, s, citations, later).Some?
  }

  ghost function GaveId(translation: string, source: Source, s: State, citations: seq<Citation>, k: nat): Option<string>
    requires k < |citations|
  {
    var answer := AnswerAt(translation, source, s, citations, k);
    if answer.Some? then answer.value.requestId else None
  }

  // -------------------------------------------------------------------------------------------
  // One citation
  // -------------------------------------------------------------------------------------------

  lemma {:induction false} HeldOrMissing(held: map<int, string>, wanted: seq<int>)
    requires forall i, j :: 0 <= i < j < |wanted| ==> wanted[i] < wanted[j]
    ensures |wanted| - |Missing(held, wanted)| == |set v | v in wanted && v in held|
  {
    var all := set v | v in wanted && v in held;
    if wanted == [] {
      assert all == {};
    } else {
      var rest := set v | v in wanted[1..] && v in held;
      HeldOrMissing(held, wanted[1..]);
      assert forall v :: v in wanted <==> v == wanted[0] || v in wanted[1..];
      assert wanted[0] !in wanted[1..];
      assert all == if wanted[0] in held then rest + {wanted[0]} else rest;
    }
  }

  /** While memory holds the verses the table holds, a turn counts and asks by the table. */
  lemma TurnCounts(translation: string, source: Source, s: State, c: Citation)
    requires forall verse :: Held(s.memory, c.chapter, verse).Some? <==> Stored(s.table, translation, c.chapter, verse).Some?
    ensures var after, asks := Step(translation, source, s, c), Asks(s.table, translation, c);
            && after.held == s.held + |HeldVerses(s.table, translation, c)|
            && after.calls == s.calls + (if asks then 1 else 0)
            && after.requestId ==
               (if asks && source(s.calls, c).requestId.Some? then source(s.calls, c).requestId else s.requestId)
  {
    var chapter, wanted := ChapterOf(s.memory, c.chapter), Wanted(c);
    WantedIsTheRange(c);
    MissingIsFewer(chapter, wanted);
    HeldOrMissing(chapter, wanted);
    forall v
      ensures v in chapter <==> VerseKey(translation, c.chapter, v) in s.table
    {
      assert Held(s.memory, c.chapter, v).Some? <==> Stored(s.table, translation, c.chapter, v).Some?;
    }
    assert (set v | v in wanted && v in chapter) == HeldVerses(s.table, translation, c);
    assert Missing(chapter, wanted) == [] <==> !Asks(s.table, translation, c);
    hide Missing, Wanted, Fresh, Noted, Inserted, ReadBack;
  }

  // -------------------------------------------------------------------------------------------
  // The whole resolution
  // -------------------------------------------------------------------------------------------

  lemma AgreeingStays(
    translation: string, source: Source, s: State, citations: seq<Citation>, chapters: set<Chapter>, c: Citation)
    requires InStep(s, translation, chapters) && c.chapter in chapters
    ensures var mid := Steps(translation, source, s, citations);
            forall verse :: Held(mid.memory, c.chapter, verse).Some? <==> Stored(mid.table, translation, c.chapter, verse).Some?
  {
    assert AgreeOn(s.memory, s.table, translation, c.chapter);
    hide Steps, Held, Stored, SaidTwice, Conflict;
    forall verse
      ensures var mid := Steps(translation, source, s, citations);
              Held(mid.memory, c.chapter, verse).Some? <==> Stored(mid.table, translation, c.chapter, verse).Some?
    {
      ConflictExactlyWhenSaidTwice(translation, source, s, citations, c.chapter, verse);
    }
  }

  lemma {:induction false} StepsCount(
    translation: string, source: Source, s: State, citations: seq<Citation>, chapters: set<Chapter>)
    requires InStep(s, translation, chapters) && Chapters(citations) <= chapters
    ensures var end := Steps(translation, source, s, citations);
            && end.held == s.held + HeldCount(translation, source, s, citations)
            && end.calls == s.calls + AskCount(translation, source, s, citations)
            && IsLastId(translation, source, s, citations, s.requestId, end.requestId)
    decreases |citations|
  {
    hide *;
    if citations == [] {
      NothingCounted(translation, source, s);
    } else {
      var n := |citations| - 1;
      var init, c := citations[..n], citations[n];
      ChaptersOneMore(citations);
      CountsOneMore(translation, source, s, citations);
      StepsCount(translation, source, s, init, chapters);
      AgreeingStays(translation, source, s, init, chapters, c);
      var mid := Steps(translation, source, s, init);
      TurnCounts(translation, source, mid, c);
      LastGaveId(translation, source, s, citations);
      IdAfterOneMore(translation, source, s, citations, s.requestId, mid.requestId);
    }
  }

  lemma NothingCounted(translation: string, source: Source, s: State)
    ensures Steps(translation, source, s, []) == s
    ensures HeldCount(translation, source, s, []) == AskCount(translation, source, s, []) == 0
    ensures IsLastId(translation, source, s, [], s.requestId, s.requestId)
  {
  }

  lemma ChaptersOneMore(citations: seq<Citation>)
    requires citations != []
    ensures Chapters(citations[..|citations| - 1]) <= Chapters(citations) && citations[|citations| - 1].chapter in Chapters(citations)
  {
  }

  lemma CountsOneMore(translation: string, source: Source, s: State, citations: seq<Citation>)
    requires citations != []
    ensures var n := |citations| - 1;
            var init, c := citations[..n], citations[n];
            var mid := Steps(translation, source, s, init);
            && Steps(translation, source, s, citations) == Step(translation, source, mid, c)
            && HeldCount(translation, source, s, citations) ==
               HeldCount(translation, source, s, init) + |HeldVerses(mid.table, translation, c)|
            && AskCount(translation, source, s, citations) ==
               AskCount(translation, source, s, init) + (if Asks(mid.table, translation, c) then 1 else 0)
  {
    hide Step, Asks, HeldVerses;
  }

  lemma LastGaveId(translation: string, source: Source, s: State, citations: seq<Citation>)
    requires citations != []
    ensures var n := |citations| - 1;
            var init := citations[..n];
            GaveId(translation, source, s, citations, n) ==
            if Asks(Steps(translation, source, s, init).table, translation, citations[n])
            then source(s.calls + AskCount(translation, source, s, init), citations[n]).requestId else None
  {
    hide Steps, Asks, AskCount;
  }

  lemma GaveIdInAPrefix(translation: string, source: Source, s: State, citations: seq<Citation>, n: nat, k: nat)
    requires k < n <= |citations|
    ensures GaveId(translation, source, s, citations[..n], k) == GaveId(translation, source, s, citations, k)
  {
    assert citations[..n][..k] == citations[..k];
  }

  lemma IdAfterOneMore(
    translation: string, source: Source, s: State, citations: seq<Citation>, none: Option<string>, before: Option<string>)
    requires citations != [] && IsLastId(translation, source, s, citations[..|citations| - 1], none, before)
    ensures var last := GaveId(translation, source, s, citations, |citations| - 1);
            IsLastId(translation, source, s, citations, none, if last.Some? then last else before)
  {
    var n := |citations| - 1;
    hide GaveId;
    forall k: nat | k < n
      ensures GaveId(translation, source, s, citations[..n], k) == GaveId(translation, source, s, citations, k)
    {
      GaveIdInAPrefix(translation, source, s, citations, n, k);
    }
  }

  /**
   * What a resolution reports: the verses it had at each turn, and the identifier of the last answer
   * that carried one, over exactly the citations with a verse missing at their turn.
   */
  lemma ResolutionCounts(translation: string, source: Source, table: Table, citations: seq<Citation>)
    ensures var start, end := Start(table, translation, citations), Resolved(translation, source, table, citations);
            && end.held == HeldCount(translation, source, start, citations)
            && end.calls == AskCount(translation, source, start, citations)
            && IsLastId(translation, source, start, citations, None, end.requestId)
            && end.fetched == |end.table| - |table|
  {
    LoadedAgrees(table, translation, citations);
    StepsCount(translation, source, Start(table, translation, citations), citations, Chapters(citations));
    TheTableOnlyGrows(translation, source, Start(table, translation, citations), citations);
    hide Steps, InStep;
  }

  /** With a truthful source and a cache that agrees with it, every passage is the truth about its citation. */
  ghost predicate TellTheTruth(
    translation: string, source: Source, table: Table, citations: seq<Citation>, passages: seq<Passage>)
  {
    forall truth: Truth ::
      Faithful(source, truth)
      && (forall key :: key in table && key.translation == translation ==> truth(key.chapter, key.verse) == Some(table[key])) ==>
        |passages| == |citations|
        && forall k :: 0 <= k < |citations| ==> HasExactly(passages[k], citations[k], v => truth(citations[k].chapter, v))
  }

  lemma ResolvedTellsTheTruth(translation: string, source: Source, table: Table, citations: seq<Citation>)
    ensures TellTheTruth(translation, source, table, citations, Resolved(translation, source, table, citations).passages)
  {
    var passages := Resolved(translation, source, table, citations).passages;
    hide Faithful, HasExactly, Resolved;
    forall truth: Truth | Faithful(source, truth)
                          && forall key :: key in table && key.translation == translation ==>
                               truth(key.chapter, key.verse) == Some(table[key])
      ensures |passages| == |citations|
      ensures forall k :: 0 <= k < |citations| ==> HasExactly(passages[k], citations[k], v => truth(citations[k].chapter, v))
    {
      LengthIs(translation, source, table, citations);
      forall k | 0 <= k < |citations|
        ensures HasExactly(passages[k], citations[k], v => truth(citations[k].chapter, v))
      {
        ResolvedIsTheSourcesOwnAnswer(translation, source, truth, table, citations, k);
      }
    }
  }

  lemma LengthIs(translation: string, source: Source, table: Table, citations: seq<Citation>)
    ensures |Resolved(translation, source, table, citations).passages| == |citations|
  {
    WhatIsThereStays(translation, source, Start(table, translation, citations), citations, 0, Chapter(0, 0), 0);
    hide Steps;
  }
}
