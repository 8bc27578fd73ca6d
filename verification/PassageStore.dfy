/**
 * The resolver as it runs (packages/bible/src/passages.ts:71-132, packages/db/src/scripture.ts:126-167):
 * the verse table as a class and the loops over it, proved against `Passages.Resolved`.
 */
module PassageStore {
  import opened Runs
  import opened Passages
  import opened PassageCounts

  datatype VerseRow = VerseRow(chapter: Chapter, verse: int, text: string)

  class VerseTable {
    var rows: Table

    constructor ()
      ensures rows == map[]
    {
      rows := map[];
    }

    /** Every verse held for these chapters. */
    method FindHeldVerses(translation: string, chapters: set<Chapter>) returns (found: seq<VerseRow>)
      ensures forall chapter, verse, text ::
                VerseRow(chapter, verse, text) in found <==>
                chapter in chapters && Stored(rows, translation, chapter, verse) == Some(text)
    {
      var keys := set key | key in rows && key.translation == translation && key.chapter in chapters;
      found := [];
      while keys != {}
        invariant keys <= rows.Keys
        invariant forall key :: key in keys ==> key.translation == translation && key.chapter in chapters
        invariant forall row :: row in found ==>
                    row.chapter in chapters && Stored(rows, translation, row.chapter, row.verse) == Some(row.text)
        invariant forall key :: key in rows && key.translation == translation && key.chapter in chapters ==>
                    key in keys || VerseRow(key.chapter, key.verse, rows[key]) in found
        decreases |keys|
      {
        var key :| key in keys;
        found := found + [VerseRow(key.chapter, key.verse, rows[key])];
        keys := keys - {key};
      }
      forall chapter, verse, text | chapter in chapters && Stored(rows, translation, chapter, verse) == Some(text)
        ensures VerseRow(chapter, verse, text) in found
      {
        assert VerseKey(translation, chapter, verse) in rows;
      }
    }

    /** Holds these verses, leaving alone any that are held; answers how many rows landed. */
    method SaveVerseTexts(translation: string, chapter: Chapter, verses: seq<Verse>) returns (written: nat)
      modifies this
      ensures rows == Inserted(old(rows), translation, chapter, verses)
      ensures written == |rows| - |old(rows)|
      ensures forall key :: key in old(rows) ==> key in rows && rows[key] == old(rows)[key]
      ensures forall i :: 0 <= i < |verses| ==> VerseKey(translation, chapter, verses[i].number) in rows
      ensures forall key :: key in rows && key !in old(rows) ==>
                IsNewRow(old(rows), translation, chapter, verses, key, rows[key])
    {
      written := 0;
      for i := 0 to |verses|
        invariant rows == Inserted(old(rows), translation, chapter, verses[..i])
        invariant written == |rows| - |old(rows)|
      {
        assert verses[..i + 1][..i] == verses[..i];
        var key := VerseKey(translation, chapter, verses[i].number);
        if key !in rows {
          rows := rows[key := verses[i].text];
          written := written + 1;
        }
      }
      assert verses[..|verses|] == verses;
      InsertedRows(old(rows), translation, chapter, verses);
    }

    /** Asks the source for a citation, and holds in the table and in memory what is new in the answer. */
    method Fetch(translation: string, source: Source, calls: nat, citation: Citation, chapter: map<int, string>)
      returns (requestId: Option<string>, written: nat, noted: map<int, string>)
      modifies this
      ensures var unseen := Fresh(chapter, source(calls, citation).verses);
              && rows == Inserted(old(rows), translation, citation.chapter, unseen)
              && written == |rows| - |old(rows)| && noted == Noted(chapter, unseen)
      ensures requestId == source(calls, citation).requestId
    {
      var answer := source(calls, citation);
      requestId := answer.requestId;
      var unseen := Fresh(chapter, answer.verses);
      written := SaveVerseTexts(translation, citation.chapter, unseen);
      noted := NoteVerses(chapter, unseen);
    }

    /** One turn of the loop: what is wanted and held, and a call when anything is missing. */
    method ResolveCitation(
      translation: string, source: Source, ghost s: State, calls: nat, citation: Citation, chapter: map<int, string>)
      returns (after: map<int, string>, verses: seq<Verse>, written: nat, held: nat, called: nat, requestId: Option<string>)
      requires rows == s.table && chapter == ChapterOf(s.memory, citation.chapter) && calls == s.calls
      modifies this
      ensures Step(translation, source, s, citation) ==
              State(rows, s.memory[citation.chapter := after], s.calls + called, s.fetched + written, s.held + held,
                    if requestId.Some? then requestId else s.requestId, s.passages + [Passage(citation, verses)])
    {
      hide Inserted, Fresh, Missing, Noted, ReadBack, Wanted;
      var wanted := WantedVerses(citation);
      var missing := Missing(chapter, wanted);
      MissingIsFewer(chapter, wanted);
      held, written, called, requestId, after := |wanted| - |missing|, 0, 0, None, chapter;
      if |missing| > 0 {
        called := 1;
        requestId, written, after := Fetch(translation, source, calls, citation, chapter);
      }
      verses := VersesHeld(after, wanted);
    }

    /** Held is read once, for every chapter at issue, before anything is fetched. */
    method ReadHeld(translation: string, citations: seq<Citation>) returns (heldByChapter: Memory)
      ensures heldByChapter == Loaded(rows, translation, Chapters(citations))
    {
      var found := FindHeldVerses(translation, set c | c in citations :: c.chapter);
      heldByChapter := GroupByChapter(rows, translation, Chapters(citations), found);
    }

    method ResolvePassages(translation: string, source: Source, citations: seq<Citation>)
      returns (passages: seq<Passage>, fetched: nat, held: nat, requestId: Option<string>)
      modifies this
      ensures var end := Resolved(translation, source, old(rows), citations);
              && rows == end.table && passages == end.passages
              && fetched == end.fetched && held == end.held && requestId == end.requestId
      ensures TellTheTruth(translation, source, old(rows), citations, passages)
      ensures held == HeldCount(translation, source, Start(old(rows), translation, citations), citations)
      ensures IsLastId(translation, source, Start(old(rows), translation, citations), citations, None, requestId)
      ensures fetched == |rows| - |old(rows)|
    {
      hide *;
      ResolvedTellsTheTruth(translation, source, rows, citations);
      ResolutionCounts(translation, source, rows, citations);
      passages, fetched, held, requestId := [], 0, 0, None;
      ghost var start := Start(rows, translation, citations);
      StartsEmpty(translation, source, rows, citations);
      if citations == [] {
        return;
      }
      var heldByChapter := ReadHeld(translation, citations);
      var calls := 0;
      for i := 0 to |citations|
        invariant Steps(translation, source, start, citations[..i]) ==
                  State(rows, heldByChapter, calls, fetched, held, requestId, passages)
      {
        StepsSnoc(translation, source, start, citations, i);
        ghost var s := State(rows, heldByChapter, calls, fetched, held, requestId, passages);
        var citation := citations[i];
        var chapter := if citation.chapter in heldByChapter then heldByChapter[citation.chapter] else map[];
        IsChapterOf(heldByChapter, citation.chapter);
        var after, verses, written, heldNow, called, asked :=
          ResolveCitation(translation, source, s, calls, citation, chapter);
        heldByChapter := heldByChapter[citation.chapter := after];
        calls, fetched, held := calls + called, fetched + written, held + heldNow;
        if asked.Some? {
          requestId := asked;
        }
        passages := passages + [Passage(citation, verses)];
      }
      assert citations[..|citations|] == citations;
      ResolvedIs(translation, source, old(rows), citations);
    }
  }

  /** The first of the verses with this number. */
  ghost predicate IsFirst(verses: seq<Verse>, i: nat, number: int) {
    i < |verses| && verses[i].number == number && forall j :: 0 <= j < i ==> verses[j].number != number
  }

  /** The row is new, and it is the first of the verses with its number. */
  ghost predicate IsNewRow(table: Table, translation: string, chapter: Chapter, verses: seq<Verse>, key: VerseKey, text: string) {
    && key !in table && key.translation == translation && key.chapter == chapter
    && exists i :: 0 <= i < |verses| && IsFirst(verses, i, key.verse) && text == verses[i].text
  }

  lemma {:induction false} InsertedRows(table: Table, translation: string, chapter: Chapter, verses: seq<Verse>)
    ensures var after := Inserted(table, translation, chapter, verses);
            && (forall key :: key in table ==> key in after && after[key] == table[key])
            && (forall i :: 0 <= i < |verses| ==> VerseKey(translation, chapter, verses[i].number) in after)
            && (forall key :: key in after && key !in table ==> IsNewRow(table, translation, chapter, verses, key, after[key]))
    decreases |verses|
  {
    if verses != [] {
      var n := |verses| - 1;
      var before := Inserted(table, translation, chapter, verses[..n]);
      var last := VerseKey(translation, chapter, verses[n].number);
      InsertedRows(table, translation, chapter, verses[..n]);
      var after := Inserted(table, translation, chapter, verses);
      assert after == if last in before then before else before[last := verses[n].text];
      hide Inserted, IsNewRow;
      forall i | 0 <= i < n
        ensures VerseKey(translation, chapter, verses[i].number) in before
      {
        assert verses[i] == verses[..n][i];
      }
      forall key | key in after && key !in table
        ensures IsNewRow(table, translation, chapter, verses, key, after[key])
      {
        if key in before {
          NewRowStays(table, translation, chapter, verses, key, before[key]);
        } else {
          LastIsNew(table, translation, chapter, verses, before, key);
        }
      }
    }
  }

  lemma NewRowStays(table: Table, translation: string, chapter: Chapter, verses: seq<Verse>, key: VerseKey, text: string)
    requires verses != [] && IsNewRow(table, translation, chapter, verses[..|verses| - 1], key, text)
    ensures IsNewRow(table, translation, chapter, verses, key, text)
  {
    var init := verses[..|verses| - 1];
    var i :| 0 <= i < |init| && IsFirst(init, i, key.verse) && text == init[i].text;
    assert IsFirst(verses, i, key.verse);
  }

  lemma LastIsNew(table: Table, translation: string, chapter: Chapter, verses: seq<Verse>, before: Table, key: VerseKey)
    requires verses != [] && key !in before && key !in table
    requires forall i :: 0 <= i < |verses| - 1 ==> VerseKey(translation, chapter, verses[i].number) in before
    requires key == VerseKey(translation, chapter, verses[|verses| - 1].number)
    ensures IsNewRow(table, translation, chapter, verses, key, verses[|verses| - 1].text)
  {
    var n := |verses| - 1;
    forall j | 0 <= j < n
      ensures verses[j].number != key.verse
    {
      assert VerseKey(translation, chapter, verses[j].number) in before;
    }
    assert IsFirst(verses, n, key.verse);
  }

  lemma ResolvedIs(translation: string, source: Source, table: Table, citations: seq<Citation>)
    ensures Resolved(translation, source, table, citations) ==
            Steps(translation, source, Start(table, translation, citations), citations)
  {
  }

  lemma IsChapterOf(memory: Memory, chapter: Chapter)
    ensures ChapterOf(memory, chapter) == if chapter in memory then memory[chapter] else map[]
  {
  }

  lemma StartsEmpty(translation: string, source: Source, table: Table, citations: seq<Citation>)
    ensures Start(table, translation, citations) ==
            State(table, Loaded(table, translation, Chapters(citations)), 0, 0, 0, None, [])
    ensures Steps(translation, source, Start(table, translation, citations), citations[..0]) ==
            Start(table, translation, citations)
    ensures citations == [] ==>
              Resolved(translation, source, table, citations) == Start(table, translation, citations)
  {
    hide Loaded, Chapters, Step;
  }

  lemma StepsSnoc(translation: string, source: Source, s: State, citations: seq<Citation>, i: nat)
    requires i < |citations|
    ensures Steps(translation, source, s, citations[..i + 1]) ==
            Step(translation, source, Steps(translation, source, s, citations[..i]), citations[i])
  {
    assert citations[..i + 1][..i] == citations[..i];
  }

  ghost predicate NonEmpty(held: map<int, string>) {
    exists verse :: verse in held
  }

  /** The loop that groups the rows found by chapter. */
  method GroupByChapter(ghost table: Table, ghost translation: string, ghost chapters: set<Chapter>, found: seq<VerseRow>)
    returns (heldByChapter: Memory)
    requires forall chapter, verse, text ::
               VerseRow(chapter, verse, text) in found <==>
               chapter in chapters && Stored(table, translation, chapter, verse) == Some(text)
    ensures heldByChapter == Loaded(table, translation, chapters)
  {
    heldByChapter := map[];
    for i := 0 to |found|
      invariant forall chapter, verse :: Held(heldByChapter, chapter, verse).Some? ==>
                  chapter in chapters && Stored(table, translation, chapter, verse) == Held(heldByChapter, chapter, verse)
      invariant forall chapter :: chapter in heldByChapter ==> NonEmpty(heldByChapter[chapter])
      invariant forall j :: 0 <= j < i ==> Held(heldByChapter, found[j].chapter, found[j].verse).Some?
    {
      var row := found[i];
      assert VerseRow(row.chapter, row.verse, row.text) in found;
      ghost var before := heldByChapter;
      var chapter := if row.chapter in heldByChapter then heldByChapter[row.chapter] else map[];
      heldByChapter := heldByChapter[row.chapter := chapter[row.verse := row.text]];
      assert row.verse in heldByChapter[row.chapter];
      assert forall c, v ::
        Held(heldByChapter, c, v) == (if c == row.chapter && v == row.verse then Some(row.text) else Held(before, c, v));
    }
    GroupedIsLoaded(table, translation, chapters, heldByChapter) by {
      forall chapter, verse
        ensures Held(heldByChapter, chapter, verse) ==
                (if chapter in chapters then Stored(table, translation, chapter, verse) else None)
      {
        var text := Stored(table, translation, chapter, verse);
        if chapter in chapters && text.Some? {
          assert VerseRow(chapter, verse, text.value) in found;
        }
      }
    }
  }

  lemma GroupedIsLoaded(table: Table, translation: string, chapters: set<Chapter>, memory: Memory)
    requires forall chapter, verse :: Held(memory, chapter, verse) ==
               (if chapter in chapters then Stored(table, translation, chapter, verse) else None)
    requires forall chapter :: chapter in memory ==> NonEmpty(memory[chapter])
    ensures memory == Loaded(table, translation, chapters)
  {
    forall chapter, verse
      ensures Got(HeldIn(table, translation, chapter), verse) == Stored(table, translation, chapter, verse)
    {
      HeldInIs(table, translation, chapter, verse);
    }
    forall chapter
      ensures chapter in memory <==> chapter in chapters && chapter in HeldChapters(table, translation)
      ensures chapter in memory ==> memory[chapter] == HeldIn(table, translation, chapter)
    {
      if chapter in chapters && chapter in HeldChapters(table, translation) {
        var key :| key in table && key.translation == translation && key.chapter == chapter;
        assert Held(memory, chapter, key.verse) == Stored(table, translation, chapter, key.verse);
      }
      if chapter in memory {
        var verse :| verse in memory[chapter];
        assert Held(memory, chapter, verse).Some?;
        assert VerseKey(translation, chapter, verse) in table;
        forall v
          ensures Got(memory[chapter], v) == Got(HeldIn(table, translation, chapter), v)
        {
          assert Held(memory, chapter, v) == Stored(table, translation, chapter, v);
        }
        SameMap(memory[chapter], HeldIn(table, translation, chapter));
      }
    }
  }

  lemma SameMap(a: map<int, string>, b: map<int, string>)
    requires forall v :: Got(a, v) == Got(b, v)
    ensures a == b
  {
    forall v
      ensures v in a <==> v in b
      ensures v in a ==> a[v] == b[v]
    {
      assert Got(a, v) == Got(b, v);
    }
  }

  method WantedVerses(citation: Citation) returns (wanted: seq<int>)
    ensures wanted == Wanted(citation)
  {
    wanted := [];
    var verse := citation.verseStart;
    while verse <= citation.verseEnd
      invariant verse >= citation.verseStart
      invariant citation.verseStart <= citation.verseEnd ==> verse <= citation.verseEnd + 1
      invariant citation.verseStart > citation.verseEnd ==> verse == citation.verseStart
      invariant |wanted| == verse - citation.verseStart
      invariant forall i :: 0 <= i < |wanted| ==> wanted[i] == citation.verseStart + i
    {
      wanted := wanted + [verse];
      verse := verse + 1;
    }
  }

  method NoteVerses(chapter: map<int, string>, unseen: seq<Verse>) returns (noted: map<int, string>)
    ensures noted == Noted(chapter, unseen)
  {
    noted := chapter;
    for i := 0 to |unseen|
      invariant noted == Noted(chapter, unseen[..i])
    {
      assert unseen[..i + 1][..i] == unseen[..i];
      noted := noted[unseen[i].number := unseen[i].text];
    }
    assert unseen[..|unseen|] == unseen;
  }

  method VersesHeld(chapter: map<int, string>, wanted: seq<int>) returns (verses: seq<Verse>)
    ensures verses == ReadBack(chapter, wanted)
  {
    verses := [];
    for i := 0 to |wanted|
      invariant verses == ReadBack(chapter, wanted[..i])
    {
      assert wanted[..i + 1][..i] == wanted[..i];
      if wanted[i] in chapter {
        verses := verses + [Verse(wanted[i], chapter[wanted[i]])];
      }
    }
    assert wanted[..|wanted|] == wanted;
  }
}
