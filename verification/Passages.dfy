/**
 * Verse text fetched once and held (packages/bible/src/passages.ts:71-132,
 * packages/db/src/scripture.ts:126-167). A source is a function of how often it has been called and
 * of the citation, so it may answer the same question differently the next time.
 */
module Passages {
  import opened Runs

  datatype Chapter = Chapter(book: nat, number: int)
  datatype Citation = Citation(chapter: Chapter, verseStart: int, verseEnd: int)
  datatype Verse = Verse(number: int, text: string)
  datatype Answer = Answer(verses: seq<Verse>, requestId: Option<string>)
  datatype Passage = Passage(citation: Citation, verses: seq<Verse>)
  datatype VerseKey = VerseKey(translation: string, chapter: Chapter, verse: int)

  type Table = map<VerseKey, string>
  /** `heldByChapter`: what one resolution holds in memory. */
  type Memory = map<Chapter, map<int, string>>
  type Source = (nat, Citation) -> Answer

  // -------------------------------------------------------------------------------------------
  // What one resolution does, citation by citation
  // -------------------------------------------------------------------------------------------

  function Wanted(c: Citation): seq<int> {
    if c.verseStart <= c.verseEnd then seq(c.verseEnd - c.verseStart + 1, i => c.verseStart + i) else []
  }

  /** The verses wanted are those from the first to the last, both included, in rising order. */
  lemma WantedIsTheRange(c: Citation)
    ensures forall v :: v in Wanted(c) <==> Spans(c, v)
    ensures forall i, j :: 0 <= i < j < |Wanted(c)| ==> Wanted(c)[i] < Wanted(c)[j]
    ensures |Wanted(c)| == VersesIn(c)
  {
    forall v | Spans(c, v)
      ensures v in Wanted(c)
    {
      assert Wanted(c)[v - c.verseStart] == v;
    }
  }

  predicate Spans(c: Citation, verse: int) {
    c.verseStart <= verse <= c.verseEnd
  }

  function VersesIn(c: Citation): nat {
    if c.verseStart <= c.verseEnd then c.verseEnd - c.verseStart + 1 else 0
  }

  function ChapterOf(memory: Memory, chapter: Chapter): map<int, string> {
    if chapter in memory then memory[chapter] else map[]
  }

  /** `wanted.filter((verse) => !chapter.has(verse))`. */
  function Missing(held: map<int, string>, wanted: seq<int>): seq<int> {
    if wanted == [] then []
    else (if wanted[0] in held then [] else [wanted[0]]) + Missing(held, wanted[1..])
  }

  /** `answer.verses.filter((one) => !chapter.has(one.number))`. */
  function Fresh(held: map<int, string>, verses: seq<Verse>): seq<Verse> {
    if verses == [] then []
    else (if verses[0].number in held then [] else [verses[0]]) + Fresh(held, verses[1..])
  }

  /** `insert ... on conflict do nothing`: of two rows for one verse the first stays. */
  function Inserted(table: Table, translation: string, chapter: Chapter, unseen: seq<Verse>): Table
    decreases |unseen|
  {
    if unseen == [] then table
    else
      var before := Inserted(table, translation, chapter, unseen[..|unseen| - 1]);
      var verse := unseen[|unseen| - 1];
      var key := VerseKey(translation, chapter, verse.number);
      if key in before then before else before[key := verse.text]
  }

  /** `chapter.set(...)` for each: of two the last stays. */
  function Noted(held: map<int, string>, unseen: seq<Verse>): map<int, string>
    decreases |unseen|
  {
    if unseen == [] then held
    else
      var verse := unseen[|unseen| - 1];
      Noted(held, unseen[..|unseen| - 1])[verse.number := verse.text]
  }

  /** The verses handed back for a citation: those in memory, in the order wanted. */
  function ReadBack(held: map<int, string>, wanted: seq<int>): seq<Verse>
    decreases |wanted|
  {
    if wanted == [] then []
    else
      var verse := wanted[|wanted| - 1];
      ReadBack(held, wanted[..|wanted| - 1]) + (if verse in held then [Verse(verse, held[verse])] else [])
  }

  datatype State = State(
    table: Table, memory: Memory, calls: nat, fetched: nat, held: nat, requestId: Option<string>, passages: seq<Passage>)

  lemma {:induction false} MissingIsFewer(held: map<int, string>, wanted: seq<int>)
    ensures |Missing(held, wanted)| <= |wanted|
    ensures Missing(held, wanted) == [] <==> forall v :: v in wanted ==> v in held
  {
    if wanted != [] {
      MissingIsFewer(held, wanted[1..]);
      assert forall v :: v in wanted <==> v == wanted[0] || v in wanted[1..];
    }
  }

  lemma {:induction false} InsertedGrows(table: Table, translation: string, chapter: Chapter, unseen: seq<Verse>)
    ensures |table| <= |Inserted(table, translation, chapter, unseen)|
    ensures forall key :: key in table ==>
              key in Inserted(table, translation, chapter, unseen) && Inserted(table, translation, chapter, unseen)[key] == table[key]
    decreases |unseen|
  {
    if unseen != [] {
      InsertedGrows(table, translation, chapter, unseen[..|unseen| - 1]);
    }
  }

  function Step(translation: string, source: Source, s: State, c: Citation): State {
    var chapter := ChapterOf(s.memory, c.chapter);
    var wanted := Wanted(c);
    var missing := Missing(chapter, wanted);
    MissingIsFewer(chapter, wanted);
    var held := s.held + |wanted| - |missing|;
    if missing == [] then
      s.(memory := s.memory[c.chapter := chapter], held := held,
         passages := s.passages + [Passage(c, ReadBack(chapter, wanted))])
    else
      var answer := source(s.calls, c);
      var unseen := Fresh(chapter, answer.verses);
      var table := Inserted(s.table, translation, c.chapter, unseen);
      var noted := Noted(chapter, unseen);
      InsertedGrows(s.table, translation, c.chapter, unseen);
      State(table, s.memory[c.chapter := noted], s.calls + 1, s.fetched + |table| - |s.table|, held,
            if answer.requestId.Some? then answer.requestId else s.requestId,
            s.passages + [Passage(c, ReadBack(noted, wanted))])
  }

  function Steps(translation: string, source: Source, s: State, citations: seq<Citation>): State
    decreases |citations|
  {
    if citations == [] then s
    else
      var n := |citations| - 1;
      Step(translation, source, Steps(translation, source, s, citations[..n]), citations[n])
  }

  function Chapters(citations: seq<Citation>): set<Chapter> {
    set c | c in citations :: c.chapter
  }

  /** What `findHeldVerses` puts in memory before the first citation. */
  function Loaded(table: Table, translation: string, chapters: set<Chapter>): Memory {
    map chapter | chapter in chapters && chapter in HeldChapters(table, translation) :: HeldIn(table, translation, chapter)
  }

  function HeldChapters(table: Table, translation: string): set<Chapter> {
    set key | key in table && key.translation == translation :: key.chapter
  }

  function HeldIn(table: Table, translation: string, chapter: Chapter): map<int, string> {
    var verses := set key | key in table && key.translation == translation && key.chapter == chapter :: key.verse;
    map verse | verse in verses && VerseKey(translation, chapter, verse) in table
      :: table[VerseKey(translation, chapter, verse)]
  }

  function Start(table: Table, translation: string, citations: seq<Citation>): State {
    State(table, Loaded(table, translation, Chapters(citations)), 0, 0, 0, None, [])
  }

  function Resolved(translation: string, source: Source, table: Table, citations: seq<Citation>): State {
    Steps(translation, source, Start(table, translation, citations), citations)
  }

  // -------------------------------------------------------------------------------------------
  // Memory against the table
  // -------------------------------------------------------------------------------------------

  function Held(memory: Memory, chapter: Chapter, verse: int): Option<string> {
    if chapter in memory && verse in memory[chapter] then Some(memory[chapter][verse]) else None
  }

  function Stored(table: Table, translation: string, chapter: Chapter, verse: int): Option<string> {
    var key := VerseKey(translation, chapter, verse);
    if key in table then Some(table[key]) else None
  }

  ghost predicate AgreeOn(memory: Memory, table: Table, translation: string, chapter: Chapter) {
    forall verse :: Held(memory, chapter, verse) == Stored(table, translation, chapter, verse)
  }

  ghost predicate InStep(s: State, translation: string, chapters: set<Chapter>) {
    forall chapter :: chapter in chapters ==> AgreeOn(s.memory, s.table, translation, chapter)
  }

  function FirstText(verses: seq<Verse>, number: int): Option<string>
    decreases |verses|
  {
    if verses == [] then None
    else
      var earlier := FirstText(verses[..|verses| - 1], number);
      if earlier.Some? then earlier
      else if verses[|verses| - 1].number == number then Some(verses[|verses| - 1].text) else None
  }

  function LastText(verses: seq<Verse>, number: int): Option<string>
    decreases |verses|
  {
    if verses == [] then None
    else if verses[|verses| - 1].number == number then Some(verses[|verses| - 1].text)
    else LastText(verses[..|verses| - 1], number)
  }

  lemma {:induction false} InsertedAt(table: Table, translation: string, chapter: Chapter, unseen: seq<Verse>, key: VerseKey)
    ensures var after := Inserted(table, translation, chapter, unseen);
            && (key in table ==> key in after && after[key] == table[key])
            && (key !in table && (key.translation != translation || key.chapter != chapter) ==> key !in after)
            && (key !in table && key.translation == translation && key.chapter == chapter ==>
                  Stored(after, translation, chapter, key.verse) == FirstText(unseen, key.verse))
    decreases |unseen|
  {
    if unseen != [] {
      InsertedAt(table, translation, chapter, unseen[..|unseen| - 1], key);
    }
  }

  function Got(held: map<int, string>, verse: int): Option<string> {
    if verse in held then Some(held[verse]) else None
  }

  lemma {:induction false} NotedAt(held: map<int, string>, unseen: seq<Verse>, verse: int)
    ensures Got(Noted(held, unseen), verse) ==
            if LastText(unseen, verse).Some? then LastText(unseen, verse) else Got(held, verse)
    decreases |unseen|
  {
    if unseen != [] {
      NotedAt(held, unseen[..|unseen| - 1], verse);
    }
  }

  lemma FreshTexts(held: map<int, string>, verses: seq<Verse>, number: int)
    ensures FirstText(Fresh(held, verses), number).Some? ==> number !in held
    ensures LastText(Fresh(held, verses), number).Some? ==> number !in held
  {
    OnlyFresh(held, verses);
    TextsComeFrom(Fresh(held, verses), number);
  }

  lemma {:induction false} OnlyFresh(held: map<int, string>, verses: seq<Verse>)
    ensures forall v :: v in Fresh(held, verses) <==> v in verses && v.number !in held
  {
    if verses != [] {
      OnlyFresh(held, verses[1..]);
      assert forall v :: v in verses <==> v == verses[0] || v in verses[1..];
    }
  }

  lemma {:induction false} TextsComeFrom(verses: seq<Verse>, number: int)
    ensures FirstText(verses, number).Some? ==> Verse(number, FirstText(verses, number).value) in verses
    ensures LastText(verses, number).Some? ==> Verse(number, LastText(verses, number).value) in verses
    ensures (exists v :: v in verses && v.number == number) ==>
              FirstText(verses, number).Some? && LastText(verses, number).Some?
    decreases |verses|
  {
    if verses != [] {
      var n := |verses| - 1;
      TextsComeFrom(verses[..n], number);
      assert forall v :: v in verses <==> v == verses[n] || v in verses[..n];
    }
  }

  /** No verse comes back twice in the part of the answer that is new with two different texts at its ends. */
  ghost predicate Tidy(unseen: seq<Verse>) {
    forall number :: FirstText(unseen, number) == LastText(unseen, number)
  }

  /** The part of the answer for `c` that would be written, were it asked for now. */
  function NewPart(source: Source, s: State, c: Citation): seq<Verse> {
    var chapter := ChapterOf(s.memory, c.chapter);
    if Missing(chapter, Wanted(c)) == [] then [] else Fresh(chapter, source(s.calls, c).verses)
  }

  lemma HeldInIs(table: Table, translation: string, chapter: Chapter, verse: int)
    ensures Got(HeldIn(table, translation, chapter), verse) == Stored(table, translation, chapter, verse)
  {
    var key := VerseKey(translation, chapter, verse);
    if key in table {
      assert key.verse in HeldIn(table, translation, chapter);
    }
  }

  lemma LoadedAgrees(table: Table, translation: string, citations: seq<Citation>)
    ensures InStep(Start(table, translation, citations), translation, Chapters(citations))
  {
    var s := Start(table, translation, citations);
    forall chapter, verse | chapter in Chapters(citations)
      ensures Held(s.memory, chapter, verse) == Stored(table, translation, chapter, verse)
    {
      HeldInIs(table, translation, chapter, verse);
      var key := VerseKey(translation, chapter, verse);
      if key in table {
        assert key.chapter in HeldChapters(table, translation);
      }
    }
  }

  /** Memory holds one text for the verse and the table another. */
  ghost predicate Conflict(s: State, translation: string, chapter: Chapter, verse: int) {
    var inMemory, inTable := Held(s.memory, chapter, verse), Stored(s.table, translation, chapter, verse);
    inMemory.Some? && inTable.Some? && inMemory != inTable
  }

  /** What one citation does to one verse, in memory and in the table. */
  lemma StepAt(translation: string, source: Source, s: State, c: Citation, chapter: Chapter, verse: int)
    ensures var after, unseen := Step(translation, source, s, c), NewPart(source, s, c);
            && Held(after.memory, chapter, verse) ==
               (if chapter == c.chapter && LastText(unseen, verse).Some? then LastText(unseen, verse)
                else Held(s.memory, chapter, verse))
            && Stored(after.table, translation, chapter, verse) ==
               (if chapter == c.chapter && Stored(s.table, translation, chapter, verse).None? then FirstText(unseen, verse)
                else Stored(s.table, translation, chapter, verse))
            && (LastText(unseen, verse).Some? <==> FirstText(unseen, verse).Some?)
            && (LastText(unseen, verse).Some? ==> Held(s.memory, c.chapter, verse).None?)
  {
    var unseen, held := NewPart(source, s, c), ChapterOf(s.memory, c.chapter);
    if Missing(held, Wanted(c)) != [] {
      InsertedAt(s.table, translation, c.chapter, unseen, VerseKey(translation, chapter, verse));
      NotedAt(held, unseen, verse);
      FreshTexts(held, source(s.calls, c).verses, verse);
      TextsComeFrom(unseen, verse);
    }
  }

  /** One citation keeps memory and table equal exactly when the new part of its answer is tidy. */
  lemma StepKeepsInStep(translation: string, source: Source, s: State, c: Citation, chapters: set<Chapter>)
    returns (conflicting: int)
    requires InStep(s, translation, chapters) && c.chapter in chapters
    ensures Tidy(NewPart(source, s, c)) ==> InStep(Step(translation, source, s, c), translation, chapters)
    ensures !Tidy(NewPart(source, s, c)) ==>
              Conflict(Step(translation, source, s, c), translation, c.chapter, conflicting)
  {
    conflicting := 0;
    var unseen := NewPart(source, s, c);
    var after := Step(translation, source, s, c);
    hide Step, NewPart, FirstText, LastText, Held, Stored;
    if Tidy(unseen) {
      forall chapter, verse | chapter in chapters
        ensures Held(after.memory, chapter, verse) == Stored(after.table, translation, chapter, verse)
      {
        assert AgreeOn(s.memory, s.table, translation, chapter);
        StepAt(translation, source, s, c, chapter, verse);
        assert FirstText(unseen, verse) == LastText(unseen, verse);
      }
    } else {
      conflicting :| FirstText(unseen, conflicting) != LastText(unseen, conflicting);
      assert AgreeOn(s.memory, s.table, translation, c.chapter);
      StepAt(translation, source, s, c, c.chapter, conflicting);
      BothNone(unseen, conflicting);
      assert Conflict(after, translation, c.chapter, conflicting);
    }
  }

  lemma BothNone(verses: seq<Verse>, number: int)
    ensures FirstText(verses, number).None? <==> LastText(verses, number).None?
  {
    TextsComeFrom(verses, number);
  }

  lemma ConflictsLast(translation: string, source: Source, s: State, c: Citation, chapter: Chapter, verse: int)
    requires Conflict(s, translation, chapter, verse)
    ensures Conflict(Step(translation, source, s, c), translation, chapter, verse)
  {
    StepAt(translation, source, s, c, chapter, verse);
  }

  /** The new part of the answer to citation `n`, asked for when its turn comes. */
  function NewPartAt(translation: string, source: Source, s: State, citations: seq<Citation>, n: nat): seq<Verse>
    requires n < |citations|
  {
    NewPart(source, Steps(translation, source, s, citations[..n]), citations[n])
  }

  /** Every answer asked for along the way is tidy in its new part. */
  ghost predicate TidyThroughout(translation: string, source: Source, s: State, citations: seq<Citation>) {
    forall n :: 0 <= n < |citations| ==> Tidy(NewPartAt(translation, source, s, citations, n))
  }

  lemma NewPartOfAPrefix(translation: string, source: Source, s: State, citations: seq<Citation>, n: nat, m: nat)
    requires n < m <= |citations|
    ensures NewPartAt(translation, source, s, citations[..m], n) == NewPartAt(translation, source, s, citations, n)
  {
    assert citations[..m][..n] == citations[..n];
  }

  lemma TidyOneMore(translation: string, source: Source, s: State, citations: seq<Citation>)
    requires citations != []
    ensures var n := |citations| - 1;
            TidyThroughout(translation, source, s, citations) <==>
            TidyThroughout(translation, source, s, citations[..n]) && Tidy(NewPartAt(translation, source, s, citations, n))
  {
    hide NewPartAt, Tidy;
    var n := |citations| - 1;
    forall m | 0 <= m < n
      ensures NewPartAt(translation, source, s, citations[..n], m) == NewPartAt(translation, source, s, citations, m)
    {
      NewPartOfAPrefix(translation, source, s, citations, m, n);
    }
  }

  lemma {:induction false} StepsInStep(
    translation: string, source: Source, s: State, citations: seq<Citation>, chapters: set<Chapter>)
    requires InStep(s, translation, chapters) && Chapters(citations) <= chapters
    ensures var end := Steps(translation, source, s, citations);
            if TidyThroughout(translation, source, s, citations) then InStep(end, translation, chapters)
            else exists chapter, verse :: chapter in chapters && Conflict(end, translation, chapter, verse)
    decreases |citations|
  {
    if citations != [] {
      var n := |citations| - 1;
      assert Chapters(citations[..n]) <= Chapters(citations) && citations[n].chapter in Chapters(citations);
      StepsInStep(translation, source, s, citations[..n], chapters);
      TidyOneMore(translation, source, s, citations);
      var mid := Steps(translation, source, s, citations[..n]);
      hide Conflict, InStep, NewPart, Step, Tidy, TidyThroughout;
      if TidyThroughout(translation, source, s, citations[..n]) {
        var verse := StepKeepsInStep(translation, source, mid, citations[n], chapters);
        assert TidyThroughout(translation, source, s, citations)
               || Conflict(Steps(translation, source, s, citations), translation, citations[n].chapter, verse);
      } else {
        var chapter, verse :| chapter in chapters && Conflict(mid, translation, chapter, verse);
        ConflictsLast(translation, source, mid, citations[n], chapter, verse);
        assert Conflict(Steps(translation, source, s, citations), translation, chapter, verse);
      }
    }
  }

  /** After a whole resolution, memory and table agree on every chapter at issue exactly when every answer was tidy. */
  lemma MemoryIsTheTableExactlyWhenTidy(translation: string, source: Source, table: Table, citations: seq<Citation>)
    ensures InStep(Resolved(translation, source, table, citations), translation, Chapters(citations)) <==>
            TidyThroughout(translation, source, Start(table, translation, citations), citations)
  {
    LoadedAgrees(table, translation, citations);
    var s := Start(table, translation, citations);
    StepsInStep(translation, source, s, citations, Chapters(citations));
    var end := Steps(translation, source, s, citations);
    forall chapter, verse | chapter in Chapters(citations) && Conflict(end, translation, chapter, verse)
      ensures !AgreeOn(end.memory, end.table, translation, chapter)
    {
    }
  }

  // -------------------------------------------------------------------------------------------
  // The table
  // -------------------------------------------------------------------------------------------

  /** A held verse keeps the text it was first held with, and only verses of the cited chapters are added. */
  lemma {:induction false} TheTableOnlyGrows(translation: string, source: Source, s: State, citations: seq<Citation>)
    ensures var end := Steps(translation, source, s, citations);
            && (forall key :: key in s.table ==> key in end.table && end.table[key] == s.table[key])
            && (forall key :: key in end.table && key !in s.table ==>
                  key.translation == translation && key.chapter in Chapters(citations))
            && end.fetched - s.fetched == |end.table| - |s.table|
    decreases |citations|
  {
    if citations != [] {
      var n := |citations| - 1;
      TheTableOnlyGrows(translation, source, s, citations[..n]);
      var mid := Steps(translation, source, s, citations[..n]);
      var end := Step(translation, source, mid, citations[n]);
      hide Steps;
      forall key
        ensures key in mid.table ==> key in end.table && end.table[key] == mid.table[key]
        ensures key in end.table && key !in mid.table ==> key.translation == translation && key.chapter == citations[n].chapter
      {
        var unseen := NewPart(source, mid, citations[n]);
        InsertedAt(mid.table, translation, citations[n].chapter, unseen, key);
      }
    }
  }

  // -------------------------------------------------------------------------------------------
  // The passages
  // -------------------------------------------------------------------------------------------

  /** What `read` says of the wanted verses, in order: the shape of every passage handed back. */
  function TextsOf(read: int -> Option<string>, wanted: seq<int>): seq<Verse>
    decreases |wanted|
  {
    if wanted == [] then []
    else
      var verse := wanted[|wanted| - 1];
      TextsOf(read, wanted[..|wanted| - 1]) + (if read(verse).Some? then [Verse(verse, read(verse).value)] else [])
  }

  lemma {:induction false} ReadBackIs(held: map<int, string>, wanted: seq<int>, read: int -> Option<string>)
    requires forall v :: v in wanted ==> Got(held, v) == read(v)
    ensures ReadBack(held, wanted) == TextsOf(read, wanted)
    decreases |wanted|
  {
    if wanted != [] {
      var n := |wanted| - 1;
      assert wanted[n] in wanted && forall v :: v in wanted[..n] ==> v in wanted;
      ReadBackIs(held, wanted[..n], read);
    }
  }

  /** The passage holds exactly the verses from the citation's first to its last that `read` has, each once and rising. */
  ghost predicate HasExactly(p: Passage, c: Citation, read: int -> Option<string>) {
    && p.citation == c
    && (forall v :: v in p.verses <==> c.verseStart <= v.number <= c.verseEnd && read(v.number) == Some(v.text))
    && (forall i, j :: 0 <= i < j < |p.verses| ==> p.verses[i].number < p.verses[j].number)
  }

  lemma {:induction false} TextsOfHas(read: int -> Option<string>, wanted: seq<int>, v: Verse)
    ensures v in TextsOf(read, wanted) <==> v.number in wanted && read(v.number) == Some(v.text)
    decreases |wanted|
  {
    if wanted != [] {
      var n := |wanted| - 1;
      TextsOfHas(read, wanted[..n], v);
      assert v.number in wanted <==> v.number == wanted[n] || v.number in wanted[..n];
      var rest := TextsOf(read, wanted[..n]);
      var last := if read(wanted[n]).Some? then [Verse(wanted[n], read(wanted[n]).value)] else [];
      assert v in rest + last <==> v in rest || v in last;
    }
  }

  lemma {:induction false} TextsRise(read: int -> Option<string>, wanted: seq<int>)
    requires forall i, j :: 0 <= i < j < |wanted| ==> wanted[i] < wanted[j]
    ensures forall i, j :: 0 <= i < j < |TextsOf(read, wanted)| ==>
              TextsOf(read, wanted)[i].number < TextsOf(read, wanted)[j].number
    decreases |wanted|
  {
    if wanted != [] {
      var n := |wanted| - 1;
      TextsRise(read, wanted[..n]);
      var rest := TextsOf(read, wanted[..n]);
      forall i | 0 <= i < |rest|
        ensures rest[i].number < wanted[n]
      {
        TextsOfHas(read, wanted[..n], rest[i]);
        assert rest[i] in rest;
        var k :| 0 <= k < n && wanted[..n][k] == rest[i].number;
      }
    }
  }

  lemma TextsAreExactly(c: Citation, read: int -> Option<string>)
    ensures HasExactly(Passage(c, TextsOf(read, Wanted(c))), c, read)
  {
    WantedIsTheRange(c);
    TextsRise(read, Wanted(c));
    hide TextsOf, Wanted;
    forall v
      ensures v in TextsOf(read, Wanted(c)) <==>
              c.verseStart <= v.number <= c.verseEnd && read(v.number) == Some(v.text)
    {
      TextsOfHas(read, Wanted(c), v);
    }
  }

  /** What the source truly says of a verse, when it always says the same. */
  type Truth = (Chapter, int) -> Option<string>

  function TrueTexts(truth: Truth, c: Citation): seq<Verse> {
    TextsOf(v => truth(c.chapter, v), Wanted(c))
  }

  /** Every answer holds true texts only, and every wanted verse the source has. */
  ghost predicate Faithful(source: Source, truth: Truth) {
    forall n, c ::
      && (forall v :: v in source(n, c).verses ==> truth(c.chapter, v.number) == Some(v.text))
      && (forall verse :: Spans(c, verse) && truth(c.chapter, verse).Some? ==>
            exists v :: v in source(n, c).verses && v.number == verse)
  }

  ghost predicate TrueMemory(memory: Memory, truth: Truth) {
    forall chapter, verse :: Held(memory, chapter, verse).Some? ==> truth(chapter, verse) == Held(memory, chapter, verse)
  }

  lemma StepIsTrue(translation: string, source: Source, truth: Truth, s: State, c: Citation)
    requires Faithful(source, truth) && TrueMemory(s.memory, truth)
    ensures var after := Step(translation, source, s, c);
            && TrueMemory(after.memory, truth)
            && after.passages == s.passages + [Passage(c, TrueTexts(truth, c))]
  {
    var after, unseen, wanted := Step(translation, source, s, c), NewPart(source, s, c), Wanted(c);
    var verses := source(s.calls, c).verses;
    WantedIsTheRange(c);
    OnlyFresh(ChapterOf(s.memory, c.chapter), verses);
    MissingIsFewer(ChapterOf(s.memory, c.chapter), wanted);
    forall chapter, verse
      ensures Held(after.memory, chapter, verse).Some? ==>
                truth(chapter, verse) == Held(after.memory, chapter, verse)
      ensures chapter == c.chapter && verse in wanted ==> Held(after.memory, chapter, verse) == truth(chapter, verse)
    {
      StepAt(translation, source, s, c, chapter, verse);
      TextsComeFrom(unseen, verse);
    }
    ReadBackIs(after.memory[c.chapter], wanted, v => truth(c.chapter, v));
  }

  lemma {:induction false} MemoryStaysTrue(
    translation: string, source: Source, truth: Truth, s: State, citations: seq<Citation>)
    requires Faithful(source, truth) && TrueMemory(s.memory, truth)
    ensures TrueMemory(Steps(translation, source, s, citations).memory, truth)
    ensures |Steps(translation, source, s, citations).passages| == |s.passages| + |citations|
    decreases |citations|
  {
    if citations != [] {
      var n := |citations| - 1;
      hide Step, TrueMemory, TrueTexts, Faithful;
      MemoryStaysTrue(translation, source, truth, s, citations[..n]);
      StepIsTrue(translation, source, truth, Steps(translation, source, s, citations[..n]), citations[n]);
    }
  }

  /** Each passage is the source's own answer for the wanted verses, whatever was cached and however often it was asked. */
  lemma {:induction false} StepsAreTrue(
    translation: string, source: Source, truth: Truth, s: State, citations: seq<Citation>, k: nat)
    requires Faithful(source, truth) && TrueMemory(s.memory, truth) && k < |citations|
    ensures |Steps(translation, source, s, citations).passages| == |s.passages| + |citations|
    ensures Steps(translation, source, s, citations).passages[|s.passages| + k] ==
            Passage(citations[k], TrueTexts(truth, citations[k]))
    decreases |citations|
  {
    var n := |citations| - 1;
    hide Step, TrueMemory, TrueTexts, Faithful;
    MemoryStaysTrue(translation, source, truth, s, citations[..n]);
    var mid := Steps(translation, source, s, citations[..n]);
    StepIsTrue(translation, source, truth, mid, citations[n]);
    if k < n {
      StepsAreTrue(translation, source, truth, s, citations[..n], k);
    }
  }

  /** The cached resolver answers as the source would have, from any cache that agrees with it. */
  lemma ResolvedIsTheSourcesOwnAnswer(
    translation: string, source: Source, truth: Truth, table: Table, citations: seq<Citation>, k: nat)
    requires Faithful(source, truth) && k < |citations|
    requires forall key :: key in table && key.translation == translation ==>
               truth(key.chapter, key.verse) == Some(table[key])
    ensures |Resolved(translation, source, table, citations).passages| == |citations|
    ensures Resolved(translation, source, table, citations).passages[k] ==
            Passage(citations[k], TrueTexts(truth, citations[k]))
    ensures HasExactly(Resolved(translation, source, table, citations).passages[k], citations[k],
                       v => truth(citations[k].chapter, v))
  {
    TextsAreExactly(citations[k], v => truth(citations[k].chapter, v));
    hide HasExactly;
    var start := Start(table, translation, citations);
    forall chapter, verse | Held(start.memory, chapter, verse).Some?
      ensures truth(chapter, verse) == Held(start.memory, chapter, verse)
    {
      HeldInIs(table, translation, chapter, verse);
      assert VerseKey(translation, chapter, verse) in table;
    }
    StepsAreTrue(translation, source, truth, start, citations, k);
  }

  /** The wanted verses as memory has them, in order, and as the table has them. */
  function FromMemory(memory: Memory, c: Citation): Passage {
    Passage(c, TextsOf(v => Held(memory, c.chapter, v), Wanted(c)))
  }

  function FromTable(table: Table, translation: string, c: Citation): Passage {
    Passage(c, TextsOf(v => Stored(table, translation, c.chapter, v), Wanted(c)))
  }

  /** The passage a citation is answered with is what memory then says. */
  lemma StepPassage(translation: string, source: Source, s: State, c: Citation)
    ensures var after := Step(translation, source, s, c);
            after.passages == s.passages + [FromMemory(after.memory, c)]
  {
    var after := Step(translation, source, s, c);
    var held := after.memory[c.chapter];
    hide Missing, Fresh, Noted, Inserted, Wanted;
    assert after.passages == s.passages + [Passage(c, ReadBack(held, Wanted(c)))];
    ReadBackIs(held, Wanted(c), v => Held(after.memory, c.chapter, v));
  }

  /** Later citations add to memory, table and passages, and change nothing there. */
  lemma {:induction false} WhatIsThereStays(
    translation: string, source: Source, s: State, citations: seq<Citation>, m: nat, chapter: Chapter, verse: int)
    requires m <= |citations|
    ensures var turn, end := Steps(translation, source, s, citations[..m]), Steps(translation, source, s, citations);
            && |turn.passages| == |s.passages| + m && |end.passages| == |s.passages| + |citations|
            && end.passages[..|s.passages| + m] == turn.passages
            && (Held(turn.memory, chapter, verse).Some? ==>
                  Held(end.memory, chapter, verse) == Held(turn.memory, chapter, verse))
            && (Stored(turn.table, translation, chapter, verse).Some? ==>
                  Stored(end.table, translation, chapter, verse) == Stored(turn.table, translation, chapter, verse))
    decreases |citations|
  {
    hide Step, Wanted, Held, Stored, NewPart;
    if citations != [] {
      var n := |citations| - 1;
      var mid := Steps(translation, source, s, citations[..n]);
      WhatIsThereStays(translation, source, s, citations[..n], if m <= n then m else n, chapter, verse);
      assert m <= n ==> citations[..n][..m] == citations[..m];
      assert m > n ==> citations[..m] == citations;
      StepPassage(translation, source, mid, citations[n]);
      StepAt(translation, source, mid, citations[n], chapter, verse);
      assert Held(mid.memory, chapter, verse).Some? ==>
        Held(Steps(translation, source, s, citations).memory, chapter, verse) == Held(mid.memory, chapter, verse);
    }
  }

  /** Passage `k` is what memory said of its verses when its turn came. */
  lemma PassagesAreHeld(translation: string, source: Source, s: State, citations: seq<Citation>, k: nat)
    requires k < |citations|
    ensures var end := Steps(translation, source, s, citations);
            && |end.passages| == |s.passages| + |citations|
            && end.passages[|s.passages| + k] ==
               FromMemory(Steps(translation, source, s, citations[..k + 1]).memory, citations[k])
  {
    hide Step, FromMemory, Held, Stored, Wanted;
    var turn, end := Steps(translation, source, s, citations[..k + 1]), Steps(translation, source, s, citations);
    WhatIsThereStays(translation, source, s, citations, k + 1, citations[k].chapter, 0);
    WhatIsThereStays(translation, source, s, citations[..k + 1], k, citations[k].chapter, 0);
    var before := Steps(translation, source, s, citations[..k]);
    assert citations[..k + 1][..k] == citations[..k];
    assert turn == Step(translation, source, before, citations[k]);
    hide Steps;
    StepPassage(translation, source, before, citations[k]);
    assert end.passages[|s.passages| + k] == end.passages[..|s.passages| + k + 1][|s.passages| + k];
  }

  // -------------------------------------------------------------------------------------------
  // The passages against the table
  // -------------------------------------------------------------------------------------------

  /** The answer for citation `n` said the verse twice, first and last with different texts. */
  ghost predicate SaidTwice(
    translation: string, source: Source, s: State, citations: seq<Citation>, n: nat, chapter: Chapter, verse: int)
  {
    n < |citations| && citations[n].chapter == chapter &&
    var part := NewPartAt(translation, source, s, citations, n);
    FirstText(part, verse) != LastText(part, verse)
  }

  lemma SaidTwiceInAPrefix(
    translation: string, source: Source, s: State, citations: seq<Citation>, m: nat, n: nat, chapter: Chapter, verse: int)
    requires m <= |citations|
    ensures SaidTwice(translation, source, s, citations[..m], n, chapter, verse) <==>
            n < m && SaidTwice(translation, source, s, citations, n, chapter, verse)
  {
    if n < m {
      NewPartOfAPrefix(translation, source, s, citations, n, m);
    }
  }

  /** A verse differs between memory and table exactly when some answer so far said it twice. */
  lemma {:induction false} ConflictExactlyWhenSaidTwice(
    translation: string, source: Source, s: State, citations: seq<Citation>, chapter: Chapter, verse: int)
    requires AgreeOn(s.memory, s.table, translation, chapter)
    ensures var end := Steps(translation, source, s, citations);
            && (Held(end.memory, chapter, verse).Some? <==> Stored(end.table, translation, chapter, verse).Some?)
            && (Conflict(end, translation, chapter, verse) <==>
                exists n :: SaidTwice(translation, source, s, citations, n, chapter, verse))
    decreases |citations|
  {
    if citations == [] {
      assert Held(s.memory, chapter, verse) == Stored(s.table, translation, chapter, verse);
    } else {
      var m := |citations| - 1;
      ConflictExactlyWhenSaidTwice(translation, source, s, citations[..m], chapter, verse);
      StepAt(translation, source, Steps(translation, source, s, citations[..m]), citations[m], chapter, verse);
      forall n
        ensures SaidTwice(translation, source, s, citations, n, chapter, verse) <==>
                SaidTwice(translation, source, s, citations[..m], n, chapter, verse)
                || (n == m && SaidTwice(translation, source, s, citations, m, chapter, verse))
      {
        SaidTwiceInAPrefix(translation, source, s, citations, m, n, chapter, verse);
      }
      BothNone(NewPartAt(translation, source, s, citations, m), verse);
      hide Step, Held, Stored, NewPart, FirstText, LastText;
      var mid, end := Steps(translation, source, s, citations[..m]), Steps(translation, source, s, citations);
      assert Conflict(end, translation, chapter, verse) <==>
        Conflict(mid, translation, chapter, verse) || SaidTwice(translation, source, s, citations, m, chapter, verse);
    }
  }

  /** Two reads of the same verses that find the same ones give one list exactly when they agree on each. */
  lemma SameTextsExactly(a: int -> Option<string>, b: int -> Option<string>, wanted: seq<int>)
    requires forall v :: v in wanted ==> (a(v).Some? <==> b(v).Some?)
    ensures TextsOf(a, wanted) == TextsOf(b, wanted) <==> forall v :: v in wanted ==> a(v) == b(v)
  {
    if v :| v in wanted && a(v) != b(v) {
      TextsOfHas(a, wanted, Verse(v, a(v).value));
      TextsOfHas(b, wanted, Verse(v, a(v).value));
    } else {
      SameTexts(a, b, wanted);
    }
  }

  lemma {:induction false} SameTexts(a: int -> Option<string>, b: int -> Option<string>, wanted: seq<int>)
    requires forall v :: v in wanted ==> a(v) == b(v)
    ensures TextsOf(a, wanted) == TextsOf(b, wanted)
    decreases |wanted|
  {
    if wanted != [] {
      var n := |wanted| - 1;
      assert wanted[n] in wanted && forall v :: v in wanted[..n] ==> v in wanted;
      SameTexts(a, b, wanted[..n]);
    }
  }

  /**
   * A passage is what the table says of the wanted verses, then and ever after, exactly when no answer
   * up to its turn said one of them twice with different texts.
   */
  lemma PassagesSayWhatTheTableSaysExactlyWhenTidy(
    translation: string, source: Source, table: Table, citations: seq<Citation>, k: nat)
    requires k < |citations|
    ensures var start, end := Start(table, translation, citations), Resolved(translation, source, table, citations);
            var turn, c := Steps(translation, source, start, citations[..k + 1]), citations[k];
            && |end.passages| == |citations|
            && (end.passages[k] == FromTable(turn.table, translation, c) <==>
                forall n: nat, verse :: n <= k && Spans(c, verse) ==>
                  !SaidTwice(translation, source, start, citations, n, c.chapter, verse))
            && (forall verse :: Stored(turn.table, translation, c.chapter, verse).Some? ==>
                  Stored(end.table, translation, c.chapter, verse) == Stored(turn.table, translation, c.chapter, verse))
  {
    var start, c := Start(table, translation, citations), citations[k];
    var turn, end := Steps(translation, source, start, citations[..k + 1]), Resolved(translation, source, table, citations);
    PassagesAreHeld(translation, source, start, citations, k);
    LoadedAgrees(table, translation, citations);
    assert c.chapter in Chapters(citations) && AgreeOn(start.memory, start.table, translation, c.chapter);
    forall verse
      ensures Held(turn.memory, c.chapter, verse).Some? <==> Stored(turn.table, translation, c.chapter, verse).Some?
      ensures Held(turn.memory, c.chapter, verse) != Stored(turn.table, translation, c.chapter, verse) <==>
              exists n: nat :: n <= k && SaidTwice(translation, source, start, citations, n, c.chapter, verse)
      ensures Stored(turn.table, translation, c.chapter, verse).Some? ==>
                Stored(end.table, translation, c.chapter, verse) == Stored(turn.table, translation, c.chapter, verse)
    {
      TurnAgainstTable(translation, source, start, citations, k, c.chapter, verse);
    }
    WantedIsTheRange(c);
    hide Steps, Wanted, Held, Stored, SaidTwice, AgreeOn;
    SameTextsExactly(v => Held(turn.memory, c.chapter, v), v => Stored(turn.table, translation, c.chapter, v), Wanted(c));
  }

  lemma TurnAgainstTable(
    translation: string, source: Source, s: State, citations: seq<Citation>, k: nat, chapter: Chapter, verse: int)
    requires k < |citations| && AgreeOn(s.memory, s.table, translation, chapter)
    ensures var turn, end := Steps(translation, source, s, citations[..k + 1]), Steps(translation, source, s, citations);
            && (Held(turn.memory, chapter, verse).Some? <==> Stored(turn.table, translation, chapter, verse).Some?)
            && (Held(turn.memory, chapter, verse) != Stored(turn.table, translation, chapter, verse) <==>
                exists n: nat :: n <= k && SaidTwice(translation, source, s, citations, n, chapter, verse))
            && (Stored(turn.table, translation, chapter, verse).Some? ==>
                  Stored(end.table, translation, chapter, verse) == Stored(turn.table, translation, chapter, verse))
  {
    WhatIsThereStays(translation, source, s, citations, k + 1, chapter, verse);
    hide Steps, Held, Stored, SaidTwice, AgreeOn;
    var upTo := citations[..k + 1];
    ConflictExactlyWhenSaidTwice(translation, source, s, upTo, chapter, verse);
    if n: nat :| SaidTwice(translation, source, s, upTo, n, chapter, verse) {
      SaidTwiceInAPrefix(translation, source, s, citations, k + 1, n, chapter, verse);
    }
    if n: nat :| n <= k && SaidTwice(translation, source, s, citations, n, chapter, verse) {
      SaidTwiceInAPrefix(translation, source, s, citations, k + 1, n, chapter, verse);
    }
  }

  /** Two texts for verse 1, as new rows and as notes. */
  lemma TwoTexts(translation: string, chapter: Chapter)
    ensures var verses := [Verse(1, "first"), Verse(1, "second")];
            && Fresh(map[], verses) == verses
            && Inserted(map[], translation, chapter, verses) == map[VerseKey(translation, chapter, 1) := "first"]
            && Noted(map[], verses) == map[1 := "second"]
  {
    var verses := [Verse(1, "first"), Verse(1, "second")];
    var one := verses[..1];
    assert verses[1..] == [Verse(1, "second")];
    assert one == [Verse(1, "first")] && one[..0] == [] && verses[..|verses| - 1] == one;
    assert Inserted(map[], translation, chapter, one) == map[VerseKey(translation, chapter, 1) := "first"];
    assert Noted(map[], one) == map[1 := "first"];
  }

  lemma OneWanted(c: Citation)
    requires c.verseStart == c.verseEnd == 1
    ensures Wanted(c) == [1] && Missing(map[], Wanted(c)) == [1]
    ensures ReadBack(map[1 := "second"], Wanted(c)) == [Verse(1, "second")]
  {
  }

  /** A source that says verse 1 twice: the table keeps the first text, and the reader is handed the second. */
  lemma AVerseSaidTwice()
    ensures var chapter := Chapter(0, 1);
            var c, key := Citation(chapter, 1, 1), VerseKey("NIV", chapter, 1);
            var source: Source := (_, _) => Answer([Verse(1, "first"), Verse(1, "second")], None);
            var end := Resolved("NIV", source, map[], [c]);
            && end.table == map[key := "first"] && end.passages == [Passage(c, [Verse(1, "second")])]
  {
    var chapter := Chapter(0, 1);
    var c := Citation(chapter, 1, 1);
    var source: Source := (_, _) => Answer([Verse(1, "first"), Verse(1, "second")], None);
    var start := Start(map[], "NIV", [c]);
    assert start == State(map[], map[], 0, 0, 0, None, []);
    OneWanted(c);
    TwoTexts("NIV", chapter);
    assert [c][..0] == [] && Steps("NIV", source, start, [c]) == Step("NIV", source, start, c);
    hide Steps, Start, Fresh, Inserted, Noted, Missing, Wanted, ReadBack;
  }

  // -------------------------------------------------------------------------------------------
  // A second resolution
  // -------------------------------------------------------------------------------------------

  /** Every answer has every wanted verse. */
  ghost predicate Complete(source: Source) {
    forall n, c, verse :: Spans(c, verse) ==> exists v :: v in source(n, c).verses && v.number == verse
  }

  ghost predicate HoldsAll(memory: Memory, citations: seq<Citation>) {
    forall c, verse :: c in citations && verse in Wanted(c) ==> Held(memory, c.chapter, verse).Some?
  }

  lemma StepHolds(translation: string, source: Source, s: State, c: Citation)
    requires Complete(source)
    ensures forall chapter, verse :: Held(s.memory, chapter, verse).Some? ==>
              Held(Step(translation, source, s, c).memory, chapter, verse).Some?
    ensures forall verse :: verse in Wanted(c) ==> Held(Step(translation, source, s, c).memory, c.chapter, verse).Some?
  {
    var after, unseen := Step(translation, source, s, c), NewPart(source, s, c);
    WantedIsTheRange(c);
    MissingIsFewer(ChapterOf(s.memory, c.chapter), Wanted(c));
    OnlyFresh(ChapterOf(s.memory, c.chapter), source(s.calls, c).verses);
    hide Step;
    forall chapter, verse
      ensures Held(s.memory, chapter, verse).Some? ==> Held(after.memory, chapter, verse).Some?
      ensures chapter == c.chapter && verse in Wanted(c) ==> Held(after.memory, chapter, verse).Some?
    {
      StepAt(translation, source, s, c, chapter, verse);
      TextsComeFrom(unseen, verse);
    }
  }

  lemma {:induction false} StepsHoldAll(translation: string, source: Source, s: State, citations: seq<Citation>)
    requires Complete(source)
    ensures HoldsAll(Steps(translation, source, s, citations).memory, citations)
    decreases |citations|
  {
    if citations != [] {
      var n := |citations| - 1;
      StepsHoldAll(translation, source, s, citations[..n]);
      StepHolds(translation, source, Steps(translation, source, s, citations[..n]), citations[n]);
      assert forall c :: c in citations <==> c == citations[n] || c in citations[..n];
      hide Step, Wanted, Held;
    }
  }

  ghost predicate SameHeld(a: Memory, b: Memory) {
    forall chapter, verse :: Held(a, chapter, verse) == Held(b, chapter, verse)
  }

  function WantedCount(citations: seq<Citation>): nat {
    if citations == [] then 0
    else WantedCount(citations[..|citations| - 1]) + VersesIn(citations[|citations| - 1])
  }

  lemma StepWithNothingMissing(translation: string, source: Source, s: State, c: Citation)
    requires forall verse :: verse in Wanted(c) ==> Held(s.memory, c.chapter, verse).Some?
    ensures var after := Step(translation, source, s, c);
            && after.table == s.table && SameHeld(after.memory, s.memory) && after.calls == s.calls
            && after.fetched == s.fetched && after.requestId == s.requestId && after.held == s.held + VersesIn(c)
  {
    WantedIsTheRange(c);
    MissingIsFewer(ChapterOf(s.memory, c.chapter), Wanted(c));
  }

  lemma SameHeldHolds(memory: Memory, other: Memory, citations: seq<Citation>, k: nat)
    requires SameHeld(other, memory) && HoldsAll(memory, citations) && k < |citations|
    ensures forall verse :: verse in Wanted(citations[k]) ==> Held(other, citations[k].chapter, verse).Some?
    ensures HoldsAll(memory, citations[..k])
  {
    hide Held, Wanted;
    assert citations[k] in citations && forall c :: c in citations[..k] ==> c in citations;
  }

  lemma {:induction false} NothingMissing(translation: string, source: Source, s: State, citations: seq<Citation>)
    requires HoldsAll(s.memory, citations)
    ensures var end := Steps(translation, source, s, citations);
            && end.table == s.table && SameHeld(end.memory, s.memory) && end.calls == s.calls && end.fetched == s.fetched
            && end.requestId == s.requestId && end.held == s.held + WantedCount(citations)
    decreases |citations|
  {
    if citations != [] {
      var n := |citations| - 1;
      SameHeldHolds(s.memory, s.memory, citations, n);
      NothingMissing(translation, source, s, citations[..n]);
      var mid := Steps(translation, source, s, citations[..n]);
      SameHeldHolds(s.memory, mid.memory, citations, n);
      StepWithNothingMissing(translation, source, mid, citations[n]);
      hide Held, Wanted, Step, HoldsAll;
    }
  }

  /** Whatever memory has of a cited chapter, the table has too. */
  ghost predicate StoredIfHeld(s: State, translation: string, chapters: set<Chapter>) {
    forall chapter, verse :: chapter in chapters && Held(s.memory, chapter, verse).Some? ==>
      Stored(s.table, translation, chapter, verse).Some?
  }

  lemma {:induction false} StoredThrough(
    translation: string, source: Source, s: State, citations: seq<Citation>, chapters: set<Chapter>)
    requires StoredIfHeld(s, translation, chapters)
    ensures StoredIfHeld(Steps(translation, source, s, citations), translation, chapters)
    decreases |citations|
  {
    if citations != [] {
      var n := |citations| - 1;
      StoredThrough(translation, source, s, citations[..n], chapters);
      var mid := Steps(translation, source, s, citations[..n]);
      var end := Step(translation, source, mid, citations[n]);
      hide Step, NewPart, FirstText, LastText;
      forall chapter, verse | chapter in chapters && Held(end.memory, chapter, verse).Some?
        ensures Stored(end.table, translation, chapter, verse).Some?
      {
        StepAt(translation, source, mid, citations[n], chapter, verse);
      }
    }
  }

  /** With a complete source, resolving the same citations again asks nothing, writes nothing and serves every verse from what is held. */
  lemma ASecondResolutionCallsNothing(
    translation: string, source: Source, again: Source, table: Table, citations: seq<Citation>)
    requires Complete(source)
    ensures var first := Resolved(translation, source, table, citations);
            var second := Resolved(translation, again, first.table, citations);
            && second.calls == 0 && second.fetched == 0 && second.requestId == None
            && second.table == first.table && second.held == WantedCount(citations)
  {
    var start := Start(table, translation, citations);
    var first := Steps(translation, source, start, citations);
    LoadedAgrees(table, translation, citations);
    forall chapter, verse | chapter in Chapters(citations)
      ensures Held(start.memory, chapter, verse) == Stored(table, translation, chapter, verse)
    {
      assert AgreeOn(start.memory, table, translation, chapter);
    }
    StoredThrough(translation, source, start, citations, Chapters(citations));
    StepsHoldAll(translation, source, start, citations);
    var second := Start(first.table, translation, citations);
    LoadedAgrees(first.table, translation, citations);
    forall c, verse | c in citations && verse in Wanted(c)
      ensures Held(second.memory, c.chapter, verse).Some?
    {
      assert c.chapter in Chapters(citations);
      assert AgreeOn(second.memory, first.table, translation, c.chapter);
      assert Held(first.memory, c.chapter, verse).Some?;
      assert Held(second.memory, c.chapter, verse) == Stored(first.table, translation, c.chapter, verse);
    }
    NothingMissing(translation, again, second, citations);
  }
}
