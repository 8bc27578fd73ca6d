/**
 * Flow Tracker sessions (packages/db/src/flow-tracker.ts:459-501, 509-543, 699-790,
 * packages/db/src/schema.ts:2594-2683): what still counts, and what every event does to the counts.
 */
module FlowSession {
  import opened Runs
  import Ordering

  datatype Kind = Chapter | Recording | Tag
  datatype Status = InProgress | Complete | Abandoned

  /** Ratings run from 1 to 5. */
  type Rating = n: nat | 1 <= n <= 5 witness 1

  /** The highest rating that still indicates a gap. */
  const GAP_RATING := 3

  datatype Item = Item(
    session: nat, position: nat, kind: Kind, recording: Option<nat>, chapter: Option<nat>, tag: Option<nat>,
    answer: Option<Rating>)

  datatype NewItem = NewItem(kind: Kind, recording: Option<nat>, chapter: Option<nat>, tag: Option<nat>)

  datatype Session = Session(user: nat, status: Status)

  datatype Tables = Tables(sessions: map<nat, Session>, items: map<nat, Item>)

  /** An unanswered item whose chapter or tag has gone is dropped; an answered one keeps its place. */
  predicate Live(item: Item) {
    || item.answer.Some?
    || (item.kind == Chapter && item.chapter.Some?)
    || (item.kind == Tag && item.tag.Some?)
    || item.kind == Recording
  }

  function Questions(db: Tables, session: nat): set<nat> {
    set id | id in db.items && db.items[id].session == session && Live(db.items[id])
  }

  function Answered(db: Tables, session: nat): set<nat> {
    set id | id in db.items && db.items[id].session == session && db.items[id].answer.Some?
  }

  function Gaps(db: Tables, session: nat): set<nat> {
    set id | id in db.items && db.items[id].session == session
             && db.items[id].answer.Some? && db.items[id].answer.value <= GAP_RATING
  }

  /** `countUnansweredFlowItems`: zero is what completes a session. */
  function Unanswered(db: Tables, session: nat): set<nat> {
    set id | id in db.items && db.items[id].session == session && db.items[id].answer.None? && Live(db.items[id])
  }

  /** The keys and checks: positions count up from 1, each once; every item's session exists; one session in progress a member. */
  ghost predicate Valid(db: Tables) {
    && (forall id :: id in db.items ==> db.items[id].session in db.sessions && db.items[id].position >= 1
                                        && (db.items[id].kind == Tag <==> db.items[id].recording.None?))
    && (forall a, b :: a in db.items && b in db.items && a != b && db.items[a].session == db.items[b].session ==>
          db.items[a].position != db.items[b].position)
    && (forall a, b :: a in db.sessions && b in db.sessions && a != b
                       && db.sessions[a].status == InProgress && db.sessions[b].status == InProgress ==>
          db.sessions[a].user != db.sessions[b].user)
  }

  // -------------------------------------------------------------------------------------------
  // The events
  // -------------------------------------------------------------------------------------------

  datatype Event =
    | Start(session: nat, user: nat, items: seq<NewItem>, ids: seq<nat>)
    | Answer(session: nat, item: nat, rating: Rating)
    | ChapterDeleted(chapter: nat)
    | TagDeleted(tag: nat)
    | RecordingDeleted(recording: nat)
    | Finish(session: nat, user: nat)
    | GiveUp(session: nat, user: nat)
    | DeletePast(session: nat, user: nat)

  predicate HasOneInProgress(db: Tables, user: nat) {
    exists id :: id in db.sessions && db.sessions[id].user == user && db.sessions[id].status == InProgress
  }

  predicate WellShaped(items: seq<NewItem>) {
    forall i :: 0 <= i < |items| ==> (items[i].kind == Tag <==> items[i].recording.None?)
  }

  /** The rows of a session's insert: position is the place in the list, from 1. */
  function Asked(session: nat, items: seq<NewItem>, ids: seq<nat>): map<nat, Item>
    requires |ids| == |items|
    decreases |items|
  {
    if items == [] then map[]
    else
      var n := |items| - 1;
      Asked(session, items[..n], ids[..n])
        [ids[n] := Item(session, n + 1, items[n].kind, items[n].recording, items[n].chapter, items[n].tag, None)]
  }

  /** The ids a start is given are new, and as many as its items. */
  predicate FreshIds(db: Tables, session: nat, items: seq<NewItem>, ids: seq<nat>) {
    && session !in db.sessions && |ids| == |items|
    && (forall id :: id in ids ==> id !in db.items)
    && (forall i, j :: 0 <= i < j < |ids| ==> ids[i] != ids[j])
  }

  function Answers(db: Tables, session: nat, item: nat, rating: Rating): Tables {
    if item in db.items && db.items[item].session == session then
      db.(items := db.items[item := db.items[item].(answer := Some(rating))])
    else db
  }

  function WithoutChapter(items: map<nat, Item>, chapter: nat): map<nat, Item> {
    map id | id in items :: if items[id].chapter == Some(chapter) then items[id].(chapter := None) else items[id]
  }

  function WithoutTag(items: map<nat, Item>, tag: nat): map<nat, Item> {
    map id | id in items :: if items[id].tag == Some(tag) then items[id].(tag := None) else items[id]
  }

  function Ended(db: Tables, session: nat, user: nat, status: Status): Tables {
    if session in db.sessions && db.sessions[session] == Session(user, InProgress) then
      db.(sessions := db.sessions[session := Session(user, status)])
    else db
  }

  function PastDeleted(db: Tables, session: nat, user: nat): Tables {
    if session in db.sessions && db.sessions[session].user == user && db.sessions[session].status != InProgress then
      Tables(db.sessions - {session}, map id | id in db.items && db.items[id].session != session :: db.items[id])
    else db
  }

  /** One event; `None` only where a start is given ids that are not new. A start the schema refuses changes nothing. */
  function Step(db: Tables, event: Event): Option<Tables> {
    match event
    case Start(session, user, items, ids) =>
      if !FreshIds(db, session, items, ids) then None
      else if HasOneInProgress(db, user) || !WellShaped(items) then Some(db)
      else Some(Tables(db.sessions[session := Session(user, InProgress)], db.items + Asked(session, items, ids)))
    case Answer(session, item, rating) => Some(Answers(db, session, item, rating))
    case ChapterDeleted(chapter) => Some(db.(items := WithoutChapter(db.items, chapter)))
    case TagDeleted(tag) => Some(db.(items := WithoutTag(db.items, tag)))
    case RecordingDeleted(recording) =>
      Some(db.(items := map id | id in db.items && db.items[id].recording != Some(recording) :: db.items[id]))
    case Finish(session, user) => Some(Ended(db, session, user, Complete))
    case GiveUp(session, user) => Some(Ended(db, session, user, Abandoned))
    case DeletePast(session, user) => Some(PastDeleted(db, session, user))
  }

  // -------------------------------------------------------------------------------------------
  // In every state
  // -------------------------------------------------------------------------------------------

  function ItemAt(session: nat, items: seq<NewItem>, k: nat): Item
    requires k < |items|
  {
    Item(session, k + 1, items[k].kind, items[k].recording, items[k].chapter, items[k].tag, None)
  }

  lemma {:induction false} AskedRows(session: nat, items: seq<NewItem>, ids: seq<nat>, id: nat)
    requires |ids| == |items| && forall i, j :: 0 <= i < j < |ids| ==> ids[i] != ids[j]
    ensures var rows := Asked(session, items, ids);
            && (id in rows <==> id in ids)
            && (id in rows ==> exists k :: 0 <= k < |ids| && ids[k] == id && rows[id] == ItemAt(session, items, k))
    decreases |items|
  {
    if items != [] {
      var n := |items| - 1;
      AskedRows(session, items[..n], ids[..n], id);
      assert id in ids <==> id in ids[..n] || id == ids[n];
      if id in ids && id != ids[n] {
        var k :| 0 <= k < |ids[..n]| && ids[..n][k] == id
                 && Asked(session, items[..n], ids[..n])[id] == ItemAt(session, items[..n], k);
        assert ids[k] == id && ItemAt(session, items[..n], k) == ItemAt(session, items, k);
      }
    }
  }

  // -------------------------------------------------------------------------------------------
  // What each event leaves, row by row
  // -------------------------------------------------------------------------------------------

  ghost predicate SessionChanges(db: Tables, after: Tables, session: nat, user: nat, status: Status) {
    && after.items == db.items && after.sessions.Keys == db.sessions.Keys
    && forall s :: s in db.sessions ==>
         after.sessions[s] == if s == session && db.sessions[s].user == user && db.sessions[s].status == InProgress
                              then Session(user, status) else db.sessions[s]
  }

  ghost predicate SessionStarts(db: Tables, after: Tables, session: nat, user: nat, items: seq<NewItem>, ids: seq<nat>)
    requires |ids| == |items|
  {
    && (forall s :: s in after.sessions <==> s in db.sessions || s == session)
    && (forall s :: s in db.sessions ==> after.sessions[s] == db.sessions[s])
    && session in after.sessions && after.sessions[session] == Session(user, InProgress)
    && (forall id :: id in after.items <==> id in db.items || id in ids)
    && (forall id :: id in db.items ==> after.items[id] == db.items[id])
    && forall k :: 0 <= k < |ids| ==>
         ids[k] in after.items && after.items[ids[k]] ==
         Item(session, k + 1, items[k].kind, items[k].recording, items[k].chapter, items[k].tag, None)
  }

  ghost predicate Leaves(db: Tables, event: Event, after: Tables) {
    match event
    case Start(session, user, items, ids) =>
      if |ids| == |items|
         && (forall s :: s in db.sessions && db.sessions[s].user == user ==> db.sessions[s].status != InProgress)
         && (forall k :: 0 <= k < |items| ==> (items[k].kind == Tag <==> items[k].recording == None))
      then SessionStarts(db, after, session, user, items, ids)
      else after == db
    case Answer(session, item, rating) =>
      && after.sessions == db.sessions && after.items.Keys == db.items.Keys
      && forall id :: id in db.items ==>
           after.items[id] == if id == item && db.items[id].session == session then db.items[id].(answer := Some(rating))
                              else db.items[id]
    case ChapterDeleted(chapter) =>
      && after.sessions == db.sessions && after.items.Keys == db.items.Keys
      && forall id :: id in db.items ==>
           after.items[id] == if db.items[id].chapter == Some(chapter) then db.items[id].(chapter := None) else db.items[id]
    case TagDeleted(tag) =>
      && after.sessions == db.sessions && after.items.Keys == db.items.Keys
      && forall id :: id in db.items ==>
           after.items[id] == if db.items[id].tag == Some(tag) then db.items[id].(tag := None) else db.items[id]
    case RecordingDeleted(recording) =>
      && after.sessions == db.sessions
      && (forall id :: id in after.items <==> id in db.items && db.items[id].recording != Some(recording))
      && forall id :: id in after.items ==> after.items[id] == db.items[id]
    case Finish(session, user) => SessionChanges(db, after, session, user, Complete)
    case GiveUp(session, user) => SessionChanges(db, after, session, user, Abandoned)
    case DeletePast(session, user) =>
      var past := session in db.sessions && db.sessions[session].user == user && db.sessions[session].status != InProgress;
      && (forall s :: s in after.sessions <==> s in db.sessions && !(past && s == session))
      && (forall s :: s in after.sessions ==> after.sessions[s] == db.sessions[s])
      && (forall id :: id in after.items <==> id in db.items && !(past && db.items[id].session == session))
      && (forall id :: id in after.items ==> after.items[id] == db.items[id])
  }

  lemma EventsLeave(db: Tables, event: Event)
    requires Step(db, event).Some?
    ensures Leaves(db, event, Step(db, event).value)
  {
    hide Asked;
    if event.Start? {
      StartLeaves(db, event.session, event.user, event.items, event.ids);
    }
  }

  lemma AskedAt(session: nat, items: seq<NewItem>, ids: seq<nat>, k: nat)
    requires |ids| == |items| && k < |ids| && forall i, j :: 0 <= i < j < |ids| ==> ids[i] != ids[j]
    ensures ids[k] in Asked(session, items, ids) && Asked(session, items, ids)[ids[k]] == ItemAt(session, items, k)
  {
    AskedRows(session, items, ids, ids[k]);
    hide Asked, ItemAt;
    var j :| 0 <= j < |ids| && ids[j] == ids[k] && Asked(session, items, ids)[ids[k]] == ItemAt(session, items, j);
    assert j == k;
  }

  lemma StartLeaves(db: Tables, session: nat, user: nat, items: seq<NewItem>, ids: seq<nat>)
    requires FreshIds(db, session, items, ids)
    ensures SessionStarts(
              db, Tables(db.sessions[session := Session(user, InProgress)], db.items + Asked(session, items, ids)),
              session, user, items, ids)
  {
    var asked := Asked(session, items, ids);
    forall id
      ensures id in asked <==> id in ids
    {
      AskedRows(session, items, ids, id);
    }
    forall k | 0 <= k < |ids|
      ensures ids[k] in asked && asked[ids[k]] == ItemAt(session, items, k)
    {
      AskedAt(session, items, ids, k);
    }
    hide Asked;
    assert forall id :: id in db.items ==> id !in asked;
  }

  lemma StartKeepsValid(db: Tables, session: nat, user: nat, items: seq<NewItem>, ids: seq<nat>)
    requires Valid(db) && FreshIds(db, session, items, ids) && !HasOneInProgress(db, user) && WellShaped(items)
    ensures Valid(Tables(db.sessions[session := Session(user, InProgress)], db.items + Asked(session, items, ids)))
  {
    var after := Tables(db.sessions[session := Session(user, InProgress)], db.items + Asked(session, items, ids));
    forall id
      ensures id in Asked(session, items, ids) <==> id in ids
      ensures id in Asked(session, items, ids) ==>
                exists k :: 0 <= k < |ids| && ids[k] == id && Asked(session, items, ids)[id] == ItemAt(session, items, k)
    {
      AskedRows(session, items, ids, id);
    }
    hide Asked;
    forall a, b | a in after.items && b in after.items && a != b && after.items[a].session == after.items[b].session
      ensures after.items[a].position != after.items[b].position
    {
      assert a in db.items ==> db.items[a].session in db.sessions;
      assert b in db.items ==> db.items[b].session in db.sessions;
    }
  }

  /** Items that keep their session, place and teaching, or go, keep the schema. */
  lemma ItemsKeepValid(db: Tables, items: map<nat, Item>)
    requires Valid(db)
    requires forall id :: id in items ==>
               && id in db.items && items[id].session == db.items[id].session && items[id].position == db.items[id].position
               && items[id].kind == db.items[id].kind && items[id].recording == db.items[id].recording
    ensures Valid(db.(items := items))
  {
  }

  lemma EndKeepsValid(db: Tables, session: nat, user: nat, status: Status)
    requires Valid(db) && status != InProgress
    ensures Valid(Ended(db, session, user, status))
  {
  }

  lemma PastDeletionKeepsValid(db: Tables, session: nat, user: nat)
    requires Valid(db)
    ensures Valid(PastDeleted(db, session, user))
  {
  }

  lemma StepKeepsValid(db: Tables, event: Event)
    requires Valid(db) && Step(db, event).Some?
    ensures Valid(Step(db, event).value)
  {
    hide Valid, Ended, PastDeleted, FreshIds;
    var after := Step(db, event).value;
    match event
    case Start(session, user, items, ids) =>
      if !HasOneInProgress(db, user) && WellShaped(items) {
        StartKeepsValid(db, session, user, items, ids);
      }
    case Finish(session, user) => EndKeepsValid(db, session, user, Complete);
    case GiveUp(session, user) => EndKeepsValid(db, session, user, Abandoned);
    case DeletePast(session, user) => PastDeletionKeepsValid(db, session, user);
    case _ => ItemsKeepValid(db, after.items);
  }

  /** Questions are the answered and the unanswered, apart; gaps are among the answered. */
  lemma CountsAddUp(db: Tables, session: nat)
    ensures |Questions(db, session)| == |Answered(db, session)| + |Unanswered(db, session)|
    ensures |Gaps(db, session)| <= |Answered(db, session)|
  {
    assert Questions(db, session) == Answered(db, session) + Unanswered(db, session);
    assert Answered(db, session) !! Unanswered(db, session);
    assert Answered(db, session) == Gaps(db, session) + (Answered(db, session) - Gaps(db, session));
  }

  /** The item asks something still there: it is answered, or about a teaching, or its chapter or tag stands. */
  ghost predicate StillAsks(item: Item) {
    match item.kind
    case Recording => true
    case Chapter => item.answer != None || item.chapter != None
    case Tag => item.answer != None || item.tag != None
  }

  /** What the three counts and the unanswered count count, column by column. */
  lemma WhatCounts(db: Tables, session: nat, id: nat)
    ensures id in Questions(db, session) <==> id in db.items && db.items[id].session == session && StillAsks(db.items[id])
    ensures id in Answered(db, session) <==> id in db.items && db.items[id].session == session && db.items[id].answer != None
    ensures id in Unanswered(db, session) <==>
            id in db.items && db.items[id].session == session && db.items[id].answer == None && StillAsks(db.items[id])
    ensures id in Gaps(db, session) <==>
            id in db.items && db.items[id].session == session && db.items[id].answer.Some? && db.items[id].answer.value <= 3
  {
  }

  /** The items the question screen and the reading list show: live ones about no teaching, or a published one. */
  function Shown(db: Tables, session: nat, published: set<nat>): set<nat> {
    set id | id in db.items && db.items[id].session == session && Live(db.items[id])
             && (db.items[id].recording.None? || db.items[id].recording.value in published)
  }

  /** The counts and the list agree exactly while no live item is about a teaching that has been taken down. */
  lemma CountsMatchTheListExactly(db: Tables, session: nat, published: set<nat>)
    ensures |Shown(db, session, published)| <= |Questions(db, session)|
    ensures |Shown(db, session, published)| == |Questions(db, session)| <==>
            forall id :: id in Questions(db, session) && db.items[id].recording.Some? ==>
              db.items[id].recording.value in published
  {
    var hidden := Questions(db, session) - Shown(db, session, published);
    assert Questions(db, session) == Shown(db, session, published) + hidden;
    if hidden == {} {
      assert forall id :: id in Questions(db, session) ==> id in Shown(db, session, published);
    } else {
      var id :| id in hidden;
      assert id in Questions(db, session);
    }
  }

  /** One item about a teaching that has been taken down: one question is counted, and none is listed. */
  lemma ATakenDownTeachingIsCounted()
    ensures var db := Tables(map[0 := Session(7, InProgress)], map[0 := Item(0, 1, Recording, Some(9), None, None, None)]);
            && Valid(db) && |Questions(db, 0)| == |Unanswered(db, 0)| == 1 && Shown(db, 0, {}) == {}
  {
    var db := Tables(map[0 := Session(7, InProgress)], map[0 := Item(0, 1, Recording, Some(9), None, None, None)]);
    assert Questions(db, 0) == {0} && Unanswered(db, 0) == {0};
  }

  // -------------------------------------------------------------------------------------------
  // What each event does
  // -------------------------------------------------------------------------------------------

  /** A first answer to a live item takes one from the unanswered; a re-answer, or one to a dropped item, takes none. */
  lemma AnswerEffect(db: Tables, session: nat, item: nat, rating: Rating)
    requires item in db.items && db.items[item].session == session
    ensures var after := Answers(db, session, item, rating);
            && Unanswered(after, session) == Unanswered(db, session) - {item}
            && Answered(after, session) == Answered(db, session) + {item}
            && Questions(after, session) == Questions(db, session) + {item}
            && |Unanswered(after, session)| ==
               |Unanswered(db, session)| - (if item in Unanswered(db, session) then 1 else 0)
            && (item in Gaps(after, session) <==> rating <= GAP_RATING)
            && Gaps(after, session) - {item} == Gaps(db, session) - {item}
  {
    var after := Answers(db, session, item, rating);
    assert Unanswered(after, session) == Unanswered(db, session) - {item};
  }

  /** A chapter that goes drops exactly the unanswered chapter items on it, from every session. */
  lemma ChapterDeletionEffect(db: Tables, chapter: nat, session: nat)
    ensures var after := db.(items := WithoutChapter(db.items, chapter));
            var dropped := set id | id in db.items && db.items[id].session == session && db.items[id].answer.None?
                                    && db.items[id].kind == Chapter && db.items[id].chapter == Some(chapter);
            && Questions(after, session) == Questions(db, session) - dropped
            && Unanswered(after, session) == Unanswered(db, session) - dropped
            && Answered(after, session) == Answered(db, session) && Gaps(after, session) == Gaps(db, session)
            && dropped <= Unanswered(db, session)
  {
  }

  /** And a tag that goes drops exactly the unanswered tag items on it. */
  lemma TagDeletionEffect(db: Tables, tag: nat, session: nat)
    ensures var after := db.(items := WithoutTag(db.items, tag));
            var dropped := set id | id in db.items && db.items[id].session == session && db.items[id].answer.None?
                                    && db.items[id].kind == Tag && db.items[id].tag == Some(tag);
            && Questions(after, session) == Questions(db, session) - dropped
            && Unanswered(after, session) == Unanswered(db, session) - dropped
            && Answered(after, session) == Answered(db, session) && Gaps(after, session) == Gaps(db, session)
            && dropped <= Unanswered(db, session)
  {
  }

  // -------------------------------------------------------------------------------------------
  // Over whole runs
  // -------------------------------------------------------------------------------------------

  /** No item of a session is ever removed by the event, whatever else it does. */
  predicate KeepsItems(event: Event) {
    !event.RecordingDeleted? && !event.DeletePast?
  }

  lemma StartLeavesOtherSessions(db: Tables, session: nat, user: nat, items: seq<NewItem>, ids: seq<nat>, other: nat)
    requires Valid(db) && other in db.sessions && FreshIds(db, session, items, ids)
    ensures var after := Tables(db.sessions[session := Session(user, InProgress)], db.items + Asked(session, items, ids));
            Answered(after, other) == Answered(db, other) && Unanswered(after, other) == Unanswered(db, other)
  {
    var after := Tables(db.sessions[session := Session(user, InProgress)], db.items + Asked(session, items, ids));
    forall id
      ensures id in Asked(session, items, ids) ==> Asked(session, items, ids)[id].session == session && id !in db.items
    {
      AskedRows(session, items, ids, id);
    }
    hide Asked;
  }

  lemma StepIsMonotone(db: Tables, event: Event, session: nat)
    requires Valid(db) && session in db.sessions && KeepsItems(event) && Step(db, event).Some?
    ensures var after := Step(db, event).value;
            && session in after.sessions && after.sessions[session].user == db.sessions[session].user
            && (db.sessions[session].status != InProgress ==> after.sessions[session] == db.sessions[session])
            && Answered(db, session) <= Answered(after, session)
            && Unanswered(after, session) <= Unanswered(db, session)
  {
    hide Valid, Asked;
    if event.Start? && !HasOneInProgress(db, event.user) && WellShaped(event.items) {
      StartLeavesOtherSessions(db, event.session, event.user, event.items, event.ids, session);
    }
  }

  lemma {:induction false} RunsAreMonotone(db: Tables, events: seq<Event>, session: nat)
    requires Valid(db) && session in db.sessions && Run(Step, db, events).Some?
    requires forall i :: 0 <= i < |events| ==> KeepsItems(events[i])
    ensures var after := Run(Step, db, events).value;
            && Valid(after) && session in after.sessions
            && (db.sessions[session].status != InProgress ==> after.sessions[session] == db.sessions[session])
            && Answered(db, session) <= Answered(after, session)
            && Unanswered(after, session) <= Unanswered(db, session)
    decreases |events|
  {
    if events != [] {
      StepKeepsValid(db, events[0]);
      StepIsMonotone(db, events[0], session);
      assert forall i :: 0 <= i < |events[1..]| ==> events[1..][i] == events[i + 1];
      hide Step, Valid, Answered, Unanswered;
      RunsAreMonotone(Step(db, events[0]).value, events[1..], session);
    }
  }

  /** So the counts only move one way: what is answered never falls, and what is left never rises. */
  lemma CountsOnlyMoveOneWay(db: Tables, events: seq<Event>, session: nat)
    requires Valid(db) && session in db.sessions && Run(Step, db, events).Some?
    requires forall i :: 0 <= i < |events| ==> KeepsItems(events[i])
    ensures var after := Run(Step, db, events).value;
            && |Answered(db, session)| <= |Answered(after, session)|
            && |Unanswered(after, session)| <= |Unanswered(db, session)|
  {
    var after := Run(Step, db, events).value;
    RunsAreMonotone(db, events, session);
    hide Step, Valid, Answered, Unanswered;
    Ordering.SubsetCount(Answered(db, session), Answered(after, session));
    Ordering.SubsetCount(Unanswered(after, session), Unanswered(db, session));
  }

  /** In every state any run reaches, deletions included: the schema holds, so a member has at most one session in progress. */
  lemma {:induction false} OneSessionInProgress(db: Tables, events: seq<Event>, a: nat, b: nat)
    requires Valid(db) && Run(Step, db, events).Some?
    ensures var after := Run(Step, db, events).value;
            && Valid(after)
            && (a in after.sessions && b in after.sessions && a != b
                && after.sessions[a].status == InProgress && after.sessions[b].status == InProgress ==>
                  after.sessions[a].user != after.sessions[b].user)
    decreases |events|
  {
    if events != [] {
      StepKeepsValid(db, events[0]);
      hide Step, Valid;
      OneSessionInProgress(Step(db, events[0]).value, events[1..], a, b);
    }
  }
}
