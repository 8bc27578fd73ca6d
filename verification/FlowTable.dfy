/** The `flow_session` and `flow_session_item` tables, changed in place (packages/db/src/flow-tracker.ts:509-543, 699-790). */
module FlowTable {
  import opened Runs
  import opened FlowSession

  class FlowTable {
    var sessions: map<nat, Session>
    var items: map<nat, Item>

    constructor ()
      ensures Contents() == Tables(map[], map[]) && Valid(Contents())
    {
      sessions, items := map[], map[];
    }

    function Contents(): Tables
      reads this
    {
      Tables(sessions, items)
    }

    /** The row and every item, or neither: refused while the member has a session in progress. */
    method InsertFlowSession(user: nat, session: nat, list: seq<NewItem>, ids: seq<nat>) returns (ok: bool)
      requires Valid(Contents()) && FreshIds(Contents(), session, list, ids)
      modifies this
      ensures Valid(Contents())
      ensures ok <==> !HasOneInProgress(old(Contents()), user) && WellShaped(list)
      ensures Step(old(Contents()), Start(session, user, list, ids)) == Some(Contents())
      ensures Leaves(old(Contents()), Start(session, user, list, ids), Contents())
      ensures ok ==> Unanswered(Contents(), session) == Questions(Contents(), session) && Answered(Contents(), session) == {}
    {
      StepKeepsValid(Contents(), Start(session, user, list, ids));
      EventsLeave(Contents(), Start(session, user, list, ids));
      hide Leaves;
      ok := !HasOneInProgress(Contents(), user);
      if !ok {
        return;
      }
      var before := sessions;
      sessions := sessions[session := Session(user, InProgress)];
      ok := WellShaped(list);
      if !ok {
        sessions := before;
        return;
      }
      NothingAnsweredYet(old(Contents()), session, list, ids);
      items := items + Asked(session, list, ids);
    }

    /** Answers whether the item is this session's; answering again replaces the answer. */
    method AnswerFlowSessionItem(session: nat, item: nat, rating: Rating) returns (found: bool)
      requires Valid(Contents())
      modifies this`items
      ensures Valid(Contents())
      ensures found <==> item in old(items) && old(items)[item].session == session
      ensures Contents() == Answers(old(Contents()), session, item, rating)
      ensures Leaves(old(Contents()), Answer(session, item, rating), Contents())
      ensures found ==> Unanswered(Contents(), session) == Unanswered(old(Contents()), session) - {item}
    {
      StepKeepsValid(Contents(), Answer(session, item, rating));
      EventsLeave(Contents(), Answer(session, item, rating));
      hide Leaves;
      found := item in items && items[item].session == session;
      if found {
        AnswerEffect(Contents(), session, item, rating);
        items := items[item := items[item].(answer := Some(rating))];
      }
    }

    /** What is left to answer: zero, which completes the session, exactly when every live item has its answer. */
    method CountUnansweredFlowItems(session: nat) returns (count: nat)
      ensures count == |Unanswered(Contents(), session)|
      ensures count + |Answered(Contents(), session)| == |Questions(Contents(), session)|
      ensures count == |set id | id in items && items[id].session == session && items[id].answer == None && StillAsks(items[id])|
      ensures count == 0 <==> forall id :: id in Questions(Contents(), session) ==> items[id].answer.Some?
    {
      CountsAddUp(Contents(), session);
      var unanswered := set id | id in items && items[id].session == session && items[id].answer.None? && Live(items[id]);
      assert unanswered == Unanswered(Contents(), session);
      count := |unanswered|;
      forall id ensures id in unanswered <==>
        id in items && items[id].session == session && items[id].answer == None && StillAsks(items[id])
      {
        WhatCounts(Contents(), session, id);
      }
      assert unanswered == set id | id in items && items[id].session == session && items[id].answer == None && StillAsks(items[id]);
      assert count == 0 ==> unanswered == {};
      assert forall id :: id in Questions(Contents(), session) && items[id].answer.None? ==> id in unanswered;
    }

    /** Only from in progress, and only the member's own. */
    method CompleteFlowSession(session: nat, user: nat) returns (done: bool)
      requires Valid(Contents())
      modifies this`sessions
      ensures Valid(Contents())
      ensures done <==> session in old(sessions) && old(sessions)[session] == Session(user, InProgress)
      ensures Contents() == Ended(old(Contents()), session, user, Complete)
      ensures Leaves(old(Contents()), Finish(session, user), Contents())
    {
      EventsLeave(Contents(), Finish(session, user));
      hide Leaves;
      done := End(session, user, Complete);
    }

    method AbandonFlowSession(session: nat, user: nat) returns (done: bool)
      requires Valid(Contents())
      modifies this`sessions
      ensures Valid(Contents())
      ensures done <==> session in old(sessions) && old(sessions)[session] == Session(user, InProgress)
      ensures Contents() == Ended(old(Contents()), session, user, Abandoned)
      ensures Leaves(old(Contents()), GiveUp(session, user), Contents())
    {
      EventsLeave(Contents(), GiveUp(session, user));
      hide Leaves;
      done := End(session, user, Abandoned);
    }

    method End(session: nat, user: nat, status: Status) returns (done: bool)
      requires Valid(Contents()) && status != InProgress
      modifies this`sessions
      ensures Valid(Contents())
      ensures done <==> session in old(sessions) && old(sessions)[session] == Session(user, InProgress)
      ensures Contents() == Ended(old(Contents()), session, user, status)
    {
      EndKeepsValid(Contents(), session, user, status);
      done := session in sessions && sessions[session] == Session(user, InProgress);
      if done {
        sessions := sessions[session := Session(user, status)];
      }
    }

    /** A past session goes with its items; the one in progress does not. */
    method DeleteFlowSessionForMember(session: nat, user: nat) returns (gone: bool)
      requires Valid(Contents())
      modifies this
      ensures Valid(Contents())
      ensures Contents() == PastDeleted(old(Contents()), session, user)
      ensures gone <==> session in old(sessions) && session !in sessions
      ensures Leaves(old(Contents()), DeletePast(session, user), Contents())
      ensures gone ==> Questions(Contents(), session) == {}
    {
      PastDeletionKeepsValid(Contents(), session, user);
      EventsLeave(Contents(), DeletePast(session, user));
      hide Leaves;
      gone := session in sessions && sessions[session].user == user && sessions[session].status != InProgress;
      if gone {
        sessions := sessions - {session};
        items := map id | id in items && items[id].session != session :: items[id];
      }
    }
  }

  lemma NothingAnsweredYet(db: Tables, session: nat, list: seq<NewItem>, ids: seq<nat>)
    requires Valid(db) && FreshIds(db, session, list, ids)
    ensures var after := Tables(db.sessions, db.items + Asked(session, list, ids));
            Unanswered(after, session) == Questions(after, session) && Answered(after, session) == {}
  {
    forall id
      ensures id in Asked(session, list, ids) ==> Asked(session, list, ids)[id].answer.None?
    {
      AskedRows(session, list, ids, id);
    }
    assert forall id :: id in db.items ==> db.items[id].session != session;
  }
}
