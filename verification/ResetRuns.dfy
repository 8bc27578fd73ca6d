/** What the reset protocol guarantees over whole runs, in every interleaving. */
module ResetRuns {
  import opened Runs
  import opened PasswordResets
  import opened ResetProtocol

  lemma {:induction false} RunKeepsInv(s: State, actions: seq<Action>)
    requires Inv(s) && Run(Step, s, actions).Some?
    ensures Inv(Run(Step, s, actions).value)
    decreases |actions|
  {
    hide Inv, Step;
    if actions != [] {
      StepKeepsInv(s, actions[0]);
      RunKeepsInv(Step(s, actions[0]).value, actions[1..]);
    }
  }

  /** Tables that satisfy the schema and hold no used row, with nothing running. */
  lemma FreshStart(db: Tables, now: int)
    requires Valid(db) && forall id :: id in db.resets ==> !db.resets[id].used
    ensures Inv(State(db, map[], now, []))
  {
  }

  /** Over any interleaving: at most one live reset an account, and no token changes a password twice. */
  lemma OneLiveResetAndNoTokenTwice(s: State, actions: seq<Action>, user: nat)
    requires Inv(s) && Run(Step, s, actions).Some?
    ensures var end := Run(Step, s, actions).value;
            && |LiveResets(end.db.resets, user)| <= 1
            && (forall i, j :: 0 <= i < j < |end.log| ==>
                  && end.log[i] in end.db.resets && end.log[j] in end.db.resets
                  && end.db.resets[end.log[i]].token != end.db.resets[end.log[j]].token)
            && (forall id :: id in end.db.resets ==> (end.db.resets[id].used <==> id in end.log)
                                                     && !(end.db.resets[id].used && end.db.resets[id].revoked))
  {
    RunKeepsInv(s, actions);
    AtMostOneLive(Run(Step, s, actions).value.db, user);
  }

  /** What a completion finds and leaves when it commits, whatever ran beside it. */
  lemma WhatASuccessDoes(s: State, t: nat)
    requires Inv(s) && t in s.txns && s.txns[t].phase.Ending? && Step(s, Commit(t)).Some?
    ensures var txn, after := s.txns[t], Step(s, Commit(t)).value;
            var id := txn.phase.id;
            && id in s.db.resets
            && var user := s.db.resets[id].user;
            // The account stayed active from the check to here, and the token could be completed.
            && Claimable(s.db, id, txn.call.token, txn.started)
            && after.db.users[user] == s.db.users[user].(password := txn.call.password)
            && after.db.resets[id].used && LiveResets(after.db.resets, user) == {}
            && after.log == s.log + [id]
            && MayComplete(s.db, id, txn.call.token, txn.started)
            // The password, this reset and the account's own sessions change, and nothing else does.
            && PasswordChanged(s.db, after.db, id, txn.call.password)
            // Not one session of the account is left open.
            && OpenSessions(after.db.sessions, user) == {}
            // Nobody else's account or reset changes.
            && (forall other :: other in s.db.users && other != user ==> after.db.users[other] == s.db.users[other])
            && (forall other :: other in s.db.resets && other != id ==> after.db.resets[other] == s.db.resets[other])
  {
    var txn := s.txns[t];
    assert Sound(s.db, txn);
    var id := txn.phase.id;
    assert OpenSessions(s.db.sessions, s.db.resets[id].user) <= txn.ended;
    CompletedChangesThePassword(s.db, id, txn.call.password, txn.ended);
    ClaimableMayComplete(s.db, id, txn.call.token, txn.started);
    hide PasswordChanged, MayComplete, Sound, Apart, Logged;
    forall other | other in s.db.resets && other != id && Live(s.db.resets[other])
      ensures s.db.resets[other].user != s.db.resets[id].user
    {
    }
  }

  /** What the commits of the other three calls leave. */
  lemma WhatTheOtherCallsDo(s: State, t: nat)
    requires Inv(s) && t in s.txns && !s.txns[t].call.Complete? && Step(s, Commit(t)).Some?
    ensures var call, after := s.txns[t].call, Step(s, Commit(t)).value;
            && after.log == s.log && after.db.sessions == s.db.sessions
            && match call
               case Issue(user, token, expires, newId) =>
                 && after.db.users == s.db.users
                 && newId !in s.db.resets && newId in after.db.resets
                 && after.db.resets[newId] == Reset(user, token, expires, false, false)
                 && LiveOnesRevoked(s.db.resets, after.db.resets, user, Some(newId))
               case Revoke(user) =>
                 && after.db.users == s.db.users && after.db.resets.Keys == s.db.resets.Keys
                 && forall id :: id in s.db.resets && after.db.resets[id] != s.db.resets[id] ==>
                      && id in s.txns[t].revoked
                      && s.db.resets[id].user == user && !s.db.resets[id].used && !s.db.resets[id].revoked
                      && after.db.resets[id] == s.db.resets[id].(revoked := true)
               case Deactivate(user) =>
                 && after.db.resets == s.db.resets && after.db.users.Keys == s.db.users.Keys
                 && user in s.db.users && s.db.users[user].active
                 && forall u :: u in s.db.users ==>
                      after.db.users[u] == if u == user then s.db.users[u].(active := false) else s.db.users[u]
               case Complete(_, _) => true
  {
    var txn := s.txns[t];
    assert Sound(s.db, txn);
    hide Valid, Logged, Apart;
    if txn.call.Issue? {
      assert forall id :: id in s.db.resets && s.db.resets[id].user == txn.call.user && Live(s.db.resets[id]) ==>
        id in LiveResets(s.db.resets, txn.call.user);
    }
  }

  /** And of what happens outside the four calls: a reactivation, a sign-in, a sign-out. */
  lemma WhatHappensOutside(s: State, a: Action)
    requires Step(s, a).Some? && !MovesOne(a) && !a.Commit?
    ensures var before, after := s.db, Step(s, a).value.db;
            && after.resets == before.resets && Step(s, a).value.log == s.log && Step(s, a).value.txns == s.txns
            && match a
               case Reactivate(user) =>
                 && user in before.users && after.sessions == before.sessions && after.users.Keys == before.users.Keys
                 && forall u :: u in before.users ==>
                      after.users[u] == if u == user then User(true, before.users[u].password) else before.users[u]
               case OpenSession(id, user) =>
                 && user in before.users && after.users == before.users && id !in before.sessions
                 && (forall t :: t in s.txns && (s.txns[t].phase.Checked? || s.txns[t].phase.Claimed? || s.txns[t].phase.Ending?) ==>
                       s.txns[t].phase.id in before.resets ==> before.resets[s.txns[t].phase.id].user != user)
                 && (forall other :: other in after.sessions <==> other in before.sessions || other == id)
                 && after.sessions[id] == Session(user, false)
                 && (forall other :: other in before.sessions ==> after.sessions[other] == before.sessions[other])
               case CloseSession(id) =>
                 && id in before.sessions && after.users == before.users && after.sessions.Keys == before.sessions.Keys
                 && forall other :: other in before.sessions ==>
                      after.sessions[other] == if other == id then Session(before.sessions[id].user, true) else before.sessions[other]
               case _ => after == before
  {
    hide ResetFree, AccountFree, Unreferenced, SessionFree, MustWait, Collides, LiveResets;
  }

  lemma DoneIsFinal(s: State, a: Action, t: nat)
    requires t in s.txns && Step(s, a).Some? && s.txns[t].phase.Done?
    ensures t in Step(s, a).value.txns && Step(s, a).value.txns[t] == s.txns[t]
    ensures a != Commit(t)
  {
    hide MustWait, Collides, ResetFree, AccountFree, KeyFree, Unreferenced, SessionFree, LiveResets, OpenSessions, Started;
  }

  /** A row of a session stays, with its account. */
  lemma SessionsStay(s: State, a: Action, session: nat)
    requires Step(s, a).Some? && session in s.db.sessions
    ensures session in Step(s, a).value.db.sessions
    ensures Step(s, a).value.db.sessions[session].user == s.db.sessions[session].user
  {
    hide MustWait, Collides, ResetFree, AccountFree, KeyFree, Unreferenced, SessionFree, LiveResets, OpenSessions, Started;
  }

  lemma {:induction false} SessionsStayOverRuns(s: State, actions: seq<Action>, session: nat)
    requires Run(Step, s, actions).Some? && session in s.db.sessions
    ensures session in Run(Step, s, actions).value.db.sessions
    ensures Run(Step, s, actions).value.db.sessions[session].user == s.db.sessions[session].user
    decreases |actions|
  {
    hide Step;
    if actions != [] {
      SessionsStay(s, actions[0], session);
      SessionsStayOverRuns(Step(s, actions[0]).value, actions[1..], session);
    }
  }

  /**
   * In every interleaving: a success leaves the account with no open session, and whichever of its
   * sessions existed at any time before that commit is revoked by then.
   */
  lemma SuccessEndsEveryOpenSession(s: State, actions: seq<Action>, t: nat, k: nat)
    requires Inv(s) && Run(Step, s, actions).Some? && k <= |actions|
    requires t in Run(Step, s, actions).value.txns && Run(Step, s, actions).value.txns[t].phase.Ending?
    requires Step(Run(Step, s, actions).value, Commit(t)).Some?
    ensures Run(Step, s, actions[..k]).Some?
    ensures var before := Run(Step, s, actions).value;
            var id := before.txns[t].phase.id;
            && id in before.db.resets
            && var user, end := before.db.resets[id].user, Step(before, Commit(t)).value.db.sessions;
            && OpenSessions(end, user) == {}
            && forall session :: session in Run(Step, s, actions[..k]).value.db.sessions
                                 && Run(Step, s, actions[..k]).value.db.sessions[session].user == user ==>
                 session in end && end[session].revoked
  {
    var before := Run(Step, s, actions).value;
    hide Step, Inv;
    RunKeepsInv(s, actions);
    SuccessLeavesNothingOpen(before, t);
    RunPrefix(Step, s, actions, k);
    assert actions == actions[..k] + actions[k..];
    RunConcat(Step, s, actions[..k], actions[k..]);
    var early := Run(Step, s, actions[..k]).value;
    var user, end := before.db.resets[before.txns[t].phase.id].user, Step(before, Commit(t)).value.db.sessions;
    forall session | session in early.db.sessions && early.db.sessions[session].user == user
      ensures session in end && end[session].revoked
    {
      SessionsStayOverRuns(early, actions[k..], session);
      SessionsStay(before, Commit(t), session);
      assert session !in OpenSessions(end, user);
    }
  }

  lemma SuccessLeavesNothingOpen(s: State, t: nat)
    requires Inv(s) && t in s.txns && s.txns[t].phase.Ending? && Step(s, Commit(t)).Some?
    ensures s.txns[t].phase.id in s.db.resets
    ensures OpenSessions(Step(s, Commit(t)).value.db.sessions, s.db.resets[s.txns[t].phase.id].user) == {}
  {
    WhatASuccessDoes(s, t);
  }

  /** Only a commit, or a statement that commits on its own, changes a table. */
  lemma OnlyCommitsWrite(s: State, a: Action)
    requires Step(s, a).Some? && MovesOne(a)
    ensures Step(s, a).value.db == s.db && Step(s, a).value.log == s.log
  {
    hide MustWait, Collides, ResetFree, AccountFree, KeyFree, Unreferenced, SessionFree, LiveResets, OpenSessions, Started;
  }

  /** The transaction an action belongs to. */
  ghost function Owner(a: Action): Option<nat> {
    if MovesOne(a) || a.Commit? then Some(a.t) else None
  }

  /** A call that is refused or rolled back has written nothing at any of its steps. */
  lemma {:induction false} RefusalsWriteNothing(s: State, actions: seq<Action>, t: nat, k: nat)
    requires Run(Step, s, actions).Some? && k < |actions| && Owner(actions[k]) == Some(t)
    requires t in Run(Step, s, actions).value.txns && Run(Step, s, actions).value.txns[t].phase.Done?
    requires Run(Step, s, actions).value.txns[t].phase.outcome != Applied
    ensures Run(Step, s, actions[..k]).Some? && Run(Step, s, actions[..k + 1]).Some?
    ensures Run(Step, s, actions[..k + 1]).value.db == Run(Step, s, actions[..k]).value.db
  {
    RunPrefix(Step, s, actions, k);
    RunPrefix(Step, s, actions, k + 1);
    assert actions[..k + 1] == actions[..k] + [actions[k]];
    RunSnoc(Step, s, actions[..k], actions[k]);
    var before := Run(Step, s, actions[..k]).value;
    if MovesOne(actions[k]) {
      OnlyCommitsWrite(before, actions[k]);
    } else {
      var after := Step(before, actions[k]).value;
      assert after.txns[t].phase == Done(Applied);
      assert actions == actions[..k + 1] + actions[k + 1..];
      RunConcat(Step, s, actions[..k + 1], actions[k + 1..]);
      DoneStays(after, actions[k + 1..], t);
      assert false;
    }
  }

  lemma {:induction false} DoneStays(s: State, actions: seq<Action>, t: nat)
    requires t in s.txns && s.txns[t].phase.Done? && Run(Step, s, actions).Some?
    ensures t in Run(Step, s, actions).value.txns && Run(Step, s, actions).value.txns[t] == s.txns[t]
    decreases |actions|
  {
    hide Step;
    if actions != [] {
      DoneIsFinal(s, actions[0], t);
      DoneStays(Step(s, actions[0]).value, actions[1..], t);
    }
  }

  // -------------------------------------------------------------------------------------------
  // With nothing beside it, a completion is the sequential one
  // -------------------------------------------------------------------------------------------

  ghost predicate OthersAreDone(s: State, t: nat) {
    forall u :: u in s.txns && u != t ==> s.txns[u].phase.Done?
  }

  lemma NothingInTheWay(s: State, t: nat)
    requires OthersAreDone(s, t)
    ensures forall row :: ResetFree(s, row, t)
    ensures forall user :: AccountFree(s, user, Some(t))
    ensures forall id :: SessionFree(s, id, Some(t))
  {
  }

  ghost function InPhase(s: State, t: nat, phase: Phase, ended: set<nat>): State
    requires t in s.txns
  {
    s.(txns := s.txns[t := s.txns[t].(phase := phase, ended := ended)])
  }

  lemma {:induction false} EndSessions(s: State, t: nat) returns (actions: seq<Action>)
    requires t in s.txns && s.txns[t].phase.Ending? && OthersAreDone(s, t)
    requires forall id :: id in s.txns[t].phase.todo ==> id in s.db.sessions && !s.db.sessions[id].revoked
    ensures var phase := s.txns[t].phase;
            Run(Step, s, actions) == Some(InPhase(s, t, Ending(phase.id, phase.seen, {}), s.txns[t].ended + phase.todo))
    decreases |s.txns[t].phase.todo|
  {
    var txn := s.txns[t];
    var todo := txn.phase.todo;
    if todo == {} {
      actions := [];
      assert txn.ended + todo == txn.ended;
      assert s.txns[t := txn] == s.txns;
    } else {
      var session :| session in todo;
      NothingInTheWay(s, t);
      var next := InPhase(s, t, Ending(txn.phase.id, txn.phase.seen, todo - {session}), txn.ended + {session});
      assert Step(s, EndSession(t, session)) == Some(next);
      hide Step;
      var rest := EndSessions(next, t);
      actions := [EndSession(t, session)] + rest;
      assert actions[1..] == rest;
      assert txn.ended + {session} + (todo - {session}) == txn.ended + todo;
      var last := txn.(phase := Ending(txn.phase.id, txn.phase.seen, {}), ended := txn.ended + todo);
      assert next.txns[t := last] == s.txns[t := last];
    }
  }

  lemma ClaimStep(s: State, t: nat, id: nat)
    requires t in s.txns && s.txns[t].phase == Checked(id) && id in s.db.resets
    ensures Step(s, Claim(t)) ==
            Some(At(s, t, if Live(s.db.resets[id]) && s.db.resets[id].expires > s.txns[t].started then Claimed(id)
                          else Done(Refused)))
  {
  }

  lemma SetPasswordStep(s: State, t: nat, id: nat)
    requires t in s.txns && s.txns[t].phase == Claimed(id) && id in s.db.resets
    ensures var open := OpenSessions(s.db.sessions, s.db.resets[id].user);
            Step(s, SetPassword(t)) == Some(At(s, t, Ending(id, open, open)))
  {
  }

  lemma CommitStep(s: State, t: nat, id: nat, seen: set<nat>)
    requires t in s.txns && s.txns[t].phase == Ending(id, seen, {}) && s.txns[t].call.Complete?
    requires id in s.db.resets && s.db.resets[id].user in s.db.users
    ensures Step(s, Commit(t)) ==
            Some(s.(db := Completed(s.db, id, s.txns[t].call.password, s.txns[t].ended),
                    txns := s.txns[t := s.txns[t].(phase := Done(Applied))], log := s.log + [id]))
  {
    hide Completed;
  }

  lemma LockRowStep(s: State, t: nat, id: nat)
    requires t in s.txns && s.txns[t].phase == Found(id) && OthersAreDone(s, t)
    ensures Step(s, LockRow(t)) == Some(At(s, t, RowLocked(id)))
  {
    NothingInTheWay(s, t);
  }

  lemma LockAccountStep(s: State, t: nat, id: nat)
    requires t in s.txns && s.txns[t].phase == RowLocked(id) && OthersAreDone(s, t)
    requires id in s.db.resets && s.db.resets[id].user in s.db.users
    ensures Step(s, LockAccount(t)) ==
            Some(At(s, t, if s.db.users[s.db.resets[id].user].active then Checked(id) else Done(Refused)))
  {
    NothingInTheWay(s, t);
  }

  /** From a claimable row to the commit. */
  lemma ClaimToCommit(s: State, t: nat, id: nat) returns (actions: seq<Action>)
    requires Inv(s) && t in s.txns && OthersAreDone(s, t)
    requires s.txns[t].phase == Checked(id) && id in s.db.resets && s.txns[t].ended == {} && s.txns[t].call.Complete?
    requires Claimable(s.db, id, s.txns[t].call.token, s.txns[t].started)
    ensures Run(Step, s, actions).Some?
    ensures var end := Run(Step, s, actions).value;
            && end.db == Completed(s.db, id, s.txns[t].call.password, OpenSessions(s.db.sessions, s.db.resets[id].user))
            && t in end.txns && end.txns[t].phase == Done(Applied)
  {
    var txn := s.txns[t];
    var open := OpenSessions(s.db.sessions, s.db.resets[id].user);
    var claimed := At(s, t, Claimed(id));
    var ending := At(s, t, Ending(id, open, open));
    ClaimStep(s, t, id);
    SetPasswordStep(claimed, t, id);
    assert At(claimed, t, Ending(id, open, open)) == ending by {
      assert claimed.txns[t := claimed.txns[t].(phase := Ending(id, open, open))] == ending.txns;
    }
    hide Inv, Step, Completed;
    var ends := EndSessions(ending, t);
    var ended := Run(Step, ending, ends).value;
    assert {} + open == open;
    CommitStep(ended, t, id, open);
    RunOne(Step, s, Claim(t));
    RunSnoc(Step, s, [Claim(t)], SetPassword(t));
    RunConcat(Step, s, [Claim(t)] + [SetPassword(t)], ends);
    RunSnoc(Step, s, [Claim(t)] + [SetPassword(t)] + ends, Commit(t));
    actions := [Claim(t)] + [SetPassword(t)] + ends + [Commit(t)];
  }

  /** Run with nothing beside it, a completion applies exactly to a claimable token, and does what the sequential one does. */
  lemma CompleteAlone(s: State, t: nat, token: nat, password: nat) returns (actions: seq<Action>)
    requires Inv(s) && t !in s.txns && OthersAreDone(s, t)
    ensures Run(Step, s, actions).Some? && t in Run(Step, s, actions).value.txns
    ensures var end := Run(Step, s, actions).value;
            && (end.txns[t].phase == Done(Applied) <==> exists id :: Claimable(s.db, id, token, s.now))
            && (end.txns[t].phase == Done(Applied) || (end.txns[t].phase == Done(Refused) && end.db == s.db))
            && forall id :: Claimable(s.db, id, token, s.now) ==>
                 end.db == Completed(s.db, id, password, OpenSessions(s.db.sessions, s.db.resets[id].user))
  {
    var begun := Step(s, Begin(t, Complete(token, password))).value;
    StepKeepsInv(s, Begin(t, Complete(token, password)));
    RunOne(Step, s, Begin(t, Complete(token, password)));
    actions := [Begin(t, Complete(token, password))];
    if begun.txns[t].phase.Found? {
      var id := begun.txns[t].phase.id;
      assert forall other :: Claimable(s.db, other, token, s.now) ==> other == id;
      var more := FoundToEnd(begun, t, id);
      RunConcat(Step, s, actions, more);
      actions := actions + more;
    }
  }

  lemma LockBoth(s: State, t: nat, id: nat)
    requires t in s.txns && s.txns[t].phase == Found(id) && OthersAreDone(s, t)
    requires id in s.db.resets && s.db.resets[id].user in s.db.users
    ensures Run(Step, s, [LockRow(t), LockAccount(t)]) ==
            Some(At(s, t, if s.db.users[s.db.resets[id].user].active then Checked(id) else Done(Refused)))
  {
    hide Step;
    var locked := At(s, t, RowLocked(id));
    LockRowStep(s, t, id);
    LockAccountStep(locked, t, id);
    RunOne(Step, s, LockRow(t));
    RunSnoc(Step, s, [LockRow(t)], LockAccount(t));
    assert [LockRow(t)] + [LockAccount(t)] == [LockRow(t), LockAccount(t)];
    var phase := if s.db.users[s.db.resets[id].user].active then Checked(id) else Done(Refused);
    assert At(locked, t, phase).txns == At(s, t, phase).txns;
  }

  lemma RunKeepsInvOf(s: State, actions: seq<Action>, after: State)
    requires Inv(s) && Run(Step, s, actions) == Some(after)
    ensures Inv(after)
  {
    RunKeepsInv(s, actions);
  }

  lemma AccountOf(db: Tables, id: nat)
    requires Valid(db) && id in db.resets
    ensures db.resets[id].user in db.users
  {
  }

  /** From the row found to the end of the call. */
  lemma FoundToEnd(s: State, t: nat, id: nat) returns (actions: seq<Action>)
    requires Inv(s) && t in s.txns && OthersAreDone(s, t)
    requires s.txns[t].phase == Found(id) && s.txns[t].ended == {} && s.txns[t].call.Complete?
    requires id in s.db.resets && s.db.resets[id].token == s.txns[t].call.token
    ensures Run(Step, s, actions).Some? && t in Run(Step, s, actions).value.txns
    ensures var end, call := Run(Step, s, actions).value, s.txns[t].call;
            if Claimable(s.db, id, call.token, s.txns[t].started) then
              && end.txns[t].phase == Done(Applied)
              && end.db == Completed(s.db, id, call.password, OpenSessions(s.db.sessions, s.db.resets[id].user))
            else end.txns[t].phase == Done(Refused) && end.db == s.db
  {
    AccountOf(s.db, id);
    hide Inv, Step, Completed, OpenSessions, Run, OthersAreDone;
    LockBoth(s, t, id);
    actions := [LockRow(t), LockAccount(t)];
    var checked := At(s, t, if s.db.users[s.db.resets[id].user].active then Checked(id) else Done(Refused));
    if s.db.users[s.db.resets[id].user].active {
      RunKeepsInvOf(s, actions, checked);
      OthersStayDone(s, checked, t);
      if Claimable(s.db, id, s.txns[t].call.token, s.txns[t].started) {
        var more := ClaimToCommit(checked, t, id);
        RunConcat(Step, s, actions, more);
        actions := actions + more;
      } else {
        ClaimStep(checked, t, id);
        RunSnoc(Step, s, actions, Claim(t));
        actions := actions + [Claim(t)];
      }
    }
  }

  lemma OthersStayDone(s: State, after: State, t: nat)
    requires OthersAreDone(s, t) && forall u :: u in after.txns && u != t ==> u in s.txns && after.txns[u] == s.txns[u]
    ensures OthersAreDone(after, t)
  {
  }
}
