/**
 * Issues, revocations and deactivations with nothing beside them (packages/db/src/password-resets.ts:83-120),
 * and what a revocation reaches whatever runs beside it.
 */
module ResetAlone {
  import opened Runs
  import opened PasswordResets
  import opened ResetProtocol
  import opened ResetRuns

  ghost function RevokingAt(s: State, t: nat, todo: set<nat>, revoked: set<nat>): State
    requires t in s.txns
  {
    s.(txns := s.txns[t := s.txns[t].(phase := Revoking(todo), revoked := revoked)])
  }

  /** One live row after another. */
  lemma {:induction false} RevokeAll(s: State, t: nat, todo: set<nat>, revoked: set<nat>) returns (actions: seq<Action>)
    requires t in s.txns && OthersAreDone(s, t)
    requires forall id :: id in todo ==> id in s.db.resets && Live(s.db.resets[id])
    ensures Run(Step, RevokingAt(s, t, todo, revoked), actions) == Some(RevokingAt(s, t, {}, revoked + todo))
    decreases |todo|
  {
    var here := RevokingAt(s, t, todo, revoked);
    if todo == {} {
      actions := [];
      assert revoked + todo == revoked;
    } else {
      var row :| row in todo;
      var next := RevokingAt(s, t, todo - {row}, revoked + {row});
      assert OthersAreDone(here, t);
      NothingInTheWay(here, t);
      assert next.txns == here.txns[t := next.txns[t]];
      assert Step(here, RevokeRow(t, row)) == Some(next);
      hide Step;
      var rest := RevokeAll(s, t, todo - {row}, revoked + {row});
      actions := [RevokeRow(t, row)] + rest;
      assert actions[1..] == rest;
      assert revoked + {row} + (todo - {row}) == revoked + todo;
    }
  }

  /** Begun and through with the rows of its snapshot. */
  lemma BeginAndRevoke(s: State, t: nat, call: Call, user: nat) returns (actions: seq<Action>)
    requires t !in s.txns && OthersAreDone(s, t)
    requires call == Revoke(user) || (call.Issue? && call.user == user)
    ensures var live := LiveResets(s.db.resets, user);
            Run(Step, s, actions) ==
            Some(s.(txns := s.txns[t := Txn(call, s.now, Revoking({}), live, {})]))
  {
    var live := LiveResets(s.db.resets, user);
    var begun := s.(txns := s.txns[t := Txn(call, s.now, Revoking(live), {}, {})]);
    assert Step(s, Begin(t, call)) == Some(begun);
    assert OthersAreDone(begun, t);
    assert forall id :: id in live ==> id in s.db.resets && Live(s.db.resets[id]);
    hide Step, LiveResets, OthersAreDone;
    var rows := RevokeAll(begun, t, live, {});
    assert RevokingAt(begun, t, live, {}).txns == begun.txns;
    assert {} + live == live;
    RunOne(Step, s, Begin(t, call));
    RunConcat(Step, s, [Begin(t, call)], rows);
    actions := [Begin(t, call)] + rows;
    var end := Txn(call, s.now, Revoking({}), live, {});
    assert RevokingAt(begun, t, {}, live).txns == s.txns[t := end];
  }

  /** With nothing beside it, a revocation leaves the account no live reset, and touches nothing else. */
  lemma RevokeAlone(s: State, t: nat, user: nat) returns (actions: seq<Action>)
    requires t !in s.txns && OthersAreDone(s, t)
    ensures Run(Step, s, actions).Some?
    ensures var after := Run(Step, s, actions).value.db;
            && after.users == s.db.users && after.sessions == s.db.sessions
            && LiveOnesRevoked(s.db.resets, after.resets, user, None)
  {
    var begin := BeginAndRevoke(s, t, Revoke(user), user);
    RevokedRevokesLiveOnes(s.db.resets, user);
    hide LiveOnesRevoked, LiveResets;
    RunSnoc(Step, s, begin, Commit(t));
    actions := begin + [Commit(t)];
  }

  lemma InsertAlone(s: State, t: nat)
    requires t in s.txns && OthersAreDone(s, t) && s.txns[t].phase == Revoking({}) && s.txns[t].call.Issue?
    requires s.txns[t].revoked == LiveResets(s.db.resets, s.txns[t].call.user)
    requires s.txns[t].call.user in s.db.users && s.txns[t].call.newId !in s.db.resets
    ensures Step(s, Insert(t)) ==
            Some(At(s, t, if exists id :: id in s.db.resets && s.db.resets[id].token == s.txns[t].call.token
                          then Done(RolledBack) else Inserted))
  {
    assert forall u :: u in s.txns && u != t ==> s.txns[u].phase.Done?;
    hide LiveResets;
  }

  /** With nothing beside it, an issue does what the sequential one does: refused exactly for a token that is taken. */
  lemma IssueAlone(s: State, t: nat, user: nat, token: nat, expires: int, newId: nat) returns (actions: seq<Action>)
    requires t !in s.txns && OthersAreDone(s, t) && user in s.db.users && newId !in s.db.resets
    ensures Run(Step, s, actions).Some?
    ensures var after := Run(Step, s, actions).value.db;
            if exists id :: id in s.db.resets && s.db.resets[id].token == token then after == s.db
            else
              && after.users == s.db.users && after.sessions == s.db.sessions
              && newId in after.resets && after.resets[newId] == Reset(user, token, expires, false, false)
              && LiveOnesRevoked(s.db.resets, after.resets, user, Some(newId))
  {
    var call := Issue(user, token, expires, newId);
    var begin := BeginAndRevoke(s, t, call, user);
    var ready := Run(Step, s, begin).value;
    assert OthersAreDone(ready, t);
    InsertAlone(ready, t);
    RunSnoc(Step, s, begin, Insert(t));
    actions := begin + [Insert(t)];
    if !exists id :: id in s.db.resets && s.db.resets[id].token == token {
      RevokedRevokesLiveOnes(s.db.resets, user);
      var inserted := Run(Step, s, actions).value;
      var txn := inserted.txns[t];
      hide LiveResets, OthersAreDone;
      CommitOfIssue(inserted, t);
      RunSnoc(Step, s, actions, Commit(t));
      actions := actions + [Commit(t)];
    }
  }

  lemma CommitOfIssue(s: State, t: nat)
    requires t in s.txns && s.txns[t].phase.Inserted? && s.txns[t].call.Issue?
    ensures Step(s, Commit(t)).Some? && Step(s, Commit(t)).value.db == Issued(s.db, s.txns[t])
  {
    hide Issued;
  }

  /** With nothing beside it, a deactivation switches off an active account, and only that. */
  lemma DeactivateAlone(s: State, t: nat, user: nat) returns (actions: seq<Action>)
    requires t !in s.txns && OthersAreDone(s, t)
    ensures Run(Step, s, actions).Some?
    ensures var after := Run(Step, s, actions).value.db;
            && after.resets == s.db.resets && after.sessions == s.db.sessions && after.users.Keys == s.db.users.Keys
            && forall u :: u in s.db.users ==>
                 after.users[u] == if u == user then User(false, s.db.users[u].password) else s.db.users[u]
  {
    var begun := s.(txns := s.txns[t := Txn(Deactivate(user), s.now, Waiting, {}, {})]);
    assert Step(s, Begin(t, Deactivate(user))) == Some(begun);
    assert OthersAreDone(begun, t);
    NothingInTheWay(begun, t);
    RunOne(Step, s, Begin(t, Deactivate(user)));
    RunSnoc(Step, s, [Begin(t, Deactivate(user))], LockAccount(t));
    actions := [Begin(t, Deactivate(user))] + [LockAccount(t)];
    if user in s.db.users && s.db.users[user].active {
      RunSnoc(Step, s, actions, Commit(t));
      actions := actions + [Commit(t)];
    }
  }

  // -------------------------------------------------------------------------------------------
  // Whatever runs beside it
  // -------------------------------------------------------------------------------------------

  ghost predicate IsLive(db: Tables, row: nat) {
    row in db.resets && Live(db.resets[row])
  }

  /** The row the revocation saw live is still ahead of it, or locked by it, or dead already. */
  ghost predicate Reached(s: State, t: nat, row: nat) {
    && t in s.txns && row in s.db.resets && (s.txns[t].call.Revoke? || s.txns[t].call.Issue?)
    && match s.txns[t].phase
       case Revoking(todo) => row in todo || row in s.txns[t].revoked || !IsLive(s.db, row)
       case Inserted => row in s.txns[t].revoked || !IsLive(s.db, row)
       case Done(Applied) => !IsLive(s.db, row)
       case Done(_) => true
       case _ => false
  }

  /** A reset that is used or revoked stays so, and no row is taken away. */
  lemma DeadRowsStayDead(s: State, a: Action, row: nat)
    requires Inv(s) && Step(s, a).Some? && row in s.db.resets
    ensures row in Step(s, a).value.db.resets
    ensures IsLive(Step(s, a).value.db, row) ==> IsLive(s.db, row)
  {
    if MovesOne(a) {
      OnlyCommitsWrite(s, a);
    } else if a.Commit? && s.txns[a.t].call.Complete? {
      CommitIsOfEnding(s, a.t);
      WhatASuccessDoes(s, a.t);
    } else if a.Commit? {
      WhatTheOtherCallsDo(s, a.t);
    } else {
      WhatHappensOutside(s, a);
    }
    hide Step, Inv, PasswordChanged;
  }

  lemma CommitIsOfEnding(s: State, t: nat)
    requires Inv(s) && t in s.txns && s.txns[t].call.Complete? && Step(s, Commit(t)).Some?
    ensures s.txns[t].phase.Ending?
  {
    assert Sound(s.db, s.txns[t]);
  }

  lemma OthersKeepTheTxn(s: State, a: Action, t: nat)
    requires t in s.txns && Step(s, a).Some? && Owner(a) != Some(t)
    ensures t in Step(s, a).value.txns && Step(s, a).value.txns[t] == s.txns[t]
  {
    hide MustWait, Collides, ResetFree, AccountFree, KeyFree, Unreferenced, SessionFree, LiveResets, OpenSessions, Started;
  }

  lemma OwnMoveReaches(s: State, a: Action, t: nat, row: nat)
    requires Reached(s, t, row) && Step(s, a).Some? && MovesOne(a) && a.t == t
    ensures Reached(Step(s, a).value, t, row)
  {
    hide MustWait, Collides, ResetFree, AccountFree, KeyFree, Unreferenced, SessionFree, LiveResets, OpenSessions, Started;
  }

  lemma OwnCommitReaches(s: State, t: nat, row: nat)
    requires t in s.txns && Sound(s.db, s.txns[t]) && Reached(s, t, row) && Step(s, Commit(t)).Some?
    ensures Reached(Step(s, Commit(t)).value, t, row)
  {
    hide LiveResets, OpenSessions, Completed;
  }

  lemma OwnStepReaches(s: State, a: Action, t: nat, row: nat)
    requires Inv(s) && Reached(s, t, row) && Step(s, a).Some? && Owner(a) == Some(t)
    ensures Reached(Step(s, a).value, t, row)
  {
    assert Sound(s.db, s.txns[t]);
    hide Inv, Sound, Step, Reached;
    if MovesOne(a) {
      OwnMoveReaches(s, a, t, row);
    } else {
      OwnCommitReaches(s, t, row);
    }
  }

  lemma {:induction false} ReachedOverRuns(s: State, actions: seq<Action>, t: nat, row: nat)
    requires Inv(s) && Reached(s, t, row) && Run(Step, s, actions).Some?
    ensures Reached(Run(Step, s, actions).value, t, row)
    decreases |actions|
  {
    if actions != [] {
      var next := Step(s, actions[0]).value;
      if Owner(actions[0]) == Some(t) {
        OwnStepReaches(s, actions[0], t, row);
      } else {
        OthersKeepTheTxn(s, actions[0], t);
        DeadRowsStayDead(s, actions[0], row);
      }
      StepKeepsInv(s, actions[0]);
      hide Step, Inv;
      ReachedOverRuns(next, actions[1..], t, row);
    }
  }

  /**
   * In every interleaving, a revocation or an issue that goes through leaves none of the account's
   * resets alive that were alive when it began.
   */
  lemma NoneItSawStaysAlive(s: State, t: nat, call: Call, user: nat, actions: seq<Action>, row: nat)
    requires Inv(s) && t !in s.txns && (call == Revoke(user) || (call.Issue? && call.user == user))
    requires row in s.db.resets && s.db.resets[row].user == user && !s.db.resets[row].used && !s.db.resets[row].revoked
    requires Run(Step, s, [Begin(t, call)] + actions).Some?
    requires t in Run(Step, s, [Begin(t, call)] + actions).value.txns
    requires Run(Step, s, [Begin(t, call)] + actions).value.txns[t].phase == Done(Applied)
    ensures var after := Run(Step, s, [Begin(t, call)] + actions).value.db.resets;
            row in after && (after[row].used || after[row].revoked)
  {
    var begun := s.(txns := s.txns[t := Txn(call, s.now, Revoking(LiveResets(s.db.resets, user)), {}, {})]);
    assert Step(s, Begin(t, call)) == Some(begun);
    assert row in LiveResets(s.db.resets, user);
    assert Reached(begun, t, row);
    StepKeepsInv(s, Begin(t, call));
    hide Step, Inv, LiveResets;
    RunOne(Step, s, Begin(t, call));
    RunConcat(Step, s, [Begin(t, call)], actions);
    ReachedOverRuns(begun, actions, t, row);
  }
}
