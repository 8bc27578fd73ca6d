/**
 * The last-admin guard under Read Committed: every transaction of accounts.ts as a program counter
 * and the row locks it holds. Each SQL statement sees what has been committed when it starts; a
 * `for update` that waited for a row looks at the row again once it has the lock, and skips a row
 * that no longer matches (PostgreSQL documentation, section 13.2.1).
 */
module LastAdmin {
  import opened Accounts
  import opened Runs

  datatype Phase =
    | Locking(todo: set<nat>)      // the active admins of the statement's snapshot not reached yet
    | Ready                        // the guard let the write through; the target row is not locked
    | Wrote                        // the target row is locked and changed, not committed
    | Done(outcome: Outcome)

  datatype Txn = Txn(target: nat, write: Write, locked: set<nat>, phase: Phase)

  /** `erased` are the ids of deleted rows; a uuid is not given out twice. */
  datatype State = State(users: Users, txns: map<nat, Txn>, erased: set<nat>)

  datatype Action =
    | Begin(t: nat, write: Write, target: nat)
    | Lock(t: nat, row: nat)
    | Decide(t: nat)
    | Apply(t: nat)
    | Commit(t: nat, newId: nat)
    | Abort(t: nat)
    | Reactivate(id: nat)
    | Insert(id: nat, role: Role)

  ghost function Held(txn: Txn): set<nat> {
    match txn.phase
    case Done(_) => {}
    case Wrote => txn.locked + {txn.target}
    case _ => txn.locked
  }

  /** No transaction outside `except` holds the row. */
  ghost predicate Free(s: State, row: nat, except: set<nat>) {
    forall t :: t in s.txns && t !in except ==> row !in Held(s.txns[t])
  }

  ghost predicate Running(s: State, t: nat) {
    t in s.txns && !s.txns[t].phase.Done?
  }

  ghost function Moved(s: State, t: nat, phase: Phase): State
    requires t in s.txns
  {
    s.(txns := s.txns[t := s.txns[t].(phase := phase)])
  }

  /** One step; `None` while it would have to wait, or where it does not apply. */
  ghost function Step(s: State, a: Action): Option<State> {
    match a
    case Begin(t, write, target) =>
      if t in s.txns then None
      else Some(s.(txns := s.txns[t := Txn(target, write, {}, Locking(ActiveAdmins(s.users)))]))
    case Lock(t, row) =>
      if !(t in s.txns && s.txns[t].phase.Locking?) then None
      else
        var txn := s.txns[t];
        // In id order, and only once nobody else holds the row.
        if !(row in txn.phase.todo && (forall i :: i in txn.phase.todo ==> row <= i) && Free(s, row, {t})) then None
        else
          var locked := if IsActiveAdmin(s.users, row) then txn.locked + {row} else txn.locked;
          Some(s.(txns := s.txns[t := txn.(locked := locked, phase := Locking(txn.phase.todo - {row}))]))
    case Decide(t) =>
      if !(t in s.txns && s.txns[t].phase == Locking({})) then None
      else
        var txn := s.txns[t];
        if !IsAccount(s.users, txn.target) then Some(Moved(s, t, Done(NoSuchAccount)))
        else if WouldRemoveAnAdmin(txn.write, s.users[txn.target]) && txn.locked <= {txn.target} then
          Some(Moved(s, t, Done(LastAdmin)))
        else Some(Moved(s, t, Ready))
    case Apply(t) =>
      if !(t in s.txns && s.txns[t].phase.Ready?) then None
      else
        var txn := s.txns[t];
        if !Matches(txn.write, s.users, txn.target) then
          // No row to wait for. An erasure that finds its row gone throws.
          Some(Moved(s, t, Done(if txn.write == Erase then RolledBack else Unchanged)))
        else if !Free(s, txn.target, {t}) then None
        else Some(Moved(s, t, Wrote))
    case Commit(t, newId) =>
      if !(t in s.txns && s.txns[t].phase.Wrote? && s.txns[t].target in s.users) then None
      else if newId in s.users || newId in s.erased then None
      else
        var txn := s.txns[t];
        Some(State(Written(txn.write, s.users, txn.target, newId),
                   s.txns[t := txn.(phase := Done(Applied))],
                   if txn.write == Erase then s.erased + {txn.target} else s.erased))
    case Abort(t) =>
      if !Running(s, t) then None else Some(Moved(s, t, Done(RolledBack)))
    case Reactivate(id) =>
      if !(IsAccount(s.users, id) && !s.users[id].active && Free(s, id, {})) then None
      else Some(s.(users := s.users[id := s.users[id].(active := true)]))
    case Insert(id, role) =>
      if id in s.users || id in s.erased then None
      else Some(s.(users := s.users[id := Account(role, true, false)]))
  }

  // -------------------------------------------------------------------------------------------
  // What each step writes
  // -------------------------------------------------------------------------------------------

  /** Accounts change by a commit, a reactivation and an insert, each in its own columns, and by nothing else. */
  lemma WhatEachStepWrites(s: State, a: Action)
    requires Step(s, a).Some?
    ensures var before, after := s.users, Step(s, a).value.users;
            match a
            case Commit(t, newId) =>
              && t in s.txns && newId !in before
              && Landed(s.txns[t].write, before, after, s.txns[t].target, newId)
            case Reactivate(id) =>
              && id in before && !before[id].active && !before[id].placeholder
              && after.Keys == before.Keys
              && forall other :: other in before ==>
                   after[other] == if other == id then Account(before[id].role, true, false) else before[other]
            case Insert(id, role) =>
              && id !in before && id in after && after[id] == Account(role, true, false)
              && (forall other :: other in after <==> other in before || other == id)
              && (forall other :: other in before ==> after[other] == before[other])
            case _ => after == before
  {
    hide Free;
  }

  // -------------------------------------------------------------------------------------------
  // Safety
  // -------------------------------------------------------------------------------------------

  /** The one write that cannot take an admin away. */
  ghost predicate Harmless(write: Write) {
    write == SetRole(Admin)
  }

  /** The transaction stands past the guard, on a live account, with no admin row locked at all. */
  ghost predicate PassedWithNothingLocked(s: State, t: nat) {
    && t in s.txns
    && s.txns[t].phase.Ready?
    && s.txns[t].locked == {}
    && !Harmless(s.txns[t].write)
    && IsAccount(s.users, s.txns[t].target)
  }

  ghost predicate Unguarded(s: State) {
    exists t :: PassedWithNothingLocked(s, t)
  }

  /** Another admin row is locked, or there is no longer a row to take. */
  ghost predicate Covered(erased: set<nat>, txn: Txn) {
    || Harmless(txn.write)
    || (exists i :: i in txn.locked && i != txn.target)
    || (txn.phase.Ready? && txn.target in erased)
  }

  ghost predicate TxnConsistent(users: Users, erased: set<nat>, txn: Txn) {
    && (!txn.phase.Done? ==> forall i :: i in txn.locked ==> IsActiveAdmin(users, i))
    && (txn.phase.Ready? ==> IsAccount(users, txn.target) || txn.target in erased)
    && (txn.phase.Wrote? ==> IsAccount(users, txn.target) && Matches(txn.write, users, txn.target))
    && (txn.phase.Ready? || txn.phase.Wrote? ==> Covered(erased, txn))
  }

  ghost predicate UsersConsistent(users: Users, erased: set<nat>) {
    && (forall id :: id in erased ==> id !in users)
    && (forall id :: id in users && users[id].placeholder ==> !users[id].active)
  }

  ghost predicate Exclusive(txns: map<nat, Txn>) {
    forall t, u, i :: t in txns && u in txns && t != u && i in Held(txns[t]) ==> i !in Held(txns[u])
  }

  ghost predicate Consistent(s: State) {
    && UsersConsistent(s.users, s.erased)
    && Exclusive(s.txns)
    && forall t :: t in s.txns ==> TxnConsistent(s.users, s.erased, s.txns[t])
  }

  /** Whoever removes an admin holds the lock on another live one, and there is a live one. */
  ghost predicate Inv(s: State) {
    Consistent(s) && ActiveAdmins(s.users) != {}
  }

  lemma LockKeeps(s: State, t: nat, row: nat)
    requires Consistent(s) && Step(s, Lock(t, row)).Some?
    ensures Consistent(Step(s, Lock(t, row)).value)
  {
  }

  lemma DecideKeeps(s: State, t: nat)
    requires Consistent(s) && Step(s, Decide(t)).Some?
    requires !PassedWithNothingLocked(Step(s, Decide(t)).value, t)
    ensures Consistent(Step(s, Decide(t)).value)
  {
    var txn := s.txns[t];
    var s' := Step(s, Decide(t)).value;
    if s'.txns[t].phase.Ready? && !Harmless(txn.write) {
      var i :| i in txn.locked;
      assert !(txn.locked <= {txn.target});
      assert exists j :: j in txn.locked && j != txn.target;
    }
  }

  lemma ApplyKeeps(s: State, t: nat)
    requires Consistent(s) && Step(s, Apply(t)).Some?
    ensures Consistent(Step(s, Apply(t)).value)
  {
  }

  /** A committed write changes one row, and that row was locked by the transaction that wrote it. */
  lemma CommitKeeps(s: State, t: nat, newId: nat)
    requires Consistent(s) && Step(s, Commit(t, newId)).Some?
    ensures Consistent(Step(s, Commit(t, newId)).value)
    ensures ActiveAdmins(s.users) != {} ==> ActiveAdmins(Step(s, Commit(t, newId)).value.users) != {}
  {
    var s' := Step(s, Commit(t, newId)).value;
    var txn := s.txns[t];
    forall u | u in s'.txns && u != t
      ensures TxnConsistent(s'.users, s'.erased, s'.txns[u])
    {
      assert txn.target in Held(txn) && txn.target !in Held(s.txns[u]);
    }
    if Harmless(txn.write) {
      assert ActiveAdmins(s.users) <= ActiveAdmins(s'.users);
    } else {
      var i :| i in txn.locked && i != txn.target;
      assert i in ActiveAdmins(s'.users);
    }
  }

  lemma ReactivateKeeps(s: State, id: nat)
    requires Consistent(s) && Step(s, Reactivate(id)).Some?
    ensures Consistent(Step(s, Reactivate(id)).value)
    ensures ActiveAdmins(s.users) <= ActiveAdmins(Step(s, Reactivate(id)).value.users)
  {
    var s' := Step(s, Reactivate(id)).value;
    forall u | u in s'.txns
      ensures TxnConsistent(s'.users, s'.erased, s'.txns[u])
    {
      assert id !in Held(s.txns[u]);
    }
  }

  lemma InsertKeeps(s: State, id: nat, role: Role)
    requires Consistent(s) && Step(s, Insert(id, role)).Some?
    ensures Consistent(Step(s, Insert(id, role)).value)
    ensures ActiveAdmins(s.users) <= ActiveAdmins(Step(s, Insert(id, role)).value.users)
  {
  }

  /** The inductive step: any statement of any transaction keeps the invariant. */
  lemma StepKeepsInv(s: State, a: Action)
    requires Inv(s) && Step(s, a).Some? && !Unguarded(Step(s, a).value)
    ensures Inv(Step(s, a).value)
  {
    match a
    case Begin(t, write, target) =>
    case Lock(t, row) => LockKeeps(s, t, row);
    case Decide(t) =>
      assert !PassedWithNothingLocked(Step(s, a).value, t);
      DecideKeeps(s, t);
    case Apply(t) => ApplyKeeps(s, t);
    case Commit(t, newId) => CommitKeeps(s, t, newId);
    case Abort(t) =>
    case Reactivate(id) => ReactivateKeeps(s, id);
    case Insert(id, role) => InsertKeeps(s, id, role);
  }

  /** No state the run passes through has a transaction past the guard with nothing locked. */
  ghost predicate StaysGuarded(s: State, actions: seq<Action>)
    decreases |actions|
  {
    !Unguarded(s) && (actions != [] && Step(s, actions[0]).Some? ==>
                        StaysGuarded(Step(s, actions[0]).value, actions[1..]))
  }

  /** Safety over whole runs, in every interleaving. */
  lemma {:induction false} GuardedRunsKeepAnAdmin(s: State, actions: seq<Action>)
    requires Inv(s) && Run(Step, s, actions).Some? && StaysGuarded(s, actions)
    ensures Inv(Run(Step, s, actions).value)
    decreases |actions|
  {
    if actions != [] {
      var next := Step(s, actions[0]).value;
      assert StaysGuarded(next, actions[1..]);
      StepKeepsInv(s, actions[0]);
      GuardedRunsKeepAnAdmin(next, actions[1..]);
    }
  }

  // -------------------------------------------------------------------------------------------
  // The guard with its one missing branch: it refuses when it locked nothing
  // -------------------------------------------------------------------------------------------

  /** What the guard could look at before it lets a write through: no admin row is locked, and the write may take one. */
  ghost predicate BlindDecision(s: State, t: nat) {
    && t in s.txns
    && s.txns[t].phase == Locking({})
    && s.txns[t].locked == {}
    && !Harmless(s.txns[t].write)
    && IsAccount(s.users, s.txns[t].target)
    && !IsActiveAdmin(s.users, s.txns[t].target)
  }

  /** The same protocol, but with every such write refused. */
  ghost function Repaired(s: State, a: Action): Option<State> {
    if a.Decide? && BlindDecision(s, a.t) then Some(Moved(s, a.t, Done(LastAdmin))) else Step(s, a)
  }

  lemma BlindDecisionsPassWithNothingLocked(s: State, t: nat)
    requires Step(s, Decide(t)).Some?
    ensures BlindDecision(s, t) <==> PassedWithNothingLocked(Step(s, Decide(t)).value, t)
  {
  }

  lemma RepairedKeepsInv(s: State, a: Action)
    requires Inv(s) && Repaired(s, a).Some?
    ensures Inv(Repaired(s, a).value)
  {
    var s' := Repaired(s, a).value;
    if !(a.Decide? && BlindDecision(s, a.t)) {
      if Unguarded(s') {
        var t :| PassedWithNothingLocked(s', t);
        assert t in s.txns && s.txns[t].phase.Ready? ==> Covered(s.erased, s.txns[t]);
        assert a == Decide(t);
        BlindDecisionsPassWithNothingLocked(s, t);
        assert false;
      }
      StepKeepsInv(s, a);
    }
  }

  /** With that branch the guard does what it is for: every interleaving keeps an admin, on no condition. */
  lemma {:induction false} RepairedRunsKeepAnAdmin(s: State, actions: seq<Action>)
    requires Inv(s) && Run(Repaired, s, actions).Some?
    ensures Inv(Run(Repaired, s, actions).value)
    decreases |actions|
  {
    if actions != [] {
      RepairedKeepsInv(s, actions[0]);
      RepairedRunsKeepAnAdmin(Repaired(s, actions[0]).value, actions[1..]);
    }
  }

  /** The run makes no blind decision: the repaired guard goes the same way. */
  ghost predicate Agrees(s: State, actions: seq<Action>) {
    Run(Repaired, s, actions) == Run(Step, s, actions)
  }

  lemma AgreesOne(s: State, a: Action)
    requires !(a.Decide? && BlindDecision(s, a.t))
    ensures Agrees(s, [a])
  {
    RunOne(Repaired, s, a);
    RunOne(Step, s, a);
  }

  lemma AgreesConcat(s: State, first: seq<Action>, second: seq<Action>)
    requires Agrees(s, first)
    requires Run(Step, s, first).Some? ==> Agrees(Run(Step, s, first).value, second)
    ensures Agrees(s, first + second)
  {
    RunConcat(Repaired, s, first, second);
    RunConcat(Step, s, first, second);
  }

  lemma AgreesSnoc(s: State, actions: seq<Action>, a: Action)
    requires Agrees(s, actions) && !a.Decide?
    ensures Agrees(s, actions + [a])
  {
    RunSnoc(Repaired, s, actions, a);
    RunSnoc(Step, s, actions, a);
  }

  // -------------------------------------------------------------------------------------------
  // A condition on the other writers: nobody is made an active admin meanwhile
  // -------------------------------------------------------------------------------------------

  ghost predicate NoAdminAdded(s: State, actions: seq<Action>)
    decreases |actions|
  {
    actions != [] && Step(s, actions[0]).Some? ==>
      var next := Step(s, actions[0]).value;
      ActiveAdmins(next.users) <= ActiveAdmins(s.users) && NoAdminAdded(next, actions[1..])
  }

  /** Every active admin is locked already or still ahead in the list being locked. */
  ghost predicate Complete(s: State) {
    forall t :: t in s.txns && s.txns[t].phase.Locking? ==>
      ActiveAdmins(s.users) <= s.txns[t].locked + s.txns[t].phase.todo
  }

  lemma StepKeepsComplete(s: State, a: Action)
    requires Inv(s) && Complete(s) && !Unguarded(s) && Step(s, a).Some?
    requires ActiveAdmins(Step(s, a).value.users) <= ActiveAdmins(s.users)
    ensures Inv(Step(s, a).value) && Complete(Step(s, a).value) && !Unguarded(Step(s, a).value)
  {
    var s' := Step(s, a).value;
    forall t | t in s'.txns
      ensures !PassedWithNothingLocked(s', t)
      ensures s'.txns[t].phase.Locking? ==> ActiveAdmins(s'.users) <= s'.txns[t].locked + s'.txns[t].phase.todo
    {
      assert t in s.txns ==> !PassedWithNothingLocked(s, t);
      if a.Decide? && a.t == t {
        assert ActiveAdmins(s.users) <= s.txns[t].locked;
      }
    }
    StepKeepsInv(s, a);
  }

  lemma {:induction false} RunsThatAddNoAdminKeepOne(s: State, actions: seq<Action>)
    requires Inv(s) && Complete(s) && !Unguarded(s)
    requires Run(Step, s, actions).Some? && NoAdminAdded(s, actions)
    ensures ActiveAdmins(Run(Step, s, actions).value.users) != {}
    decreases |actions|
  {
    if actions != [] {
      StepKeepsComplete(s, actions[0]);
      RunsThatAddNoAdminKeepOne(Step(s, actions[0]).value, actions[1..]);
    }
  }

  // -------------------------------------------------------------------------------------------
  // Run alone, a transaction does what `Accounts.Guarded` says
  // -------------------------------------------------------------------------------------------

  ghost predicate NothingHeld(s: State) {
    forall t :: t in s.txns ==> Held(s.txns[t]) == {}
  }

  lemma {:induction false} LockAll(s: State, t: nat) returns (actions: seq<Action>)
    requires t in s.txns && s.txns[t].phase.Locking? && s.txns[t].phase.todo <= ActiveAdmins(s.users)
    requires forall u :: u in s.txns && u != t ==> Held(s.txns[u]) == {}
    ensures Run(Step, s, actions) ==
            Some(s.(txns := s.txns[t := s.txns[t].(locked := s.txns[t].locked + s.txns[t].phase.todo, phase := Locking({}))]))
    ensures Agrees(s, actions)
    decreases |s.txns[t].phase.todo|
  {
    var txn := s.txns[t];
    var todo := txn.phase.todo;
    if todo == {} {
      actions := [];
      assert txn.locked + todo == txn.locked;
      assert txn == txn.(locked := txn.locked + todo, phase := Locking({}));
      assert s.txns[t := txn] == s.txns;
    } else {
      var row := Smallest(todo);
      var next := Step(s, Lock(t, row)).value;
      assert next.txns[t].phase.todo == todo - {row};
      var rest := LockAll(next, t);
      actions := [Lock(t, row)] + rest;
      assert actions[1..] == rest;
      assert row in ActiveAdmins(s.users);
      assert next == s.(txns := s.txns[t := txn.(locked := txn.locked + {row}, phase := Locking(todo - {row}))]);
      assert txn.locked + {row} + (todo - {row}) == txn.locked + todo;
      var end := txn.(locked := txn.locked + todo, phase := Locking({}));
      assert next.txns[t := end] == s.txns[t := end];
    }
  }

  lemma {:induction false} Smallest(ids: set<nat>) returns (least: nat)
    requires ids != {}
    ensures least in ids && forall i :: i in ids ==> least <= i
  {
    var i :| i in ids;
    if ids == {i} {
      least := i;
    } else {
      var rest := Smallest(ids - {i});
      least := if i < rest then i else rest;
      assert forall j :: j in ids ==> j == i || j in ids - {i};
    }
  }

  /** From the guard's decision on, with every active admin locked and nobody else holding anything. */
  lemma DecideAlone(s: State, t: nat, newId: nat) returns (actions: seq<Action>)
    requires t in s.txns && s.txns[t].phase == Locking({}) && s.txns[t].locked == ActiveAdmins(s.users)
    requires forall u :: u in s.txns && u != t ==> Held(s.txns[u]) == {}
    requires newId !in s.users && newId !in s.erased
    ensures Run(Step, s, actions) == Some(Finished(s, t, newId))
    ensures ActiveAdmins(s.users) != {} || Harmless(s.txns[t].write) ==> Agrees(s, actions)
  {
    var txn := s.txns[t];
    var decided := Step(s, Decide(t)).value;
    RunOne(Step, s, Decide(t));
    actions := [Decide(t)];
    var sighted := ActiveAdmins(s.users) != {} || Harmless(txn.write);
    if sighted {
      AgreesOne(s, Decide(t));
    }
    if decided.txns[t].phase.Ready? {
      RunSnoc(Step, s, actions, Apply(t));
      if sighted {
        AgreesSnoc(s, actions, Apply(t));
      }
      assert Free(decided, txn.target, {t});
      var applied := Step(decided, Apply(t)).value;
      actions := actions + [Apply(t)];
      assert applied.txns == s.txns[t := applied.txns[t]];
      if Matches(txn.write, s.users, txn.target) {
        RunSnoc(Step, s, actions, Commit(t, newId));
        if sighted {
          AgreesSnoc(s, actions, Commit(t, newId));
        }
        actions := actions + [Commit(t, newId)];
        assert Step(applied, Commit(t, newId)).value.txns == s.txns[t := txn.(phase := Done(Applied))];
      }
    }
  }

  /** The state once transaction `t` has ended as the sequential guard does. */
  ghost function Finished(s: State, t: nat, newId: nat): State
    requires t in s.txns
  {
    var txn := s.txns[t];
    var (outcome, users) := Guarded(s.users, txn.target, txn.write, newId);
    State(users, s.txns[t := txn.(phase := Done(outcome))],
          if outcome == Applied && txn.write == Erase then s.erased + {txn.target} else s.erased)
  }

  /** A transaction that nothing interleaves with runs to its end, and ends as the sequential guard does. */
  lemma RunAlone(s: State, t: nat, id: nat, write: Write, newId: nat) returns (actions: seq<Action>)
    requires NothingHeld(s) && t !in s.txns && newId !in s.users && newId !in s.erased
    ensures Run(Step, s, actions).Some?
    ensures var (outcome, users) := Guarded(s.users, id, write, newId);
            var end := Run(Step, s, actions).value;
            && end.users == users
            && end.erased == (if outcome == Applied && write == Erase then s.erased + {id} else s.erased)
            && end.txns == s.txns[t := Txn(id, write, ActiveAdmins(s.users), Done(outcome))]
    ensures ActiveAdmins(s.users) != {} || Harmless(write) ==> Agrees(s, actions)
  {
    var begun := Step(s, Begin(t, write, id)).value;
    var locking := LockAll(begun, t);
    var locked := Run(Step, begun, locking).value;
    assert {} + ActiveAdmins(s.users) == ActiveAdmins(s.users);
    var deciding := DecideAlone(locked, t, newId);
    RunConcat(Step, begun, locking, deciding);
    actions := [Begin(t, write, id)] + (locking + deciding);
    assert actions[1..] == locking + deciding;
    assert locked.txns == s.txns[t := locked.txns[t]];
    if ActiveAdmins(s.users) != {} || Harmless(write) {
      AgreesConcat(begun, locking, deciding);
    }
  }

  // -------------------------------------------------------------------------------------------
  // The guard is not enough: a write that passed with nothing locked can take the last admin
  // -------------------------------------------------------------------------------------------

  lemma SpareId(ids: set<nat>) returns (n: nat)
    ensures n !in ids
  {
    var bound := UpperBound(ids);
    n := bound + 1;
  }

  lemma {:induction false} UpperBound(ids: set<nat>) returns (bound: nat)
    ensures forall i :: i in ids ==> i <= bound
  {
    if ids == {} {
      bound := 0;
    } else {
      var i :| i in ids;
      var rest := UpperBound(ids - {i});
      bound := if rest < i then i else rest;
      assert forall j :: j in ids ==> j == i || j in ids - {i};
    }
  }

  ghost function RunningOthers(s: State, t: nat): set<nat> {
    set u | u in s.txns && u != t && Running(s, u)
  }

  lemma {:induction false} AbortOthers(s: State, t: nat) returns (actions: seq<Action>)
    requires t in s.txns
    ensures Run(Step, s, actions).Some?
    ensures var end := Run(Step, s, actions).value;
            && end.users == s.users && end.erased == s.erased
            && t in end.txns && end.txns[t] == s.txns[t]
            && forall u :: u in end.txns && u != t ==> Held(end.txns[u]) == {}
    ensures Agrees(s, actions)
    decreases |RunningOthers(s, t)|
  {
    var others := RunningOthers(s, t);
    if others == {} {
      actions := [];
      forall u | u in s.txns && u != t
        ensures Held(s.txns[u]) == {}
      {
        assert u !in others;
      }
    } else {
      var u :| u in others;
      var next := Step(s, Abort(u)).value;
      assert RunningOthers(next, t) == others - {u};
      var rest := AbortOthers(next, t);
      actions := [Abort(u)] + rest;
      assert actions[1..] == rest;
    }
  }

  /** Deactivating every other admin, one guarded transaction after another. */
  lemma {:induction false} DeactivateOthers(s: State, keep: nat) returns (actions: seq<Action>)
    requires NothingHeld(s) && IsActiveAdmin(s.users, keep) && UsersConsistent(s.users, s.erased)
    ensures Run(Step, s, actions).Some?
    ensures var end := Run(Step, s, actions).value;
            && ActiveAdmins(end.users) == {keep}
            && end.users[keep] == s.users[keep]
            && UsersConsistent(end.users, end.erased)
            && (forall u :: u in s.txns ==> u in end.txns && end.txns[u] == s.txns[u])
            && (forall i :: i in s.users && !IsActiveAdmin(s.users, i) ==> i in end.users && end.users[i] == s.users[i])
    ensures Agrees(s, actions)
    decreases |ActiveAdmins(s.users)|
  {
    if ActiveAdmins(s.users) <= {keep} {
      actions := [];
    } else {
      var other :| other in ActiveAdmins(s.users) && other != keep;
      var t := SpareId(s.txns.Keys);
      var newId := SpareId(s.users.Keys + s.erased);
      hide Step, Repaired;
      var one := RunAlone(s, t, other, Deactivate, newId);
      var next := Run(Step, s, one).value;
      assert IsAccount(s.users, other) && keep in ActiveAdmins(s.users);
      assert ActiveAdmins(next.users) == ActiveAdmins(s.users) - {other};
      var rest := DeactivateOthers(next, keep);
      RunConcat(Step, s, one, rest);
      AgreesConcat(s, one, rest);
      actions := one + rest;
    }
  }

  /** From a quiet state, one account can be made an active admin. */
  lemma MakeActiveAdmin(s: State, id: nat) returns (actions: seq<Action>)
    requires NothingHeld(s) && IsAccount(s.users, id) && UsersConsistent(s.users, s.erased)
    ensures Run(Step, s, actions).Some?
    ensures var end := Run(Step, s, actions).value;
            && IsActiveAdmin(end.users, id) && IsAccount(end.users, id)
            && UsersConsistent(end.users, end.erased) && NothingHeld(end)
            && forall u :: u in s.txns ==> u in end.txns && end.txns[u] == s.txns[u]
    ensures Agrees(s, actions)
  {
    var wake: seq<Action> := if s.users[id].active then [] else [Reactivate(id)];
    if !s.users[id].active {
      RunOne(Step, s, Reactivate(id));
      AgreesOne(s, Reactivate(id));
    }
    var awake := Run(Step, s, wake).value;
    hide Step, Repaired;
    var t := SpareId(awake.txns.Keys);
    var newId := SpareId(awake.users.Keys + awake.erased);
    var promote := RunAlone(awake, t, id, SetRole(Admin), newId);
    RunConcat(Step, s, wake, promote);
    AgreesConcat(s, wake, promote);
    actions := wake + promote;
  }

  /**
   * From every state in which a write passed with nothing locked, some continuation leaves no admin,
   * even one in which no other decision is made that way.
   */
  lemma UnguardedCanLoseTheLastAdmin(s: State, t: nat) returns (actions: seq<Action>)
    requires UsersConsistent(s.users, s.erased) && PassedWithNothingLocked(s, t)
    ensures Run(Step, s, actions).Some? && ActiveAdmins(Run(Step, s, actions).value.users) == {}
    ensures Agrees(s, actions)
  {
    var txn := s.txns[t];
    var id := txn.target;
    var abort := AbortOthers(s, t);
    var quiet := Run(Step, s, abort).value;
    var promote := MakeActiveAdmin(quiet, id);
    var promoted := Run(Step, quiet, promote).value;
    var demote := DeactivateOthers(promoted, id);
    var alone := Run(Step, promoted, demote).value;
    var before := abort + promote + demote;
    RunConcat(Step, s, abort, promote);
    AgreesConcat(s, abort, promote);
    RunConcat(Step, s, abort + promote, demote);
    AgreesConcat(s, abort + promote, demote);
    // Whatever else holds locks now is told to stop; the write that passed the guard then lands.
    var clear := AbortOthers(alone, t);
    var last := Run(Step, alone, clear).value;
    RunConcat(Step, s, before, clear);
    AgreesConcat(s, before, clear);
    var land := LandAlone(last, t);
    RunConcat(Step, s, before + clear, land);
    AgreesConcat(s, before + clear, land);
    actions := before + clear + land;
  }

  /** The write that passed the guard, applied to the only admin there is. */
  lemma LandAlone(s: State, t: nat) returns (actions: seq<Action>)
    requires PassedWithNothingLocked(s, t) && ActiveAdmins(s.users) == {s.txns[t].target}
    requires forall u :: u in s.txns && u != t ==> Held(s.txns[u]) == {}
    ensures Run(Step, s, actions).Some? && ActiveAdmins(Run(Step, s, actions).value.users) == {}
    ensures Agrees(s, actions)
  {
    var txn := s.txns[t];
    assert Free(s, txn.target, {t});
    assert txn.target in ActiveAdmins(s.users);
    var newId := SpareId(s.users.Keys + s.erased);
    RunOne(Step, s, Apply(t));
    AgreesOne(s, Apply(t));
    RunSnoc(Step, s, [Apply(t)], Commit(t, newId));
    AgreesSnoc(s, [Apply(t)], Commit(t, newId));
    actions := [Apply(t)] + [Commit(t, newId)];
    WrittenTakesTheTarget(txn.write, s.users, txn.target, newId);
  }

  ghost predicate KeepsAnAdmin(step: (State, Action) -> Option<State>, s: State) {
    forall actions :: Run(step, s, actions).Some? ==> ActiveAdmins(Run(step, s, actions).value.users) != {}
  }

  /**
   * One decision, with the repaired guard making all the later ones: every run from there keeps an
   * admin if and only if an admin row was locked, or the write or its target could not take one.
   */
  lemma ADecisionIsSafeExactlyWhenNotBlind(s: State, t: nat)
    requires Inv(s) && Step(s, Decide(t)).Some?
    ensures KeepsAnAdmin(Repaired, Step(s, Decide(t)).value) <==> !BlindDecision(s, t)
  {
    var decided := Step(s, Decide(t)).value;
    BlindDecisionsPassWithNothingLocked(s, t);
    if BlindDecision(s, t) {
      var actions := UnguardedCanLoseTheLastAdmin(decided, t);
      assert ActiveAdmins(Run(Repaired, decided, actions).value.users) == {};
    } else {
      RepairedKeepsInv(s, Decide(t));
      forall actions | Run(Repaired, decided, actions).Some?
        ensures ActiveAdmins(Run(Repaired, decided, actions).value.users) != {}
      {
        RepairedRunsKeepAnAdmin(decided, actions);
      }
    }
  }

  // -------------------------------------------------------------------------------------------
  // No state is safe from such a decision
  // -------------------------------------------------------------------------------------------

  /** None of the snapshot's rows is an active admin any more: each is reached, and none is locked. */
  lemma {:induction false} SkipAll(s: State, t: nat) returns (actions: seq<Action>)
    requires t in s.txns && s.txns[t].phase.Locking? && s.txns[t].phase.todo !! ActiveAdmins(s.users)
    requires forall u :: u in s.txns && u != t ==> Held(s.txns[u]) == {}
    ensures Run(Step, s, actions) == Some(Moved(s, t, Locking({})))
    decreases |s.txns[t].phase.todo|
  {
    var todo := s.txns[t].phase.todo;
    if todo == {} {
      actions := [];
      assert s.txns[t := s.txns[t]] == s.txns;
    } else {
      var row := Smallest(todo);
      assert !IsActiveAdmin(s.users, row);
      var next := Moved(s, t, Locking(todo - {row}));
      assert Step(s, Lock(t, row)) == Some(next);
      var rest := SkipAll(next, t);
      actions := [Lock(t, row)] + rest;
      assert actions[1..] == rest;
      assert Moved(next, t, Locking({})).txns == Moved(s, t, Locking({})).txns;
    }
  }

  /** A new member whose deactivation has taken its snapshot, beside a new admin who is not in it. */
  lemma AMemberAndALaterAdmin(s: State) returns (actions: seq<Action>, t: nat, admin: nat)
    requires UsersConsistent(s.users, s.erased)
    ensures Run(Step, s, actions).Some?
    ensures var end := Run(Step, s, actions).value;
            && t in end.txns && UsersConsistent(end.users, end.erased) && NothingHeld(end)
            && end.txns[t].write == Deactivate && end.txns[t].locked == {} && end.txns[t].phase.Locking?
            && IsAccount(end.users, end.txns[t].target) && !IsActiveAdmin(end.users, end.txns[t].target)
            && IsActiveAdmin(end.users, admin) && admin !in end.txns[t].phase.todo
  {
    var member := SpareId(s.users.Keys + s.erased);
    t := SpareId(s.txns.Keys);
    var joined := Step(s, Insert(member, Member)).value;
    RunOne(Step, s, Insert(member, Member));
    var begun := Step(joined, Begin(t, Deactivate, member)).value;
    RunSnoc(Step, s, [Insert(member, Member)], Begin(t, Deactivate, member));
    actions := [Insert(member, Member)] + [Begin(t, Deactivate, member)];
    var abort := AbortOthers(begun, t);
    var quiet := Run(Step, begun, abort).value;
    RunConcat(Step, s, actions, abort);
    admin := SpareId(quiet.users.Keys + quiet.erased);
    RunSnoc(Step, s, actions + abort, Insert(admin, Admin));
    actions := actions + abort + [Insert(admin, Admin)];
    var end := Run(Step, s, actions).value;
    assert end.txns[t] == begun.txns[t];
  }

  /** From every consistent state the guard as it stands can be led to a blind decision, and then to no admin at all. */
  lemma NoStateIsSafe(s: State)
    requires UsersConsistent(s.users, s.erased)
    ensures !KeepsAnAdmin(Step, s)
  {
    var start, t, admin := AMemberAndALaterAdmin(s);
    var ready := Run(Step, s, start).value;
    var leave := DeactivateOthers(ready, admin);
    var left := Run(Step, ready, leave).value;
    RunConcat(Step, s, start, leave);
    var clear := AbortOthers(left, t);
    var quiet := Run(Step, left, clear).value;
    RunConcat(Step, s, start + leave, clear);
    var skip := SkipAll(quiet, t);
    var skipped := Run(Step, quiet, skip).value;
    RunConcat(Step, s, start + leave + clear, skip);
    assert BlindDecision(skipped, t);
    BlindDecisionsPassWithNothingLocked(skipped, t);
    RunSnoc(Step, s, start + leave + clear + skip, Decide(t));
    var decided := Step(skipped, Decide(t)).value;
    var last := UnguardedCanLoseTheLastAdmin(decided, t);
    RunConcat(Step, s, start + leave + clear + skip + [Decide(t)], last);
    assert ActiveAdmins(Run(Step, s, start + leave + clear + skip + [Decide(t)] + last).value.users) == {};
  }

  // Accounts 0 and 1 are admins, 1 deactivated, and 2 is a member.
  ghost const ADMIN := Account(Admin, true, false)
  ghost const GONE := Account(Admin, false, false)
  ghost const MEMBER := Account(Member, true, false)
  ghost const START := State(map[0 := ADMIN, 1 := GONE, 2 := MEMBER], map[], {})
  ghost const WAITING := Txn(2, Deactivate, {}, Locking({0}))
  ghost const BOTH := State(map[0 := ADMIN, 1 := ADMIN, 2 := MEMBER], map[0 := WAITING], {})

  /** The deactivation of 2 takes its snapshot, and account 1 is reactivated. */
  lemma SnapshotThenReactivation()
    ensures Run(Step, START, [Begin(0, Deactivate, 2), Reactivate(1)]) == Some(BOTH)
  {
    assert ActiveAdmins(START.users) == {0};
    var begun := START.(txns := START.txns[0 := WAITING]);
    assert Step(START, Begin(0, Deactivate, 2)) == Some(begun);
    RunOne(Step, START, Begin(0, Deactivate, 2));
    assert begun.users[1 := ADMIN] == BOTH.users && begun.txns == BOTH.txns;
    assert Step(begun, Reactivate(1)) == Some(BOTH);
    RunSnoc(Step, START, [Begin(0, Deactivate, 2)], Reactivate(1));
    assert [Begin(0, Deactivate, 2)] + [Reactivate(1)] == [Begin(0, Deactivate, 2), Reactivate(1)];
  }

  /** Row 0 is gone from the admins by the time it is locked, so nothing is locked at the decision. */
  lemma NothingLeftToLock(s: State)
    requires s.users == BOTH.users[0 := GONE] && 0 in s.txns && s.txns[0] == WAITING && Free(s, 0, {0})
    ensures Run(Step, s, [Lock(0, 0), Decide(0)]).Some?
    ensures Unguarded(Run(Step, s, [Lock(0, 0), Decide(0)]).value)
  {
    var empty := Moved(s, 0, Locking({}));
    assert {0} - {0} == {};
    assert Step(s, Lock(0, 0)) == Some(empty);
    RunOne(Step, s, Lock(0, 0));
    RunSnoc(Step, s, [Lock(0, 0)], Decide(0));
    assert [Lock(0, 0)] + [Decide(0)] == [Lock(0, 0), Decide(0)];
    assert PassedWithNothingLocked(Step(empty, Decide(0)).value, 0);
  }

  lemma StartIsOrdinary()
    ensures Inv(START) && START.txns == map[]
  {
    assert 0 in ActiveAdmins(START.users);
  }

  /** Meanwhile account 0 is deactivated, which the guard allows: account 1 is an admin again. */
  lemma TheOtherAdminGoes() returns (actions: seq<Action>)
    ensures Run(Step, BOTH, actions).Some?
    ensures var s := Run(Step, BOTH, actions).value;
            s.users == BOTH.users[0 := GONE] && 0 in s.txns && s.txns[0] == WAITING && Free(s, 0, {0})
  {
    assert 1 in ActiveAdmins(BOTH.users);
    actions := RunAlone(BOTH, 1, 0, Deactivate, 3);
  }

  /**
   * An ordinary start from which the guard lets such a write through: while the deactivation of the
   * member waits for row 0, the deactivated admin comes back and account 0 goes.
   */
  lemma AnUnguardedStateIsReached() returns (actions: seq<Action>)
    ensures Inv(START) && START.txns == map[]
    ensures Run(Step, START, actions).Some? && Unguarded(Run(Step, START, actions).value)
  {
    hide *;
    StartIsOrdinary();
    SnapshotThenReactivation();
    var first := [Begin(0, Deactivate, 2), Reactivate(1)];
    var other := TheOtherAdminGoes();
    RunConcat(Step, START, first, other);
    NothingLeftToLock(Run(Step, BOTH, other).value);
    var last := [Lock(0, 0), Decide(0)];
    RunConcat(Step, START, first + other, last);
    actions := first + other + last;
  }
}
