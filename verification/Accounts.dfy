/**
 * Accounts and the writes that can take an active admin away (packages/db/src/accounts.ts,
 * packages/db/src/account-deletion.ts), run one at a time.
 */
module Accounts {
  datatype Role = Admin | Member

  /** `placeholder` is a set `deleted_at`: the row a removed member's notes are left to. */
  datatype Account = Account(role: Role, active: bool, placeholder: bool)

  type Users = map<nat, Account>

  datatype Write = Deactivate | SetRole(role: Role) | Erase

  datatype Outcome = Applied | Unchanged | LastAdmin | NoSuchAccount | RolledBack

  predicate IsActiveAdmin(users: Users, id: nat) {
    id in users && users[id].role == Admin && users[id].active
  }

  function ActiveAdmins(users: Users): set<nat> {
    set id | id in users && IsActiveAdmin(users, id)
  }

  predicate IsAccount(users: Users, id: nat) {
    id in users && !users[id].placeholder
  }

  /** The caller's predicate over the row the guard read. */
  predicate WouldRemoveAnAdmin(write: Write, row: Account) {
    row.active && row.role == Admin && write != SetRole(Admin)
  }

  /** Whether the write's own `where` still matches the row when it is applied. */
  predicate Matches(write: Write, users: Users, id: nat) {
    id in users &&
    match write
    case Deactivate => users[id].active
    case SetRole(role) => users[id].role != role
    case Erase => true
  }

  /** The table once the write has landed; an erasure leaves a placeholder under a new id. */
  function Written(write: Write, users: Users, id: nat, newId: nat): Users
    requires id in users
  {
    match write
    case Deactivate => users[id := users[id].(active := false)]
    case SetRole(role) => users[id := users[id].(role := role)]
    case Erase => (users - {id})[newId := Account(Member, false, true)]
  }

  /** Every write but a promotion takes its target, and only its target, out of the active admins. */
  lemma WrittenTakesTheTarget(write: Write, users: Users, id: nat, newId: nat)
    requires id in users && newId !in users && write != SetRole(Admin)
    ensures ActiveAdmins(Written(write, users, id, newId)) == ActiveAdmins(users) - {id}
  {
    var after := Written(write, users, id, newId);
    match write
    case Deactivate => assert !IsActiveAdmin(after, id);
    case SetRole(role) => assert role == Member;
    case Erase => assert !IsActiveAdmin(after, newId);
  }

  /** What one guarded write answers and leaves behind when nothing else runs beside it. */
  function Guarded(users: Users, id: nat, write: Write, newId: nat): (Outcome, Users) {
    if !IsAccount(users, id) then (NoSuchAccount, users)
    else if WouldRemoveAnAdmin(write, users[id]) && ActiveAdmins(users) <= {id} then (LastAdmin, users)
    else if !Matches(write, users, id) then (Unchanged, users)
    else (Applied, Written(write, users, id, newId))
  }

  /** The guard refuses exactly the writes that would take the group from some admin to none. */
  lemma GuardRefusesExactlyTheLastAdmin(users: Users, id: nat, write: Write, newId: nat)
    requires newId !in users
    ensures Guarded(users, id, write, newId).0 == LastAdmin <==>
            && IsAccount(users, id)
            && ActiveAdmins(users) != {}
            && Matches(write, users, id)
            && ActiveAdmins(Written(write, users, id, newId)) == {}
    ensures ActiveAdmins(users) != {} ==> ActiveAdmins(Guarded(users, id, write, newId).1) != {}
  {
    if IsAccount(users, id) {
      var after := Written(write, users, id, newId);
      if WouldRemoveAnAdmin(write, users[id]) {
        assert id in ActiveAdmins(users);
        WrittenTakesTheTarget(write, users, id, newId);
      } else {
        assert ActiveAdmins(users) <= ActiveAdmins(after);
      }
    }
  }

  /** A refusal or a write that matched nothing leaves every row as it was; an applied one touches its own. */
  lemma GuardedTouchesOnlyTheTarget(users: Users, id: nat, write: Write, newId: nat, other: nat)
    requires newId !in users && other != id && other != newId
    ensures var (outcome, after) := Guarded(users, id, write, newId);
            && (outcome != Applied ==> after == users)
            && (outcome == Applied ==> after != users)
            && (other in after <==> other in users)
            && (other in users ==> after[other] == users[other])
  {
    if IsAccount(users, id) && Matches(write, users, id) {
      var after := Written(write, users, id, newId);
      match write
      case Deactivate => assert after[id] != users[id];
      case SetRole(_) => assert after[id] != users[id];
      case Erase => assert newId in after;
    }
  }

  /** What a guarded write that landed has changed, column by column, and what it has left alone. */
  ghost predicate Landed(write: Write, before: Users, after: Users, id: nat, newId: nat) {
    && id in before
    && (forall other :: other in before && other != id ==> other in after && after[other] == before[other])
    && (forall other :: other in after && other !in before ==> write == Erase && other == newId)
    && match write
       case Deactivate =>
         id in after && after[id].role == before[id].role && !after[id].active && after[id].placeholder == before[id].placeholder
       case SetRole(role) =>
         id in after && after[id].role == role && after[id].active == before[id].active && after[id].placeholder == before[id].placeholder
       case Erase =>
         id !in after && newId in after && !after[newId].active && after[newId].placeholder && after[newId].role == Member
  }

  /** The guard's four answers, each exactly when, and what an applied write has done. */
  ghost predicate Answers(write: Write, before: Users, id: nat, newId: nat, outcome: Outcome, after: Users) {
    && (outcome == NoSuchAccount <==> id !in before || before[id].placeholder)
    && (outcome == LastAdmin <==>
        && id in before && !before[id].placeholder && before[id].role == Admin && before[id].active
        && write != SetRole(Admin)
        && forall other :: other in before && before[other].role == Admin && before[other].active ==> other == id)
    && (outcome == Unchanged <==>
        && id in before && !before[id].placeholder
        && match write
           case Deactivate => !before[id].active
           case SetRole(role) => before[id].role == role
           case Erase => false)
    && outcome != RolledBack
    && (outcome == Applied ==> Landed(write, before, after, id, newId))
    && (outcome != Applied ==> after == before)
  }

  lemma GuardedAnswers(users: Users, id: nat, write: Write, newId: nat)
    requires newId !in users
    ensures var (outcome, after) := Guarded(users, id, write, newId);
            Answers(write, users, id, newId, outcome, after)
  {
    assert ActiveAdmins(users) <= {id} <==>
      forall other :: other in users && users[other].role == Admin && users[other].active ==> other == id
    by {
      assert forall other :: other in ActiveAdmins(users) <==>
        other in users && users[other].role == Admin && users[other].active;
    }
  }

  /** The `user` table, changed in place one transaction at a time. */
  class AccountTable {
    var users: Users

    constructor ()
      ensures users == map[]
    {
      users := map[];
    }

    /** The rows `for update` returns: every active admin, so a write that empties them finds only its own target there. */
    method LockActiveAdmins() returns (ids: set<nat>)
      ensures ids == ActiveAdmins(users)
      ensures forall write: Write, id, newId :: id in users && newId !in users && write != SetRole(Admin) ==>
                (ActiveAdmins(Written(write, users, id, newId)) == {} <==> ids <= {id})
    {
      forall write: Write, id, newId | id in users && newId !in users && write != SetRole(Admin)
        ensures ActiveAdmins(Written(write, users, id, newId)) == {} <==> ActiveAdmins(users) <= {id}
      {
        WrittenTakesTheTarget(write, users, id, newId);
      }
      ids := set id | id in users && users[id].role == Admin && users[id].active;
    }

    method WithLastAdminGuard(id: nat, write: Write, newId: nat) returns (outcome: Outcome)
      requires newId !in users
      modifies this
      ensures (outcome, users) == Guarded(old(users), id, write, newId)
      ensures Answers(write, old(users), id, newId, outcome, users)
      ensures ActiveAdmins(old(users)) != {} ==> ActiveAdmins(users) != {}
    {
      GuardedAnswers(users, id, write, newId);
      GuardRefusesExactlyTheLastAdmin(users, id, write, newId);
      var activeAdmins := LockActiveAdmins();
      if id !in users || users[id].placeholder {
        return NoSuchAccount;
      }
      var row := users[id];
      if WouldRemoveAnAdmin(write, row) && activeAdmins <= {id} {
        return LastAdmin;
      }
      var changed := Apply(id, write, newId);
      outcome := if changed then Applied else Unchanged;
    }

    /** The guarded statement itself; answers whether it matched a row. */
    method Apply(id: nat, write: Write, newId: nat) returns (changed: bool)
      requires id in users && newId !in users
      modifies this
      ensures changed == Matches(write, old(users), id)
      ensures users == if changed then Written(write, old(users), id, newId) else old(users)
      ensures changed <==> match write
                           case Deactivate => old(users)[id].active
                           case SetRole(role) => old(users)[id].role != role
                           case Erase => true
      ensures changed ==> Landed(write, old(users), users, id, newId)
    {
      changed := false;
      match write
      case Deactivate =>
        if users[id].active {
          users := users[id := users[id].(active := false)];
          changed := true;
        }
      case SetRole(role) =>
        if users[id].role != role {
          users := users[id := users[id].(role := role)];
          changed := true;
        }
      case Erase =>
        users := users[newId := Account(Member, false, true)];
        users := users - {id};
        changed := true;
    }

    /** Outside the guard: it can only add an active admin, which its contract says. */
    method Reactivate(id: nat) returns (outcome: Outcome)
      modifies this
      ensures outcome == if !IsAccount(old(users), id) then NoSuchAccount
                         else if old(users)[id].active then Unchanged else Applied
      ensures users == if outcome == Applied then old(users)[id := old(users)[id].(active := true)] else old(users)
      ensures ActiveAdmins(old(users)) <= ActiveAdmins(users)
      ensures outcome == Applied <==> id in old(users) && !old(users)[id].placeholder && !old(users)[id].active
      ensures outcome == NoSuchAccount <==> id !in old(users) || old(users)[id].placeholder
    {
      if id !in users || users[id].placeholder {
        return NoSuchAccount;
      }
      if users[id].active {
        return Unchanged;
      }
      users := users[id := users[id].(active := true)];
      return Applied;
    }

    method InsertUser(id: nat, role: Role)
      requires id !in users
      modifies this
      ensures users == old(users)[id := Account(role, true, false)]
    {
      users := users[id := Account(role, true, false)];
    }
  }
}
