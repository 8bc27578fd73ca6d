/**
 * Password resets (packages/db/src/password-resets.ts, packages/db/src/schema.ts:361-381), run one
 * at a time: what each call answers and leaves behind.
 */
module PasswordResets {
  import opened Runs

  datatype Reset = Reset(user: nat, token: nat, expires: int, used: bool, revoked: bool)
  datatype User = User(active: bool, password: nat)
  datatype Session = Session(user: nat, revoked: bool)

  datatype Tables = Tables(users: map<nat, User>, resets: map<nat, Reset>, sessions: map<nat, Session>)

  predicate Live(reset: Reset) {
    !reset.used && !reset.revoked
  }

  function LiveResets(resets: map<nat, Reset>, user: nat): set<nat> {
    set id | id in resets && resets[id].user == user && Live(resets[id])
  }

  /** The unique indexes and the foreign keys; a row is never both used and revoked. */
  ghost predicate Valid(db: Tables) {
    && (forall i, j :: i in db.resets && j in db.resets && i != j ==> db.resets[i].token != db.resets[j].token)
    && (forall i, j :: i in db.resets && j in db.resets && i != j && Live(db.resets[i]) && Live(db.resets[j]) ==>
          db.resets[i].user != db.resets[j].user)
    && (forall i :: i in db.resets ==> db.resets[i].user in db.users && !(db.resets[i].used && db.resets[i].revoked))
  }

  function Revoked(resets: map<nat, Reset>, ids: set<nat>): map<nat, Reset> {
    map id | id in resets :: if id in ids then resets[id].(revoked := true) else resets[id]
  }

  function SessionsRevoked(sessions: map<nat, Session>, ids: set<nat>): map<nat, Session> {
    map id | id in sessions :: if id in ids then sessions[id].(revoked := true) else sessions[id]
  }

  function OpenSessions(sessions: map<nat, Session>, user: nat): set<nat> {
    set id | id in sessions && sessions[id].user == user && !sessions[id].revoked
  }

  /** The tables once the reset has been completed, with these sessions ended. */
  function Completed(db: Tables, id: nat, password: nat, ended: set<nat>): Tables
    requires id in db.resets && db.resets[id].user in db.users
  {
    var user := db.resets[id].user;
    Tables(db.users[user := db.users[user].(password := password)],
           db.resets[id := db.resets[id].(used := true)],
           SessionsRevoked(db.sessions, ended))
  }

  /** The row a token names and that may still be completed at `now`. */
  predicate Claimable(db: Tables, id: nat, token: nat, now: int) {
    && id in db.resets && db.resets[id].token == token && db.resets[id].user in db.users
    && db.users[db.resets[id].user].active && Live(db.resets[id]) && db.resets[id].expires > now
  }

  // -------------------------------------------------------------------------------------------
  // What each call leaves, row by row
  // -------------------------------------------------------------------------------------------

  /** The token names a row that is neither used nor revoked nor expired, of an account that is active. */
  ghost predicate MayComplete(db: Tables, id: nat, token: nat, now: int) {
    && id in db.resets && db.resets[id].token == token
    && !db.resets[id].used && !db.resets[id].revoked && now < db.resets[id].expires
    && db.resets[id].user in db.users && db.users[db.resets[id].user].active
  }

  /** Every live reset of the account is revoked and no other row changes; `added` may be new. */
  ghost predicate LiveOnesRevoked(before: map<nat, Reset>, after: map<nat, Reset>, user: nat, added: Option<nat>) {
    && (forall id :: id in before ==> id in after)
    && (forall id :: id in after && Some(id) != added ==> id in before)
    && (forall id :: id in before ==>
          after[id] == if before[id].user == user && !before[id].used && !before[id].revoked then before[id].(revoked := true)
                       else before[id])
  }

  /** The account has the new password, its reset is used, its sessions are revoked, and nothing else is touched. */
  ghost predicate PasswordChanged(before: Tables, after: Tables, id: nat, password: nat) {
    && id in before.resets
    && var user := before.resets[id].user;
    && after.users.Keys == before.users.Keys && after.resets.Keys == before.resets.Keys
    && after.sessions.Keys == before.sessions.Keys
    && (forall u :: u in before.users ==>
          after.users[u] == if u == user then before.users[u].(password := password) else before.users[u])
    && (forall r :: r in before.resets ==>
          after.resets[r] == if r == id then before.resets[r].(used := true) else before.resets[r])
    && (forall s :: s in before.sessions ==>
          after.sessions[s] == if before.sessions[s].user == user then Session(user, true) else before.sessions[s])
  }

  lemma ClaimableMayComplete(db: Tables, id: nat, token: nat, now: int)
    ensures Claimable(db, id, token, now) <==> MayComplete(db, id, token, now)
  {
  }

  lemma RevokedRevokesLiveOnes(resets: map<nat, Reset>, user: nat)
    ensures LiveOnesRevoked(resets, Revoked(resets, LiveResets(resets, user)), user, None)
  {
  }

  /** Ending all of the account's open sessions, whichever of its revoked ones are in the list as well. */
  lemma CompletedChangesThePassword(db: Tables, id: nat, password: nat, ended: set<nat>)
    requires id in db.resets && db.resets[id].user in db.users
    requires OpenSessions(db.sessions, db.resets[id].user) <= ended
    requires forall s :: s in ended && s in db.sessions ==> db.sessions[s].user == db.resets[id].user
    ensures PasswordChanged(db, Completed(db, id, password, ended), id, password)
  {
    var after, user := Completed(db, id, password, ended), db.resets[id].user;
    forall s | s in db.sessions
      ensures after.sessions[s] == if db.sessions[s].user == user then Session(user, true) else db.sessions[s]
    {
      assert db.sessions[s].user == user && !db.sessions[s].revoked ==> s in OpenSessions(db.sessions, user);
    }
  }

  /** The tables with the account's live reset revoked and a new one in its place. */
  lemma IssuedTables(db: Tables, user: nat, token: nat, expires: int, id: nat)
    requires Valid(db) && user in db.users && id !in db.resets
    ensures var revoked := Revoked(db.resets, LiveResets(db.resets, user));
            var issued := revoked[id := Reset(user, token, expires, false, false)];
            && ((exists i :: i in revoked && revoked[i].token == token) <==> exists i :: i in db.resets && db.resets[i].token == token)
            && ((forall i :: i in db.resets ==> db.resets[i].token != token) ==>
                  Valid(db.(resets := issued)) && LiveResets(issued, user) == {id})
            && LiveOnesRevoked(db.resets, issued, user, Some(id))
  {
    var revoked := Revoked(db.resets, LiveResets(db.resets, user));
    assert forall i :: i in db.resets ==> i in revoked && revoked[i].token == db.resets[i].token;
    assert forall i :: i in revoked ==> i !in LiveResets(revoked, user);
  }

  class ResetTable {
    var users: map<nat, User>
    var resets: map<nat, Reset>
    var sessions: map<nat, Session>

    constructor ()
      ensures Contents() == Tables(map[], map[], map[]) && Valid(Contents())
    {
      users, resets, sessions := map[], map[], map[];
    }

    function Contents(): Tables
      reads this
    {
      Tables(users, resets, sessions)
    }

    /** Answers how many rows it revoked: the account's one live reset, or none. */
    method RevokePasswordResetsForUser(user: nat) returns (count: nat)
      requires Valid(Contents())
      modifies this`resets
      ensures Valid(Contents())
      ensures resets == Revoked(old(resets), LiveResets(old(resets), user))
      ensures LiveOnesRevoked(old(resets), resets, user, None)
      ensures LiveResets(resets, user) == {} && count == |LiveResets(old(resets), user)| <= 1
    {
      RevokedRevokesLiveOnes(resets, user);
      var live := LiveResets(resets, user);
      AtMostOneLive(Contents(), user);
      resets := Revoked(resets, live);
      count := |live|;
    }

    /** After a second request the previous link is dead and exactly one works; a token that is taken is refused. */
    method IssuePasswordReset(user: nat, token: nat, expires: int, id: nat) returns (ok: bool)
      requires Valid(Contents()) && user in users && id !in resets
      modifies this`resets
      ensures Valid(Contents())
      ensures ok <==> forall i :: i in old(resets) ==> old(resets)[i].token != token
      ensures resets == if ok then Revoked(old(resets), LiveResets(old(resets), user))[id := Reset(user, token, expires, false, false)]
                        else old(resets)
      ensures ok ==> LiveResets(resets, user) == {id} && resets[id] == Reset(user, token, expires, false, false)
      ensures ok ==> LiveOnesRevoked(old(resets), resets, user, Some(id))
    {
      var before := resets;
      IssuedTables(Contents(), user, token, expires, id);
      hide LiveOnesRevoked, LiveResets;
      var _ := RevokePasswordResetsForUser(user);
      ok := !exists i :: i in resets && resets[i].token == token;
      resets := if ok then resets[id := Reset(user, token, expires, false, false)] else before;
    }

    /** Completes exactly a claimable token, and changes nothing when it answers `None`. */
    method CompletePasswordReset(token: nat, password: nat, now: int) returns (completed: Option<nat>)
      requires Valid(Contents())
      modifies this
      ensures Valid(Contents())
      ensures completed.None? <==> forall id :: !Claimable(old(Contents()), id, token, now)
      ensures completed.None? <==> forall id :: !MayComplete(old(Contents()), id, token, now)
      ensures completed.None? ==> Contents() == old(Contents())
      ensures completed.Some? ==>
                && MayComplete(old(Contents()), completed.value, token, now)
                && PasswordChanged(old(Contents()), Contents(), completed.value, password)
      ensures completed.Some? ==>
                && Claimable(old(Contents()), completed.value, token, now)
                && Contents() == Completed(old(Contents()), completed.value, password,
                                           OpenSessions(old(sessions), old(resets)[completed.value].user))
                && OpenSessions(sessions, resets[completed.value].user) == {}
                && LiveResets(resets, resets[completed.value].user) == {}
    {
      if id :| id in resets && resets[id].token == token {
        var row := resets[id];
        TheOnlyClaimable(Contents(), id, token, now);
        if !users[row.user].active || !Live(row) || row.expires <= now {
          return None;
        }
        CompletionLeaves(Contents(), id, token, now, password);
        hide PasswordChanged, MayComplete, Valid, LiveResets, OpenSessions;
        resets := resets[id := row.(used := true)];
        users := users[row.user := users[row.user].(password := password)];
        sessions := SessionsRevoked(sessions, OpenSessions(sessions, row.user));
        completed := Some(id);
      } else {
        completed := None;
      }
    }
  }

  lemma TheOnlyClaimable(db: Tables, id: nat, token: nat, now: int)
    requires Valid(db) && id in db.resets && db.resets[id].token == token
    ensures forall i :: Claimable(db, i, token, now) <==> MayComplete(db, i, token, now)
    ensures forall i :: MayComplete(db, i, token, now) ==> i == id
    ensures MayComplete(db, id, token, now) <==>
            db.users[db.resets[id].user].active && Live(db.resets[id]) && now < db.resets[id].expires
  {
  }

  lemma CompletionLeaves(db: Tables, id: nat, token: nat, now: int, password: nat)
    requires Valid(db) && Claimable(db, id, token, now)
    ensures var user := db.resets[id].user;
            var after := Completed(db, id, password, OpenSessions(db.sessions, user));
            && Valid(after) && PasswordChanged(db, after, id, password)
            && OpenSessions(after.sessions, user) == {} && LiveResets(after.resets, user) == {}
            && after.resets[id].user == user
  {
    assert LiveResets(db.resets, db.resets[id].user) == {id};
    CompletedChangesThePassword(db, id, password, OpenSessions(db.sessions, db.resets[id].user));
    hide PasswordChanged;
  }

  lemma AtMostOneLive(db: Tables, user: nat)
    requires Valid(db)
    ensures |LiveResets(db.resets, user)| <= 1
  {
    var live := LiveResets(db.resets, user);
    if id :| id in live {
      assert live == {id};
    }
  }

  /** A completed token is spent: completing it again answers nothing, with any password and at any time. */
  lemma ATokenIsSpent(db: Tables, id: nat, token: nat, password: nat, now: int, later: int, ended: set<nat>)
    requires Valid(db) && Claimable(db, id, token, now)
    ensures forall other :: !Claimable(Completed(db, id, password, ended), other, token, later)
  {
  }
}
