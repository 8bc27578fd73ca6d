/**
 * Password resets under Read Committed: each transaction of password-resets.ts as a program counter
 * and the rows it has locked. A statement sees what is committed when it starts, waits for a row
 * another transaction holds, and looks at the row again once it has it.
 */
module ResetProtocol {
  import opened Runs
  import opened PasswordResets

  datatype Call =
    | Issue(user: nat, token: nat, expires: int, newId: nat)
    | Revoke(user: nat)
    | Complete(token: nat, password: nat)
    | Deactivate(user: nat)

  datatype Outcome = Applied | Refused | RolledBack

  datatype Phase =
    | Revoking(todo: set<nat>)             // live rows of the update's snapshot not reached yet
    | Inserted                             // the new row is written, not committed
    | Found(id: nat)                       // the select found the row; nothing is locked
    | RowLocked(id: nat)                   // the reset row is locked
    | Checked(id: nat)                     // so is the account's, and it is active
    | Claimed(id: nat)                     // used_at is set, not committed
    | Ending(id: nat, seen: set<nat>, todo: set<nat>) // the password is set; sessions seen, and not reached yet
    | Waiting                              // a deactivation that has not got the account's row
    | Switched                             // it has, and has written it
    | Done(outcome: Outcome)

  /** `revoked` and `ended` are the rows this transaction has locked and changed; `started` is its `now()`. */
  datatype Txn = Txn(call: Call, started: int, phase: Phase, revoked: set<nat>, ended: set<nat>)

  /** `log` lists the resets that have changed a password, in order. */
  datatype State = State(db: Tables, txns: map<nat, Txn>, now: int, log: seq<nat>)

  datatype Action =
    | Begin(t: nat, call: Call)
    | RevokeRow(t: nat, row: nat)
    | Insert(t: nat)
    | LockRow(t: nat)
    | LockAccount(t: nat)
    | Claim(t: nat)
    | SetPassword(t: nat)
    | EndSession(t: nat, session: nat)
    | Commit(t: nat)
    | Abort(t: nat)
    | Reactivate(user: nat)
    | OpenSession(id: nat, user: nat)
    | CloseSession(id: nat)
    | Tick(now: int)

  ghost predicate Running(txn: Txn) {
    !txn.phase.Done?
  }

  /** The reset a completion is about, once it has found one. */
  ghost function Subject(txn: Txn): Option<nat> {
    match txn.phase
    case Found(id) => Some(id)
    case RowLocked(id) => Some(id)
    case Checked(id) => Some(id)
    case Claimed(id) => Some(id)
    case Ending(id, _, _) => Some(id)
    case _ => None
  }

  ghost function HeldResets(txn: Txn): set<nat> {
    match txn.phase
    case Done(_) => {}
    case Found(_) => {}
    case RowLocked(id) => {id}
    case Checked(id) => {id}
    case Claimed(id) => {id}
    case Ending(id, _, _) => {id}
    case _ => txn.revoked
  }

  ghost function HeldAccount(db: Tables, txn: Txn): Option<nat> {
    match txn.phase
    case Switched => if txn.call.Deactivate? then Some(txn.call.user) else None
    case Checked(id) => if id in db.resets then Some(db.resets[id].user) else None
    case Claimed(id) => if id in db.resets then Some(db.resets[id].user) else None
    case Ending(id, _, _) => if id in db.resets then Some(db.resets[id].user) else None
    case _ => None
  }

  ghost function HeldSessions(txn: Txn): set<nat> {
    if txn.phase.Ending? then txn.ended else {}
  }

  /** The rows the transaction has changed and not committed; a unique check waits for them. */
  ghost function ChangedResets(txn: Txn): set<nat> {
    match txn.phase
    case Revoking(_) => txn.revoked
    case Inserted => txn.revoked
    case Claimed(id) => {id}
    case Ending(id, _, _) => {id}
    case _ => {}
  }

  ghost predicate ResetFree(s: State, row: nat, t: nat) {
    forall u :: u in s.txns && u != t ==> row !in HeldResets(s.txns[u])
  }

  ghost predicate AccountFree(s: State, user: nat, t: Option<nat>) {
    forall u :: u in s.txns && Some(u) != t ==> HeldAccount(s.db, s.txns[u]) != Some(user)
  }

  /** The account's row as a completion locks it, `for update`; a foreign key's check of that row waits. */
  ghost function HeldForUpdate(db: Tables, txn: Txn): Option<nat> {
    if txn.phase.Switched? then None else HeldAccount(db, txn)
  }

  /** A new row may refer to the account: nobody else holds its row `for update`. */
  ghost predicate KeyFree(s: State, user: nat, t: Option<nat>) {
    forall u :: u in s.txns && Some(u) != t ==> HeldForUpdate(s.db, s.txns[u]) != Some(user)
  }

  /** No reset row referring to the account waits for its commit. */
  ghost predicate Unreferenced(s: State, user: nat) {
    forall u :: u in s.txns && s.txns[u].phase.Inserted? && s.txns[u].call.Issue? ==> s.txns[u].call.user != user
  }

  ghost predicate SessionFree(s: State, id: nat, t: Option<nat>) {
    forall u :: u in s.txns && Some(u) != t ==> id !in HeldSessions(s.txns[u])
  }

  /** Some other transaction has written a row the new one might collide with, and may yet roll back. */
  ghost predicate MustWait(s: State, t: nat, call: Call)
    requires call.Issue?
  {
    exists u :: u in s.txns && u != t &&
      (|| (s.txns[u].phase.Inserted? && s.txns[u].call.Issue?
           && (s.txns[u].call.user == call.user || s.txns[u].call.token == call.token || s.txns[u].call.newId == call.newId))
       || exists id :: id in LiveResets(s.db.resets, call.user) && id in ChangedResets(s.txns[u]))
  }

  /** A committed row is in the way: a unique index refuses the insert. */
  ghost predicate Collides(s: State, t: nat, call: Call)
    requires call.Issue? && t in s.txns
  {
    || (exists id :: id in s.db.resets && s.db.resets[id].token == call.token)
    || call.newId in s.db.resets
    || !(LiveResets(s.db.resets, call.user) <= s.txns[t].revoked)
    || call.user !in s.db.users
  }

  ghost function At(s: State, t: nat, phase: Phase): State
    requires t in s.txns
  {
    s.(txns := s.txns[t := s.txns[t].(phase := phase)])
  }

  ghost function Started(s: State, call: Call): Phase {
    match call
    case Issue(user, _, _, _) => Revoking(LiveResets(s.db.resets, user))
    case Revoke(user) => Revoking(LiveResets(s.db.resets, user))
    case Complete(token, _) =>
      if id :| id in s.db.resets && s.db.resets[id].token == token then Found(id) else Done(Refused)
    case Deactivate(_) => Waiting
  }

  /** The account's live reset revoked and the new one in its place. */
  ghost function Issued(db: Tables, txn: Txn): Tables
    requires txn.call.Issue?
  {
    var call := txn.call;
    db.(resets := Revoked(db.resets, txn.revoked)[call.newId := Reset(call.user, call.token, call.expires, false, false)])
  }

  /** What a commit makes visible. */
  ghost function Committed(s: State, t: nat): Option<State>
    requires t in s.txns
  {
    var txn := s.txns[t];
    var done := s.txns[t := txn.(phase := Done(Applied))];
    match txn.phase
    case Revoking(todo) =>
      if !(txn.call.Revoke? && todo == {}) then None
      else Some(s.(db := s.db.(resets := Revoked(s.db.resets, txn.revoked)), txns := done))
    case Inserted =>
      if !txn.call.Issue? then None
      else
        Some(s.(db := Issued(s.db, txn), txns := done))
    case Ending(id, _, todo) =>
      if !(txn.call.Complete? && todo == {} && id in s.db.resets && s.db.resets[id].user in s.db.users) then None
      else Some(s.(db := Completed(s.db, id, txn.call.password, txn.ended), txns := done, log := s.log + [id]))
    case Switched =>
      if !(txn.call.Deactivate? && txn.call.user in s.db.users) then None
      else
        Some(s.(db := WithActive(s.db, txn.call.user, false), txns := done))
    case _ => None
  }

  ghost function WithActive(db: Tables, user: nat, active: bool): Tables
    requires user in db.users
  {
    db.(users := db.users[user := db.users[user].(active := active)])
  }

  ghost function Reactivated(s: State, user: nat): Option<State> {
    if !(user in s.db.users && !s.db.users[user].active && AccountFree(s, user, None)) then None
    else Some(s.(db := WithActive(s.db, user, true)))
  }

  ghost function WithSession(s: State, id: nat, session: Session): State {
    s.(db := s.db.(sessions := s.db.sessions[id := session]))
  }

  ghost function Step(s: State, a: Action): Option<State> {
    match a
    case Begin(t, call) =>
      if t in s.txns then None
      else Some(s.(txns := s.txns[t := Txn(call, s.now, Started(s, call), {}, {})]))
    case RevokeRow(t, row) =>
      if !(t in s.txns && s.txns[t].phase.Revoking? && row in s.txns[t].phase.todo && ResetFree(s, row, t)) then None
      else
        var txn := s.txns[t];
        // The row is looked at again now that it is locked.
        var revoked := if row in s.db.resets && Live(s.db.resets[row]) then txn.revoked + {row} else txn.revoked;
        Some(s.(txns := s.txns[t := txn.(phase := Revoking(txn.phase.todo - {row}), revoked := revoked)]))
    case Insert(t) =>
      if !(t in s.txns && s.txns[t].phase == Revoking({}) && s.txns[t].call.Issue?) then None
      else if MustWait(s, t, s.txns[t].call) then None
      else if Collides(s, t, s.txns[t].call) then Some(At(s, t, Done(RolledBack)))
      else if !KeyFree(s, s.txns[t].call.user, Some(t)) then None
      else Some(At(s, t, Inserted))
    case LockRow(t) =>
      if !(t in s.txns && s.txns[t].phase.Found? && ResetFree(s, s.txns[t].phase.id, t)) then None
      else Some(At(s, t, RowLocked(s.txns[t].phase.id)))
    case LockAccount(t) =>
      if !(t in s.txns) then None
      else if s.txns[t].phase.Waiting? && s.txns[t].call.Deactivate? then
        var user := s.txns[t].call.user;
        if !(user in s.db.users && s.db.users[user].active) then Some(At(s, t, Done(Refused)))
        else if !AccountFree(s, user, Some(t)) then None
        else Some(At(s, t, Switched))
      else if s.txns[t].phase.RowLocked? then
        var id := s.txns[t].phase.id;
        if !(id in s.db.resets && s.db.resets[id].user in s.db.users) then Some(At(s, t, Done(Refused)))
        else if !(AccountFree(s, s.db.resets[id].user, Some(t)) && Unreferenced(s, s.db.resets[id].user)) then None
        else Some(At(s, t, if s.db.users[s.db.resets[id].user].active then Checked(id) else Done(Refused)))
      else None
    case Claim(t) =>
      if !(t in s.txns && s.txns[t].phase.Checked? && s.txns[t].phase.id in s.db.resets) then None
      else
        var id := s.txns[t].phase.id;
        Some(At(s, t, if Live(s.db.resets[id]) && s.db.resets[id].expires > s.txns[t].started then Claimed(id)
                      else Done(Refused)))
    case SetPassword(t) =>
      if !(t in s.txns && s.txns[t].phase.Claimed? && s.txns[t].phase.id in s.db.resets) then None
      else
        var id := s.txns[t].phase.id;
        // The statement that ends the sessions takes its snapshot here.
        var open := OpenSessions(s.db.sessions, s.db.resets[id].user);
        Some(At(s, t, Ending(id, open, open)))
    case EndSession(t, session) =>
      if !(t in s.txns && s.txns[t].phase.Ending? && session in s.txns[t].phase.todo && SessionFree(s, session, Some(t)))
      then None
      else
        var txn := s.txns[t];
        var ended := if session in s.db.sessions && !s.db.sessions[session].revoked then txn.ended + {session} else txn.ended;
        Some(s.(txns := s.txns[t := txn.(
          phase := Ending(txn.phase.id, txn.phase.seen, txn.phase.todo - {session}), ended := ended)]))
    case Commit(t) => if t in s.txns then Committed(s, t) else None
    case Abort(t) =>
      if !(t in s.txns && Running(s.txns[t])) then None else Some(At(s, t, Done(RolledBack)))
    case Reactivate(user) => Reactivated(s, user)
    case OpenSession(id, user) =>
      // The foreign key's check waits for a completion that holds the account's row.
      if id in s.db.sessions || user !in s.db.users || !KeyFree(s, user, None) then None
      else Some(WithSession(s, id, Session(user, false)))
    case CloseSession(id) =>
      if !(id in s.db.sessions && SessionFree(s, id, None)) then None
      else Some(WithSession(s, id, s.db.sessions[id].(revoked := true)))
    case Tick(now) => if now < s.now then None else Some(s.(now := now))
  }

  // -------------------------------------------------------------------------------------------
  // The invariant
  // -------------------------------------------------------------------------------------------

  /** What a transaction knows about the rows it has locked. */
  ghost predicate Sound(db: Tables, txn: Txn) {
    && (forall id :: id in txn.revoked && Running(txn) ==> id in db.resets && Live(db.resets[id]))
    && (txn.phase.Inserted? ==>
          && txn.call.Issue? && txn.call.user in db.users && txn.call.newId !in db.resets
          && LiveResets(db.resets, txn.call.user) <= txn.revoked
          && forall id :: id in db.resets ==> db.resets[id].token != txn.call.token)
    && (txn.phase.Revoking? || txn.phase.Inserted? ==> txn.call.Issue? || txn.call.Revoke?)
    && (txn.phase.Revoking? ==>
          forall id :: id in txn.phase.todo + txn.revoked ==> id in db.resets && db.resets[id].user == txn.call.user)
    && (txn.phase.Inserted? ==> forall id :: id in txn.revoked ==> id in db.resets && db.resets[id].user == txn.call.user)
    && (Subject(txn).Some? ==> txn.call.Complete? && Subject(txn).value in db.resets && txn.revoked == {}
                               && db.resets[Subject(txn).value].token == txn.call.token)
    && (txn.phase.Switched? ==> txn.call.Deactivate? && txn.call.user in db.users && db.users[txn.call.user].active)
    && (txn.phase.Checked? || txn.phase.Claimed? || txn.phase.Ending? ==>
          var user := db.resets[txn.phase.id].user;
          user in db.users && db.users[user].active)
    && (txn.phase.Claimed? || txn.phase.Ending? ==>
          Live(db.resets[txn.phase.id]) && db.resets[txn.phase.id].expires > txn.started)
    && (!txn.phase.Ending? && Running(txn) ==> txn.ended == {})
    && (txn.phase.Ending? ==>
          txn.phase.seen <= db.sessions.Keys && txn.phase.todo <= txn.phase.seen && txn.ended <= txn.phase.seen)
    && (txn.phase.Ending? ==>
          forall id :: id in txn.phase.seen - txn.phase.todo ==>
            id in txn.ended || (id in db.sessions && db.sessions[id].revoked))
    && (txn.phase.Ending? ==> OpenSessions(db.sessions, db.resets[txn.phase.id].user) <= txn.phase.seen)
    && (txn.phase.Ending? ==>
          forall id :: id in txn.phase.seen ==> db.sessions[id].user == db.resets[txn.phase.id].user)
  }

  /** Row locks are exclusive, and no two pending rows collide. */
  ghost predicate Apart(db: Tables, a: Txn, b: Txn) {
    && HeldResets(a) !! HeldResets(b)
    && (HeldAccount(db, a).Some? ==> HeldAccount(db, a) != HeldAccount(db, b))
    && HeldSessions(a) !! HeldSessions(b)
    && (a.phase.Inserted? && b.phase.Inserted? && a.call.Issue? && b.call.Issue? ==>
          a.call.user != b.call.user && a.call.token != b.call.token && a.call.newId != b.call.newId)
  }

  ghost predicate Logged(s: State) {
    && (forall i, j :: 0 <= i < j < |s.log| ==> s.log[i] != s.log[j])
    && (forall id :: id in s.log <==> id in s.db.resets && s.db.resets[id].used)
  }

  ghost predicate Inv(s: State) {
    && Valid(s.db)
    && Logged(s)
    && (forall t :: t in s.txns ==> Sound(s.db, s.txns[t]))
    && (forall t, u :: t in s.txns && u in s.txns && t != u ==> Apart(s.db, s.txns[t], s.txns[u]))
  }

  // -------------------------------------------------------------------------------------------
  // Every step keeps it
  // -------------------------------------------------------------------------------------------

  /** One transaction moves on, and nothing is committed. */
  lemma OneMoves(s: State, t: nat, txn: Txn)
    requires Inv(s)
    requires Sound(s.db, txn)
    requires forall u :: u in s.txns && u != t ==> Apart(s.db, txn, s.txns[u]) && Apart(s.db, s.txns[u], txn)
    ensures Inv(s.(txns := s.txns[t := txn]))
  {
    hide Sound, Apart, Valid, Logged;
    var s' := s.(txns := s.txns[t := txn]);
    assert Logged(s') by { LoggedAlone(s, s'); }
  }

  lemma LoggedAlone(s: State, s': State)
    requires Logged(s) && s'.log == s.log && s'.db == s.db
    ensures Logged(s')
  {
  }

  ghost predicate MovesOne(a: Action) {
    a.Begin? || a.RevokeRow? || a.Insert? || a.LockRow? || a.LockAccount? || a.Claim? || a.SetPassword?
    || a.EndSession? || a.Abort?
  }

  /** The steps before the commit. */
  lemma MoveKeepsInv(s: State, a: Action)
    requires Inv(s) && MovesOne(a) && Step(s, a).Some?
    ensures Inv(Step(s, a).value)
    ensures Step(s, a).value.db == s.db && Step(s, a).value.log == s.log
  {
    var s' := Step(s, a).value;
    var t := a.t;
    var txn := s'.txns[t];
    assert s' == s.(txns := s.txns[t := txn]);
    MoveIsSound(s, a);
    forall u | u in s.txns && u != t
      ensures Apart(s.db, txn, s.txns[u]) && Apart(s.db, s.txns[u], txn)
    {
      MoveStaysApart(s, a, u);
    }
    hide Step, Inv, Sound, Apart;
    OneMoves(s, t, txn);
  }

  ghost predicate OfAnUpdate(a: Action) {
    a.Begin? || a.RevokeRow? || a.Insert? || a.Abort?
  }

  lemma MoveIsSound(s: State, a: Action)
    requires Inv(s) && MovesOne(a) && Step(s, a).Some?
    ensures a.t in Step(s, a).value.txns && Sound(s.db, Step(s, a).value.txns[a.t])
  {
    hide Apart, Logged, MustWait, ResetFree, AccountFree, SessionFree;
    assert a.t in s.txns ==> Sound(s.db, s.txns[a.t]);
    if OfAnUpdate(a) {
      UpdateIsSound(s, a);
    } else {
      CompletionIsSound(s, a);
    }
  }

  lemma UpdateIsSound(s: State, a: Action)
    requires Valid(s.db) && OfAnUpdate(a) && Step(s, a).Some?
    requires a.t in s.txns ==> Sound(s.db, s.txns[a.t])
    ensures a.t in Step(s, a).value.txns && Sound(s.db, Step(s, a).value.txns[a.t])
  {
    hide MustWait, ResetFree, AccountFree, SessionFree, Valid;
  }

  lemma CompletionIsSound(s: State, a: Action)
    requires Valid(s.db) && MovesOne(a) && !OfAnUpdate(a) && Step(s, a).Some?
    requires a.t in s.txns ==> Sound(s.db, s.txns[a.t])
    ensures a.t in Step(s, a).value.txns && Sound(s.db, Step(s, a).value.txns[a.t])
  {
    hide MustWait, ResetFree, AccountFree, SessionFree, Collides;
  }

  lemma MoveStaysApart(s: State, a: Action, u: nat)
    requires Inv(s) && MovesOne(a) && Step(s, a).Some? && u in s.txns && u != a.t
    requires a.t in Step(s, a).value.txns
    ensures Apart(s.db, Step(s, a).value.txns[a.t], s.txns[u]) && Apart(s.db, s.txns[u], Step(s, a).value.txns[a.t])
  {
    assert a.t in s.txns ==> Sound(s.db, s.txns[a.t]);
    assert a.t in s.txns ==> Apart(s.db, s.txns[a.t], s.txns[u]) && Apart(s.db, s.txns[u], s.txns[a.t]);
    hide Apart, Sound, Step, Inv;
    if OfAnUpdate(a) {
      UpdateStaysApart(s, a, u);
    } else {
      CompletionStaysApart(s, a, u);
    }
  }

  lemma UpdateStaysApart(s: State, a: Action, u: nat)
    requires OfAnUpdate(a) && Step(s, a).Some? && u in s.txns && u != a.t
    requires a.t in Step(s, a).value.txns
    requires a.t in s.txns ==>
               Apart(s.db, s.txns[a.t], s.txns[u]) && Apart(s.db, s.txns[u], s.txns[a.t])
    ensures Apart(s.db, Step(s, a).value.txns[a.t], s.txns[u]) && Apart(s.db, s.txns[u], Step(s, a).value.txns[a.t])
  {
    hide Collides, AccountFree, SessionFree, LiveResets;
  }

  lemma CompletionStaysApart(s: State, a: Action, u: nat)
    requires MovesOne(a) && !OfAnUpdate(a) && Step(s, a).Some? && u in s.txns && u != a.t
    requires a.t in Step(s, a).value.txns && a.t in s.txns
    requires Sound(s.db, s.txns[a.t])
    requires Apart(s.db, s.txns[a.t], s.txns[u]) && Apart(s.db, s.txns[u], s.txns[a.t])
    ensures Apart(s.db, Step(s, a).value.txns[a.t], s.txns[u]) && Apart(s.db, s.txns[u], Step(s, a).value.txns[a.t])
  {
    hide Collides, MustWait, LiveResets, OpenSessions;
  }

  /** The reset rows keep their accounts, so nobody's locks move when the tables change. */
  lemma ApartAfter(db: Tables, after: Tables, a: Txn, b: Txn)
    requires Apart(db, a, b) && Sound(db, a) && Sound(db, b)
    requires forall id :: id in db.resets ==> id in after.resets && after.resets[id].user == db.resets[id].user
    ensures Apart(after, a, b)
  {
  }

  lemma DoneIsSettled(db: Tables, txn: Txn, other: Txn)
    requires txn.phase.Done?
    ensures Sound(db, txn) && Apart(db, txn, other) && Apart(db, other, txn)
  {
  }

  /** The commit of one transaction, given that everybody else's locks still mean what they did. */
  lemma OneCommits(s: State, t: nat, s': State)
    requires Inv(s) && t in s.txns
    requires s'.txns == s.txns[t := s.txns[t].(phase := Done(Applied))]
    requires Valid(s'.db) && Logged(s')
    requires forall id :: id in s.db.resets ==> id in s'.db.resets && s'.db.resets[id].user == s.db.resets[id].user
    requires forall u :: u in s.txns && u != t ==> Sound(s'.db, s.txns[u])
    ensures Inv(s')
  {
    hide Sound, Apart, Valid, Logged;
    forall u, w | u in s'.txns && w in s'.txns && u != w
      ensures Apart(s'.db, s'.txns[u], s'.txns[w])
    {
      if u == t || w == t {
        DoneIsSettled(s'.db, s'.txns[t], if u == t then s'.txns[w] else s'.txns[u]);
      } else {
        assert Apart(s.db, s.txns[u], s.txns[w]) && Sound(s.db, s.txns[u]) && Sound(s.db, s.txns[w]);
        ApartAfter(s.db, s'.db, s.txns[u], s.txns[w]);
      }
    }
    DoneIsSettled(s'.db, s'.txns[t], s'.txns[t]);
  }

  lemma RevokedKeeps(db: Tables, ids: set<nat>)
    requires Valid(db) && forall id :: id in ids && id in db.resets ==> Live(db.resets[id])
    ensures Valid(db.(resets := Revoked(db.resets, ids)))
    ensures forall id :: id in db.resets ==>
              Revoked(db.resets, ids)[id].used == db.resets[id].used && Revoked(db.resets, ids)[id].user == db.resets[id].user
  {
  }

  lemma RevokedLeavesOthers(db: Tables, ids: set<nat>, other: Txn)
    requires Sound(db, other) && ids !! HeldResets(other)
    ensures Sound(db.(resets := Revoked(db.resets, ids)), other)
  {
    hide Valid;
  }

  lemma RevokeCommits(s: State, t: nat)
    requires Inv(s) && t in s.txns && s.txns[t].phase.Revoking? && Committed(s, t).Some?
    ensures Inv(Committed(s, t).value)
  {
    var s' := Committed(s, t).value;
    var txn := s.txns[t];
    assert s' == s.(db := s.db.(resets := Revoked(s.db.resets, txn.revoked)),
                    txns := s.txns[t := txn.(phase := Done(Applied))]);
    assert Sound(s.db, txn) && HeldResets(txn) == txn.revoked;
    hide Committed, Sound, Valid, LiveResets;
    RevokedKeeps(s.db, txn.revoked);
    forall u | u in s.txns && u != t
      ensures Sound(s'.db, s.txns[u])
    {
      assert Apart(s.db, txn, s.txns[u]) && Sound(s.db, s.txns[u]);
      RevokedLeavesOthers(s.db, txn.revoked, s.txns[u]);
    }
    hide Sound, Apart, Valid, Revoked;
    OneCommits(s, t, s');
  }

  lemma InsertedLeavesOthers(db: Tables, id: nat, row: Reset, other: Txn)
    requires Sound(db, other) && id !in db.resets && Live(row)
    requires other.phase.Inserted? && other.call.Issue? ==>
               other.call.user != row.user && other.call.token != row.token && other.call.newId != id
    ensures Sound(db.(resets := db.resets[id := row]), other)
  {
    hide Valid;
  }

  /** The new row is the account's only live one. */
  lemma IssuedIsValid(db: Tables, txn: Txn)
    requires Valid(db) && Sound(db, txn) && txn.phase.Inserted?
    ensures Valid(db.(resets := Revoked(db.resets, txn.revoked)))
    ensures txn.call.Issue? && Valid(Issued(db, txn))
  {
    var call := txn.call;
    RevokedKeeps(db, txn.revoked);
    var mid := db.(resets := Revoked(db.resets, txn.revoked));
    hide Valid;
    forall i | i in mid.resets && Live(mid.resets[i])
      ensures mid.resets[i].user != call.user
    {
      assert db.resets[i].user == call.user ==> i in LiveResets(db.resets, call.user);
    }
    InsertKeepsValid(mid, call.newId, Reset(call.user, call.token, call.expires, false, false));
  }

  lemma IssuedLeavesOthers(db: Tables, txn: Txn, other: Txn)
    requires Sound(db, txn) && txn.phase.Inserted? && Sound(db, other) && Apart(db, txn, other)
    ensures txn.call.Issue? && Sound(Issued(db, txn), other)
  {
    var call := txn.call;
    var mid := db.(resets := Revoked(db.resets, txn.revoked));
    assert call.newId !in mid.resets;
    assert HeldResets(txn) == txn.revoked && txn.revoked !! HeldResets(other);
    assert other.phase.Inserted? && other.call.Issue? ==>
      other.call.user != call.user && other.call.token != call.token && other.call.newId != call.newId;
    hide Sound, Apart, Valid, Revoked, HeldResets;
    RevokedLeavesOthers(db, txn.revoked, other);
    InsertedLeavesOthers(mid, call.newId, Reset(call.user, call.token, call.expires, false, false), other);
  }

  lemma IssuedRows(db: Tables, txn: Txn)
    requires Sound(db, txn) && txn.phase.Inserted?
    ensures txn.call.Issue?
    ensures var after := Issued(db, txn).resets;
            && (forall id :: id in db.resets ==>
                  id in after && after[id].user == db.resets[id].user && after[id].used == db.resets[id].used)
            && (forall id :: id in after && id !in db.resets ==> !after[id].used)
  {
  }

  lemma StillLogged(s: State, s': State)
    requires Logged(s) && s'.log == s.log
    requires forall id :: id in s.db.resets ==> id in s'.db.resets && s'.db.resets[id].used == s.db.resets[id].used
    requires forall id :: id in s'.db.resets && id !in s.db.resets ==> !s'.db.resets[id].used
    ensures Logged(s')
  {
  }

  lemma IssueCommits(s: State, t: nat)
    requires Inv(s) && t in s.txns && s.txns[t].phase.Inserted? && Committed(s, t).Some?
    ensures Inv(Committed(s, t).value)
  {
    var s' := Committed(s, t).value;
    var txn := s.txns[t];
    assert s' == s.(db := Issued(s.db, txn), txns := s.txns[t := txn.(phase := Done(Applied))]);
    hide Committed, Sound, Apart, Valid, Logged, Issued;
    IssuedIsValid(s.db, txn);
    IssuedRows(s.db, txn);
    StillLogged(s, s');
    forall u | u in s.txns && u != t
      ensures Sound(s'.db, s.txns[u])
    {
      assert Apart(s.db, txn, s.txns[u]) && Sound(s.db, s.txns[u]);
      IssuedLeavesOthers(s.db, txn, s.txns[u]);
    }
    OneCommits(s, t, s');
  }

  lemma InsertKeepsValid(db: Tables, id: nat, row: Reset)
    requires Valid(db) && id !in db.resets && row.user in db.users && Live(row)
    requires forall i :: i in db.resets ==> db.resets[i].token != row.token
    requires forall i :: i in db.resets && Live(db.resets[i]) ==> db.resets[i].user != row.user
    ensures Valid(db.(resets := db.resets[id := row]))
  {
  }

  lemma CompletedLeavesOthers(db: Tables, id: nat, password: nat, ended: set<nat>, other: Txn)
    requires id in db.resets && db.resets[id].user in db.users
    requires Sound(db, other) && id !in HeldResets(other)
    ensures Sound(Completed(db, id, password, ended), other)
  {
    hide Valid;
  }

  lemma CompleteCommits(s: State, t: nat)
    requires Inv(s) && t in s.txns && s.txns[t].phase.Ending? && Committed(s, t).Some?
    ensures Inv(Committed(s, t).value)
  {
    var s' := Committed(s, t).value;
    var txn := s.txns[t];
    var id := txn.phase.id;
    assert Sound(s.db, txn) && HeldResets(txn) == {id};
    CompletedKeepsValid(s.db, id, txn.call.password, txn.ended);
    CompletedIsLogged(s, s', id);
    forall u | u in s.txns && u != t
      ensures Sound(s'.db, s.txns[u])
    {
      assert Apart(s.db, txn, s.txns[u]) && Sound(s.db, s.txns[u]);
      CompletedLeavesOthers(s.db, id, txn.call.password, txn.ended, s.txns[u]);
    }
    hide Sound, Apart, Valid, SessionsRevoked, Logged;
    OneCommits(s, t, s');
  }

  lemma CompletedKeepsValid(db: Tables, id: nat, password: nat, ended: set<nat>)
    requires Valid(db) && id in db.resets && Live(db.resets[id])
    ensures Valid(Completed(db, id, password, ended))
  {
  }

  lemma CompletedIsLogged(s: State, s': State, id: nat)
    requires Logged(s) && id in s.db.resets && Live(s.db.resets[id])
    requires s'.log == s.log + [id] && s'.db.resets == s.db.resets[id := s.db.resets[id].(used := true)]
    ensures Logged(s')
  {
    assert id !in s.log;
    forall other
      ensures other in s'.log <==> other in s'.db.resets && s'.db.resets[other].used
    {
      assert other in s'.log <==> other in s.log || other == id;
    }
  }

  lemma ActiveLeavesOthers(db: Tables, user: nat, active: bool, other: Txn)
    requires user in db.users && Sound(db, other) && HeldAccount(db, other) != Some(user)
    ensures Sound(WithActive(db, user, active), other)
  {
    hide Valid;
  }

  lemma DeactivateCommits(s: State, t: nat)
    requires Inv(s) && t in s.txns && s.txns[t].phase.Switched? && Committed(s, t).Some?
    ensures Inv(Committed(s, t).value)
  {
    var s' := Committed(s, t).value;
    var txn := s.txns[t];
    assert Sound(s.db, txn) && HeldAccount(s.db, txn) == Some(txn.call.user);
    forall u | u in s.txns && u != t
      ensures Sound(s'.db, s.txns[u])
    {
      assert Apart(s.db, txn, s.txns[u]) && Sound(s.db, s.txns[u]);
      ActiveLeavesOthers(s.db, txn.call.user, false, s.txns[u]);
    }
    hide Sound, Apart;
    OneCommits(s, t, s');
  }

  lemma SessionsLeaveOthers(db: Tables, sessions: map<nat, Session>, other: Txn)
    requires Sound(db, other) && forall id :: id in db.sessions ==>
               id in sessions && sessions[id].user == db.sessions[id].user && (db.sessions[id].revoked ==> sessions[id].revoked)
    requires HeldForUpdate(db, other).Some? ==>
               OpenSessions(sessions, HeldForUpdate(db, other).value) <= OpenSessions(db.sessions, HeldForUpdate(db, other).value)
    ensures Sound(db.(sessions := sessions), other)
  {
    hide Valid;
  }

  /** A statement that runs and commits on its own, given that everybody's locks still mean what they did. */
  lemma NobodyMoves(s: State, s': State)
    requires Inv(s) && s'.txns == s.txns && s'.log == s.log && s'.db.resets == s.db.resets
    requires s.db.users.Keys <= s'.db.users.Keys
    requires forall u :: u in s.txns ==> Sound(s'.db, s.txns[u])
    ensures Inv(s')
  {
    assert Valid(s'.db) && Logged(s');
    hide Sound, Apart, Valid, Logged;
    forall t, u | t in s'.txns && u in s'.txns && t != u
      ensures Apart(s'.db, s'.txns[t], s'.txns[u])
    {
      assert Apart(s.db, s.txns[t], s.txns[u]) && Sound(s.db, s.txns[t]) && Sound(s.db, s.txns[u]);
      ApartAfter(s.db, s'.db, s.txns[t], s.txns[u]);
    }
  }

  lemma ReactivateKeepsInv(s: State, user: nat)
    requires Inv(s) && Reactivated(s, user).Some?
    ensures Inv(Reactivated(s, user).value)
  {
    var s' := Reactivated(s, user).value;
    hide Sound;
    forall t | t in s.txns
      ensures Sound(s'.db, s.txns[t])
    {
      assert Sound(s.db, s.txns[t]);
      ActiveLeavesOthers(s.db, user, true, s.txns[t]);
    }
    hide Inv;
    NobodyMoves(s, s');
  }

  lemma SessionKeepsInv(s: State, id: nat, session: Session)
    requires Inv(s) && (id in s.db.sessions && s.db.sessions[id].revoked ==> session.revoked)
    requires id in s.db.sessions ==> session.user == s.db.sessions[id].user
    requires session.revoked || KeyFree(s, session.user, None)
    ensures Inv(WithSession(s, id, session))
  {
    var s' := WithSession(s, id, session);
    hide Sound;
    forall t | t in s.txns
      ensures Sound(s'.db, s.txns[t])
    {
      assert Sound(s.db, s.txns[t]);
      SessionsLeaveOthers(s.db, s'.db.sessions, s.txns[t]);
    }
    hide Inv;
    NobodyMoves(s, s');
  }

  lemma TickKeepsInv(s: State, now: int)
    requires Inv(s)
    ensures Inv(s.(now := now))
  {
  }

  lemma CommitKeepsInv(s: State, t: nat)
    requires Inv(s) && t in s.txns && Committed(s, t).Some?
    ensures Inv(Committed(s, t).value)
  {
    hide Inv;
    match s.txns[t].phase
    case Revoking(_) => RevokeCommits(s, t);
    case Inserted => IssueCommits(s, t);
    case Ending(_, _, _) => CompleteCommits(s, t);
    case Switched => DeactivateCommits(s, t);
  }

  lemma StepKeepsInv(s: State, a: Action)
    requires Inv(s) && Step(s, a).Some?
    ensures Inv(Step(s, a).value)
  {
    hide Inv, Committed, Reactivated, WithSession;
    if MovesOne(a) {
      MoveKeepsInv(s, a);
    } else {
      match a
      case Commit(t) => CommitKeepsInv(s, t);
      case Reactivate(user) => ReactivateKeepsInv(s, user);
      case OpenSession(id, user) => SessionKeepsInv(s, id, Session(user, false));
      case CloseSession(id) => SessionKeepsInv(s, id, s.db.sessions[id].(revoked := true));
      case Tick(now) => TickKeepsInv(s, now);
    }
  }
}
