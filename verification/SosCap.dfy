/**
 * The cap on open prayer requests (packages/db/src/sos.ts:198-223, 327-387) under Read Committed:
 * a raise counts and inserts under an advisory lock of its author, while signals are closed,
 * removed, and handed to a placeholder when an account is erased.
 */
module SosCap {
  import opened Runs
  import Ordering

  datatype Signal = Signal(author: nat, closed: bool, removed: bool)

  /** A signal that is open and standing: what the cap counts. */
  predicate Counts(signal: Signal) {
    !signal.closed && !signal.removed
  }

  function OpenBy(signals: map<nat, Signal>, author: nat): set<nat> {
    set id | id in signals && signals[id].author == author && Counts(signals[id])
  }

  function SignalsBy(signals: map<nat, Signal>, author: nat): set<nat> {
    set id | id in signals && signals[id].author == author
  }

  datatype Call =
    | Raise(author: nat, newId: nat)
    | Erase(leaver: nat, placeholder: nat)

  datatype Phase =
    | Waiting                  // a raise before it has the advisory lock
    | Locked                   // it has the lock, and has not counted
    | Counted                  // it counted fewer than the cap
    | Inserted                 // its row is written, not committed
    | Moving(todo: set<nat>)   // an erasure re-pointing the signals of its snapshot
    | Gone                     // it has deleted the account's row, not committed
    | Done(applied: bool)

  /** `moved` are the rows an erasure has re-pointed, `dropped` those the cascade took. */
  datatype Txn = Txn(call: Call, phase: Phase, moved: set<nat>, dropped: set<nat>)

  /**
   * `keyOf` is the hash the advisory lock is taken on, which two authors may share; `issued` are the
   * account ids ever given out.
   */
  datatype State = State(
    cap: nat, keyOf: nat -> nat, users: set<nat>, issued: set<nat>, signals: map<nat, Signal>, txns: map<nat, Txn>)

  datatype Action =
    | Begin(t: nat, call: Call)
    | TakeLock(t: nat)
    | Count(t: nat)
    | Insert(t: nat)
    | Move(t: nat, id: nat)
    | DeleteAccount(t: nat)
    | Commit(t: nat)
    | Abort(t: nat)
    | Close(id: nat)
    | Remove(id: nat)
    | Join(user: nat)

  ghost predicate HoldsLock(s: State, t: nat, key: nat) {
    && t in s.txns && s.txns[t].call.Raise? && s.keyOf(s.txns[t].call.author) == key
    && (s.txns[t].phase.Locked? || s.txns[t].phase.Counted? || s.txns[t].phase.Inserted?)
  }

  /** The signal rows an erasure has changed and not committed. */
  ghost function HeldRows(txn: Txn): set<nat> {
    if txn.phase.Moving? then txn.moved else if txn.phase.Gone? then txn.moved + txn.dropped else {}
  }

  ghost predicate RowFree(s: State, id: nat, t: Option<nat>) {
    forall u :: u in s.txns && Some(u) != t ==> id !in HeldRows(s.txns[u])
  }

  /** Another transaction has deleted the account and may yet roll back: the foreign key waits. */
  ghost predicate BeingDeleted(s: State, user: nat, t: nat) {
    exists u :: u in s.txns && u != t && s.txns[u].phase.Gone? && s.txns[u].call.Erase? && s.txns[u].call.leaver == user
  }

  /** Another transaction has inserted a row that names the account: the delete waits. */
  ghost predicate BeingNamed(s: State, user: nat, t: nat) {
    exists u :: u in s.txns && u != t && s.txns[u].phase.Inserted? && s.txns[u].call.Raise? && s.txns[u].call.author == user
  }

  ghost function At(s: State, t: nat, phase: Phase): State
    requires t in s.txns
  {
    s.(txns := s.txns[t := s.txns[t].(phase := phase)])
  }

  /** The signals once an erasure commits. */
  function Erased(signals: map<nat, Signal>, moved: set<nat>, dropped: set<nat>, placeholder: nat): map<nat, Signal> {
    map id | id in signals && id !in dropped ::
      if id in moved then signals[id].(author := placeholder) else signals[id]
  }

  ghost function Committed(s: State, t: nat): Option<State>
    requires t in s.txns
  {
    var txn := s.txns[t];
    var done := s.txns[t := txn.(phase := Done(true))];
    if txn.phase.Inserted? && txn.call.Raise? then
      Some(s.(signals := s.signals[txn.call.newId := Signal(txn.call.author, false, false)], txns := done))
    else if txn.phase.Gone? && txn.call.Erase? then
      Some(s.(users := s.users - {txn.call.leaver} + {txn.call.placeholder},
              signals := Erased(s.signals, txn.moved, txn.dropped, txn.call.placeholder), txns := done))
    else None
  }

  ghost function Begun(s: State, t: nat, call: Call): Option<State> {
    if t in s.txns then None
    else
      match call
      case Raise(author, newId) =>
        // Only a member raises; the row's id is nobody else's.
        if author !in s.users || newId in s.signals || (exists u :: u in s.txns && s.txns[u].call.Raise? && s.txns[u].call.newId == newId)
        then None
        else Some(s.(txns := s.txns[t := Txn(call, Waiting, {}, {})]))
      case Erase(leaver, placeholder) =>
        // The placeholder is a fresh row.
        if leaver !in s.users || placeholder in s.issued then None
        else
          Some(s.(issued := s.issued + {placeholder}, txns := s.txns[t := Txn(call, Moving(SignalsBy(s.signals, leaver)), {}, {})]))
  }

  ghost function Step(s: State, a: Action): Option<State> {
    match a
    case Begin(t, call) => Begun(s, t, call)
    case TakeLock(t) =>
      if !(t in s.txns && s.txns[t].phase.Waiting? && s.txns[t].call.Raise?) then None
      else if exists u :: u != t && HoldsLock(s, u, s.keyOf(s.txns[t].call.author)) then None
      else Some(At(s, t, Locked))
    case Count(t) =>
      if !(t in s.txns && s.txns[t].phase.Locked? && s.txns[t].call.Raise?) then None
      else Some(At(s, t, if |OpenBy(s.signals, s.txns[t].call.author)| >= s.cap then Done(false) else Counted))
    case Insert(t) =>
      if !(t in s.txns && s.txns[t].phase.Counted? && s.txns[t].call.Raise?) then None
      else if BeingDeleted(s, s.txns[t].call.author, t) then None
      else Some(At(s, t, if s.txns[t].call.author in s.users then Inserted else Done(false)))
    case Move(t, id) =>
      if !(t in s.txns && s.txns[t].phase.Moving? && s.txns[t].call.Erase? && id in s.txns[t].phase.todo
           && RowFree(s, id, Some(t))) then None
      else
        var txn := s.txns[t];
        // Looked at again now that it is locked.
        var moved := if id in s.signals && s.signals[id].author == txn.call.leaver then txn.moved + {id} else txn.moved;
        Some(s.(txns := s.txns[t := txn.(phase := Moving(txn.phase.todo - {id}), moved := moved)]))
    case DeleteAccount(t) =>
      if !(t in s.txns && s.txns[t].phase == Moving({}) && s.txns[t].call.Erase?) then None
      else if BeingNamed(s, s.txns[t].call.leaver, t) || BeingDeleted(s, s.txns[t].call.leaver, t) then None
      else if s.txns[t].call.leaver !in s.users then Some(At(s, t, Done(false)))
      else
        // The cascade takes the account's other signals, and waits for any of them that is held.
        var txn := s.txns[t];
        var rest := SignalsBy(s.signals, txn.call.leaver) - txn.moved;
        if exists id :: id in rest && !RowFree(s, id, Some(t)) then None
        else Some(s.(txns := s.txns[t := txn.(phase := Gone, dropped := rest)]))
    case Commit(t) => if t in s.txns then Committed(s, t) else None
    case Abort(t) => if t in s.txns && !s.txns[t].phase.Done? then Some(At(s, t, Done(false))) else None
    case Close(id) =>
      if !(id in s.signals && Counts(s.signals[id]) && RowFree(s, id, None)) then None
      else Some(s.(signals := s.signals[id := s.signals[id].(closed := true)]))
    case Remove(id) =>
      if !(id in s.signals && !s.signals[id].removed && RowFree(s, id, None)) then None
      else Some(s.(signals := s.signals[id := s.signals[id].(removed := true)]))
    case Join(user) =>
      if user in s.issued then None
      else Some(s.(users := s.users + {user}, issued := s.issued + {user}))
  }

  // -------------------------------------------------------------------------------------------
  // The invariant
  // -------------------------------------------------------------------------------------------

  ghost predicate Sound(s: State, txn: Txn) {
    && (txn.phase.Waiting? || txn.phase.Locked? || txn.phase.Counted? || txn.phase.Inserted? ==>
          txn.call.Raise? && txn.call.newId !in s.signals)
    && (txn.phase.Moving? || txn.phase.Gone? ==>
          && txn.call.Erase? && txn.call.placeholder in s.issued && txn.call.placeholder !in s.users
          && txn.call.placeholder != txn.call.leaver
          && forall id :: id in txn.moved ==> id in s.signals && s.signals[id].author == txn.call.leaver)
    && (txn.phase.Gone? ==> txn.call.leaver in s.users && SignalsBy(s.signals, txn.call.leaver) == txn.moved + txn.dropped
                            && txn.moved !! txn.dropped)
    && (if txn.call.Raise? then txn.call.author in s.issued else txn.call.leaver in s.issued)
    && (txn.phase.Counted? || txn.phase.Inserted? ==> |OpenBy(s.signals, txn.call.author)| < s.cap)
    && (txn.phase.Inserted? ==> txn.call.author in s.users)
  }

  ghost predicate Placing(txn: Txn) {
    txn.call.Erase? && (txn.phase.Moving? || txn.phase.Gone?)
  }

  ghost predicate Lockholder(txn: Txn) {
    txn.call.Raise? && (txn.phase.Locked? || txn.phase.Counted? || txn.phase.Inserted?)
  }

  ghost predicate Apart(s: State, a: Txn, b: Txn) {
    && (Lockholder(a) && Lockholder(b) ==> s.keyOf(a.call.author) != s.keyOf(b.call.author))
    && (a.call.Raise? && b.call.Raise? ==> a.call.newId != b.call.newId)
    && (Placing(a) && Placing(b) ==> a.call.placeholder != b.call.placeholder)
    && (Placing(a) && b.call.Raise? ==> a.call.placeholder != b.call.author)
    && (Placing(a) && Placing(b) ==> a.call.placeholder != b.call.leaver)
    && (a.phase.Gone? && a.call.Erase? && b.phase.Inserted? && b.call.Raise? ==> a.call.leaver != b.call.author)
    && (a.phase.Gone? && a.call.Erase? && b.phase.Gone? && b.call.Erase? ==> a.call.leaver != b.call.leaver)
    && HeldRows(a) !! HeldRows(b)
  }

  ghost predicate Bounded(s: State) {
    && (forall author :: |OpenBy(s.signals, author)| <= s.cap)
    && (forall id :: id in s.signals ==> s.signals[id].author in s.users)
    && s.users <= s.issued
  }

  ghost predicate Inv(s: State) {
    && Bounded(s)
    && (forall t :: t in s.txns ==> Sound(s, s.txns[t]))
    && (forall t, u :: t in s.txns && u in s.txns && t != u ==> Apart(s, s.txns[t], s.txns[u]))
  }

  // -------------------------------------------------------------------------------------------
  // Every step keeps it
  // -------------------------------------------------------------------------------------------

  ghost predicate MovesOne(a: Action) {
    a.Begin? || a.TakeLock? || a.Count? || a.Insert? || a.Move? || a.DeleteAccount? || a.Abort?
  }

  /** The tables a move leaves alone; a begun erasure has been given its placeholder's id. */
  ghost predicate SameTables(s: State, s': State) {
    s'.cap == s.cap && s'.keyOf == s.keyOf && s'.users == s.users && s'.signals == s.signals && s.issued <= s'.issued
  }

  lemma MoveIsSound(s: State, a: Action)
    requires Bounded(s) && MovesOne(a) && Step(s, a).Some?
    requires a.t in s.txns ==> Sound(s, s.txns[a.t])
    ensures var s' := Step(s, a).value;
            && SameTables(s, s') && s'.issued <= s.issued + (if a.Begin? && a.call.Erase? then {a.call.placeholder} else {})
            && a.t in s'.txns && s'.txns == s.txns[a.t := s'.txns[a.t]]
            && Sound(s', s'.txns[a.t])
  {
    hide HoldsLock, RowFree, BeingDeleted, BeingNamed, OpenBy;
    if a.DeleteAccount? && Step(s, a).value.txns[a.t].phase.Gone? {
      var txn := s.txns[a.t];
      assert txn.moved + (SignalsBy(s.signals, txn.call.leaver) - txn.moved) == SignalsBy(s.signals, txn.call.leaver);
    }
  }

  lemma MoveStaysApart(s: State, a: Action, u: nat)
    requires MovesOne(a) && Step(s, a).Some? && u in s.txns && u != a.t && Sound(s, s.txns[u])
    requires a.t in s.txns ==>
               Sound(s, s.txns[a.t]) && Apart(s, s.txns[a.t], s.txns[u]) && Apart(s, s.txns[u], s.txns[a.t])
    requires s.users <= s.issued
    requires a.t in Step(s, a).value.txns
    ensures Apart(Step(s, a).value, Step(s, a).value.txns[a.t], s.txns[u])
    ensures Apart(Step(s, a).value, s.txns[u], Step(s, a).value.txns[a.t])
  {
    if a.TakeLock? {
      var key := s.keyOf(s.txns[a.t].call.author);
      assert !HoldsLock(s, u, key);
    }
  }

  /** More ids given out change nothing for a transaction that is under way. */
  lemma SoundWithMoreIssued(s: State, s': State, txn: Txn)
    requires SameTables(s, s') && Sound(s, txn)
    ensures Sound(s', txn)
  {
  }

  lemma ApartWithSameKeys(s: State, s': State, a: Txn, b: Txn)
    requires s'.keyOf == s.keyOf && Apart(s, a, b)
    ensures Apart(s', a, b)
  {
  }

  /** The steps before the commit. */
  lemma MoveKeepsInv(s: State, a: Action)
    requires Inv(s) && MovesOne(a) && Step(s, a).Some?
    ensures Inv(Step(s, a).value)
  {
    var s' := Step(s, a).value;
    var t := a.t;
    MoveIsSound(s, a);
    hide Sound, Apart;
    assert Bounded(s') by { BoundedWithMoreIssued(s, s'); }
    forall u | u in s.txns && u != t
      ensures Sound(s', s.txns[u])
      ensures Apart(s', s'.txns[t], s.txns[u]) && Apart(s', s.txns[u], s'.txns[t])
    {
      assert Sound(s, s.txns[u]);
      SoundWithMoreIssued(s, s', s.txns[u]);
      MoveStaysApart(s, a, u);
    }
    hide Step;
    forall u, w | u in s'.txns && w in s'.txns && u != w
      ensures Apart(s', s'.txns[u], s'.txns[w])
    {
      if u != t && w != t {
        assert Apart(s, s.txns[u], s.txns[w]);
        ApartWithSameKeys(s, s', s.txns[u], s.txns[w]);
      }
    }
  }

  lemma BoundedWithMoreIssued(s: State, s': State)
    requires SameTables(s, s') && Bounded(s)
    ensures Bounded(s')
  {
  }

  lemma DoneIsSettled(s: State, txn: Txn, other: Txn)
    requires txn.phase.Done? && (if txn.call.Raise? then txn.call.author in s.issued else txn.call.leaver in s.issued)
    requires other.call.Raise? && txn.call.Raise? ==> other.call.newId != txn.call.newId
    requires Placing(other) ==>
               (if txn.call.Raise? then other.call.placeholder != txn.call.author else true)
    ensures Sound(s, txn) && Apart(s, txn, other) && Apart(s, other, txn)
  {
  }

  /** A commit, given that everybody else's rows and counts still stand. */
  lemma OneCommits(s: State, t: nat, s': State)
    requires Inv(s) && t in s.txns && Bounded(s')
    requires s'.txns == s.txns[t := s.txns[t].(phase := Done(true))] && s'.keyOf == s.keyOf && s'.issued == s.issued
    requires forall u :: u in s.txns && u != t ==> Sound(s', s.txns[u])
    ensures Inv(s')
  {
    assert Sound(s, s.txns[t]);
    forall u | u in s.txns && u != t
      ensures Sound(s', s'.txns[t]) && Apart(s', s'.txns[t], s.txns[u]) && Apart(s', s.txns[u], s'.txns[t])
    {
      assert Apart(s, s.txns[t], s.txns[u]) && Apart(s, s.txns[u], s.txns[t]);
      DoneIsSettled(s', s'.txns[t], s.txns[u]);
    }
    assert Sound(s', s'.txns[t]);
    hide Sound, Apart, Bounded;
    forall u, w | u in s'.txns && w in s'.txns && u != w
      ensures Apart(s', s'.txns[u], s'.txns[w])
    {
      if u != t && w != t {
        assert Apart(s, s.txns[u], s.txns[w]);
        ApartWithSameKeys(s, s', s.txns[u], s.txns[w]);
      }
    }
  }

  // -------------------------------------------------------------------------------------------
  // The commits
  // -------------------------------------------------------------------------------------------

  lemma OneMore(signals: map<nat, Signal>, newId: nat, author: nat, other: nat)
    requires newId !in signals
    ensures var after := signals[newId := Signal(author, false, false)];
            |OpenBy(after, other)| == |OpenBy(signals, other)| + (if other == author then 1 else 0)
  {
    var after := signals[newId := Signal(author, false, false)];
    if other == author {
      assert OpenBy(after, other) == OpenBy(signals, other) + {newId};
    } else {
      assert OpenBy(after, other) == OpenBy(signals, other);
    }
  }

  lemma RaiseCommits(s: State, t: nat)
    requires Inv(s) && t in s.txns && s.txns[t].phase.Inserted? && Committed(s, t).Some?
    ensures Inv(Committed(s, t).value)
  {
    var s' := Committed(s, t).value;
    var txn := s.txns[t];
    assert Sound(s, txn);
    forall author
      ensures |OpenBy(s'.signals, author)| <= s.cap
    {
      OneMore(s.signals, txn.call.newId, txn.call.author, author);
    }
    forall u | u in s.txns && u != t
      ensures Sound(s', s.txns[u])
    {
      assert Sound(s, s.txns[u]) && Apart(s, txn, s.txns[u]) && Apart(s, s.txns[u], txn);
      RaiseLeavesOthers(s, s', txn, s.txns[u]);
    }
    hide Sound, Apart, OpenBy;
    OneCommits(s, t, s');
  }

  lemma RaiseLeavesOthers(s: State, s': State, txn: Txn, other: Txn)
    requires Sound(s, txn) && Sound(s, other) && Apart(s, txn, other) && Apart(s, other, txn)
    requires txn.phase.Inserted?
    requires s' == s.(signals := s.signals[txn.call.newId := Signal(txn.call.author, false, false)], txns := s'.txns)
    ensures Sound(s', other)
  {
    if other.call.Raise? {
      OneMore(s.signals, txn.call.newId, txn.call.author, other.call.author);
    }
  }

  lemma FewerOrMoved(signals: map<nat, Signal>, moved: set<nat>, dropped: set<nat>, leaver: nat, placeholder: nat, author: nat)
    requires moved + dropped == SignalsBy(signals, leaver) && moved !! dropped && placeholder != leaver
    requires SignalsBy(signals, placeholder) == {}
    ensures var after := Erased(signals, moved, dropped, placeholder);
            && (author == placeholder ==> |OpenBy(after, author)| <= |OpenBy(signals, leaver)|)
            && (author == leaver ==> OpenBy(after, author) == {})
            && (author != placeholder && author != leaver ==> OpenBy(after, author) == OpenBy(signals, author))
  {
    var after := Erased(signals, moved, dropped, placeholder);
    if author == placeholder {
      forall id | id in OpenBy(after, author)
        ensures id in OpenBy(signals, leaver)
      {
        assert id !in SignalsBy(signals, placeholder);
        assert id in moved && id in SignalsBy(signals, leaver);
      }
      Ordering.SubsetCount(OpenBy(after, author), OpenBy(signals, leaver));
    } else {
      forall id
        ensures id in OpenBy(after, author) <==> author != leaver && id in OpenBy(signals, author)
      {
        if id in signals && signals[id].author == leaver {
          assert id in SignalsBy(signals, leaver);
        }
        if id in moved || id in dropped {
          assert id in SignalsBy(signals, leaver);
        }
      }
    }
  }

  lemma EraseCommits(s: State, t: nat)
    requires Inv(s) && t in s.txns && s.txns[t].phase.Gone? && Committed(s, t).Some?
    ensures Inv(Committed(s, t).value)
  {
    var s' := Committed(s, t).value;
    var txn := s.txns[t];
    assert Sound(s, txn);
    var leaver, placeholder := txn.call.leaver, txn.call.placeholder;
    assert SignalsBy(s.signals, placeholder) == {};
    forall author
      ensures |OpenBy(s'.signals, author)| <= s.cap
    {
      FewerOrMoved(s.signals, txn.moved, txn.dropped, leaver, placeholder, author);
    }
    forall id | id in s'.signals
      ensures s'.signals[id].author in s'.users
    {
      if s.signals[id].author == leaver { assert id in SignalsBy(s.signals, leaver); }
    }
    forall u | u in s.txns && u != t
      ensures Sound(s', s.txns[u])
    {
      assert Sound(s, s.txns[u]) && Apart(s, txn, s.txns[u]) && Apart(s, s.txns[u], txn);
      EraseLeavesOthers(s, s', txn, s.txns[u]);
    }
    hide Sound, Apart, OpenBy, SignalsBy, Erased;
    OneCommits(s, t, s');
  }

  lemma EraseLeavesOthers(s: State, s': State, txn: Txn, other: Txn)
    requires Bounded(s) && Sound(s, txn) && Sound(s, other) && Apart(s, txn, other) && Apart(s, other, txn)
    requires txn.phase.Gone?
    requires s' == s.(users := s.users - {txn.call.leaver} + {txn.call.placeholder},
                      signals := Erased(s.signals, txn.moved, txn.dropped, txn.call.placeholder), txns := s'.txns)
    ensures Sound(s', other)
  {
    var leaver, placeholder := txn.call.leaver, txn.call.placeholder;
    assert SignalsBy(s.signals, placeholder) == {};
    if other.call.Raise? {
      FewerOrMoved(s.signals, txn.moved, txn.dropped, leaver, placeholder, other.call.author);
    } else if other.phase.Gone? {
      assert SignalsBy(s'.signals, other.call.leaver) == SignalsBy(s.signals, other.call.leaver);
    }
  }

  // -------------------------------------------------------------------------------------------
  // Closing, removing and joining
  // -------------------------------------------------------------------------------------------

  lemma SettledCounts(signals: map<nat, Signal>, id: nat, row: Signal, author: nat)
    requires id in signals && row.author == signals[id].author && !Counts(row)
    ensures |OpenBy(signals[id := row], author)| <= |OpenBy(signals, author)|
    ensures SignalsBy(signals[id := row], author) == SignalsBy(signals, author)
  {
    assert OpenBy(signals[id := row], author) == OpenBy(signals, author) - {id};
    Ordering.SubsetCount(OpenBy(signals[id := row], author), OpenBy(signals, author));
  }

  lemma SettledIsSound(s: State, id: nat, row: Signal, txn: Txn)
    requires Sound(s, txn) && id in s.signals && row.author == s.signals[id].author && !Counts(row)
    ensures Sound(s.(signals := s.signals[id := row]), txn)
  {
    if txn.call.Raise? {
      SettledCounts(s.signals, id, row, txn.call.author);
    } else {
      SettledCounts(s.signals, id, row, txn.call.leaver);
    }
    hide OpenBy, SignalsBy;
  }

  lemma SettledIsBounded(s: State, id: nat, row: Signal)
    requires Bounded(s) && id in s.signals && row.author == s.signals[id].author && !Counts(row)
    ensures Bounded(s.(signals := s.signals[id := row]))
  {
    var after := s.signals[id := row];
    forall author
      ensures |OpenBy(after, author)| <= s.cap
    {
      SettledCounts(s.signals, id, row, author);
    }
    hide OpenBy;
  }

  /** A signal that stops counting; its row is held by nobody. */
  lemma SettledSignal(s: State, id: nat, row: Signal)
    requires Inv(s) && id in s.signals && row.author == s.signals[id].author && !Counts(row) && RowFree(s, id, None)
    ensures Inv(s.(signals := s.signals[id := row]))
  {
    hide Sound, Apart, Bounded, Counts;
    var s' := s.(signals := s.signals[id := row]);
    SettledIsBounded(s, id, row);
    forall t | t in s.txns
      ensures Sound(s', s.txns[t])
    {
      SettledIsSound(s, id, row, s.txns[t]);
    }
    forall t, u | t in s.txns && u in s.txns && t != u
      ensures Apart(s', s.txns[t], s.txns[u])
    {
      ApartWithSameKeys(s, s', s.txns[t], s.txns[u]);
    }
  }

  lemma JoinKeepsInv(s: State, user: nat)
    requires Inv(s) && user !in s.issued
    ensures Inv(s.(users := s.users + {user}, issued := s.issued + {user}))
  {
    var s' := s.(users := s.users + {user}, issued := s.issued + {user});
    forall t | t in s.txns
      ensures Sound(s', s.txns[t])
    {
      assert Sound(s, s.txns[t]);
    }
    assert Bounded(s');
    hide Sound, Bounded;
    forall t, u | t in s.txns && u in s.txns && t != u
      ensures Apart(s', s.txns[t], s.txns[u])
    {
      assert Apart(s, s.txns[t], s.txns[u]);
      ApartWithSameKeys(s, s', s.txns[t], s.txns[u]);
    }
  }

  lemma StepKeepsInv(s: State, a: Action)
    requires Inv(s) && Step(s, a).Some?
    ensures Inv(Step(s, a).value)
  {
    hide Inv;
    if MovesOne(a) {
      MoveKeepsInv(s, a);
    } else {
      match a
      case Commit(t) =>
        if s.txns[t].phase.Inserted? {
          RaiseCommits(s, t);
        } else {
          EraseCommits(s, t);
        }
      case Close(id) => SettledSignal(s, id, s.signals[id].(closed := true));
      case Remove(id) => SettledSignal(s, id, s.signals[id].(removed := true));
      case Join(user) => JoinKeepsInv(s, user);
    }
  }

  /** Any board under its cap, with nothing running. */
  lemma StartHolds(s: State)
    requires s.txns == map[] && s.users <= s.issued
    requires forall id :: id in s.signals ==> s.signals[id].author in s.users
    requires forall author :: |OpenBy(s.signals, author)| <= s.cap
    ensures Inv(s)
  {
  }

  /** No author ever holds more than the cap of open standing signals, in any interleaving. */
  lemma {:induction false} NobodyIsEverOverTheCap(s: State, actions: seq<Action>, author: nat)
    requires Inv(s) && Run(Step, s, actions).Some?
    ensures Inv(Run(Step, s, actions).value)
    ensures Run(Step, s, actions).value.cap == s.cap && |OpenBy(Run(Step, s, actions).value.signals, author)| <= s.cap
    ensures var signals := Run(Step, s, actions).value.signals;
            |set id | id in signals && signals[id].author == author && !signals[id].closed && !signals[id].removed| <= s.cap
    decreases |actions|
  {
    if actions != [] {
      var next := Step(s, actions[0]).value;
      StepKeepsInv(s, actions[0]);
      StepKeepsCap(s, actions[0]);
      hide Inv, Step, OpenBy;
      NobodyIsEverOverTheCap(next, actions[1..], author);
    } else {
      OpenIsOpen(s.signals, author);
    }
  }

  lemma OpenIsOpen(signals: map<nat, Signal>, author: nat)
    ensures OpenBy(signals, author) ==
            set id | id in signals && signals[id].author == author && !signals[id].closed && !signals[id].removed
  {
  }

  lemma StepKeepsCap(s: State, a: Action)
    requires Step(s, a).Some?
    ensures Step(s, a).value.cap == s.cap
  {
    hide HoldsLock, RowFree, BeingDeleted, BeingNamed, OpenBy;
  }

  // -------------------------------------------------------------------------------------------
  // A raise with nothing beside it
  // -------------------------------------------------------------------------------------------

  /** With nothing beside it a raise goes through exactly when its author holds fewer than the cap. */
  lemma RaiseAlone(s: State, t: nat, author: nat, newId: nat) returns (actions: seq<Action>)
    requires t !in s.txns && author in s.users && newId !in s.signals
    requires forall u :: u in s.txns ==> s.txns[u].phase.Done? && (s.txns[u].call.Raise? ==> s.txns[u].call.newId != newId)
    ensures Run(Step, s, actions).Some?
    ensures Run(Step, s, actions).value.signals ==
            if |OpenBy(s.signals, author)| < s.cap then s.signals[newId := Signal(author, false, false)] else s.signals
  {
    hide OpenBy;
    var begun := s.(txns := s.txns[t := Txn(Raise(author, newId), Waiting, {}, {})]);
    var locked := At(begun, t, Locked);
    RunOne(Step, s, Begin(t, Raise(author, newId)));
    RunSnoc(Step, s, [Begin(t, Raise(author, newId))], TakeLock(t));
    RunSnoc(Step, s, [Begin(t, Raise(author, newId))] + [TakeLock(t)], Count(t));
    actions := [Begin(t, Raise(author, newId))] + [TakeLock(t)] + [Count(t)];
    if |OpenBy(s.signals, author)| < s.cap {
      RunSnoc(Step, s, actions, Insert(t));
      actions := actions + [Insert(t)];
      RunSnoc(Step, s, actions, Commit(t));
      actions := actions + [Commit(t)];
    }
  }

  // -------------------------------------------------------------------------------------------
  // What an erasure hands over
  // -------------------------------------------------------------------------------------------

  /** At its commit every signal it moved is the placeholder's and otherwise as it was, and no other that stays has changed. */
  lemma WhatAnErasureLeaves(s: State, t: nat)
    requires Inv(s) && t in s.txns && s.txns[t].phase.Gone? && Step(s, Commit(t)).Some?
    ensures var txn, after := s.txns[t], Step(s, Commit(t)).value;
            && after.users == s.users - {txn.call.leaver} + {txn.call.placeholder}
            && after.signals.Keys == s.signals.Keys - txn.dropped
            && (forall id :: id in s.signals && id !in txn.dropped ==>
                  && after.signals[id].closed == s.signals[id].closed && after.signals[id].removed == s.signals[id].removed
                  && (s.signals[id].author == txn.call.leaver ==> after.signals[id].author == txn.call.placeholder)
                  && (s.signals[id].author != txn.call.leaver ==> after.signals[id].author == s.signals[id].author))
            && (forall id :: id in txn.dropped ==> id in s.signals && s.signals[id].author == txn.call.leaver)
  {
    var txn := s.txns[t];
    assert Sound(s, txn);
    assert forall id :: id in SignalsBy(s.signals, txn.call.leaver) <==> id in txn.moved || id in txn.dropped;
    hide Apart, Bounded;
  }

  /** Everything else that writes: a raise adds one open signal of its author, and a close or a removal marks one row. */
  lemma WhatTheOthersWrite(s: State, a: Action)
    requires Step(s, a).Some?
    ensures var before, after := s.signals, Step(s, a).value.signals;
            match a
            case Commit(t) =>
              t in s.txns && (s.txns[t].call.Raise? ==>
                var id := s.txns[t].call.newId;
                && id in after && after[id] == Signal(s.txns[t].call.author, false, false)
                && (forall other :: other in after <==> other in before || other == id)
                && (forall other :: other in before && other != id ==> after[other] == before[other]))
            case Close(id) =>
              && id in before && !before[id].closed && !before[id].removed && after.Keys == before.Keys
              && forall other :: other in before ==>
                   after[other] == if other == id then Signal(before[id].author, true, false) else before[other]
            case Remove(id) =>
              && id in before && !before[id].removed && after.Keys == before.Keys
              && forall other :: other in before ==>
                   after[other] == if other == id then Signal(before[id].author, before[id].closed, true) else before[other]
            case _ => after == before
  {
    hide HoldsLock, RowFree, BeingDeleted, BeingNamed, OpenBy, SignalsBy;
  }

  /** Every signal of the leaver is the placeholder's, open, closed or removed as it was, and every other is untouched. */
  ghost predicate HandedOver(before: map<nat, Signal>, after: map<nat, Signal>, leaver: nat, placeholder: nat) {
    && (forall id :: id in after <==> id in before)
    && forall id :: id in before ==>
         after[id] == if before[id].author == leaver then Signal(placeholder, before[id].closed, before[id].removed)
                      else before[id]
  }

  ghost function MovingAt(s: State, t: nat, todo: set<nat>, moved: set<nat>): State
    requires t in s.txns
  {
    s.(txns := s.txns[t := s.txns[t].(phase := Moving(todo), moved := moved)])
  }

  /** Re-pointing what is left of the snapshot, one row after another. */
  lemma {:induction false} MoveAll(s: State, t: nat, todo: set<nat>, moved: set<nat>) returns (actions: seq<Action>)
    requires t in s.txns && s.txns[t].call.Erase?
    requires forall u :: u in s.txns && u != t ==> s.txns[u].phase.Done?
    requires forall id :: id in todo ==> id in s.signals && s.signals[id].author == s.txns[t].call.leaver
    ensures Run(Step, MovingAt(s, t, todo, moved), actions) == Some(MovingAt(s, t, {}, moved + todo))
    decreases |todo|
  {
    if todo == {} {
      actions := [];
      assert moved + todo == moved;
    } else {
      var id :| id in todo;
      var here, next := MovingAt(s, t, todo, moved), MovingAt(s, t, todo - {id}, moved + {id});
      assert next.txns == here.txns[t := next.txns[t]];
      assert Step(here, Move(t, id)) == Some(next);
      var rest := MoveAll(s, t, todo - {id}, moved + {id});
      actions := [Move(t, id)] + rest;
      assert actions[1..] == rest;
      assert moved + {id} + (todo - {id}) == moved + todo;
    }
  }

  /** With nothing beside it an erasure takes no signal away: all of the leaver's are handed over. */
  lemma EraseAlone(s: State, t: nat, leaver: nat, placeholder: nat) returns (actions: seq<Action>)
    requires t !in s.txns && leaver in s.users && placeholder !in s.issued
    requires forall u :: u in s.txns ==> s.txns[u].phase.Done?
    ensures Run(Step, s, actions).Some?
    ensures var end := Run(Step, s, actions).value;
            end.users == s.users - {leaver} + {placeholder} && HandedOver(s.signals, end.signals, leaver, placeholder)
  {
    var mine := SignalsBy(s.signals, leaver);
    var call := Erase(leaver, placeholder);
    var begun := s.(issued := s.issued + {placeholder}, txns := s.txns[t := Txn(call, Moving(mine), {}, {})]);
    assert Step(s, Begin(t, call)) == Some(begun);
    assert MovingAt(begun, t, mine, {}).txns == begun.txns;
    var moves := MoveAll(begun, t, mine, {});
    assert {} + mine == mine;
    var moved := MovingAt(begun, t, {}, mine);
    var gone := moved.(txns := moved.txns[t := Txn(call, Gone, mine, {})]);
    assert mine - mine == {};
    assert Step(moved, DeleteAccount(t)) == Some(gone);
    hide Step, SignalsBy;
    RunOne(Step, s, Begin(t, call));
    RunConcat(Step, s, [Begin(t, call)], moves);
    RunSnoc(Step, s, [Begin(t, call)] + moves, DeleteAccount(t));
    RunSnoc(Step, s, [Begin(t, call)] + moves + [DeleteAccount(t)], Commit(t));
    actions := [Begin(t, call)] + moves + [DeleteAccount(t)] + [Commit(t)];
    CommitOfErase(gone, t);
    ErasedHandsOver(s.signals, leaver, placeholder);
  }

  lemma CommitOfErase(s: State, t: nat)
    requires t in s.txns && s.txns[t].phase.Gone? && s.txns[t].call.Erase?
    ensures Step(s, Commit(t)).Some?
    ensures var txn, after := s.txns[t], Step(s, Commit(t)).value;
            && after.users == s.users - {txn.call.leaver} + {txn.call.placeholder}
            && after.signals == Erased(s.signals, txn.moved, txn.dropped, txn.call.placeholder)
  {
  }

  lemma ErasedHandsOver(signals: map<nat, Signal>, leaver: nat, placeholder: nat)
    ensures HandedOver(signals, Erased(signals, SignalsBy(signals, leaver), {}, placeholder), leaver, placeholder)
  {
    assert forall id :: id in SignalsBy(signals, leaver) <==> id in signals && signals[id].author == leaver;
  }
}
