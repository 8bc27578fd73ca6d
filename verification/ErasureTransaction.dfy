/**
 * The erasure as it runs (packages/db/src/account-deletion.ts:86-151): one method per statement
 * over the three tables, inside the last-admin guard, proved against `Erasure.Erase`.
 */
module ErasureTransaction {
  import opened Runs
  import Accounts
  import opened Notes
  import Erasure

  datatype Deletion =
    | NoSuchAccount
    | LastAdmin
    | RolledBack
    | Deleted(retainedPublicNotes: nat, retainedPublicReplies: nat, deletedPrivateNotes: nat, retainedBlocks: nat)

  /** The columns of `user` the guard looks at. */
  function AccountsOf(users: map<nat, User>): Accounts.Users {
    map id | id in users :: users[id].account
  }

  function NotesBy(db: Tables, author: nat): set<nat> {
    set id | id in db.notes && db.notes[id].author == author && db.notes[id].parent.None?
  }

  function RepliesBy(db: Tables, author: nat): set<nat> {
    set id | id in db.notes && db.notes[id].author == author && db.notes[id].parent.Some?
  }

  function BlocksAgainst(db: Tables, member: nat): set<(nat, nat)> {
    set pair | pair in db.blocks && pair.1 == member
  }

  lemma NobodyIsNewYet(db: Tables, x: nat, p: nat)
    requires Erasure.CanErase(db, x, p)
    ensures forall id :: id in db.notes ==> db.notes[id].author != p
    ensures RepliesBy(db, x) !! Erasure.PrivateNotes(db, x)
    ensures forall a :: (a, x) in db.blocks ==> a != x && a != p
  {
    forall id | id in db.notes
      ensures db.notes[id].author != p
      ensures id in RepliesBy(db, x) ==> id !in Erasure.PrivateNotes(db, x)
    {
      assert NoteHolds(db, db.notes[id]);
    }
    forall a | (a, x) in db.blocks
      ensures a != x && a != p
    {
      assert (a, x).0 != (a, x).1;
    }
  }

  /** What the confirmation screen reports as kept is what the placeholder holds afterwards. */
  lemma WhatIsKept(db: Tables, x: nat, p: nat)
    requires Erasure.CanErase(db, x, p)
    ensures Erasure.Erase(db, x, p).Gone?
    ensures var after := Erasure.Erase(db, x, p).db;
            && NotesBy(after, p) == NotesBy(db, x) - Erasure.PrivateNotes(db, x)
            && RepliesBy(after, p) == RepliesBy(db, x)
            && (forall a :: (a, p) in BlocksAgainst(after, p) <==> (a, x) in BlocksAgainst(db, x))
  {
    Erasure.ErasedRows(db, x, p);
    NobodyIsNewYet(db, x, p);
    hide Erasure.Erase, Erasure.CanErase, Erasure.PrivateNotes;
  }

  /** One guarded erasure changes the accounts as the guard on its own says. */
  lemma GuardSeesTheErasure(db: Tables, x: nat, p: nat)
    requires Erasure.CanErase(db, x, p)
    ensures Erasure.Erase(db, x, p).Gone?
    ensures AccountsOf(Erasure.Erase(db, x, p).db.users) ==
            Accounts.Written(Accounts.Write.Erase, AccountsOf(db.users), x, p)
  {
    Erasure.ErasedRows(db, x, p);
  }

  class Database {
    var users: map<nat, User>
    var notes: map<nat, Note>
    var blocks: map<(nat, nat), int>

    constructor ()
      ensures Contents() == Tables(map[], map[], map[])
    {
      users, notes, blocks := map[], map[], map[];
    }

    function Contents(): Tables
      reads this
    {
      Tables(users, notes, blocks)
    }

    method InsertPlaceholder(p: nat)
      requires p !in users
      modifies this`users
      ensures Contents() == Erasure.PlaceholderWritten(old(Contents()), p)
    {
      users := users[p := Erasure.Placeholder()];
    }

    /** The first statement of `reassignNotesOfDeletedAuthor`; refused while a reply hangs on a deleted row. */
    method DeletePrivateNotes(x: nat) returns (ok: bool, deleted: set<nat>)
      modifies this`notes
      ensures deleted == Erasure.PrivateNotes(old(Contents()), x)
      ensures ok == !Erasure.HoldsAThread(old(Contents()), deleted)
      ensures Contents() == if ok then Erasure.PrivateNotesDeleted(old(Contents()), x) else old(Contents())
    {
      deleted := set id | id in notes && notes[id].author == x && notes[id].visibility == Private;
      ok := !exists id :: id in notes && id !in deleted && notes[id].parent.Some? && notes[id].parent.value in deleted;
      if ok {
        notes := notes - deleted;
      }
    }

    /** The second: every row left now names the placeholder. Answers how many of each kind moved. */
    method RepointNotes(x: nat, p: nat) returns (moved: nat, movedReplies: nat)
      modifies this`notes
      ensures Contents() == Erasure.NotesRepointed(old(Contents()), x, p)
      ensures moved == |NotesBy(old(Contents()), x)| && movedReplies == |RepliesBy(old(Contents()), x)|
    {
      var top := set id | id in notes && notes[id].author == x && notes[id].parent.None?;
      var replies := set id | id in notes && notes[id].author == x && notes[id].parent.Some?;
      assert top == NotesBy(Contents(), x) && replies == RepliesBy(Contents(), x);
      moved, movedReplies := |top|, |replies|;
      notes := map id | id in notes :: if notes[id].author == x then notes[id].(author := p) else notes[id];
    }

    method CarryBlocks(x: nat, p: nat) returns (carried: nat)
      modifies this`blocks
      ensures Contents() == Erasure.BlocksCarried(old(Contents()), x, p)
      ensures carried == |set pair | pair in old(blocks) && pair.1 == x && (pair.0, p) !in old(blocks)|
    {
      // `on conflict do nothing`: a pair that is there already keeps its row and is not counted.
      carried := |set pair | pair in blocks && pair.1 == x && (pair.0, p) !in blocks|;
      var rows := map pair | pair in (set b | b in blocks && b.1 == x :: (b.0, p)) && (pair.0, x) in blocks
                  :: blocks[(pair.0, x)];
      blocks := rows + blocks;
    }

    method DeleteUser(x: nat) returns (ok: bool)
      modifies this
      ensures ok == (x in old(users) && !Erasure.IsAuthor(old(Contents()), x))
      ensures Contents() == if ok then Erasure.UserDeleted(old(Contents()), x) else old(Contents())
    {
      ok := x in users && !exists id :: id in notes && notes[id].author == x;
      if ok {
        users := users - {x};
        notes := map id | id in notes ::
          if notes[id].deletedBy == Some(x) then notes[id].(deletedBy := None) else notes[id];
        blocks := map pair | pair in blocks && pair.0 != x && pair.1 != x :: blocks[pair];
      }
    }

    /** The work of the transaction; on a refused statement the caller puts the tables back. */
    method EraseRows(x: nat, p: nat) returns (result: Deletion)
      requires x in users && p !in users && x != p
      modifies this
      ensures result.Deleted? <==> Erasure.Erase(old(Contents()), x, p).Gone?
      ensures result.Deleted? || result.RolledBack?
      ensures result.Deleted? ==>
                && Contents() == Erasure.Erase(old(Contents()), x, p).db
                && result.retainedPublicNotes == |NotesBy(old(Contents()), x) - Erasure.PrivateNotes(old(Contents()), x)|
                && result.retainedPublicReplies == |RepliesBy(old(Contents()), x) - Erasure.PrivateNotes(old(Contents()), x)|
                && result.deletedPrivateNotes == |Erasure.PrivateNotes(old(Contents()), x)|
                && result.retainedBlocks == |set pair | pair in old(blocks) && pair.1 == x && (pair.0, p) !in old(blocks)|
    {
      ghost var start := Contents();
      InsertPlaceholder(p);
      assert Erasure.PrivateNotes(Contents(), x) == Erasure.PrivateNotes(start, x);
      var ok, deleted := DeletePrivateNotes(x);
      assert Erasure.HoldsAThread(Erasure.PlaceholderWritten(start, p), deleted) <==> Erasure.HoldsAThread(start, deleted);
      if !ok {
        return RolledBack;
      }
      assert NotesBy(Contents(), x) == NotesBy(start, x) - deleted;
      assert RepliesBy(Contents(), x) == RepliesBy(start, x) - deleted;
      var keptNotes, keptReplies := RepointNotes(x, p);
      var carried := CarryBlocks(x, p);
      ok := DeleteUser(x);
      if !ok {
        return RolledBack;
      }
      result := Deleted(keptNotes, keptReplies, |deleted|, carried);
    }

    /**
     * Deletes an account. It answers as the guard does, leaves the tables exactly as they were
     * unless the account is gone, and reports as kept what the placeholder then holds.
     */
    method DeleteUserAccount(x: nat, p: nat) returns (result: Deletion)
      requires SchemaHolds(Contents()) && p !in users
      modifies this
      ensures SchemaHolds(Contents())
      ensures result.NoSuchAccount? <==> !Accounts.IsAccount(AccountsOf(old(users)), x)
      ensures result.LastAdmin? <==>
                Accounts.Guarded(AccountsOf(old(users)), x, Accounts.Write.Erase, p).0 == Accounts.LastAdmin
      ensures result.RolledBack? <==>
                && Accounts.Guarded(AccountsOf(old(users)), x, Accounts.Write.Erase, p).0 == Accounts.Applied
                && Erasure.Erase(old(Contents()), x, p).Failed?
      ensures result.NoSuchAccount? <==> x !in old(users) || old(users)[x].account.placeholder
      ensures result.LastAdmin? <==>
                && x in old(users) && !old(users)[x].account.placeholder
                && old(users)[x].account.role == Accounts.Admin && old(users)[x].account.active
                && forall other :: other in old(users) && other != x ==>
                     old(users)[other].account.role == Accounts.Role.Member || !old(users)[other].account.active
      ensures result.RolledBack? ==>
                exists id :: id in old(notes) && old(notes)[id].parent.Some? && old(notes)[id].parent.value in old(notes)
                             && old(notes)[old(notes)[id].parent.value].author == x
                             && old(notes)[old(notes)[id].parent.value].visibility == Private
      ensures !result.Deleted? ==> Contents() == old(Contents())
      ensures result.Deleted? ==>
                && x != p
                && Erasure.Erase(old(Contents()), x, p) == Erasure.Gone(Contents())
                && Erasure.LeftBehind(old(Contents()), Contents(), x, p)
                && result.retainedPublicNotes == |NotesBy(Contents(), p)|
                && result.retainedPublicReplies == |RepliesBy(Contents(), p)|
                && result.deletedPrivateNotes == |old(notes)| - |notes|
                && result.retainedBlocks == |BlocksAgainst(Contents(), p)|
      ensures Accounts.ActiveAdmins(AccountsOf(old(users))) != {} ==> Accounts.ActiveAdmins(AccountsOf(users)) != {}
    {
      ghost var before := Contents();
      ghost var accounts := AccountsOf(users);
      Accounts.GuardRefusesExactlyTheLastAdmin(accounts, x, Accounts.Write.Erase, p);
      LastAdminOf(users, x);
      if x in users {
        Erasure.ErasureFailsExactlyOnAPrivateThread(Contents(), x, p);
      }
      hide Erasure.LeftBehind;
      var activeAdmins := set id | id in users && users[id].account.role == Accounts.Admin && users[id].account.active;
      assert activeAdmins == Accounts.ActiveAdmins(accounts);
      if x !in users || users[x].account.placeholder {
        return NoSuchAccount;
      }
      var row := users[x].account;
      if Accounts.WouldRemoveAnAdmin(Accounts.Write.Erase, row) && activeAdmins <= {x} {
        return LastAdmin;
      }
      var oldUsers, oldNotes, oldBlocks := users, notes, blocks;
      result := EraseRows(x, p);
      if result.RolledBack? {
        users, notes, blocks := oldUsers, oldNotes, oldBlocks;
        return;
      }
      KeptCounts(before, x, p);
    }
  }

  /** The guard's set is within the target exactly when no other account is an active admin. */
  lemma LastAdminOf(users: map<nat, User>, x: nat)
    ensures Accounts.ActiveAdmins(AccountsOf(users)) <= {x} <==>
            forall other :: other in users && other != x ==>
              users[other].account.role == Accounts.Role.Member || !users[other].account.active
  {
    forall other
      ensures other in Accounts.ActiveAdmins(AccountsOf(users)) <==>
              other in users && users[other].account.role == Accounts.Admin && users[other].account.active
    {
    }
  }

  /** The counts the statements return, read off the tables afterwards. */
  lemma KeptCounts(db: Tables, x: nat, p: nat)
    requires SchemaHolds(db) && x in db.users && p !in db.users && x != p
    requires Erasure.Erase(db, x, p).Gone?
    ensures var after := Erasure.Erase(db, x, p).db;
            && SchemaHolds(after)
            && |NotesBy(db, x) - Erasure.PrivateNotes(db, x)| == |NotesBy(after, p)|
            && |RepliesBy(db, x) - Erasure.PrivateNotes(db, x)| == |RepliesBy(after, p)|
            && |Erasure.PrivateNotes(db, x)| == |db.notes| - |after.notes|
            && |set pair | pair in db.blocks && pair.1 == x && (pair.0, p) !in db.blocks| == |BlocksAgainst(after, p)|
            && AccountsOf(after.users) == Accounts.Written(Accounts.Write.Erase, AccountsOf(db.users), x, p)
            && Erasure.LeftBehind(db, after, x, p)
  {
    assert Erasure.CanErase(db, x, p);
    Erasure.ErasureLeavesBehind(db, x, p);
    WhatIsKept(db, x, p);
    GuardSeesTheErasure(db, x, p);
    Erasure.ErasureLeavesNoTrace(db, x, p);
    NotesDeletedCount(db, x, p);
    BlocksCarriedCount(db, x, p);
    hide Erasure.Erase, NoteHolds, AccountsOf, Accounts.Written, Erasure.HoldsAThread, Erasure.LeftBehind;
    RepliesAreKept(db, x);
  }

  lemma RepliesAreKept(db: Tables, x: nat)
    requires SchemaHolds(db)
    ensures RepliesBy(db, x) - Erasure.PrivateNotes(db, x) == RepliesBy(db, x)
  {
    forall id | id in RepliesBy(db, x)
      ensures id !in Erasure.PrivateNotes(db, x)
    {
      assert NoteHolds(db, db.notes[id]);
    }
  }

  lemma NotesDeletedCount(db: Tables, x: nat, p: nat)
    requires Erasure.CanErase(db, x, p)
    ensures Erasure.Erase(db, x, p).Gone?
    ensures |Erasure.PrivateNotes(db, x)| == |db.notes| - |Erasure.Erase(db, x, p).db.notes|
  {
    Erasure.ErasedRows(db, x, p);
    var after := Erasure.Erase(db, x, p).db;
    hide Erasure.Erase, SchemaHolds;
    assert after.notes.Keys == db.notes.Keys - Erasure.PrivateNotes(db, x);
    assert Erasure.PrivateNotes(db, x) <= db.notes.Keys;
    assert |after.notes.Keys| == |after.notes| && |db.notes.Keys| == |db.notes|;
  }

  lemma BlocksCarriedCount(db: Tables, x: nat, p: nat)
    requires Erasure.CanErase(db, x, p)
    ensures Erasure.Erase(db, x, p).Gone?
    ensures |set pair | pair in db.blocks && pair.1 == x && (pair.0, p) !in db.blocks|
            == |BlocksAgainst(Erasure.Erase(db, x, p).db, p)|
  {
    WhatIsKept(db, x, p);
    var after := Erasure.Erase(db, x, p).db;
    hide Erasure.Erase, NoteHolds;
    var source := set pair | pair in db.blocks && pair.1 == x && (pair.0, p) !in db.blocks;
    assert source == BlocksAgainst(db, x);
    SameCount(source, BlocksAgainst(after, p), x, p);
  }

  lemma {:induction false} SameCount(these: set<(nat, nat)>, those: set<(nat, nat)>, x: nat, p: nat)
    requires forall pair :: pair in these ==> pair.1 == x && (pair.0, p) in those
    requires forall pair :: pair in those ==> pair.1 == p && (pair.0, x) in these
    ensures |these| == |those|
    decreases |these|
  {
    if these == {} {
      assert those == {};
    } else {
      var pair :| pair in these;
      assert (pair.0, x) in these;
      SameCount(these - {(pair.0, x)}, those - {(pair.0, p)}, x, p);
    }
  }
}
