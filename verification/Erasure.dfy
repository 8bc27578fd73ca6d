/**
 * Deleting an account (packages/db/src/account-deletion.ts): one transaction that leaves the
 * member's public notes to a placeholder, and what every other member then sees.
 */
module Erasure {
  import opened Runs
  import opened Accounts
  import opened Notes

  const REMOVED_MEMBER_DISPLAY_NAME: string := "Removed member"

  /** `Failed` is a statement the database refuses; the transaction then leaves no trace. */
  datatype Erased = Failed | Gone(db: Tables)

  function Placeholder(): User {
    User(Account(Member, false, true), REMOVED_MEMBER_DISPLAY_NAME, None)
  }

  // -------------------------------------------------------------------------------------------
  // The statements, in order
  // -------------------------------------------------------------------------------------------

  function PlaceholderWritten(db: Tables, p: nat): Tables {
    db.(users := db.users[p := Placeholder()])
  }

  function PrivateNotes(db: Tables, x: nat): set<nat> {
    set id | id in db.notes && db.notes[id].author == x && db.notes[id].visibility == Private
  }

  /** `note_parent_top_level_fk` restricts: a note with a reply left under it cannot be deleted. */
  predicate HoldsAThread(db: Tables, ids: set<nat>) {
    exists id :: id in db.notes && id !in ids && db.notes[id].parent.Some? && db.notes[id].parent.value in ids
  }

  function PrivateNotesDeleted(db: Tables, x: nat): Tables {
    db.(notes := db.notes - PrivateNotes(db, x))
  }

  function NotesRepointed(db: Tables, x: nat, p: nat): Tables {
    db.(notes := map id | id in db.notes ::
      if db.notes[id].author == x then db.notes[id].(author := p) else db.notes[id])
  }

  /** Each block against the member is written again against the placeholder, keeping its date. */
  function BlocksCarried(db: Tables, x: nat, p: nat): Tables {
    var carried := map pair | pair in (set b | b in db.blocks && b.1 == x :: (b.0, p)) && (pair.0, x) in db.blocks
                       :: db.blocks[(pair.0, x)];
    db.(blocks := carried + db.blocks)
  }

  /** `note.author_id` restricts; blocks cascade; `deleted_by` is set null. */
  function UserDeleted(db: Tables, x: nat): Tables {
    Tables(
      db.users - {x},
      map id | id in db.notes ::
        if db.notes[id].deletedBy == Some(x) then db.notes[id].(deletedBy := None) else db.notes[id],
      map pair | pair in db.blocks && pair.0 != x && pair.1 != x :: db.blocks[pair])
  }

  predicate IsAuthor(db: Tables, x: nat) {
    exists id :: id in db.notes && db.notes[id].author == x
  }

  /** The notes' own two statements, after the placeholder's. */
  function Moved(db: Tables, x: nat, p: nat): Tables {
    NotesRepointed(PrivateNotesDeleted(PlaceholderWritten(db, p), x), x, p)
  }

  /** The whole transaction. */
  function Erase(db: Tables, x: nat, p: nat): Erased {
    if HoldsAThread(db, PrivateNotes(db, x)) then Failed
    else
      var carried := BlocksCarried(Moved(db, x, p), x, p);
      if IsAuthor(carried, x) then Failed else Gone(UserDeleted(carried, x))
  }

  ghost predicate CanErase(db: Tables, x: nat, p: nat) {
    SchemaHolds(db) && x in db.users && p !in db.users && x != p && !HoldsAThread(db, PrivateNotes(db, x))
  }

  // -------------------------------------------------------------------------------------------
  // What is left
  // -------------------------------------------------------------------------------------------

  function Renamed(author: nat, x: nat, p: nat): nat {
    if author == x then p else author
  }

  /** A row of a list with the leaver replaced by the placeholder. */
  function RenamedView(v: NoteView, x: nat, p: nat): NoteView {
    if v.author != x then v
    else v.(author := p, authorDisplayName := REMOVED_MEMBER_DISPLAY_NAME, authorAvatarKey := None)
  }

  lemma MovedNotes(db: Tables, x: nat, p: nat)
    requires x != p
    ensures var moved := Moved(db, x, p);
            && moved.users == db.users[p := Placeholder()] && moved.blocks == db.blocks && !IsAuthor(moved, x)
            && moved.notes.Keys == db.notes.Keys - PrivateNotes(db, x)
            && forall id :: id in moved.notes ==> moved.notes[id] == db.notes[id].(author := Renamed(db.notes[id].author, x, p))
  {
  }

  lemma CarriedBlocks(db: Tables, x: nat, p: nat)
    requires forall pair :: pair in db.blocks ==> pair.0 != p && pair.1 != p
    ensures var carried := BlocksCarried(db, x, p);
            && carried.users == db.users && carried.notes == db.notes
            && (forall a, b :: (a, b) in carried.blocks <==> (a, b) in db.blocks || (b == p && (a, x) in db.blocks))
            && (forall pair :: pair in carried.blocks ==>
                  carried.blocks[pair] == if pair.1 == p then db.blocks[(pair.0, x)] else db.blocks[pair])
  {
    var carried := BlocksCarried(db, x, p);
    forall a, b
      ensures (a, b) in carried.blocks <==> (a, b) in db.blocks || (b == p && (a, x) in db.blocks)
    {
      if (a, x) in db.blocks {
        assert (a, p) in set c | c in db.blocks && c.1 == x :: (c.0, p) by {
          assert (a, x) in db.blocks && (a, x).1 == x;
        }
      }
    }
  }

  lemma DeletedUser(db: Tables, x: nat)
    ensures var after := UserDeleted(db, x);
            && after.users == db.users - {x} && after.notes.Keys == db.notes.Keys
            && (forall id :: id in after.notes ==>
                  after.notes[id] == db.notes[id].(
                    deletedBy := if db.notes[id].deletedBy == Some(x) then None else db.notes[id].deletedBy))
            && (forall pair :: pair in after.blocks <==> pair in db.blocks && pair.0 != x && pair.1 != x)
            && (forall pair :: pair in after.blocks ==> after.blocks[pair] == db.blocks[pair])
  {
  }

  lemma NobodyBlocksTheNew(db: Tables, p: nat)
    requires SchemaHolds(db) && p !in db.users
    ensures forall pair :: pair in db.blocks ==> pair.0 != p && pair.1 != p && pair.0 != pair.1
  {
  }

  /** The tables after the erasure, row by row. */
  lemma ErasedRows(db: Tables, x: nat, p: nat)
    requires CanErase(db, x, p)
    ensures Erase(db, x, p).Gone?
    ensures var after := Erase(db, x, p).db;
            && after.users == (db.users - {x})[p := Placeholder()]
            && after.notes.Keys == db.notes.Keys - PrivateNotes(db, x)
            && (forall id :: id in after.notes ==>
                  after.notes[id] == db.notes[id].(
                    author := Renamed(db.notes[id].author, x, p),
                    deletedBy := if db.notes[id].deletedBy == Some(x) then None else db.notes[id].deletedBy))
            && (forall a, b :: (a, b) in after.blocks <==>
                  a != x && b != x && if b == p then (a, x) in db.blocks else (a, b) in db.blocks)
            && (forall pair :: pair in after.blocks ==>
                  after.blocks[pair] == if pair.1 == p then db.blocks[(pair.0, x)] else db.blocks[pair])
  {
    NobodyBlocksTheNew(db, p);
    hide Moved, BlocksCarried, UserDeleted, SchemaHolds, NoteHolds,
      HoldsAThread, IsAuthor, PrivateNotes, Placeholder;
    var moved := Moved(db, x, p);
    MovedNotes(db, x, p);
    CarriedBlocks(moved, x, p);
    var carried := BlocksCarried(moved, x, p);
    NoMoreAuthor(moved, carried, x);
    DeletedUser(carried, x);
    assert (db.users - {x})[p := Placeholder()] == db.users[p := Placeholder()] - {x};
  }

  /** The three tables after the erasure, column by column. */
  ghost predicate LeftBehind(db: Tables, after: Tables, x: nat, p: nat) {
    // The account is gone, and a placeholder nobody can sign in to stands under a new id.
    && (forall id :: id in after.users <==> (id in db.users && id != x) || id == p)
    && (forall id :: id in db.users && id != x && id != p ==> after.users[id] == db.users[id])
    && p in after.users && after.users[p] == User(Account(Member, false, true), "Removed member", None)
    // The leaver's private notes are gone, the others re-pointed, and who removed a note forgotten where it was the leaver.
    && (forall id :: id in after.notes <==> id in db.notes && !(db.notes[id].author == x && db.notes[id].visibility == Private))
    && (forall id :: id in after.notes ==>
          after.notes[id] == db.notes[id].(
            author := if db.notes[id].author == x then p else db.notes[id].author,
            deletedBy := if db.notes[id].deletedBy == Some(x) then None else db.notes[id].deletedBy))
    // Blocks by the leaver go; blocks against the leaver are the placeholder's, with their dates.
    && (forall a, b :: (a, b) in after.blocks <==> a != x && b != x && (a, if b == p then x else b) in db.blocks)
    && (forall a, b :: (a, b) in after.blocks ==> after.blocks[(a, b)] == db.blocks[(a, if b == p then x else b)])
  }

  lemma ErasureLeavesBehind(db: Tables, x: nat, p: nat)
    requires CanErase(db, x, p)
    ensures Erase(db, x, p).Gone? && LeftBehind(db, Erase(db, x, p).db, x, p)
  {
    ErasedRows(db, x, p);
    hide Erase, CanErase, NoteHolds, HoldsAThread;
    var after := Erase(db, x, p).db;
    forall a, b | (a, b) in after.blocks
      ensures after.blocks[(a, b)] == db.blocks[(a, if b == p then x else b)]
    {
      assert (a, b).0 == a && (a, b).1 == b;
    }
  }

  lemma NoMoreAuthor(db: Tables, other: Tables, x: nat)
    requires other.notes == db.notes && !IsAuthor(db, x)
    ensures !IsAuthor(other, x)
  {
  }

  lemma NoteStillHolds(db: Tables, x: nat, p: nat, id: nat)
    requires CanErase(db, x, p) && Erase(db, x, p).Gone? && id in Erase(db, x, p).db.notes
    ensures NoteHolds(Erase(db, x, p).db, Erase(db, x, p).db.notes[id])
  {
    ErasedRows(db, x, p);
    hide Erase;
    assert NoteHolds(db, db.notes[id]);
    if db.notes[id].parent.Some? {
      assert db.notes[id].parent.value !in PrivateNotes(db, x);
    }
  }

  lemma BlocksStillHold(db: Tables, x: nat, p: nat)
    requires CanErase(db, x, p)
    ensures Erase(db, x, p).Gone?
    ensures var after := Erase(db, x, p).db;
            forall pair :: pair in after.blocks ==>
              && pair.0 in after.users && pair.1 in after.users && pair.0 != pair.1 && pair.0 != x && pair.1 != x
  {
    ErasedRows(db, x, p);
    hide Erase, NoteHolds, HoldsAThread, PrivateNotes;
    var after := Erase(db, x, p).db;
    forall a, b | (a, b) in after.blocks
      ensures a in after.users && b in after.users && a != b && a != x && b != x
    {
      assert (if b == p then (a, x) else (a, b)) in db.blocks;
    }
    assert forall pair :: pair in after.blocks ==> (pair.0, pair.1) in after.blocks;
  }

  lemma PublicNotesStay(db: Tables, x: nat, p: nat)
    requires CanErase(db, x, p)
    ensures Erase(db, x, p).Gone?
    ensures var after := Erase(db, x, p).db;
            && x !in after.users
            && (forall id :: id in after.notes ==> after.notes[id].author != x && after.notes[id].deletedBy != Some(x))
            && (forall id :: id in db.notes && (db.notes[id].author != x || db.notes[id].visibility == Public) ==>
                  id in after.notes && after.notes[id].text == db.notes[id].text)
  {
    ErasedRows(db, x, p);
    hide Erase, NoteHolds, HoldsAThread;
  }

  /** The tables still satisfy the schema, and the erased member is named nowhere in them. */
  lemma ErasureLeavesNoTrace(db: Tables, x: nat, p: nat)
    requires CanErase(db, x, p)
    ensures Erase(db, x, p).Gone?
    ensures var after := Erase(db, x, p).db;
            && SchemaHolds(after) && x !in after.users
            && (forall id :: id in after.notes ==> after.notes[id].author != x && after.notes[id].deletedBy != Some(x))
            && (forall pair :: pair in after.blocks ==> pair.0 != x && pair.1 != x)
            && (forall id :: id in db.notes && (db.notes[id].author != x || db.notes[id].visibility == Public) ==>
                  id in after.notes && after.notes[id].text == db.notes[id].text)
  {
    hide Erase, NoteHolds, CanErase;
    BlocksStillHold(db, x, p);
    PublicNotesStay(db, x, p);
    forall id | id in Erase(db, x, p).db.notes
      ensures NoteHolds(Erase(db, x, p).db, Erase(db, x, p).db.notes[id])
    {
      NoteStillHolds(db, x, p, id);
    }
  }

  /** The erasure goes through exactly when no thread hangs under one of the member's private notes. */
  lemma ErasureFailsExactlyOnAPrivateThread(db: Tables, x: nat, p: nat)
    requires SchemaHolds(db) && x in db.users && p !in db.users
    ensures Erase(db, x, p).Failed? <==>
            exists id :: id in db.notes && db.notes[id].parent.Some? && db.notes[id].parent.value in db.notes
                         && db.notes[db.notes[id].parent.value].author == x
                         && db.notes[db.notes[id].parent.value].visibility == Private
  {
    if !HoldsAThread(db, PrivateNotes(db, x)) {
      ErasedRows(db, x, p);
    }
    forall id | id in db.notes && db.notes[id].parent.Some?
      ensures id !in PrivateNotes(db, x)
    {
      assert NoteHolds(db, db.notes[id]);
    }
  }

  // Two members, a note of member 0 at the start of teaching 9, and perhaps a reply of member 1 under it.
  ghost const TWO_MEMBERS: map<nat, User> :=
    map[0 := User(Account(Member, true, false), "A", None), 1 := User(Account(Member, true, false), "B", None)]

  ghost function NoteOfZero(visibility: Visibility): Note {
    Note(9, 0, None, Some(0), visibility, Some("n"), 0, None, None, None)
  }

  ghost const REPLY_OF_ONE := Note(9, 1, Some(0), None, Public, Some("r"), 1, None, None, None)

  /** Tables the schema allows and the erasure is refused on: a reply under a private note. */
  lemma APrivateThreadStopsTheErasure()
    ensures var db := Tables(TWO_MEMBERS, map[0 := NoteOfZero(Private), 1 := REPLY_OF_ONE], map[]);
            SchemaHolds(db) && Erase(db, 0, 2).Failed?
  {
    var db := Tables(TWO_MEMBERS, map[0 := NoteOfZero(Private), 1 := REPLY_OF_ONE], map[]);
    assert db.notes[1].parent == Some(0) && db.notes[0].author == 0;
    ErasureFailsExactlyOnAPrivateThread(db, 0, 2);
  }

  // -------------------------------------------------------------------------------------------
  // What the others see
  // -------------------------------------------------------------------------------------------

  /** The tables as if the leaver had never blocked anybody. */
  ghost function WithoutBlocksBy(db: Tables, x: nat): Tables {
    db.(blocks := map pair | pair in db.blocks && pair.0 != x :: db.blocks[pair])
  }

  /** The leaver blocked this reader, who had not blocked them back. */
  ghost predicate OneSidedlyBlocked(db: Tables, x: nat, reader: nat) {
    (x, reader) in db.blocks && (reader, x) !in db.blocks
  }

  lemma BlocksAfter(db: Tables, x: nat, p: nat, reader: nat, author: nat)
    requires CanErase(db, x, p) && reader != x && reader != p && author in db.users
    ensures BlockBetween(Erase(db, x, p).db, reader, Renamed(author, x, p))
            <==> BlockBetween(WithoutBlocksBy(db, x), reader, author)
  {
    ErasedRows(db, x, p);
  }

  lemma LiveRepliesAfter(db: Tables, x: nat, p: nat, reader: nat, id: nat)
    requires CanErase(db, x, p) && reader != x && reader != p
    ensures LiveReplyFor(Erase(db, x, p).db, id, reader) <==> LiveReplyFor(WithoutBlocksBy(db, x), id, reader)
  {
    ErasedRows(db, x, p);
    if id in db.notes {
      assert NoteHolds(db, db.notes[id]);
      BlocksAfter(db, x, p, reader, db.notes[id].author);
    }
  }

  /** Each reader sees what they would have seen before without the leaver's own blocks. */
  lemma ListedAfter(db: Tables, x: nat, p: nat, recording: nat, reader: nat, id: nat)
    requires CanErase(db, x, p) && reader != x && reader != p
    ensures Listed(Erase(db, x, p).db, recording, reader, id) <==> Listed(WithoutBlocksBy(db, x), recording, reader, id)
  {
    var after := Erase(db, x, p).db;
    ErasedRows(db, x, p);
    if id in db.notes {
      assert NoteHolds(db, db.notes[id]);
      BlocksAfter(db, x, p, reader, db.notes[id].author);
      forall reply
        ensures reply in after.notes && after.notes[reply].parent == Some(id) && LiveReplyFor(after, reply, reader)
                <==> reply in db.notes && db.notes[reply].parent == Some(id)
                     && LiveReplyFor(WithoutBlocksBy(db, x), reply, reader)
      {
        LiveRepliesAfter(db, x, p, reader, reply);
      }
      assert HasLiveReply(after, id, reader) <==> HasLiveReply(WithoutBlocksBy(db, x), id, reader);
    }
  }

  /** The leaver's blocks make no difference to a reader they had not one-sidedly blocked. */
  lemma LeaversBlocksDoNotMatter(db: Tables, x: nat, recording: nat, reader: nat, id: nat)
    requires reader != x && !OneSidedlyBlocked(db, x, reader)
    ensures Listed(WithoutBlocksBy(db, x), recording, reader, id) <==> Listed(db, recording, reader, id)
    ensures LiveReplyFor(WithoutBlocksBy(db, x), id, reader) <==> LiveReplyFor(db, id, reader)
  {
    var bare := WithoutBlocksBy(db, x);
    assert forall author :: BlockBetween(bare, reader, author) <==> BlockBetween(db, reader, author);
    assert forall reply :: LiveReplyFor(bare, reply, reader) <==> LiveReplyFor(db, reply, reader);
    assert HasLiveReply(bare, id, reader) <==> HasLiveReply(db, id, reader);
  }

  lemma ViewAfter(db: Tables, x: nat, p: nat, id: nat)
    requires CanErase(db, x, p) && id in Erase(db, x, p).db.notes
    ensures id in db.notes && db.notes[id].author in db.users
    ensures SchemaHolds(Erase(db, x, p).db)
    ensures View(Erase(db, x, p).db, id) == RenamedView(View(db, id), x, p)
  {
    ErasedRows(db, x, p);
    ErasureLeavesNoTrace(db, x, p);
    assert NoteHolds(db, db.notes[id]);
  }

  /**
   * For every reader the leaver had not one-sidedly blocked, the notes of every recording are the
   * same list in the same order, tombstones included, with the leaver replaced by the placeholder.
   */
  lemma ReadersSeeTheSameNotes(db: Tables, x: nat, p: nat, recording: nat, reader: nat, ids: seq<nat>)
    requires CanErase(db, x, p) && reader != x && reader != p && !OneSidedlyBlocked(db, x, reader)
    ensures IsNoteList(Erase(db, x, p).db, recording, reader, ids) <==> IsNoteList(db, recording, reader, ids)
    ensures IsNoteList(db, recording, reader, ids) ==>
              forall k :: 0 <= k < |ids| ==>
                SameRow(db, x, p, ids[k])
  {
    var after := Erase(db, x, p).db;
    ErasedRows(db, x, p);
    forall id
      ensures Listed(after, recording, reader, id) <==> Listed(db, recording, reader, id)
    {
      ListedAfter(db, x, p, recording, reader, id);
      LeaversBlocksDoNotMatter(db, x, recording, reader, id);
    }
    if forall id :: id in ids <==> Listed(db, recording, reader, id) {
      forall k | 0 <= k < |ids|
        ensures SameRow(db, x, p, ids[k])
      {
        assert ids[k] in ids;
        ViewAfter(db, x, p, ids[k]);
      }
      assert ByPosition(after, ids) <==> ByPosition(db, ids);
    }
  }

  /** The row is there before and after, and reads the same but for the name. */
  ghost predicate SameRow(db: Tables, x: nat, p: nat, id: nat) {
    && Erase(db, x, p).Gone?
    && id in db.notes && db.notes[id].author in db.users
    && id in Erase(db, x, p).db.notes && Erase(db, x, p).db.notes[id].author in Erase(db, x, p).db.users
    && View(Erase(db, x, p).db, id) == RenamedView(View(db, id), x, p)
  }

  /** And the threads under any notes are the same lists, renamed. */
  lemma ReadersSeeTheSameReplies(db: Tables, x: nat, p: nat, parents: set<nat>, reader: nat, ids: seq<nat>)
    requires CanErase(db, x, p) && reader != x && reader != p && !OneSidedlyBlocked(db, x, reader)
    ensures IsReplyList(Erase(db, x, p).db, parents, reader, ids) <==> IsReplyList(db, parents, reader, ids)
    ensures IsReplyList(db, parents, reader, ids) ==> forall k :: 0 <= k < |ids| ==> SameRow(db, x, p, ids[k])
  {
    var after := Erase(db, x, p).db;
    ErasedRows(db, x, p);
    forall id
      ensures ListedReply(after, parents, reader, id) <==> ListedReply(db, parents, reader, id)
    {
      LiveRepliesAfter(db, x, p, reader, id);
      LeaversBlocksDoNotMatter(db, x, 0, reader, id);
    }
    if forall id :: id in ids <==> ListedReply(db, parents, reader, id) {
      forall k | 0 <= k < |ids|
        ensures SameRow(db, x, p, ids[k])
      {
        assert ids[k] in ids;
        ViewAfter(db, x, p, ids[k]);
      }
      assert ByThread(after, ids) <==> ByThread(db, ids);
    }
  }

  /** A reader who had blocked the leaver still sees nothing of theirs. */
  lemma ABlockOutlivesItsMember(db: Tables, x: nat, p: nat, recording: nat, reader: nat, id: nat)
    requires CanErase(db, x, p) && (reader, x) in db.blocks && reader != p
    requires id in db.notes && db.notes[id].author == x
    ensures !Listed(Erase(db, x, p).db, recording, reader, id) && !LiveReplyFor(Erase(db, x, p).db, id, reader)
  {
    assert reader != x;
    ListedAfter(db, x, p, recording, reader, id);
    LiveRepliesAfter(db, x, p, reader, id);
  }

  /** A note of the leaver's that only the leaver's own block keeps from this reader. */
  ghost predicate Uncovered(db: Tables, x: nat, reader: nat, id: nat) {
    && OneSidedlyBlocked(db, x, reader)
    && id in db.notes && db.notes[id].author == x
    && (Listed(WithoutBlocksBy(db, x), db.notes[id].recording, reader, id)
        || LiveReplyFor(WithoutBlocksBy(db, x), id, reader))
  }

  /** Exactly whose view changes: the readers for whom the leaver's own block was hiding something. */
  lemma ViewsChangeExactlyForTheUncovered(db: Tables, x: nat, p: nat, reader: nat)
    requires CanErase(db, x, p) && reader != x && reader != p
    ensures (&& (forall recording, id :: Listed(Erase(db, x, p).db, recording, reader, id) <==> Listed(db, recording, reader, id))
             && (forall id :: LiveReplyFor(Erase(db, x, p).db, id, reader) <==> LiveReplyFor(db, id, reader)))
            <==> !exists id :: Uncovered(db, x, reader, id)
  {
    var after, bare := Erase(db, x, p).db, WithoutBlocksBy(db, x);
    forall recording, id
      ensures Listed(after, recording, reader, id) <==> Listed(bare, recording, reader, id)
    {
      ListedAfter(db, x, p, recording, reader, id);
    }
    forall id
      ensures LiveReplyFor(after, id, reader) <==> LiveReplyFor(bare, id, reader)
    {
      LiveRepliesAfter(db, x, p, reader, id);
    }
    if !OneSidedlyBlocked(db, x, reader) {
      forall recording, id
        ensures Listed(bare, recording, reader, id) <==> Listed(db, recording, reader, id)
        ensures LiveReplyFor(bare, id, reader) <==> LiveReplyFor(db, id, reader)
      {
        LeaversBlocksDoNotMatter(db, x, recording, reader, id);
      }
    } else if id :| Uncovered(db, x, reader, id) {
      assert BlockBetween(db, reader, db.notes[id].author);
      assert !Listed(db, db.notes[id].recording, reader, id) && !LiveReplyFor(db, id, reader);
    } else {
      NothingUncovered(db, x, reader);
    }
  }

  /** If the leaver's block hid nothing, lifting it shows nothing. */
  lemma NothingUncovered(db: Tables, x: nat, reader: nat)
    requires OneSidedlyBlocked(db, x, reader) && forall id :: !Uncovered(db, x, reader, id)
    ensures forall recording, id ::
              Listed(WithoutBlocksBy(db, x), recording, reader, id) <==> Listed(db, recording, reader, id)
    ensures forall id :: LiveReplyFor(WithoutBlocksBy(db, x), id, reader) <==> LiveReplyFor(db, id, reader)
  {
    var bare := WithoutBlocksBy(db, x);
    assert forall author :: author != x ==> (BlockBetween(bare, reader, author) <==> BlockBetween(db, reader, author));
    forall id
      ensures LiveReplyFor(bare, id, reader) <==> LiveReplyFor(db, id, reader)
    {
      assert !Uncovered(db, x, reader, id);
    }
    forall recording, id
      ensures Listed(bare, recording, reader, id) <==> Listed(db, recording, reader, id)
    {
      assert !Uncovered(db, x, reader, id);
      assert HasLiveReply(bare, id, reader) <==> HasLiveReply(db, id, reader);
    }
  }

  /** A reader the leaver had blocked, who sees the leaver's note once the account is gone. */
  lemma ALiftedBlockShowsANote()
    ensures var db := Tables(TWO_MEMBERS, map[0 := NoteOfZero(Public)], map[(0, 1) := 5]);
            && CanErase(db, 0, 2) && Uncovered(db, 0, 1, 0)
            && !Listed(db, 9, 1, 0) && Listed(Erase(db, 0, 2).db, 9, 1, 0)
  {
    var db := Tables(TWO_MEMBERS, map[0 := NoteOfZero(Public)], map[(0, 1) := 5]);
    assert (0, 1) in db.blocks && db.notes[0].author == 0;
    ListedAfter(db, 0, 2, 9, 1, 0);
  }
}
