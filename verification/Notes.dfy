/**
 * Notes, blocks and who sees what (packages/db/src/notes.ts, packages/db/src/member-blocks.ts).
 */
module Notes {
  import opened Runs
  import Ordering
  import opened Accounts

  datatype Visibility = Public | Private

  datatype Note = Note(
    recording: nat, author: nat, parent: Option<nat>, timestampMs: Option<nat>, visibility: Visibility,
    text: Option<string>, createdAt: int, editedAt: Option<int>, deletedAt: Option<int>, deletedBy: Option<nat>)

  datatype User = User(account: Account, displayName: string, avatarKey: Option<string>)

  /** The `user`, `note` and `member_block` tables; a block maps (blocker, blocked) to its date. */
  datatype Tables = Tables(users: map<nat, User>, notes: map<nat, Note>, blocks: map<(nat, nat), int>)

  /** The keys and checks of the schema that the reads and the erasure rely on. */
  ghost predicate SchemaHolds(db: Tables) {
    && (forall id :: id in db.notes ==> NoteHolds(db, db.notes[id]))
    && (forall pair :: pair in db.blocks ==> pair.0 in db.users && pair.1 in db.users && pair.0 != pair.1)
  }

  ghost predicate NoteHolds(db: Tables, n: Note) {
    && n.author in db.users
    && (n.deletedBy.Some? ==> n.deletedBy.value in db.users)
    && (n.parent.Some? ==> n.parent.value in db.notes && db.notes[n.parent.value].parent.None?)
    && (n.parent.None? <==> n.timestampMs.Some?)
    && (n.parent.Some? ==> n.visibility == Public)
    && (n.text.None? <==> n.deletedAt.Some?)
  }

  // -------------------------------------------------------------------------------------------
  // The reads
  // -------------------------------------------------------------------------------------------

  predicate BlockBetween(db: Tables, viewer: nat, other: nat) {
    (viewer, other) in db.blocks || (other, viewer) in db.blocks
  }

  predicate ReadableBy(n: Note, reader: nat) {
    n.visibility == Public || n.author == reader
  }

  /** A reply nobody has deleted, by somebody the reader has no block with. */
  predicate LiveReplyFor(db: Tables, id: nat, reader: nat) {
    id in db.notes && db.notes[id].parent.Some? && db.notes[id].deletedAt.None?
    && !BlockBetween(db, reader, db.notes[id].author)
  }

  predicate HasLiveReply(db: Tables, id: nat, reader: nat) {
    exists reply :: reply in db.notes && db.notes[reply].parent == Some(id) && LiveReplyFor(db, reply, reader)
  }

  /** The `where` of `listNotesForReader`. */
  predicate Listed(db: Tables, recording: nat, reader: nat, id: nat) {
    && id in db.notes
    && db.notes[id].recording == recording
    && db.notes[id].parent.None?
    && ReadableBy(db.notes[id], reader)
    && !BlockBetween(db, reader, db.notes[id].author)
    && (db.notes[id].deletedAt.None? || HasLiveReply(db, id, reader))
  }

  /** The `where` of `listRepliesForNotes`. */
  predicate ListedReply(db: Tables, parents: set<nat>, reader: nat, id: nat) {
    LiveReplyFor(db, id, reader) && db.notes[id].parent.value in parents
  }

  /** What a reader is shown of a row; who removed it is never sent. */
  datatype NoteView = NoteView(
    id: nat, recording: nat, author: nat, parent: Option<nat>, timestampMs: Option<nat>, visibility: Visibility,
    text: Option<string>, createdAt: int, editedAt: Option<int>, deletedAt: Option<int>,
    authorDisplayName: string, authorAvatarKey: Option<string>)

  function View(db: Tables, id: nat): NoteView
    requires id in db.notes && db.notes[id].author in db.users
  {
    var n := db.notes[id];
    var author := db.users[n.author];
    NoteView(id, n.recording, n.author, n.parent, n.timestampMs, n.visibility, n.text, n.createdAt, n.editedAt,
             n.deletedAt, author.displayName, author.avatarKey)
  }

  /** `timestamp_ms asc, created_at asc`; rows equal in both may come back either way round. */
  ghost predicate ByPosition(db: Tables, ids: seq<nat>) {
    forall i, j :: 0 <= i < j < |ids| && ids[i] in db.notes && ids[j] in db.notes ==>
      var a, b := db.notes[ids[i]], db.notes[ids[j]];
      a.timestampMs.Some? && b.timestampMs.Some? ==>
        a.timestampMs.value < b.timestampMs.value
        || (a.timestampMs == b.timestampMs && a.createdAt <= b.createdAt)
  }

  /** `parent_id asc, created_at asc`. */
  ghost predicate ByThread(db: Tables, ids: seq<nat>) {
    forall i, j :: 0 <= i < j < |ids| && ids[i] in db.notes && ids[j] in db.notes ==>
      var a, b := db.notes[ids[i]], db.notes[ids[j]];
      a.parent.Some? && b.parent.Some? ==>
        a.parent.value < b.parent.value || (a.parent == b.parent && a.createdAt <= b.createdAt)
  }

  /** `ids` is an answer of `listNotesForReader`: the listed notes, each once, in order. */
  ghost predicate IsNoteList(db: Tables, recording: nat, reader: nat, ids: seq<nat>) {
    Ordering.Distinct(ids) && ByPosition(db, ids) && forall id :: id in ids <==> Listed(db, recording, reader, id)
  }

  /** `ids` is an answer of `listRepliesForNotes`. */
  ghost predicate IsReplyList(db: Tables, parents: set<nat>, reader: nat, ids: seq<nat>) {
    Ordering.Distinct(ids) && ByThread(db, ids) && forall id :: id in ids <==> ListedReply(db, parents, reader, id)
  }

  /** A block hides each of the two from the other, whichever of them placed it. */
  lemma BlocksAreSymmetric(db: Tables, a: nat, b: nat, recording: nat, id: nat)
    requires BlockBetween(db, a, b)
    ensures BlockBetween(db, b, a)
    ensures id in db.notes && db.notes[id].author == b ==> !Listed(db, recording, a, id) && !LiveReplyFor(db, id, a)
    ensures id in db.notes && db.notes[id].author == a ==> !Listed(db, recording, b, id) && !LiveReplyFor(db, id, b)
  {
  }

  /** A note somebody else marked private is in nobody's list but its author's. */
  lemma PrivateNotesStayPrivate(db: Tables, recording: nat, reader: nat, ids: seq<nat>, k: nat)
    requires SchemaHolds(db) && IsNoteList(db, recording, reader, ids) && k < |ids|
    ensures ids[k] in db.notes && (db.notes[ids[k]].visibility == Private ==> View(db, ids[k]).author == reader)
    ensures View(db, ids[k]).deletedAt.Some? ==>
              exists reply :: ListedReply(db, {ids[k]}, reader, reply)
  {
    assert ids[k] in ids;
    if View(db, ids[k]).deletedAt.Some? {
      var reply :| reply in db.notes && db.notes[reply].parent == Some(ids[k]) && LiveReplyFor(db, reply, reader);
      assert ListedReply(db, {ids[k]}, reader, reply);
    }
  }

  /** Nobody has blocked the other, in the table itself. */
  ghost predicate Unblocked(db: Tables, a: nat, b: nat) {
    forall pair :: pair in db.blocks ==> pair != (a, b) && pair != (b, a)
  }

  /** A row of a list shows the note it stands for, under its author's name, and nothing of a removed text. */
  ghost predicate Shows(db: Tables, id: nat, v: NoteView) {
    && id in db.notes && db.notes[id].author in db.users
    && v.id == id && v.recording == db.notes[id].recording && v.author == db.notes[id].author
    && v.parent == db.notes[id].parent && v.timestampMs == db.notes[id].timestampMs
    && v.visibility == db.notes[id].visibility && v.text == db.notes[id].text
    && v.createdAt == db.notes[id].createdAt && v.editedAt == db.notes[id].editedAt
    && v.deletedAt == db.notes[id].deletedAt
    && v.authorDisplayName == db.users[v.author].displayName && v.authorAvatarKey == db.users[v.author].avatarKey
    && (v.deletedAt.Some? ==> v.text.None?)
  }

  /**
   * Exactly what a note list holds: every top-level note of the teaching that is public or the
   * reader's own, with no block either way between reader and author, and that is undeleted or has an
   * undeleted reply by somebody with no block either way with the reader; each once, by position and
   * then by when it was written.
   */
  lemma NoteListIsExactly(db: Tables, recording: nat, reader: nat, ids: seq<nat>)
    requires SchemaHolds(db) && IsNoteList(db, recording, reader, ids)
    ensures forall id :: id in ids <==>
              && id in db.notes && db.notes[id].recording == recording && db.notes[id].parent == None
              && (db.notes[id].visibility == Public || db.notes[id].author == reader)
              && Unblocked(db, reader, db.notes[id].author)
              && (db.notes[id].deletedAt == None ||
                  exists reply :: reply in db.notes && db.notes[reply].parent == Some(id)
                                  && db.notes[reply].deletedAt == None && Unblocked(db, reader, db.notes[reply].author))
    ensures forall i, j :: 0 <= i < j < |ids| ==> ids[i] != ids[j]
    ensures forall k :: 0 <= k < |ids| ==> ids[k] in db.notes && db.notes[ids[k]].timestampMs.Some?
    ensures forall k :: 0 <= k < |ids| ==> db.notes[ids[k]].author in db.users && Shows(db, ids[k], View(db, ids[k]))
    ensures forall i, j :: 0 <= i < j < |ids| ==>
              var a, b := db.notes[ids[i]], db.notes[ids[j]];
              a.timestampMs.value < b.timestampMs.value
              || (a.timestampMs.value == b.timestampMs.value && a.createdAt <= b.createdAt)
  {
    forall k | 0 <= k < |ids|
      ensures ids[k] in db.notes && NoteHolds(db, db.notes[ids[k]]) && db.notes[ids[k]].timestampMs.Some?
    {
      assert ids[k] in ids;
      assert NoteHolds(db, db.notes[ids[k]]);
    }
    forall id
      ensures Listed(db, recording, reader, id) <==>
              && id in db.notes && db.notes[id].recording == recording && db.notes[id].parent == None
              && (db.notes[id].visibility == Public || db.notes[id].author == reader)
              && Unblocked(db, reader, db.notes[id].author)
              && (db.notes[id].deletedAt == None ||
                  exists reply :: reply in db.notes && db.notes[reply].parent == Some(id)
                                  && db.notes[reply].deletedAt == None && Unblocked(db, reader, db.notes[reply].author))
    {
      forall other
        ensures Unblocked(db, reader, other) <==> !BlockBetween(db, reader, other)
      {
        UnblockedIs(db, reader, other);
      }
    }
  }

  lemma UnblockedIs(db: Tables, a: nat, b: nat)
    ensures Unblocked(db, a, b) <==> !BlockBetween(db, a, b)
  {
  }

  /** And a reply list: every undeleted reply under those notes by somebody with no block either way, thread by thread, oldest first. */
  lemma ReplyListIsExactly(db: Tables, parents: set<nat>, reader: nat, ids: seq<nat>)
    requires SchemaHolds(db) && IsReplyList(db, parents, reader, ids)
    ensures forall id :: id in ids <==>
              && id in db.notes && db.notes[id].deletedAt == None && Unblocked(db, reader, db.notes[id].author)
              && exists parent :: parent in parents && db.notes[id].parent == Some(parent)
    ensures forall i, j :: 0 <= i < j < |ids| ==> ids[i] != ids[j]
    ensures forall k :: 0 <= k < |ids| ==> ids[k] in db.notes && db.notes[ids[k]].parent.Some?
    ensures forall k :: 0 <= k < |ids| ==> db.notes[ids[k]].author in db.users && Shows(db, ids[k], View(db, ids[k]))
    ensures forall i, j :: 0 <= i < j < |ids| ==>
              var a, b := db.notes[ids[i]], db.notes[ids[j]];
              a.parent.value < b.parent.value || (a.parent.value == b.parent.value && a.createdAt <= b.createdAt)
  {
    forall k | 0 <= k < |ids|
      ensures ids[k] in db.notes && NoteHolds(db, db.notes[ids[k]]) && db.notes[ids[k]].parent.Some?
    {
      assert ids[k] in ids;
      assert NoteHolds(db, db.notes[ids[k]]);
    }
    forall id
      ensures ListedReply(db, parents, reader, id) <==>
              && id in db.notes && db.notes[id].deletedAt == None && Unblocked(db, reader, db.notes[id].author)
              && exists parent :: parent in parents && db.notes[id].parent == Some(parent)
    {
      if id in db.notes {
        UnblockedIs(db, reader, db.notes[id].author);
      }
    }
  }
}
