/**
 * Client runs of the service: the end-to-end flow of tests/test.js, reads
 * served from the cache, and sharing twice. Each proves what a caller can
 * conclude from the operations' contracts alone.
 */
module Scenarios {
  import opened Wrappers
  import opened Notes
  import opened NoteService

  /** Two registered users, `testuser` (id U1) and `testuser2` (id U2). */
  method TwoUsers(U1: UserId, U2: UserId) returns (s: NoteStore)
    requires U1 != U2
    ensures fresh(s) && s.Valid()
    ensures s.notes == map[] && s.cache == map[]
    ensures s.users == map[U1 := User("testuser", []), U2 := User("testuser2", [])]
  {
    s := new NoteStore(map[U1 := User("testuser", []), U2 := User("testuser2", [])]);
  }

  /** The flow of tests/test.js: create, list, read, update, a share attempt by
    * the second user (who owns nothing), a search, and delete. The list holds the
    * one new note; the read after the update is still the snapshot cached at
    * creation; the search reaches the service with no query (the controller reads
    * a parameter the client does not send) while the index is unreachable, and
    * so returns the updated note; after the delete no user lists the note. */
  method EndToEnd(U1: UserId, U2: UserId, N1: NoteId) returns (
    listed: Result<seq<NoteDoc>, ServiceError>,
    updated: Result<NoteDoc, ServiceError>,
    readAfterUpdate: Result<NoteDoc, ServiceError>,
    shareByOther: Outcome<ServiceError>,
    found: seq<NoteDoc>,
    deleted: Outcome<ServiceError>,
    referencing: set<UserId>)
    requires IsValidObjectId(U1) && IsValidObjectId(U2) && IsValidObjectId(N1) && U1 != U2
    ensures listed == Ok([NoteDoc(N1, Note("Test Note", "This is a test note", U1, []))])
    ensures updated == Ok(NoteDoc(N1, Note("Updated Note", "This note has been updated", U1, [])))
    ensures readAfterUpdate == Ok(NoteDoc(N1, Note("Test Note", "This is a test note", U1, [])))
    ensures shareByOther == Fail(NoteNotFound)
    ensures found == [NoteDoc(N1, Note("Updated Note", "This note has been updated", U1, []))]
    ensures deleted == Pass
    ensures referencing == {}
  {
    var s := TwoUsers(U1, U2);
    listed := CreateAndList(s, U1, U2, N1);

    updated := s.UpdateNote(N1, "Updated Note", "This note has been updated", U1);
    ghost var target;
    shareByOther, target := s.ShareNote(N1, "testuser2", U2);
    readAfterUpdate := s.GetNoteById(N1, U1);

    found := SearchWithoutQuery(s, U1, N1);

    deleted := s.DeleteNote(N1, U1);
    referencing := set u | u in s.users && N1 in s.users[u].notes;
    assert forall u :: u !in referencing;
  }

  /** The first steps of tests/test.js on two fresh users: the first user creates
    * a note, lists its notes and reads the note back; the note is then stored,
    * listed and cached under its key. */
  method CreateAndList(s: NoteStore, U1: UserId, U2: UserId, N1: NoteId)
    returns (listed: Result<seq<NoteDoc>, ServiceError>)
    requires IsValidObjectId(U1) && IsValidObjectId(N1) && U1 != U2
    requires s.Valid() && s.notes == map[] && s.cache == map[]
    requires s.users == map[U1 := User("testuser", []), U2 := User("testuser2", [])]
    modifies s
    ensures s.Valid()
    ensures listed == Ok([NoteDoc(N1, Note("Test Note", "This is a test note", U1, []))])
    ensures s.notes == map[N1 := Note("Test Note", "This is a test note", U1, [])]
    ensures NoteKey(N1) in s.cache && s.cache[NoteKey(N1)] == NoteSnap(NoteDoc(N1, s.notes[N1]))
  {
    var note := Note("Test Note", "This is a test note", U1, []);
    var created := s.CreateNote("Test Note", "This is a test note", U1, N1);

    NoteKeyIsNoListKey(N1);
    listed := s.GetNotes(U1);
    SingletonSelection(listed.value, s.notes, OwnedBy(U1), N1);

    var read := s.GetNoteById(N1, U1);
    assert read == Ok(NoteDoc(N1, note));
  }

  /** A search that reaches the service with no query while the index is
    * unreachable, by the owner of the only stored note, returns that note. */
  method SearchWithoutQuery(s: NoteStore, ownerId: UserId, noteId: NoteId) returns (found: seq<NoteDoc>)
    requires s.notes.Keys == {noteId} && s.notes[noteId].owner == ownerId
    ensures found == [NoteDoc(noteId, s.notes[noteId])]
  {
    found := s.SearchNotes("", ownerId, IndexUnavailable);
    EmptyQueryMatchesEverything(s.notes[noteId]);
    SingletonSelection(found, s.notes, MatchingVisibleTo("", ownerId), noteId);
  }

  /** A note cached at creation is returned to a user it was never shared with,
    * and still after it has been deleted. */
  method CacheHitSkipsAuthorization(U1: UserId, U2: UserId, N1: NoteId) returns (
    byStranger: Result<NoteDoc, ServiceError>,
    afterDelete: Result<NoteDoc, ServiceError>)
    requires IsValidObjectId(U1) && IsValidObjectId(U2) && IsValidObjectId(N1) && U1 != U2
    ensures byStranger == Ok(NoteDoc(N1, Note("Private", "Only for u1", U1, [])))
    ensures afterDelete == byStranger
  {
    var s := TwoUsers(U1, U2);
    var created := s.CreateNote("Private", "Only for u1", U1, N1);
    byStranger := s.GetNoteById(N1, U2);
    var deleted := s.DeleteNote(N1, U1);
    afterDelete := s.GetNoteById(N1, U2);
  }

  /** Once the cache has lost the snapshot (a restart, an eviction) the same
    * read is refused. */
  method MissChecksAuthorization(U1: UserId, U2: UserId, N1: NoteId) returns (byStranger: Result<NoteDoc, ServiceError>, byOwner: Result<NoteDoc, ServiceError>)
    requires IsValidObjectId(U1) && IsValidObjectId(U2) && IsValidObjectId(N1) && U1 != U2
    ensures byStranger == Err(NotAuthorized)
    ensures byOwner == Ok(NoteDoc(N1, Note("Private", "Only for u1", U1, [])))
  {
    var s := TwoUsers(U1, U2);
    var created := s.CreateNote("Private", "Only for u1", U1, N1);
    s.cache := map[];  // the cache is emptied
    byStranger := s.GetNoteById(N1, U2);
    byOwner := s.GetNoteById(N1, U1);
  }

  /** Sharing is idempotent: a second identical share returns what the first did
    * and leaves the state the first call produced (`notesOnce`, `usersOnce`,
    * `cacheOnce`) as it was. A failed first share changed nothing; a successful
    * one left the user with that username among the note's sharees. */
  method ShareTwice(s: NoteStore, noteId: NoteId, username: string, ownerId: UserId)
    returns (r1: Outcome<ServiceError>, r2: Outcome<ServiceError>,
             ghost notesOnce: map<NoteId, Note>, ghost usersOnce: map<UserId, User>,
             ghost cacheOnce: map<string, Snapshot>)
    requires s.Valid()
    modifies s
    ensures s.Valid()
    ensures r2 == r1
    ensures s.notes == notesOnce && s.users == usersOnce && s.cache == cacheOnce
    ensures r1.Fail? ==> notesOnce == old(s.notes) && usersOnce == old(s.users) && cacheOnce == old(s.cache)
    ensures r1.Pass? ==> (noteId in s.notes &&
      exists t :: t in s.notes[noteId].sharedWith && t in s.users && s.users[t].username == username)
  {
    ghost var t1, t2;
    r1, t1 := s.ShareNote(noteId, username, ownerId);
    notesOnce, usersOnce, cacheOnce := s.notes, s.users, s.cache;
    if r1.Pass? || r1 == Fail(SelfShare) {
      assert s.OwnsNote(noteId, ownerId);
      assert t1 in s.users && s.users[t1].username == username;
      assert s.HasUsername(username);
    }
    r2, t2 := s.ShareNote(noteId, username, ownerId);
    if r1.Pass? || r1 == Fail(SelfShare) {
      // the username resolves to the same user both times
      assert t1 == t2;
    }
    if r1.Pass? {
      assert t1 in s.notes[noteId].sharedWith && t1 in s.users && s.users[t1].username == username;
    }
  }
}
