/**
 * The note service of src/services/noteService.js: seven operations over a
 * note store, a user store and a key-value cache, with the search index as an
 * oracle that may be unavailable.
 */
module NoteService {
  import opened Wrappers
  import opened Notes

  // ---------------------------------------------------------------------------
  // Cache keys and cached values
  // ---------------------------------------------------------------------------

  const NotePrefix: string := "note:"
  const UserNotesPrefix: string := "userNotes:"

  /** The key a single note is cached under. */
  function NoteKey(id: NoteId): string { NotePrefix + id }

  /** The key an owner's note list is cached under. */
  function UserNotesKey(u: UserId): string { UserNotesPrefix + u }

  /** Distinct notes have distinct keys. */
  lemma NoteKeyInjective(a: NoteId, b: NoteId)
    requires NoteKey(a) == NoteKey(b)
    ensures a == b
  {
    assert a == NoteKey(a)[|NotePrefix|..];
    assert b == NoteKey(b)[|NotePrefix|..];
  }

  /** Distinct users have distinct list keys. */
  lemma UserNotesKeyInjective(a: UserId, b: UserId)
    requires UserNotesKey(a) == UserNotesKey(b)
    ensures a == b
  {
    assert a == UserNotesKey(a)[|UserNotesPrefix|..];
    assert b == UserNotesKey(b)[|UserNotesPrefix|..];
  }

  /** A note key never looks like a list key: they differ in their first character. */
  lemma NoteKeyIsNoListKey(id: NoteId)
    ensures !(UserNotesPrefix <= NoteKey(id))
  {
    assert NoteKey(id)[0] == 'n' && UserNotesPrefix[0] == 'u';
  }

  /** A cached value: the JSON of one note document or of a list of them, read
    * back exactly as it was written. */
  datatype Snapshot = NoteSnap(doc: NoteDoc) | ListSnap(docs: seq<NoteDoc>)

  /** What the service ever writes into the cache: a note under its own id's key,
    * and under a list key only notes owned by that key's user. */
  ghost predicate CacheEntryOk(k: string, v: Snapshot) {
    match v
    case NoteSnap(d) => k == NoteKey(d.id)
    case ListSnap(ds) =>
      UserNotesPrefix <= k && forall i | 0 <= i < |ds| :: k == UserNotesKey(ds[i].note.owner)
  }

  ghost predicate CacheWellFormed(cache: map<string, Snapshot>) {
    forall k | k in cache :: CacheEntryOk(k, cache[k])
  }

  // ---------------------------------------------------------------------------
  // Errors and the search index
  // ---------------------------------------------------------------------------

  /** The errors the service raises. */
  datatype ServiceError =
    | InvalidId          // 'Invalid note ID', 'Invalid userId', 'Invalid noteId or ownerId', or a cast error on an id
    | NoteNotFound       // 'Note not found'
    | NotOwned           // 'Note not found or user does not own the note'
    | NotAuthorized      // 'You are not authorized to update this note' / '... to see the notes'
    | UserNotFound       // 'User not found'
    | SelfShare          // 'Cannot share a note with yourself'
    | ValidationFailed   // the schema's `required` title or content is empty

  /** What the search index answers: its hits, or a failure of any kind. */
  datatype IndexReply = IndexHits(hits: seq<NoteDoc>) | IndexUnavailable

  // ---------------------------------------------------------------------------
  // The service
  // ---------------------------------------------------------------------------

  class NoteStore {
    /** The note collection, by `_id`. */
    var notes: map<NoteId, Note>
    /** The user collection, by `_id`. */
    var users: map<UserId, User>
    /** The key-value cache. */
    var cache: map<string, Snapshot>

    ghost predicate Valid()
      reads this
    {
      StoreConsistent(notes, users) && UsernamesUnique(users) && CacheWellFormed(cache)
    }

    /** A service over registered users who have no notes yet, with an empty cache. */
    constructor (registered: map<UserId, User>)
      requires forall u | u in registered :: registered[u].notes == []
      requires UsernamesUnique(registered)
      ensures Valid()
      ensures notes == map[] && users == registered && cache == map[]
    {
      notes := map[];
      users := registered;
      cache := map[];
    }

    /** Note.find(f): a scan of the collection in an unspecified order. */
    method Find(f: NoteFilter) returns (docs: seq<NoteDoc>)
      ensures IsSelection(docs, notes, f)
    {
      docs := [];
      var remaining := notes.Keys;
      while remaining != {}
        invariant remaining <= notes.Keys
        invariant forall i | 0 <= i < |docs| ::
          docs[i].id in notes && notes[docs[i].id] == docs[i].note && Accepts(f, docs[i].note)
          && docs[i].id !in remaining
        invariant forall id | id in notes && id !in remaining && Accepts(f, notes[id]) ::
          NoteDoc(id, notes[id]) in docs
        invariant forall i, j | 0 <= i < j < |docs| :: docs[i].id != docs[j].id
        decreases remaining
      {
        var id :| id in remaining;
        if Accepts(f, notes[id]) {
          docs := docs + [NoteDoc(id, notes[id])];
        }
        remaining := remaining - {id};
      }
    }

    /** createNote: the owner must exist; the new note gets the store-allocated
      * id `newId`, is cached under its key, and is appended to the owner's list. */
    method CreateNote(title: string, content: string, ownerId: UserId, newId: NoteId)
      returns (r: Result<NoteDoc, ServiceError>)
      requires Valid()
      requires newId !in notes && IsValidObjectId(newId)
      modifies this
      ensures Valid()
      ensures !IsValidObjectId(ownerId) ==> r == Err(InvalidId)
      ensures IsValidObjectId(ownerId) && ownerId !in old(users) ==> r == Err(UserNotFound)
      ensures IsValidObjectId(ownerId) && ownerId in old(users) && (title == "" || content == "") ==>
        r == Err(ValidationFailed)
      ensures r.Err? ==> notes == old(notes) && users == old(users) && cache == old(cache)
      ensures IsValidObjectId(ownerId) && ownerId in old(users) && title != "" && content != "" ==>
        && r == Ok(NoteDoc(newId, Note(title, content, ownerId, [])))
        && notes == old(notes)[newId := r.value.note]
        && users == old(users)[ownerId := old(users)[ownerId].(notes := old(users)[ownerId].notes + [newId])]
        && cache == old(cache)[NoteKey(newId) := NoteSnap(r.value)]
    {
      if !IsValidObjectId(ownerId) {
        return Err(InvalidId);
      }
      if ownerId !in users {
        return Err(UserNotFound);
      }
      if title == "" || content == "" {
        return Err(ValidationFailed);
      }
      var saved := NoteDoc(newId, Note(title, content, ownerId, []));
      CreateKeepsConsistent(notes, users, newId, title, content, ownerId);
      notes := notes[newId := saved.note];
      cache := cache[NoteKey(newId) := NoteSnap(saved)];
      users := users[ownerId := users[ownerId].(notes := users[ownerId].notes + [newId])];
      r := Ok(saved);
    }

    /** updateNote: only the owner may change a note's title and content; the
      * sharing list, the users and the cache stay as they were. */
    method UpdateNote(noteId: NoteId, title: string, content: string, ownerId: UserId)
      returns (r: Result<NoteDoc, ServiceError>)
      requires Valid()
      modifies this`notes
      ensures Valid()
      ensures !IsValidObjectId(noteId) ==> r == Err(InvalidId)
      ensures IsValidObjectId(noteId) && noteId !in old(notes) ==> r == Err(NoteNotFound)
      ensures IsValidObjectId(noteId) && noteId in old(notes) && old(notes)[noteId].owner != ownerId ==>
        r == Err(NotAuthorized)
      ensures r.Err? ==> notes == old(notes)
      ensures IsValidObjectId(noteId) && noteId in old(notes) && old(notes)[noteId].owner == ownerId ==>
        && r == Ok(NoteDoc(noteId, old(notes)[noteId].(title := title, content := content)))
        && notes == old(notes)[noteId := r.value.note]
    {
      if !IsValidObjectId(noteId) {
        return Err(InvalidId);
      }
      if noteId !in notes {
        return Err(NoteNotFound);
      }
      if notes[noteId].owner != ownerId {
        return Err(NotAuthorized);
      }
      var updated := notes[noteId].(title := title, content := content);
      UpdateKeepsConsistent(notes, users, noteId, title, content);
      notes := notes[noteId := updated];
      r := Ok(NoteDoc(noteId, updated));
    }

    /** getNotes: a cached list is returned as it is; otherwise the user's own
      * notes (not those shared with it) are fetched and cached. */
    method GetNotes(userId: UserId) returns (r: Result<seq<NoteDoc>, ServiceError>)
      requires Valid()
      modifies this`cache
      ensures Valid()
      ensures UserNotesKey(userId) in old(cache) ==>
        r.Ok? && old(cache)[UserNotesKey(userId)] == ListSnap(r.value) && cache == old(cache)
      ensures UserNotesKey(userId) !in old(cache) && !IsValidObjectId(userId) ==>
        r == Err(InvalidId) && cache == old(cache)
      ensures UserNotesKey(userId) !in old(cache) && IsValidObjectId(userId) && userId !in users ==>
        r == Err(UserNotFound) && cache == old(cache)
      ensures UserNotesKey(userId) !in old(cache) && IsValidObjectId(userId) && userId in users ==>
        && r.Ok? && IsSelection(r.value, notes, OwnedBy(userId))
        && cache == old(cache)[UserNotesKey(userId) := ListSnap(r.value)]
      ensures r.Ok? ==> forall i | 0 <= i < |r.value| :: r.value[i].note.owner == userId
    {
      var key := UserNotesKey(userId);
      if key in cache {
        var cached := cache[key];
        assert CacheEntryOk(key, cached);
        if cached.NoteSnap? {
          NoteKeyIsNoListKey(cached.doc.id);
        }
        forall i | 0 <= i < |cached.docs| ensures cached.docs[i].note.owner == userId {
          UserNotesKeyInjective(cached.docs[i].note.owner, userId);
        }
        return Ok(cached.docs);
      }
      if !IsValidObjectId(userId) {
        return Err(InvalidId);
      }
      if userId !in users {
        return Err(UserNotFound);
      }
      var userNotes := Find(OwnedBy(userId));
      cache := cache[key := ListSnap(userNotes)];
      r := Ok(userNotes);
    }

    /** deleteNote: only a note matching both id and owner is deleted; its id is
      * then pulled from every user's list. The cache is not touched. */
    method DeleteNote(noteId: NoteId, ownerId: UserId) returns (r: Outcome<ServiceError>)
      requires Valid()
      modifies this`notes, this`users
      ensures Valid()
      ensures !IsValidObjectId(noteId) || !IsValidObjectId(ownerId) ==> r == Fail(InvalidId)
      ensures (IsValidObjectId(noteId) && IsValidObjectId(ownerId) && !old(OwnsNote(noteId, ownerId))) ==>
        r == Fail(NotOwned)
      ensures r.Fail? ==> notes == old(notes) && users == old(users)
      ensures (IsValidObjectId(noteId) && IsValidObjectId(ownerId) && old(OwnsNote(noteId, ownerId))) ==>
        && r.Pass?
        && notes == old(notes) - {noteId}
        && users == PullAll(old(users), noteId)
      ensures r.Pass? ==> forall u | u in users :: noteId !in users[u].notes
    {
      if !IsValidObjectId(noteId) || !IsValidObjectId(ownerId) {
        return Fail(InvalidId);
      }
      if !OwnsNote(noteId, ownerId) {
        return Fail(NotOwned);
      }
      DeleteKeepsConsistent(notes, users, noteId);
      notes := notes - {noteId};
      users := PullAll(users, noteId);
      r := Pass;
    }

    /** Note.findOne({ _id: noteId, owner: ownerId }) finds a note. */
    predicate OwnsNote(noteId: NoteId, ownerId: UserId)
      reads this
    {
      noteId in notes && notes[noteId].owner == ownerId
    }

    /** Some user has this username. */
    predicate HasUsername(username: string)
      reads this
    {
      exists u | u in users :: users[u].username == username
    }

    /** shareNote: the note must be the caller's, the username must resolve and
      * must not be the caller; sharing again with the same user changes nothing.
      * `target` is the user the username resolved to. */
    method ShareNote(noteId: NoteId, username: string, ownerId: UserId)
      returns (r: Outcome<ServiceError>, ghost target: UserId)
      requires Valid()
      modifies this
      ensures Valid()
      ensures !IsValidObjectId(noteId) || !IsValidObjectId(ownerId) ==> r == Fail(InvalidId)
      ensures (IsValidObjectId(noteId) && IsValidObjectId(ownerId) && !old(OwnsNote(noteId, ownerId))) ==>
        r == Fail(NoteNotFound)
      ensures (IsValidObjectId(noteId) && IsValidObjectId(ownerId) && old(OwnsNote(noteId, ownerId))
               && !old(HasUsername(username))) ==>
        r == Fail(UserNotFound)
      ensures (IsValidObjectId(noteId) && IsValidObjectId(ownerId) && old(OwnsNote(noteId, ownerId))
               && old(HasUsername(username))) ==>
        && target in old(users) && old(users)[target].username == username
        && (r == Fail(SelfShare) <==> target == ownerId)
        && (r.Pass? <==> target != ownerId)
      ensures r.Fail? ==> notes == old(notes) && users == old(users) && cache == old(cache)
      ensures r.Pass? ==> noteId in old(notes) && target in old(users)
      ensures r.Pass? && target in old(notes)[noteId].sharedWith ==>
        notes == old(notes) && users == old(users) && cache == old(cache)
      ensures r.Pass? && target !in old(notes)[noteId].sharedWith ==>
        && notes == old(notes)[noteId := old(notes)[noteId].(sharedWith := old(notes)[noteId].sharedWith + [target])]
        && users == old(users)[target := old(users)[target].(notes := old(users)[target].notes + [noteId])]
        && cache == old(cache)[NoteKey(noteId) := NoteSnap(NoteDoc(noteId, notes[noteId]))]
      ensures r.Pass? ==> noteId in notes && target in notes[noteId].sharedWith
    {
      target := ownerId;
      if !IsValidObjectId(noteId) || !IsValidObjectId(ownerId) {
        return Fail(InvalidId), target;
      }
      if !OwnsNote(noteId, ownerId) {
        return Fail(NoteNotFound), target;
      }
      if !HasUsername(username) {
        return Fail(UserNotFound), target;
      }
      var userToShareWith :| userToShareWith in users && users[userToShareWith].username == username;
      target := userToShareWith;
      if userToShareWith == ownerId {
        return Fail(SelfShare), target;
      }
      var noteToShare := notes[noteId];
      if userToShareWith !in noteToShare.sharedWith {
        var shared := noteToShare.(sharedWith := noteToShare.sharedWith + [userToShareWith]);
        ShareKeepsConsistent(notes, users, noteId, userToShareWith);
        cache := cache[NoteKey(noteId) := NoteSnap(NoteDoc(noteId, shared))];
        notes := notes[noteId := shared];
        users := users[userToShareWith := users[userToShareWith].(notes := users[userToShareWith].notes + [noteId])];
      }
      r := Pass;
    }

    /** searchNotes: the index's answer when it has one, otherwise the fallback
      * scan for notes that match the query and are visible to the caller.
      * Neither path changes any state. */
    method SearchNotes(query: string, ownerId: UserId, index: IndexReply) returns (r: seq<NoteDoc>)
      ensures index.IndexHits? ==> r == index.hits
      ensures index.IndexUnavailable? ==> IsSelection(r, notes, MatchingVisibleTo(query, ownerId))
      ensures index.IndexUnavailable? ==>
        forall i | 0 <= i < |r| :: Visible(r[i].note, ownerId) && MatchesQuery(r[i].note, query)
    {
      match index
      case IndexHits(hits) =>
        r := hits;
      case IndexUnavailable =>
        r := PerformMongoDBSearch(query, ownerId);
    }

    /** performMongoDBSearch: title or content matches, and the caller owns the
      * note or it was shared with the caller. */
    method PerformMongoDBSearch(query: string, ownerId: UserId) returns (r: seq<NoteDoc>)
      ensures IsSelection(r, notes, MatchingVisibleTo(query, ownerId))
    {
      r := Find(MatchingVisibleTo(query, ownerId));
    }

    /** getNoteById: a cached note is returned with no check; otherwise the note
      * is fetched, returned and cached only for its owner or a sharee. */
    method GetNoteById(noteId: NoteId, userId: UserId) returns (r: Result<NoteDoc, ServiceError>)
      requires Valid()
      modifies this`cache
      ensures Valid()
      ensures NoteKey(noteId) in old(cache) ==>
        r.Ok? && old(cache)[NoteKey(noteId)] == NoteSnap(r.value) && cache == old(cache)
      ensures NoteKey(noteId) !in old(cache) && !IsValidObjectId(noteId) ==> r == Err(InvalidId)
      ensures NoteKey(noteId) !in old(cache) && IsValidObjectId(noteId) && noteId !in notes ==>
        r == Err(NoteNotFound)
      ensures (NoteKey(noteId) !in old(cache) && IsValidObjectId(noteId) && noteId in notes
               && !Visible(notes[noteId], userId)) ==>
        r == Err(NotAuthorized)
      ensures (NoteKey(noteId) !in old(cache) && IsValidObjectId(noteId) && noteId in notes
               && Visible(notes[noteId], userId)) ==>
        r == Ok(NoteDoc(noteId, notes[noteId])) && cache == old(cache)[NoteKey(noteId) := NoteSnap(r.value)]
      ensures r.Err? ==> cache == old(cache)
      ensures r.Ok? ==> r.value.id == noteId
    {
      var key := NoteKey(noteId);
      if key in cache {
        var cached := cache[key];
        assert CacheEntryOk(key, cached);
        NoteKeyIsNoListKey(noteId);
        NoteKeyInjective(cached.doc.id, noteId);
        return Ok(cached.doc);
      }
      if !IsValidObjectId(noteId) {
        return Err(InvalidId);
      }
      if noteId !in notes {
        return Err(NoteNotFound);
      }
      var note := notes[noteId];
      if note.owner != userId && userId !in note.sharedWith {
        return Err(NotAuthorized);
      }
      cache := cache[key := NoteSnap(NoteDoc(noteId, note))];
      r := Ok(NoteDoc(noteId, note));
    }
  }
}
