/**
 * The cache-key policy of src/redis/redisHelper.js: the REDIS_QUERY_TYPE
 * enumeration and getRedisKey, which builds a key from an operation kind and
 * the three request fields it reads.
 */
module RedisHelper {
  import opened Wrappers

  /** The seven members of REDIS_QUERY_TYPE. */
  datatype QueryType =
    | GetNotes
    | GetNoteById
    | CreateNote
    | UpdateNote
    | DeleteNote
    | ShareNote
    | SearchNotes

  /** The string value each enumeration member stands for. */
  function Name(t: QueryType): string {
    match t
    case GetNotes => "GET_NOTES"
    case GetNoteById => "GET_NOTE_BY_ID"
    case CreateNote => "CREATE_NOTE"
    case UpdateNote => "UPDATE_NOTE"
    case DeleteNote => "DELETE_NOTE"
    case ShareNote => "SHARE_NOTE"
    case SearchNotes => "SEARCH_NOTES"
  }

  /** Matches a `queryType` string against the enumeration, as the `switch` does. */
  function Resolve(s: string): (r: Option<QueryType>)
    ensures r.Some? ==> Name(r.value) == s
    ensures r.None? ==> forall t :: Name(t) != s
  {
    if s == "GET_NOTES" then Some(GetNotes)
    else if s == "GET_NOTE_BY_ID" then Some(GetNoteById)
    else if s == "CREATE_NOTE" then Some(CreateNote)
    else if s == "UPDATE_NOTE" then Some(UpdateNote)
    else if s == "DELETE_NOTE" then Some(DeleteNote)
    else if s == "SHARE_NOTE" then Some(ShareNote)
    else if s == "SEARCH_NOTES" then Some(SearchNotes)
    else None
  }

  /** The parts of the request that the key depends on: `req.user._id`,
    * `req.params.id` and `req.query.q` (None when the query string has no q). */
  datatype KeyRequest = KeyRequest(userId: string, noteId: string, q: Option<string>)

  /** `req.query.q || ''`: an absent query reads as the empty string. */
  function QueryText(req: KeyRequest): string {
    match req.q
    case Some(s) => s
    case None => ""
  }

  /** The key for a resolved kind, one template per case of the switch. */
  function KeyFor(t: QueryType, req: KeyRequest): string {
    match t
    case GetNotes => "GET_NOTES_" + req.userId
    case GetNoteById => "GET_NOTE_" + req.noteId + "_" + req.userId
    case CreateNote => "CREATE_NOTE_" + req.userId
    case UpdateNote => "UPDATE_NOTE_" + req.noteId + "_" + req.userId
    case DeleteNote => "DELETE_NOTE_" + req.noteId + "_" + req.userId
    case ShareNote => "SHARE_NOTE_" + req.noteId + "_" + req.userId
    case SearchNotes => "SEARCH_NOTES_" + QueryText(req) + "_" + req.userId
  }

  /** The error thrown by the default branch. */
  datatype KeyError = KeyNotDefined

  /** getRedisKey: unknown kinds fail, every enumerated kind yields its template. */
  function GetRedisKey(queryType: string, req: KeyRequest): (r: Result<string, KeyError>)
    ensures r.Err? <==> forall t :: Name(t) != queryType
    ensures r.Err? ==> r.error == KeyNotDefined
    ensures forall t :: Name(t) == queryType ==> r == Ok(KeyFor(t, req))
  {
    match Resolve(queryType)
    case Some(t) => Ok(KeyFor(t, req))
    case None => Err(KeyNotDefined)
  }

  /** The literal text every key of a kind starts with. */
  function Prefix(t: QueryType): string {
    match t
    case GetNotes => "GET_NOTES_"
    case GetNoteById => "GET_NOTE_"
    case CreateNote => "CREATE_NOTE_"
    case UpdateNote => "UPDATE_NOTE_"
    case DeleteNote => "DELETE_NOTE_"
    case ShareNote => "SHARE_NOTE_"
    case SearchNotes => "SEARCH_NOTES_"
  }

  /** The kinds whose key names one note. */
  predicate NoteScoped(t: QueryType) {
    t.GetNoteById? || t.UpdateNote? || t.DeleteNote? || t.ShareNote?
  }

  /** The GET_NOTES key is the user's id behind its prefix, whatever the note id and query. */
  lemma GetNotesKeyIgnoresNoteAndQuery(req1: KeyRequest, req2: KeyRequest)
    requires req1.userId == req2.userId
    ensures GetRedisKey("GET_NOTES", req1) == Ok("GET_NOTES_" + req1.userId)
    ensures GetRedisKey("GET_NOTES", req1) == GetRedisKey("GET_NOTES", req2)
  {
    assert Name(GetNotes) == "GET_NOTES";
  }

  /** The CREATE_NOTE key depends on the user id alone. */
  lemma CreateNoteKeyIgnoresNoteAndQuery(req1: KeyRequest, req2: KeyRequest)
    requires req1.userId == req2.userId
    ensures GetRedisKey("CREATE_NOTE", req1) == Ok("CREATE_NOTE_" + req1.userId)
    ensures GetRedisKey("CREATE_NOTE", req1) == GetRedisKey("CREATE_NOTE", req2)
  {
    assert Name(CreateNote) == "CREATE_NOTE";
  }

  /** Note-scoped keys put the note id first and the user id last. */
  lemma NoteScopedKeyShape(t: QueryType, req: KeyRequest)
    requires NoteScoped(t)
    ensures KeyFor(t, req) == Prefix(t) + req.noteId + "_" + req.userId
    ensures GetRedisKey(Name(t), req) == Ok(Prefix(t) + req.noteId + "_" + req.userId)
  {
  }

  /** The SEARCH_NOTES key carries the query text; an absent query is the empty one. */
  lemma SearchKeyAbsentQuery(req: KeyRequest)
    requires req.q == None
    ensures KeyFor(SearchNotes, req) == KeyFor(SearchNotes, req.(q := Some("")))
    ensures KeyFor(SearchNotes, req) == "SEARCH_NOTES__" + req.userId
  {
  }

  /** Every key starts with its kind's prefix; what follows is the user id, or a
    * note id or query text, an underscore and the user id. */
  lemma KeyStartsWithPrefix(t: QueryType, req: KeyRequest)
    ensures Prefix(t) <= KeyFor(t, req)
    ensures KeyFor(t, req) == Prefix(t) + KeyFor(t, req)[|Prefix(t)|..]
  {
  }

  /** Two sequences neither of which is a prefix of the other cannot be extended to
    * the same sequence. */
  lemma IncomparablePrefixes(p1: string, p2: string, s1: string, s2: string)
    requires !(p1 <= p2) && !(p2 <= p1)
    ensures p1 + s1 != p2 + s2
  {
    if |p1| <= |p2| {
      assert (p1 + s1)[..|p1|] == p1;
      assert (p2 + s2)[..|p1|] == p2[..|p1|];
    } else {
      assert (p2 + s2)[..|p2|] == p2;
      assert (p1 + s1)[..|p2|] == p1[..|p2|];
    }
  }

  /** No prefix of one kind is a prefix of another's. */
  lemma PrefixesIncomparable(t1: QueryType, t2: QueryType)
    requires t1 != t2
    ensures !(Prefix(t1) <= Prefix(t2))
  {
    // every prefix is at least nine characters long, and the characters at
    // positions 0, 1 and 8 already tell the kinds apart
    var p1, p2 := Prefix(t1), Prefix(t2);
    assert |p1| >= 9 && |p2| >= 9;
    assert [p1[0], p1[1], p1[8]] != [p2[0], p2[1], p2[8]];
  }

  /** Keys of different kinds never collide. */
  lemma KindsGiveDistinctKeys(t1: QueryType, t2: QueryType, req1: KeyRequest, req2: KeyRequest)
    requires t1 != t2
    ensures KeyFor(t1, req1) != KeyFor(t2, req2)
  {
    KeyStartsWithPrefix(t1, req1);
    KeyStartsWithPrefix(t2, req2);
    PrefixesIncomparable(t1, t2);
    PrefixesIncomparable(t2, t1);
    IncomparablePrefixes(Prefix(t1), Prefix(t2),
      KeyFor(t1, req1)[|Prefix(t1)|..], KeyFor(t2, req2)[|Prefix(t2)|..]);
  }

  /** The position of the last underscore in `s`, or -1 when there is none. */
  function LastUnderscore(s: string): int {
    if s == [] then -1
    else if s[|s| - 1] == '_' then |s| - 1
    else LastUnderscore(s[..|s| - 1])
  }

  /** In `a + "_" + u` with no underscore in `u`, the last underscore is the separator. */
  lemma {:induction false} LastUnderscoreIsSeparator(a: string, u: string)
    requires '_' !in u
    ensures LastUnderscore(a + "_" + u) == |a|
  {
    var s := a + "_" + u;
    if u != [] {
      var u' := u[..|u| - 1];
      assert s[|s| - 1] == u[|u| - 1];
      assert s[..|s| - 1] == a + "_" + u';
      LastUnderscoreIsSeparator(a, u');
    }
  }

  /** `a + "_" + u` splits uniquely when `u` holds no underscore. */
  lemma SplitAtLastUnderscore(a1: string, u1: string, a2: string, u2: string)
    requires '_' !in u1 && '_' !in u2
    requires a1 + "_" + u1 == a2 + "_" + u2
    ensures a1 == a2 && u1 == u2
  {
    var s := a1 + "_" + u1;
    LastUnderscoreIsSeparator(a1, u1);
    LastUnderscoreIsSeparator(a2, u2);
    assert |a1| == |a2|;
    assert a1 == s[..|a1|] == a2;
    assert u1 == s[|a1| + 1..] == u2;
  }

  /** Within one kind, equal keys mean equal inputs for every field the key reads,
    * given user ids without underscores (hex ObjectIds have none). */
  lemma KeyInjectiveWithinKind(t: QueryType, req1: KeyRequest, req2: KeyRequest)
    requires '_' !in req1.userId && '_' !in req2.userId
    requires KeyFor(t, req1) == KeyFor(t, req2)
    ensures req1.userId == req2.userId
    ensures NoteScoped(t) ==> req1.noteId == req2.noteId
    ensures t == SearchNotes ==> QueryText(req1) == QueryText(req2)
  {
    var p := Prefix(t);
    KeyStartsWithPrefix(t, req1);
    KeyStartsWithPrefix(t, req2);
    var k1, k2 := KeyFor(t, req1), KeyFor(t, req2);
    var rest := k1[|p|..];
    assert rest == k2[|p|..];
    match t
    case GetNotes =>
      assert req1.userId == rest == req2.userId;
    case CreateNote =>
      assert req1.userId == rest == req2.userId;
    case SearchNotes =>
      assert rest == QueryText(req1) + "_" + req1.userId;
      assert rest == QueryText(req2) + "_" + req2.userId;
      SplitAtLastUnderscore(QueryText(req1), req1.userId, QueryText(req2), req2.userId);
    case _ =>
      NoteScopedKeyInjective(t, req1, req2);
  }

  /** The note-scoped case of `KeyInjectiveWithinKind`: the key after its prefix
    * splits into note id and user id. */
  lemma NoteScopedKeyInjective(t: QueryType, req1: KeyRequest, req2: KeyRequest)
    requires NoteScoped(t)
    requires '_' !in req1.userId && '_' !in req2.userId
    requires KeyFor(t, req1) == KeyFor(t, req2)
    ensures req1.userId == req2.userId && req1.noteId == req2.noteId
  {
    var p := Prefix(t);
    NoteScopedKeyShape(t, req1);
    NoteScopedKeyShape(t, req2);
    assert p + req1.noteId + "_" + req1.userId == p + (req1.noteId + "_" + req1.userId);
    assert p + req2.noteId + "_" + req2.userId == p + (req2.noteId + "_" + req2.userId);
    var k := KeyFor(t, req1);
    assert req1.noteId + "_" + req1.userId == k[|p|..] == req2.noteId + "_" + req2.userId;
    SplitAtLastUnderscore(req1.noteId, req1.userId, req2.noteId, req2.userId);
  }
}
