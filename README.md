# Note service with read-through cache — a Dafny model

This project models the core of a multi-user note-taking API. The core is the
note service (`src/services/noteService.js`) and its cache-key policy
(`src/redis/redisHelper.js`).

The service runs seven operations: create, update, list, read one note, delete,
share and search. They work over three stores:

- a **note collection**: id → title, content, owner and `sharedWith`, the list of users the note was shared with;
- a **user collection**: id → username and `notes`, a back-reference list of the notes the user owns or was given;
- a **key-value cache**. It holds one note under `note:<id>` and an owner's note list under `userNotes:<userId>`.

Search first asks a search index. When the index fails, it falls back to a
case-insensitive scan of the note collection, limited to notes the caller owns
or was given.

Files:

- `wrappers.dfy`: `Option`, `Result` and `Outcome`.
- `redis_helper.dfy` (module `RedisHelper`): the `REDIS_QUERY_TYPE` enumeration and `getRedisKey`. Lemmas cover the shape of each key, which request fields a key depends on, distinct keys across kinds, and injectivity within a kind.
- `notes.dfy` (module `Notes`): the note and user records, ObjectId validity, visibility and query matching, the two find filters, `$pull`, and the consistency invariant between notes and users' back-references. It also has one lemma per write operation showing that the operation keeps the invariant.
- `note_service.dfy` (module `NoteService`): the cache keys and cached snapshots, and the class `NoteStore`. The class holds the three stores as `map` fields. It has one method per service function, and `Valid()` is its invariant (store consistency, unique usernames, well-formed cache).
- `scenarios.dfy` (module `Scenarios`): client runs proved from the methods' contracts alone. These are the flow of `tests/test.js`, a cache hit that skips authorisation, the same read refused once the cache has lost the snapshot, and sharing twice.

## What the code does that a caller might not expect

The model follows the code as written, including these behaviours:

- **A cache hit is returned without any check.** `getNoteById` and `getNotes` return the cached snapshot before any validation or authorisation (`noteService.js:67-73`, `:212-218`). No authorisation check runs on a hit. `Scenarios.CacheHitSkipsAuthorization` proves that a user the note was never shared with gets it from the cache, even after the note was deleted.
- **Writes do not invalidate the cache.** `updateNote` and `deleteNote` never touch it. `createNote` and a first `shareNote` write the new snapshot under `note:<id>`. `Scenarios.EndToEnd` proves that a read after an update returns the title cached when the note was created.
- **`getNoteById` on a missing note fails with a TypeError, not 'Note not found'.** The code reads `note.owner` before checking `!note` (`:223-229`). The model reports this failure as `NoteNotFound`.
- **`createNote`'s failure paths all crash on an undefined `res`** (`:11`, `:30`). This covers the missing user, the invalid owner id and the empty title or content. The model returns `InvalidId`, `UserNotFound` or `ValidationFailed` and changes nothing.
- **Mongoose casts ids in query filters.** A malformed id in `User.exists`, `Note.findOne` or `Note.find` throws a cast error. The model returns `InvalidId` wherever that happens first: in `createNote`, `shareNote` and on `getNoteById`'s miss path. `shareNote` therefore reports an invalid id before it reports 'Note not found'.
- **Ids are taken in one spelling.** The code's Mongo filters convert id strings to ObjectIds before they compare them. The model instead compares ids as strings, and every id is assumed to be in its canonical spelling (see "## Left out").
- **The primary search can never succeed as written**, because `esClient` is not defined (`:164`). It is modelled as an oracle argument (`IndexReply`) that returns hits or fails.
- **The search controller passes `req.query.query`, but the test sends `q`.** The service therefore receives `undefined`, and `new RegExp(undefined, 'i')` matches everything. `Notes.EmptyQueryMatchesEverything` states the model's counterpart of this, and `Scenarios.EndToEnd` runs that search.
- **`getNotes` lists only the notes the user owns**, not the notes shared with it.

## Model

| member | source | states |
|---|---|---|
| `RedisHelper.Resolve` | src/redis/redisHelper.js:2-10 | a kind string resolves exactly when it is one of the seven enumeration values, and to the member with that value |
| `RedisHelper.GetRedisKey` | src/redis/redisHelper.js:12-35 | fails with 'Key not defined for redis.' exactly when the kind is none of the seven; otherwise returns that kind's template key |
| `RedisHelper.GetNotesKeyIgnoresNoteAndQuery` | src/redis/redisHelper.js:17-18 | the GET_NOTES key is `GET_NOTES_` followed by the user id, equal for any two requests with the same user |
| `RedisHelper.CreateNoteKeyIgnoresNoteAndQuery` | src/redis/redisHelper.js:21-22 | the CREATE_NOTE key depends on the user id alone |
| `RedisHelper.NoteScopedKeyShape` | src/redis/redisHelper.js:19-28 | GET_NOTE_BY_ID, UPDATE_NOTE, DELETE_NOTE and SHARE_NOTE keys are prefix, note id, `_`, user id, note id first |
| `RedisHelper.SearchKeyAbsentQuery` | src/redis/redisHelper.js:29-31 | an absent query gives the same key as the empty query, `SEARCH_NOTES__` followed by the user id |
| `RedisHelper.KindsGiveDistinctKeys` | src/redis/redisHelper.js:16-31 | keys of two different kinds differ for all requests |
| `RedisHelper.KeyInjectiveWithinKind` | src/redis/redisHelper.js:16-31 | within one kind, equal keys imply equal user ids, note ids (note-scoped kinds) and query texts (search), if user ids contain no `_` |
| `Notes.Pull` | src/services/noteService.js:112 | `$pull` keeps exactly the elements other than the pulled id |
| `Notes.PullKeepsOrder` | src/services/noteService.js:112 | `$pull` keeps the remaining elements in their original order (it equals an independent order-keeping filter) |
| `Notes.PullKeepsNoDup` | src/services/noteService.js:112 | pulling from a list without duplicates leaves a list without duplicates |
| `Notes.PullAll` | src/services/noteService.js:112 | after the bulk pull, every user keeps its username, no list holds the id, and every other id stays |
| `Notes.SelectionsAgree` | src/services/noteService.js:85 | two answers to the same find hold the same documents (they may differ only in order) |
| `Notes.SingletonSelection` | src/services/noteService.js:85 | when one stored note passes the filter, the find returns exactly that note |
| `Notes.EmptyQueryMatchesEverything` | src/services/noteService.js:193-194 | the empty query matches every note |
| `Notes.TitleOccurrenceMatches` | src/services/noteService.js:193-194 | a query that occurs in the title matches |
| `Notes.BackReferencesExact` | src/services/noteService.js:132-145 | in a consistent store, a user lists a note if and only if it owns the note or the note is shared with it |
| `Notes.CreateKeepsConsistent` | src/services/noteService.js:14-25 | adding an unshared note and appending its id to the owner's list keeps the stores consistent |
| `Notes.UpdateKeepsConsistent` | src/services/noteService.js:48-52 | changing title and content keeps the stores consistent |
| `Notes.ShareKeepsConsistent` | src/services/noteService.js:132-145 | appending a new, non-owner sharee and appending the note to its list keeps the stores consistent, with no duplicate or owner in `sharedWith` |
| `Notes.DeleteKeepsConsistent` | src/services/noteService.js:106-112 | removing the note and pulling its id from every user keeps the stores consistent |
| `NoteService.NoteKeyInjective` | src/services/noteService.js:212 | different notes have different `note:` keys |
| `NoteService.UserNotesKeyInjective` | src/services/noteService.js:67 | different users have different `userNotes:` keys |
| `NoteService.NoteKeyIsNoListKey` | src/services/noteService.js:67 | a `note:` key never starts with `userNotes:`, so the two kinds of entry never collide |
| `NoteService.NoteStore.Find` | src/services/noteService.js:85 | returns every stored note the filter accepts, exactly once and as stored, and nothing else |
| `NoteService.NoteStore.CreateNote` | src/services/noteService.js:7-32 | fails for an invalid or unknown owner, or an empty title or content, changing nothing; otherwise it stores the note with no sharees, caches it under `note:<id>` and appends the id to the owner's list |
| `NoteService.NoteStore.UpdateNote` | src/services/noteService.js:34-62 | fails with invalid id, then not found, then not authorised (owner differs), changing nothing; otherwise only title and content change; users and cache never change |
| `NoteService.NoteStore.GetNotes` | src/services/noteService.js:64-95 | a hit returns the cached list and changes nothing; a miss fails for an invalid or unknown user, and otherwise returns exactly the user's own notes and caches that list; every returned note is owned by the user, on hit and on miss |
| `NoteService.NoteStore.DeleteNote` | src/services/noteService.js:97-116 | fails for invalid ids, or for a note not matching both id and owner, changing nothing; otherwise removes the note and pulls its id from every user; no user lists it afterwards; the cache is untouched |
| `NoteService.NoteStore.ShareNote` | src/services/noteService.js:118-149 | errors in order: invalid id, 'Note not found' when the caller does not own it, 'User not found', self-share; no error changes anything; sharing with a user already in `sharedWith` changes nothing; otherwise appends the user once, appends the note to its list and caches the new snapshot |
| `NoteService.NoteStore.SearchNotes` | src/services/noteService.js:151-160 | returns the index's answer whenever the index answers, even an empty one; when the index fails, exactly the notes that match the query in title or content and are visible to the caller; changes no state |
| `NoteService.NoteStore.PerformMongoDBSearch` | src/services/noteService.js:188-207 | returns exactly the stored notes matching the query (title or content, ignoring case) and visible to the caller |
| `NoteService.NoteStore.GetNoteById` | src/services/noteService.js:209-239 | a hit returns the cached snapshot of that id with no check; a miss fails with invalid id, not found, or not authorised (neither owner nor sharee) and leaves the cache alone; otherwise returns the stored note and caches it |
| `Scenarios.EndToEnd` | tests/test.js:24-114 | create then list gives the one note; the update returns the new fields, but the next read is the snapshot cached at creation; a share by a user who owns nothing fails with 'Note not found'; the search, which reaches the service with no query while the index is unreachable, returns the one updated note; after the delete no user lists the note |
| `Scenarios.CreateAndList` | tests/test.js:24-54 | on two fresh users, the first creates a note, lists exactly that note and reads it back; afterwards only that note is stored and it is cached under its key |
| `Scenarios.SearchWithoutQuery` | tests/test.js:91-100 | a search with no query and an unreachable index, by the owner of the only stored note, returns exactly that note |
| `Scenarios.CacheHitSkipsAuthorization` | src/services/noteService.js:212-218 | a note cached at creation is returned to a user it was never shared with, also after it was deleted |
| `Scenarios.MissChecksAuthorization` | src/services/noteService.js:221-225 | without a cached snapshot, the same read is refused to that user and granted to the owner |
| `Scenarios.ShareTwice` | src/services/noteService.js:136-145 | a second identical share returns what the first did and changes nothing; a failed first share changed nothing, a successful one leaves the named user among the sharees |

## Left out

- Express routing, the controllers' mapping of messages to HTTP status codes, authentication, password hashing and token handling are not modelled. The authenticated user id is an input.
- The Redis clients: the cache is a map, and the JSON stringify/parse round trip is taken as exact. Cache backend failures and TTL expiry (`redisSaveWithTtl`) are not modelled, and the service never uses TTL expiry.
- The Elasticsearch client, its query, tokenisation and relevance. The index is the `IndexReply` argument.
- SearchNotes: on the index path the contract only says that the hits are passed through. The source's index query (`noteService.js:164-185`) is unreachable.
- PerformMongoDBSearch: `new RegExp(query, 'i')` is approximated as a substring test with ASCII case folding. Regex metacharacters are treated literally, so the SyntaxError the source throws for an invalid pattern is not modelled.
- PerformMongoDBSearch and GetNotes: the find returns notes in an unspecified order. MongoDB's natural order is not modelled.
- Asynchrony and interleaving between requests, and between the separate store calls inside one operation: each service call is atomic. The second 'Note not found' checks in `updateNote` (`:54-56`) and `deleteNote` (`:108-110`) can only fire under such a race, so they are not modelled.
- CreateNote: the new note's id comes from the caller as `newId`, and must be an unused valid ObjectId. It stands in for the store's ObjectId allocation.
- `src/models/User.js` is not part of this model. The user record holds only the two fields the service reads. Usernames are unique because sign-up refuses a taken name (`src/services/authService.js:7-10`).
- ShareNote: which user `User.findOne({ username })` returns is the ghost out-parameter `target`. Usernames are unique, so there is only one.
- Ids are taken in their canonical form, 24 lower-case hexadecimal digits, and compared as strings. `Notes.IsValidObjectId` still accepts every string `ObjectId.isValid` accepts. Other spellings that Mongo reads as the same ObjectId are not modelled: upper-case hex, and the 12-character form read as raw bytes. For such a spelling of a stored note's id, the model's `UpdateNote`, `DeleteNote`, `ShareNote` and `GetNoteById` miss path answer as if the note were absent. The source finds the note, and `shareNote` caches it under the id as the caller typed it (`noteService.js:140`).
- Cast errors for the caller's own id in the search and listing queries are not modelled. That id always comes from an authenticated user.
