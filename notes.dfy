/**
 * The note and user records held by the document store (the schema of
 * src/models/Note.js and the `notes` back-reference list of a user), the
 * filters the service runs over the note collection, the `$pull` update, and
 * the consistency between notes and the users that list them.
 */
module Notes {

  type NoteId = string
  type UserId = string

  /** A note document: title and content (both required by the schema), the
    * owner, and the users it has been shared with, in the order they were added. */
  datatype Note = Note(title: string, content: string, owner: UserId, sharedWith: seq<UserId>)

  /** A note together with its `_id`: the value returned to callers and cached. */
  datatype NoteDoc = NoteDoc(id: NoteId, note: Note)

  /** A user document as the service sees it: the username it is looked up by,
    * and the ids of the notes it owns or that were shared with it. */
  datatype User = User(username: string, notes: seq<NoteId>)

  predicate IsHexDigit(c: char) {
    '0' <= c <= '9' || 'a' <= c <= 'f' || 'A' <= c <= 'F'
  }

  /** mongoose.Types.ObjectId.isValid on a string: twelve characters of any kind
    * (read as the twelve raw bytes of an id), or twenty-four hexadecimal digits. */
  predicate IsValidObjectId(s: string) {
    |s| == 12 || (|s| == 24 && forall i | 0 <= i < |s| :: IsHexDigit(s[i]))
  }

  predicate NoDup<T(==)>(s: seq<T>) {
    forall i, j | 0 <= i < j < |s| :: s[i] != s[j]
  }

  /** A note is visible to its owner and to everyone it was shared with. */
  predicate Visible(n: Note, u: UserId) {
    n.owner == u || u in n.sharedWith
  }

  // ---------------------------------------------------------------------------
  // Case-insensitive matching (the fallback search's `new RegExp(query, 'i')`,
  // taken as a plain substring test with ASCII case folding)
  // ---------------------------------------------------------------------------

  function LowerChar(c: char): char {
    if 'A' <= c <= 'Z' then (c as int + 32) as char else c
  }

  function Lower(s: string): string {
    seq(|s|, i requires 0 <= i < |s| => LowerChar(s[i]))
  }

  /** `needle` occurs in `hay` starting at position `i`. */
  predicate OccursAt(hay: string, needle: string, i: int) {
    0 <= i && i + |needle| <= |hay| && hay[i..i + |needle|] == needle
  }

  /** `needle` occurs in `hay` at some position. */
  predicate Contains(hay: string, needle: string) {
    exists i | 0 <= i <= |hay| - |needle| :: OccursAt(hay, needle, i)
  }

  /** The query matches when it occurs in the content or in the title, ignoring case. */
  predicate MatchesQuery(n: Note, query: string) {
    Contains(Lower(n.content), Lower(query)) || Contains(Lower(n.title), Lower(query))
  }

  /** The empty query (a `RegExp('')`) matches every note. */
  lemma EmptyQueryMatchesEverything(n: Note)
    ensures MatchesQuery(n, "")
  {
    assert Lower("") == "";
    assert OccursAt(Lower(n.content), "", 0);
  }

  /** A query that occurs verbatim in the title matches. */
  lemma TitleOccurrenceMatches(n: Note, query: string, i: nat)
    requires i + |query| <= |n.title| && n.title[i..i + |query|] == query
    ensures MatchesQuery(n, query)
  {
    assert Lower(n.title)[i..i + |query|] == Lower(query);
    assert OccursAt(Lower(n.title), Lower(query), i);
  }

  // ---------------------------------------------------------------------------
  // Filters over the note collection (Note.find)
  // ---------------------------------------------------------------------------

  /** The two filter documents the service passes to Note.find. */
  datatype NoteFilter =
    | OwnedBy(user: UserId)                            // { owner: userId }
    | MatchingVisibleTo(query: string, user: UserId)   // the fallback search's $and of two $or's

  predicate Accepts(f: NoteFilter, n: Note) {
    match f
    case OwnedBy(u) => n.owner == u
    case MatchingVisibleTo(q, u) => MatchesQuery(n, q) && Visible(n, u)
  }

  /** `docs` is an answer of Note.find(f) on `notes`, in some order: every stored
    * note the filter accepts appears exactly once, as it is stored, and nothing else. */
  ghost predicate IsSelection(docs: seq<NoteDoc>, notes: map<NoteId, Note>, f: NoteFilter) {
    && (forall i | 0 <= i < |docs| ::
          docs[i].id in notes && notes[docs[i].id] == docs[i].note && Accepts(f, docs[i].note))
    && (forall id | id in notes && Accepts(f, notes[id]) :: NoteDoc(id, notes[id]) in docs)
    && (forall i, j | 0 <= i < j < |docs| :: docs[i].id != docs[j].id)
  }

  /** A selection is determined up to order: two answers to the same find hold
    * the same documents. */
  lemma SelectionsAgree(d1: seq<NoteDoc>, d2: seq<NoteDoc>, notes: map<NoteId, Note>, f: NoteFilter)
    requires IsSelection(d1, notes, f) && IsSelection(d2, notes, f)
    ensures forall d :: d in d1 <==> d in d2
  {
    forall d | d in d1 ensures d in d2 {
      var i :| 0 <= i < |d1| && d1[i] == d;
      assert NoteDoc(d.id, notes[d.id]) == d;
    }
    forall d | d in d2 ensures d in d1 {
      var i :| 0 <= i < |d2| && d2[i] == d;
      assert NoteDoc(d.id, notes[d.id]) == d;
    }
  }

  /** When a single stored note passes the filter, the find returns just that note. */
  lemma SingletonSelection(docs: seq<NoteDoc>, notes: map<NoteId, Note>, f: NoteFilter, id: NoteId)
    requires id in notes && Accepts(f, notes[id])
    requires forall k | k in notes && k != id :: !Accepts(f, notes[k])
    requires IsSelection(docs, notes, f)
    ensures docs == [NoteDoc(id, notes[id])]
  {
    assert NoteDoc(id, notes[id]) in docs;
    assert forall k | 0 <= k < |docs| :: docs[k] == NoteDoc(id, notes[id]);
    assert |docs| >= 2 ==> docs[0].id != docs[1].id;
  }

  // ---------------------------------------------------------------------------
  // $pull
  // ---------------------------------------------------------------------------

  /** `$pull: { notes: x }`: every occurrence of `x` removed; `PullKeepsOrder`
    * shows the rest stays in order. */
  function Pull(s: seq<NoteId>, x: NoteId): (r: seq<NoteId>)
    ensures forall y :: y in r <==> y in s && y != x
    ensures |r| <= |s|
  {
    if s == [] then []
    else if s[0] == x then Pull(s[1..], x)
    else [s[0]] + Pull(s[1..], x)
  }

  /** An order-keeping filter built from the back: the elements of `s` other
    * than `x`, in their order. */
  ghost function Filtered(s: seq<NoteId>, x: NoteId): seq<NoteId> {
    if s == [] then []
    else Filtered(s[..|s| - 1], x) + (if s[|s| - 1] == x then [] else [s[|s| - 1]])
  }

  /** Pulling from a concatenation pulls from each part. */
  lemma {:induction false} PullDistributes(a: seq<NoteId>, b: seq<NoteId>, x: NoteId)
    ensures Pull(a + b, x) == Pull(a, x) + Pull(b, x)
  {
    if a != [] {
      assert (a + b)[1..] == a[1..] + b;
      PullDistributes(a[1..], b, x);
    } else {
      assert a + b == b;
    }
  }

  /** `$pull` keeps the remaining elements in their order. */
  lemma {:induction false} PullKeepsOrder(s: seq<NoteId>, x: NoteId)
    ensures Pull(s, x) == Filtered(s, x)
  {
    if s != [] {
      var init, last := s[..|s| - 1], s[|s| - 1];
      assert s == init + [last];
      PullDistributes(init, [last], x);
      PullKeepsOrder(init, x);
      assert [last][1..] == [];
    }
  }

  /** Pulling keeps a list free of duplicates. */
  lemma {:induction false} PullKeepsNoDup(s: seq<NoteId>, x: NoteId)
    requires NoDup(s)
    ensures NoDup(Pull(s, x))
  {
    if s != [] {
      assert NoDup(s[1..]) by {
        forall i, j | 0 <= i < j < |s[1..]| ensures s[1..][i] != s[1..][j] {
          assert s[1..][i] == s[i + 1] && s[1..][j] == s[j + 1];
        }
      }
      PullKeepsNoDup(s[1..], x);
      if s[0] != x {
        var t := Pull(s[1..], x);
        assert s[0] !in s[1..] by {
          forall k | 0 <= k < |s[1..]| ensures s[1..][k] != s[0] {
            assert s[1..][k] == s[k + 1];
          }
        }
        assert s[0] !in t;
        var r := [s[0]] + t;
        forall i, j | 0 <= i < j < |r| ensures r[i] != r[j] {
          if i == 0 {
            assert r[j] == t[j - 1];
          } else {
            assert r[i] == t[i - 1] && r[j] == t[j - 1];
          }
        }
      }
    }
  }

  /** `User.updateMany({ notes: id }, { $pull: { notes: id } })`: the id is pulled
    * from every user's list (users without it are unaffected either way). */
  function PullAll(users: map<UserId, User>, id: NoteId): (r: map<UserId, User>)
    ensures r.Keys == users.Keys
    ensures forall u | u in r ::
      r[u].username == users[u].username && id !in r[u].notes
      && forall n :: n in r[u].notes <==> n in users[u].notes && n != id
  {
    map u | u in users :: users[u].(notes := Pull(users[u].notes, id))
  }

  // ---------------------------------------------------------------------------
  // Consistency between notes and users
  // ---------------------------------------------------------------------------

  /** Every note's owner exists and lists the note. */
  ghost predicate OwnersListTheirNotes(notes: map<NoteId, Note>, users: map<UserId, User>) {
    forall id | id in notes :: notes[id].owner in users && id in users[notes[id].owner].notes
  }

  /** Everyone a note is shared with exists and lists the note. */
  ghost predicate ShareesListTheirNotes(notes: map<NoteId, Note>, users: map<UserId, User>) {
    forall id, u | id in notes && u in notes[id].sharedWith :: u in users && id in users[u].notes
  }

  /** A user lists only existing notes that are visible to it, each once. */
  ghost predicate UserListsSound(notes: map<NoteId, Note>, users: map<UserId, User>) {
    forall u | u in users ::
      NoDup(users[u].notes)
      && forall id | id in users[u].notes :: id in notes && Visible(notes[id], u)
  }

  /** `sharedWith` holds neither duplicates nor the owner. */
  ghost predicate SharingWellFormed(notes: map<NoteId, Note>) {
    forall id | id in notes :: notes[id].owner !in notes[id].sharedWith && NoDup(notes[id].sharedWith)
  }

  ghost predicate StoreConsistent(notes: map<NoteId, Note>, users: map<UserId, User>) {
    && OwnersListTheirNotes(notes, users)
    && ShareesListTheirNotes(notes, users)
    && UserListsSound(notes, users)
    && SharingWellFormed(notes)
  }

  /** signUp refuses a username that is taken, so a username names one user. */
  ghost predicate UsernamesUnique(users: map<UserId, User>) {
    forall a, b | a in users && b in users && users[a].username == users[b].username :: a == b
  }

  /** In a consistent store a user lists a note exactly when the note is visible to it. */
  lemma BackReferencesExact(notes: map<NoteId, Note>, users: map<UserId, User>, u: UserId, id: NoteId)
    requires StoreConsistent(notes, users)
    requires u in users && id in notes
    ensures id in users[u].notes <==> Visible(notes[id], u)
  {
  }

  /** The store after createNote: the new note with no sharees, and its id appended
    * to the owner's list. */
  lemma CreateKeepsConsistent(notes: map<NoteId, Note>, users: map<UserId, User>,
                              id: NoteId, title: string, content: string, owner: UserId)
    requires StoreConsistent(notes, users)
    requires id !in notes && owner in users
    ensures StoreConsistent(notes[id := Note(title, content, owner, [])],
                            users[owner := users[owner].(notes := users[owner].notes + [id])])
  {
    var notes' := notes[id := Note(title, content, owner, [])];
    var list := users[owner].notes;
    var users' := users[owner := users[owner].(notes := list + [id])];
    assert id !in list;
    assert NoDup(list + [id]) by {
      forall i, j | 0 <= i < j < |list + [id]| ensures (list + [id])[i] != (list + [id])[j] {
        if j == |list| {
          assert (list + [id])[i] == list[i];
        } else {
          assert (list + [id])[i] == list[i] && (list + [id])[j] == list[j];
        }
      }
    }
    assert UserListsSound(notes', users') by {
      forall u | u in users' ensures NoDup(users'[u].notes)
        && forall n | n in users'[u].notes :: n in notes' && Visible(notes'[n], u)
      {
        forall n | n in users'[u].notes ensures n in notes' && Visible(notes'[n], u) {
          if n != id {
            assert n in users[u].notes;
          }
        }
      }
    }
  }

  /** updateNote changes title and content only, which consistency does not read. */
  lemma UpdateKeepsConsistent(notes: map<NoteId, Note>, users: map<UserId, User>,
                              id: NoteId, title: string, content: string)
    requires StoreConsistent(notes, users)
    requires id in notes
    ensures StoreConsistent(notes[id := notes[id].(title := title, content := content)], users)
  {
    var notes' := notes[id := notes[id].(title := title, content := content)];
    forall u | u in users ensures forall n | n in users[u].notes :: n in notes' && Visible(notes'[n], u) {
    }
  }

  /** The store after a first share: the target appended to `sharedWith` and the
    * note id appended to the target's list. */
  lemma ShareKeepsConsistent(notes: map<NoteId, Note>, users: map<UserId, User>, id: NoteId, target: UserId)
    requires StoreConsistent(notes, users)
    requires id in notes && target in users
    requires target != notes[id].owner && target !in notes[id].sharedWith
    ensures StoreConsistent(
      notes[id := notes[id].(sharedWith := notes[id].sharedWith + [target])],
      users[target := users[target].(notes := users[target].notes + [id])])
  {
    var n := notes[id];
    var sw := n.sharedWith + [target];
    var notes' := notes[id := n.(sharedWith := sw)];
    var list := users[target].notes;
    var users' := users[target := users[target].(notes := list + [id])];
    assert id !in list;
    assert NoDup(list + [id]) by {
      forall i, j | 0 <= i < j < |list + [id]| ensures (list + [id])[i] != (list + [id])[j] {
        if j == |list| {
          assert (list + [id])[i] == list[i];
        } else {
          assert (list + [id])[i] == list[i] && (list + [id])[j] == list[j];
        }
      }
    }
    assert NoDup(sw) by {
      forall i, j | 0 <= i < j < |sw| ensures sw[i] != sw[j] {
        if j == |n.sharedWith| {
          assert sw[i] == n.sharedWith[i];
        } else {
          assert sw[i] == n.sharedWith[i] && sw[j] == n.sharedWith[j];
        }
      }
    }
    assert ShareesListTheirNotes(notes', users') by {
      forall m, u | m in notes' && u in notes'[m].sharedWith ensures u in users' && m in users'[u].notes {
        if m == id && u != target {
          assert u in n.sharedWith;
        }
      }
    }
    assert UserListsSound(notes', users') by {
      forall u | u in users' ensures NoDup(users'[u].notes)
        && forall m | m in users'[u].notes :: m in notes' && Visible(notes'[m], u)
      {
        forall m | m in users'[u].notes ensures m in notes' && Visible(notes'[m], u) {
          if !(u == target && m == id) {
            assert m in users[u].notes;
          }
        }
      }
    }
  }

  /** The store after deleteNote: the note removed and its id pulled from every user. */
  lemma DeleteKeepsConsistent(notes: map<NoteId, Note>, users: map<UserId, User>, id: NoteId)
    requires StoreConsistent(notes, users)
    ensures StoreConsistent(notes - {id}, PullAll(users, id))
  {
    DeleteKeepsOwnerLists(notes, users, id);
    DeleteKeepsShareeLists(notes, users, id);
    DeleteKeepsListsSound(notes, users, id);
  }

  lemma DeleteKeepsOwnerLists(notes: map<NoteId, Note>, users: map<UserId, User>, id: NoteId)
    requires OwnersListTheirNotes(notes, users)
    ensures OwnersListTheirNotes(notes - {id}, PullAll(users, id))
  {
    var notes', users' := notes - {id}, PullAll(users, id);
    forall m | m in notes' ensures notes'[m].owner in users' && m in users'[notes'[m].owner].notes {
      assert m in users[notes[m].owner].notes;
    }
  }

  lemma DeleteKeepsShareeLists(notes: map<NoteId, Note>, users: map<UserId, User>, id: NoteId)
    requires ShareesListTheirNotes(notes, users)
    ensures ShareesListTheirNotes(notes - {id}, PullAll(users, id))
  {
    var notes', users' := notes - {id}, PullAll(users, id);
    forall m, u | m in notes' && u in notes'[m].sharedWith ensures u in users' && m in users'[u].notes {
      assert m in users[u].notes;
    }
  }

  lemma DeleteKeepsListsSound(notes: map<NoteId, Note>, users: map<UserId, User>, id: NoteId)
    requires UserListsSound(notes, users)
    ensures UserListsSound(notes - {id}, PullAll(users, id))
  {
    var notes', users' := notes - {id}, PullAll(users, id);
    forall u | u in users' ensures NoDup(users'[u].notes)
      && forall m | m in users'[u].notes :: m in notes' && Visible(notes'[m], u)
    {
      PullKeepsNoDup(users[u].notes, id);
      forall m | m in users'[u].notes ensures m in notes' && Visible(notes'[m], u) {
        assert m in users[u].notes;
      }
    }
  }
}
