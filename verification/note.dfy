/** The note documents of src/models/Note.ts and the ordering of the
    `{ user: 1, createdAt: -1 }` index. The collection is a sequence in
    insertion order; listings filter it by owner and sort it newest first. */
module Notes {
  import opened Base
  import opened Text

  type NoteId = string

  const TitleMaxLength: nat := 100
  const ContentMaxLength: nat := 5000

  /** A stored note. `owner` is the `user` reference; the timestamps are
      milliseconds. */
  datatype Note = Note(id: NoteId, title: string, content: string, owner: string, createdAt: int, updatedAt: int)

  type NoteStore = seq<Note>

  datatype NoteSchemaError = TitleRequired | TitleTooLong | ContentRequired | ContentTooLong | OwnerRequired

  /** The schema validators, run on save: title and content required (the
      empty string fails `required`), a 100-character cap on the title and
      a 5000-character cap on the content, and an owner. */
  function ValidateNote(n: Note): (r: Option<NoteSchemaError>)
    ensures r.None? <==> n.title != "" && |n.title| <= TitleMaxLength
                         && n.content != "" && |n.content| <= ContentMaxLength && n.owner != ""
  {
    if n.title == "" then Some(TitleRequired)
    else if |n.title| > TitleMaxLength then Some(TitleTooLong)
    else if n.content == "" then Some(ContentRequired)
    else if |n.content| > ContentMaxLength then Some(ContentTooLong)
    else if n.owner == "" then Some(OwnerRequired)
    else None
  }

  /** What every saved note satisfies: it passed validation and its title
      went through the `trim` setter (the content has no setter). */
  predicate WellFormedNote(n: Note) {
    ValidateNote(n).None? && IsTrimmed(n.title)
  }

  predicate UniqueNoteIds(store: NoteStore) {
    forall i, j :: 0 <= i < j < |store| ==> store[i].id != store[j].id
  }

  predicate NoteStoreInv(store: NoteStore) {
    (forall x :: x in store ==> WellFormedNote(x)) && UniqueNoteIds(store)
  }

  // ---------------------------------------------------------------------
  // Owner filter

  /** `{ user: userId }`: the caller's notes, in collection order. */
  function OwnedBy(store: NoteStore, user: string): (r: seq<Note>)
    ensures |r| <= |store|
    ensures forall x :: x in r <==> x in store && x.owner == user
  {
    if store == [] then []
    else if store[0].owner == user then [store[0]] + OwnedBy(store[1..], user)
    else OwnedBy(store[1..], user)
  }

  // ---------------------------------------------------------------------
  // Newest first

  predicate NewestFirst(s: seq<Note>) {
    forall i, j :: 0 <= i < j < |s| ==> s[i].createdAt >= s[j].createdAt
  }

  /** Places `n` before the first note that is not newer than it. */
  function InsertNewest(n: Note, s: seq<Note>): (r: seq<Note>)
    requires NewestFirst(s)
    ensures NewestFirst(r)
    ensures r != [] && (r[0] == n || (s != [] && r[0] == s[0]))
  {
    if s == [] || n.createdAt >= s[0].createdAt then [n] + s
    else
      var rest := InsertNewest(n, s[1..]);
      assert s[0].createdAt >= rest[0].createdAt;
      var r := [s[0]] + rest;
      assert forall j :: 0 < j < |r| ==> r[0].createdAt >= r[j].createdAt;
      r
  }

  /** Insertion adds `n` and loses nothing. */
  lemma {:induction false} InsertNewestPermutes(n: Note, s: seq<Note>)
    requires NewestFirst(s)
    ensures multiset(InsertNewest(n, s)) == multiset(s) + multiset{n}
  {
    if s != [] && n.createdAt < s[0].createdAt {
      InsertNewestPermutes(n, s[1..]);
      assert s == [s[0]] + s[1..];
    }
  }

  /** `.sort({ createdAt: -1 })`: the same notes, newest first; equal
      timestamps keep their collection order. */
  function SortNewest(s: seq<Note>): (r: seq<Note>)
    ensures NewestFirst(r)
    ensures multiset(r) == multiset(s)
  {
    if s == [] then []
    else
      var sorted := SortNewest(s[1..]);
      InsertNewestPermutes(s[0], sorted);
      assert s == [s[0]] + s[1..];
      InsertNewest(s[0], sorted)
  }

  /** The caller's listing: owned notes, newest first. */
  function Listing(store: NoteStore, user: string): (r: seq<Note>)
    ensures NewestFirst(r)
    ensures forall x :: x in r <==> x in store && x.owner == user
    ensures |r| == |OwnedBy(store, user)|
    ensures multiset(r) == multiset(OwnedBy(store, user))
  {
    var owned := OwnedBy(store, user);
    var r := SortNewest(owned);
    assert forall x :: x in r <==> x in multiset(owned);
    assert |r| == |multiset(r)|;
    r
  }

  // ---------------------------------------------------------------------
  // Lookup by id

  /** `Note.findOne({ _id: id, user: userId })`: the position of the
      caller's note with that id. */
  function FindOwned(store: NoteStore, id: NoteId, user: string): (r: Option<nat>)
    ensures r.Some? ==> r.value < |store| && store[r.value].id == id && store[r.value].owner == user
    ensures r.None? <==> forall i :: 0 <= i < |store| ==> !(store[i].id == id && store[i].owner == user)
  {
    if store == [] then None
    else if store[0].id == id && store[0].owner == user then Some(0)
    else match FindOwned(store[1..], id, user)
      case None => None
      case Some(i) => Some(i + 1)
  }

  /** The collection with the note of that id removed. */
  function RemoveId(store: NoteStore, id: NoteId): (r: NoteStore)
    ensures |r| <= |store|
    ensures forall x :: x in r <==> x in store && x.id != id
  {
    if store == [] then []
    else if store[0].id == id then RemoveId(store[1..], id)
    else [store[0]] + RemoveId(store[1..], id)
  }

  /** The collection with the note at `i` replaced. */
  function ReplaceAt(store: NoteStore, i: nat, n: Note): (r: NoteStore)
    requires i < |store|
    ensures |r| == |store| && r[i] == n
    ensures forall k :: 0 <= k < |store| && k != i ==> r[k] == store[k]
  {
    store[i := n]
  }

  // ---------------------------------------------------------------------
  // Properties of the collection

  /** Under unique ids, the caller's note with a given id is the one note
      with that id. */
  lemma FindOwnedIsTheNote(store: NoteStore, id: NoteId, user: string, i: nat)
    requires UniqueNoteIds(store) && i < |store| && store[i].id == id
    ensures FindOwned(store, id, user) == (if store[i].owner == user then Some(i) else None)
  {
    match FindOwned(store, id, user)
    case None =>
    case Some(k) =>
      assert store[k].id == store[i].id;
  }

  /** Replacing a note by a well-formed note with the same id keeps the
      collection invariant. */
  lemma ReplaceKeepsInv(store: NoteStore, i: nat, n: Note)
    requires NoteStoreInv(store) && i < |store| && WellFormedNote(n) && n.id == store[i].id
    ensures NoteStoreInv(ReplaceAt(store, i, n))
  {
    var r := ReplaceAt(store, i, n);
    forall a, b | 0 <= a < b < |r|
      ensures r[a].id != r[b].id
    {
      assert r[a].id == store[a].id && r[b].id == store[b].id;
    }
  }

  /** Removing a note keeps the invariant. */
  lemma {:induction false} RemoveIdKeepsInv(store: NoteStore, id: NoteId)
    requires NoteStoreInv(store)
    ensures NoteStoreInv(RemoveId(store, id))
  {
    if store != [] {
      UniqueTail(store);
      RemoveIdKeepsInv(store[1..], id);
      if store[0].id != id {
        var rest := RemoveId(store[1..], id);
        HeadIdFresh(store, rest);
        ConsUnique(store[0], rest);
      }
    }
  }

  lemma UniqueTail(store: NoteStore)
    requires UniqueNoteIds(store) && store != []
    ensures UniqueNoteIds(store[1..])
  {
    var tail := store[1..];
    forall a, b | 0 <= a < b < |tail| ensures tail[a].id != tail[b].id {
      assert tail[a] == store[a + 1] && tail[b] == store[b + 1];
    }
  }

  /** Notes drawn from the tail of a store with unique ids do not share
      the id of its head. */
  lemma HeadIdFresh(store: NoteStore, rest: seq<Note>)
    requires UniqueNoteIds(store) && store != []
    requires forall x :: x in rest ==> x in store[1..]
    ensures forall j :: 0 <= j < |rest| ==> rest[j].id != store[0].id
  {
    forall j | 0 <= j < |rest|
      ensures rest[j].id != store[0].id
    {
      assert rest[j] in store[1..];
      var k :| 0 <= k < |store[1..]| && store[1..][k] == rest[j];
      assert store[k + 1] == rest[j];
    }
  }

  lemma ConsUnique(n: Note, rest: seq<Note>)
    requires UniqueNoteIds(rest)
    requires forall j :: 0 <= j < |rest| ==> rest[j].id != n.id
    ensures UniqueNoteIds([n] + rest)
  {
    var r := [n] + rest;
    forall a, b | 0 <= a < b < |r| ensures r[a].id != r[b].id {
      if a > 0 {
        assert r[a] == rest[a - 1] && r[b] == rest[b - 1];
      } else {
        assert r[b] == rest[b - 1];
      }
    }
  }
}
