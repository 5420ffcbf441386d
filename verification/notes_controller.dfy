/** The handlers of src/controllers/notesController.ts as transitions
    (store, caller, request) -> (reply, store'). The caller is the user the
    session guard attached; ids MongoDB assigns and the clock are inputs. */
module NotesController {
  import opened Base
  import opened Text
  import opened Notes

  const DefaultPage: int := 1
  const DefaultLimit: int := 10

  datatype NoteError =
    | NotFound          // 404 "Note not found"
    | NothingToUpdate   // 400 "Please provide at least one field to update (title or content)"
    | NoIdsGiven        // 400 "Please provide an array of note IDs to delete"
    | QueryRequired     // 400 "Search query is required"
    | Internal          // any thrown error, caught and answered with 500

  /** The status each refusal is answered with: 404 for a missing note,
      500 for a thrown error, 400 for a refused request. */
  function ErrorStatus(e: NoteError): (status: int)
    ensures status == 500 <==> e == Internal
    ensures status == 404 <==> e == NotFound
    ensures status == 400 <==> e in {NothingToUpdate, NoIdsGiven, QueryRequired}
  {
    match e
    case NotFound => 404
    case Internal => 500
    case _ => 400
  }

  // ---------------------------------------------------------------------
  // Pagination arithmetic

  /** `parseInt(q) || d`: the parsed value unless it is `NaN` or zero. */
  function QueryInt(q: Option<string>, d: int): (r: int)
    requires d != 0
    ensures r != 0
    ensures q.Some? && ParseInt(q.value).Some? && ParseInt(q.value).value != 0 ==> r == ParseInt(q.value).value
    ensures q.None? || ParseInt(q.value).None? || ParseInt(q.value) == Some(0) ==> r == d
  {
    if q.None? then d
    else match ParseInt(q.value)
      case None => d
      case Some(v) => if v == 0 then d else v
  }

  /** A page number written the way JavaScript prints it is read back;
      "0" and anything `parseInt` cannot read fall back to the default. */
  lemma QueryIntReadsPrinted(n: nat, d: int)
    requires d != 0
    ensures QueryInt(Some(Decimal(n)), d) == (if n == 0 then d else n)
    ensures QueryInt(Some(""), d) == d
  {
    ParseIntDecimal(n);
  }

  /** `Math.ceil(a / b)` on exact rationals. */
  function CeilDiv(a: nat, b: int): (r: int)
    requires b != 0
    ensures b > 0 ==> (r - 1) * b < a <= r * b
    ensures b < 0 ==> r * b <= a < (r - 1) * b
  {
    if b > 0 then (a + b - 1) / b
    else
      var m := -b;
      var q := a / m;
      assert q * m <= a < (q + 1) * m;
      -q
  }

  function Abs(x: int): nat {
    if x < 0 then -x else x
  }

  function Min(a: int, b: int): int {
    if a < b then a else b
  }

  datatype Pagination = Pagination(currentPage: int, totalPages: int, totalNotes: nat, hasNext: bool, hasPrev: bool)

  datatype ListReply =
    | Listed(notes: seq<Note>, pagination: Pagination)
    | ListFailed(error: NoteError)

  /** `notes` is what `.skip(skip).limit(take)` leaves of `matching`: the
      `take` notes from position `skip` on, fewer at the end. */
  predicate IsWindow(notes: seq<Note>, matching: seq<Note>, skip: nat, take: nat) {
    && |notes| == Min(take, if skip < |matching| then |matching| - skip else 0)
    && forall k :: 0 <= k < |notes| ==> notes[k] == matching[skip + k]
  }

  /** The skip the handlers compute from the raw query values. */
  function PageSkip(pageQuery: Option<string>, limitQuery: Option<string>): int {
    (QueryInt(pageQuery, DefaultPage) - 1) * QueryInt(limitQuery, DefaultLimit)
  }

  /** `.skip((page - 1) * limit).limit(limit)` and the pagination block.
      MongoDB refuses a negative skip (the handler answers 500) and reads a
      negative limit as its absolute value. */
  function Paginate(matching: seq<Note>, page: int, limit: int): (r: ListReply)
    requires limit != 0
    ensures r.ListFailed? <==> (page - 1) * limit < 0
    ensures r.ListFailed? ==> r.error == Internal
    ensures r.Listed? ==> (page - 1) * limit >= 0 && IsWindow(r.notes, matching, (page - 1) * limit, Abs(limit))
    ensures r.Listed? ==>
              && r.pagination.currentPage == page
              && r.pagination.totalNotes == |matching|
              && r.pagination.totalPages == CeilDiv(|matching|, limit)
              && (r.pagination.hasNext <==> page < r.pagination.totalPages)
              && (r.pagination.hasPrev <==> page > 1)
  {
    var skip := (page - 1) * limit;
    if skip < 0 then ListFailed(Internal)
    else
      var from := if skip < |matching| then skip else |matching|;
      var to := if from + Abs(limit) < |matching| then from + Abs(limit) else |matching|;
      var totalPages := CeilDiv(|matching|, limit);
      Listed(matching[from..to], Pagination(page, totalPages, |matching|, page < totalPages, page > 1))
  }

  /** One page of `matching` for the raw `page` and `limit` query values. */
  function PageOf(matching: seq<Note>, pageQuery: Option<string>, limitQuery: Option<string>): (r: ListReply)
    ensures r == Paginate(matching, QueryInt(pageQuery, DefaultPage), QueryInt(limitQuery, DefaultLimit))
    ensures r.Listed? ==> forall x :: x in r.notes ==> x in matching
    ensures r.Listed? && NewestFirst(matching) ==> NewestFirst(r.notes)
    ensures r.Listed? ==> |r.notes| <= Abs(QueryInt(limitQuery, DefaultLimit))
    ensures r.ListFailed? <==> PageSkip(pageQuery, limitQuery) < 0
    ensures r.Listed? ==> PageSkip(pageQuery, limitQuery) >= 0
                          && IsWindow(r.notes, matching, PageSkip(pageQuery, limitQuery), Abs(QueryInt(limitQuery, DefaultLimit)))
    ensures r.Listed? ==> r.pagination.currentPage == QueryInt(pageQuery, DefaultPage)
                          && r.pagination.totalNotes == |matching|
  {
    var page := QueryInt(pageQuery, DefaultPage);
    var limit := QueryInt(limitQuery, DefaultLimit);
    var r := Paginate(matching, page, limit);
    if r.Listed? then
      var skip := (page - 1) * limit;
      assert forall k :: 0 <= k < |r.notes| ==> r.notes[k] == matching[skip + k];
      assert forall x :: x in r.notes ==> x in matching;
      r
    else r
  }

  /** `getNotes`: the caller's notes, newest first, one page of them. */
  function GetNotes(store: NoteStore, user: string, pageQuery: Option<string>, limitQuery: Option<string>): (r: ListReply)
    ensures r.Listed? ==> forall x :: x in r.notes ==> x in store && x.owner == user
    ensures r.Listed? ==> NewestFirst(r.notes)
    ensures r.Listed? ==> |r.notes| <= Abs(QueryInt(limitQuery, DefaultLimit))
    ensures r.Listed? ==> r.pagination.totalNotes == |OwnedBy(store, user)|
    ensures r.ListFailed? <==> (QueryInt(pageQuery, DefaultPage) - 1) * QueryInt(limitQuery, DefaultLimit) < 0
    ensures r.ListFailed? ==> r.error == Internal
    ensures r.Listed? ==> PageSkip(pageQuery, limitQuery) >= 0
                          && IsWindow(r.notes, Listing(store, user), PageSkip(pageQuery, limitQuery),
                                      Abs(QueryInt(limitQuery, DefaultLimit)))
    ensures r.Listed? ==> r.pagination.currentPage == QueryInt(pageQuery, DefaultPage)
  {
    PageOf(Listing(store, user), pageQuery, limitQuery)
  }

  /** The notes of `s` that `keep` accepts, in order. */
  function Where(s: seq<Note>, keep: Note -> bool): (r: seq<Note>)
    ensures |r| <= |s|
    ensures forall x :: x in r <==> x in s && keep(x)
  {
    if s == [] then []
    else if keep(s[0]) then [s[0]] + Where(s[1..], keep)
    else Where(s[1..], keep)
  }

  /** `searchNotes`: a falsy `q` is refused before anything else; the
      case-insensitive pattern built from `q` is the `matcher`, `None`
      when `new RegExp(q)` throws. */
  function SearchNotes(store: NoteStore, user: string, q: Option<string>, pageQuery: Option<string>,
                       limitQuery: Option<string>, matcher: Option<Note -> bool>): (r: ListReply)
    ensures !Truthy(q) ==> r == ListFailed(QueryRequired)
    ensures Truthy(q) && matcher.None? ==> r == ListFailed(Internal)
    ensures r.Listed? ==> matcher.Some? && forall x :: x in r.notes ==> x in store && x.owner == user && matcher.value(x)
    ensures r.Listed? ==> NewestFirst(r.notes)
    ensures Truthy(q) && matcher.Some? ==> (r.Listed? <==> PageSkip(pageQuery, limitQuery) >= 0)
    ensures Truthy(q) && matcher.Some? && r.ListFailed? ==> r.error == Internal
    ensures r.Listed? ==> matcher.Some? && PageSkip(pageQuery, limitQuery) >= 0
                          && IsWindow(r.notes, SortNewest(Where(OwnedBy(store, user), matcher.value)),
                                      PageSkip(pageQuery, limitQuery), Abs(QueryInt(limitQuery, DefaultLimit)))
    ensures r.Listed? ==> matcher.Some? && r.pagination.totalNotes == |Where(OwnedBy(store, user), matcher.value)|
  {
    if !Truthy(q) then ListFailed(QueryRequired)
    else if matcher.None? then ListFailed(Internal)
    else
      var matching := SortNewest(Where(OwnedBy(store, user), matcher.value));
      assert forall x :: x in matching <==> x in multiset(Where(OwnedBy(store, user), matcher.value));
      PageOf(matching, pageQuery, limitQuery)
  }

  // ---------------------------------------------------------------------
  // Single notes

  datatype NoteReply =
    | Created(note: Note)   // 201
    | Fetched(note: Note)   // 200
    | Updated(note: Note)   // 200
    | Deleted               // 200
    | DeletedMany(deletedCount: nat)
    | Failed(error: NoteError)

  datatype NoteStep = NoteStep(reply: NoteReply, store: NoteStore)

  /** How a schema path sees a body field that is absent. */
  function FieldValue(f: Option<string>): string {
    if f.Some? then f.value else ""
  }

  /** `getNoteById`: the caller's note with that id, or 404. */
  function GetNoteById(store: NoteStore, user: string, id: NoteId): (r: NoteReply)
    ensures r.Fetched? || r == Failed(NotFound)
    ensures r.Fetched? <==> exists i :: 0 <= i < |store| && store[i].id == id && store[i].owner == user
    ensures r.Fetched? ==> r.note in store && r.note.id == id && r.note.owner == user
  {
    match FindOwned(store, id, user)
    case None => Failed(NotFound)
    case Some(i) => Fetched(store[i])
  }

  /** `Note.create({ title, content, user })`: the title setter trims;
      validation failure is thrown and answered with 500. */
  function CreateNote(store: NoteStore, user: string, title: Option<string>, content: Option<string>,
                      freshId: NoteId, now: int): (s: NoteStep)
    ensures s.reply.Created? <==> 1 <= |Trim(FieldValue(title))| <= TitleMaxLength
                                  && 1 <= |FieldValue(content)| <= ContentMaxLength && user != ""
    ensures !s.reply.Created? ==> s == NoteStep(Failed(Internal), store)
    ensures s.reply.Created? ==>
              && s.store == store + [s.reply.note]
              && s.reply.note == Note(freshId, Trim(FieldValue(title)), FieldValue(content), user, now, now)
              && WellFormedNote(s.reply.note)
  {
    var n := Note(freshId, Trim(FieldValue(title)), FieldValue(content), user, now, now);
    if ValidateNote(n).Some? then NoteStep(Failed(Internal), store)
    else NoteStep(Created(n), store + [n])
  }

  /** The fields an update assigns: a present title through the trim
      setter, a present content as given. `updatedAt` moves only when a
      value actually changed. */
  function Assign(n: Note, title: Option<string>, content: Option<string>, now: int): (m: Note)
    ensures m.id == n.id && m.owner == n.owner && m.createdAt == n.createdAt
    ensures m.title == (if title.Some? then Trim(title.value) else n.title)
    ensures m.content == (if content.Some? then content.value else n.content)
    ensures m.updatedAt == (if m.title == n.title && m.content == n.content then n.updatedAt else now)
  {
    var t := if title.Some? then Trim(title.value) else n.title;
    var c := if content.Some? then content.value else n.content;
    if t == n.title && c == n.content then n else n.(title := t, content := c, updatedAt := now)
  }

  /** Assigning in-bounds values to a valid note gives a valid note. */
  lemma AssignKeepsValid(n: Note, title: Option<string>, content: Option<string>, now: int)
    requires WellFormedNote(n)
    requires title.None? || 1 <= |Trim(title.value)| <= TitleMaxLength
    requires content.None? || 1 <= |content.value| <= ContentMaxLength
    ensures ValidateNote(Assign(n, title, content, now)).None?
  {
  }

  /** An update with a truthy field and in-bounds values is applied to the
      caller's note, or answered 404; the schema never refuses it. */
  lemma InBoundsUpdateApplies(store: NoteStore, user: string, id: NoteId, title: Option<string>,
                              content: Option<string>, now: int)
    requires NoteStoreInv(store) && (Truthy(title) || Truthy(content))
    requires title.None? || 1 <= |Trim(title.value)| <= TitleMaxLength
    requires content.None? || 1 <= |content.value| <= ContentMaxLength
    ensures var s := UpdateNote(store, user, id, title, content, now);
            s.reply.Updated? || s == NoteStep(Failed(NotFound), store)
  {
    match FindOwned(store, id, user)
    case None =>
    case Some(i) =>
      assert store[i] in store;
      AssignKeepsValid(store[i], title, content, now);
  }

  /** When the assigned note fails the schema, the save throws and the
      update is answered 500 with nothing changed. */
  lemma SchemaRefusedUpdate(store: NoteStore, user: string, id: NoteId, title: Option<string>,
                            content: Option<string>, now: int)
    requires (Truthy(title) || Truthy(content)) && FindOwned(store, id, user).Some?
    requires ValidateNote(Assign(store[FindOwned(store, id, user).value], title, content, now)).Some?
    ensures UpdateNote(store, user, id, title, content, now) == NoteStep(Failed(Internal), store)
  {
  }

  /** A title whose trimmed form is longer than the schema allows makes
      the update of the caller's note a 500. */
  lemma OverlongTitleRefused(store: NoteStore, user: string, id: NoteId, title: Option<string>, now: int)
    requires FindOwned(store, id, user).Some? && title.Some? && |Trim(title.value)| > TitleMaxLength
    ensures UpdateNote(store, user, id, title, None, now) == NoteStep(Failed(Internal), store)
  {
    var i := FindOwned(store, id, user).value;
    assert Assign(store[i], title, None, now).title == Trim(title.value);
    SchemaRefusedUpdate(store, user, id, title, None, now);
  }

  /** `updateNote`: both fields falsy is a 400 before any lookup; then the
      caller's note is looked up (404), assigned and saved (500 when the
      schema refuses). Only that note changes. */
  function UpdateNote(store: NoteStore, user: string, id: NoteId, title: Option<string>, content: Option<string>,
                      now: int): (s: NoteStep)
    ensures !Truthy(title) && !Truthy(content) ==> s == NoteStep(Failed(NothingToUpdate), store)
    ensures (Truthy(title) || Truthy(content)) && FindOwned(store, id, user).None?
            ==> s == NoteStep(Failed(NotFound), store)
    ensures !s.reply.Updated? ==> s.store == store
    ensures s.reply.Updated? ==>
              && FindOwned(store, id, user).Some?
              && var i := FindOwned(store, id, user).value;
              && s.reply.note == Assign(store[i], title, content, now)
              && ValidateNote(s.reply.note).None?
              && |s.store| == |store| && s.store[i] == s.reply.note
              && (forall k :: 0 <= k < |store| && k != i ==> s.store[k] == store[k])
  {
    if !Truthy(title) && !Truthy(content) then NoteStep(Failed(NothingToUpdate), store)
    else match FindOwned(store, id, user)
      case None => NoteStep(Failed(NotFound), store)
      case Some(i) =>
        var n := Assign(store[i], title, content, now);
        if ValidateNote(n).Some? then NoteStep(Failed(Internal), store)
        else NoteStep(Updated(n), ReplaceAt(store, i, n))
  }

  /** `deleteNote`: 404 unless the caller owns a note with that id; then
      `findByIdAndDelete(id)` removes it. */
  function DeleteNote(store: NoteStore, user: string, id: NoteId): (s: NoteStep)
    ensures s.reply == Deleted <==> FindOwned(store, id, user).Some?
    ensures s.reply != Deleted ==> s == NoteStep(Failed(NotFound), store)
    ensures s.reply == Deleted ==> forall x :: x in s.store <==> x in store && x.id != id
  {
    if FindOwned(store, id, user).None? then NoteStep(Failed(NotFound), store)
    else NoteStep(Deleted, RemoveId(store, id))
  }

  /** `deleteMany({ _id: { $in: ids }, user })` keeps these notes. */
  function KeepUnlisted(store: NoteStore, user: string, ids: seq<NoteId>): (r: NoteStore)
    ensures |r| <= |store|
    ensures forall x :: x in r <==> x in store && !(x.id in ids && x.owner == user)
  {
    if store == [] then []
    else if store[0].id in ids && store[0].owner == user then KeepUnlisted(store[1..], user, ids)
    else [store[0]] + KeepUnlisted(store[1..], user, ids)
  }

  /** `deleteMultipleNotes`: a missing, non-array or empty `noteIds` is a
      400; otherwise exactly the listed notes the caller owns go, and the
      reply counts them. */
  function DeleteMultipleNotes(store: NoteStore, user: string, noteIds: Option<seq<NoteId>>): (s: NoteStep)
    ensures noteIds.None? || noteIds.value == [] ==> s == NoteStep(Failed(NoIdsGiven), store)
    ensures noteIds.Some? && noteIds.value != [] ==>
              && (forall x :: x in s.store <==> x in store && !(x.id in noteIds.value && x.owner == user))
              && |s.store| <= |store| && s.reply == DeletedMany(|store| - |s.store|)
  {
    if noteIds.None? || noteIds.value == [] then NoteStep(Failed(NoIdsGiven), store)
    else
      var kept := KeepUnlisted(store, user, noteIds.value);
      NoteStep(DeletedMany(|store| - |kept|), kept)
  }

  // ---------------------------------------------------------------------
  // Pagination properties

  /** With a positive limit and a page from 1 on, `hasNext` holds exactly
      when notes remain after this page. */
  lemma HasNextIffMoreNotes(matching: seq<Note>, page: int, limit: int)
    requires limit > 0 && page >= 1
    ensures Paginate(matching, page, limit).Listed?
    ensures Paginate(matching, page, limit).pagination.hasNext <==> page * limit < |matching|
  {
    var t := CeilDiv(|matching|, limit);
    assert Paginate(matching, page, limit).pagination.totalPages == t;
    if page < t {
      MulMonotone(page, t - 1, limit);
    } else {
      MulMonotone(t, page, limit);
    }
  }

  lemma MulMonotone(a: int, b: int, c: nat)
    requires a <= b
    ensures a * c <= b * c
  {
    assert b * c == a * c + (b - a) * c;
  }

  /** Every note of the listing is on page `i / limit + 1`, at offset
      `i % limit`: the pages cover the listing with nothing skipped. */
  lemma PagesCoverListing(matching: seq<Note>, limit: int, i: int)
    requires limit > 0 && 0 <= i < |matching|
    ensures var r := Paginate(matching, i / limit + 1, limit);
            r.Listed? && i % limit < |r.notes| && r.notes[i % limit] == matching[i]
  {
    var page := i / limit + 1;
    assert (page - 1) * limit + i % limit == i;
  }

  /** `totalPages` is the last page that holds notes. */
  lemma LastPageIsLast(matching: seq<Note>, limit: int)
    requires limit > 0 && |matching| > 0
    ensures var t := Paginate(matching, 1, limit).pagination.totalPages;
            && t >= 1
            && Paginate(matching, t, limit).Listed? && |Paginate(matching, t, limit).notes| > 0
            && Paginate(matching, t + 1, limit).Listed? && Paginate(matching, t + 1, limit).notes == []
  {
    var t := CeilDiv(|matching|, limit);
    assert t >= 1;
  }

  /** A negative limit lists `|limit|` notes on the first page but reports
      no page count, and every later page makes MongoDB refuse the
      negative skip. */
  lemma NegativeLimit(matching: seq<Note>, limit: int, page: int)
    requires limit < 0
    ensures var r := Paginate(matching, 1, limit);
            && r.Listed? && |r.notes| == Min(-limit, |matching|)
            && r.pagination.totalPages <= 0 && !r.pagination.hasNext
    ensures page > 1 ==> Paginate(matching, page, limit) == ListFailed(Internal)
  {
    var t := CeilDiv(|matching|, limit);
    assert t <= 0;
    if page > 1 {
      assert (page - 1) * limit < 0;
    }
  }

  /** Without query values the caller gets the ten newest notes. */
  lemma DefaultsListNewestTen(store: NoteStore, user: string)
    ensures var r := GetNotes(store, user, None, None);
            var listing := Listing(store, user);
            && r.Listed? && r.notes == listing[..Min(DefaultLimit, |listing|)]
            && r.pagination.currentPage == 1 && !r.pagination.hasPrev
  {
  }

  /** `Where` with a filter that accepts everything is the identity. */
  lemma {:induction false} WhereAll(s: seq<Note>, keep: Note -> bool)
    requires forall x :: keep(x)
    ensures Where(s, keep) == s
  {
    if s != [] {
      WhereAll(s[1..], keep);
      assert s == [s[0]] + s[1..];
    }
  }

  /** A search whose pattern matches every note lists what `getNotes`
      lists. */
  lemma SearchEverythingIsGetNotes(store: NoteStore, user: string, q: Option<string>, pageQuery: Option<string>,
                                   limitQuery: Option<string>, everything: Note -> bool)
    requires Truthy(q) && forall x :: everything(x)
    ensures SearchNotes(store, user, q, pageQuery, limitQuery, Some(everything)) == GetNotes(store, user, pageQuery, limitQuery)
  {
    WhereAll(OwnedBy(store, user), everything);
  }

  // ---------------------------------------------------------------------
  // Ownership and the store invariant

  /** A note that belongs to someone else is invisible to the single-note
      handlers: each answers 404 (or 400 for an empty update) and changes
      nothing. */
  lemma ForeignNoteUntouchable(store: NoteStore, user: string, id: NoteId, title: Option<string>,
                               content: Option<string>, now: int)
    requires forall i :: 0 <= i < |store| && store[i].id == id ==> store[i].owner != user
    ensures GetNoteById(store, user, id) == Failed(NotFound)
    ensures UpdateNote(store, user, id, title, content, now).store == store
    ensures !UpdateNote(store, user, id, title, content, now).reply.Updated?
    ensures DeleteNote(store, user, id) == NoteStep(Failed(NotFound), store)
  {
  }

  lemma CreateNoteKeepsInv(store: NoteStore, user: string, title: Option<string>, content: Option<string>,
                           freshId: NoteId, now: int)
    requires NoteStoreInv(store)
    requires forall i :: 0 <= i < |store| ==> store[i].id != freshId
    ensures NoteStoreInv(CreateNote(store, user, title, content, freshId, now).store)
  {
    var s := CreateNote(store, user, title, content, freshId, now);
    if s.reply.Created? {
      var r := s.store;
      assert forall x :: x in r ==> x in store || x == s.reply.note;
      forall a, b | 0 <= a < b < |r| ensures r[a].id != r[b].id {
        if b < |store| {
          assert r[a] == store[a] && r[b] == store[b];
        } else {
          assert r[a] == store[a];
        }
      }
    }
  }

  lemma UpdateNoteKeepsInv(store: NoteStore, user: string, id: NoteId, title: Option<string>,
                           content: Option<string>, now: int)
    requires NoteStoreInv(store)
    ensures NoteStoreInv(UpdateNote(store, user, id, title, content, now).store)
  {
    var s := UpdateNote(store, user, id, title, content, now);
    if s.reply.Updated? {
      var i := FindOwned(store, id, user).value;
      assert store[i] in store;
      ReplaceKeepsInv(store, i, s.reply.note);
    }
  }

  lemma DeleteNoteKeepsInv(store: NoteStore, user: string, id: NoteId)
    requires NoteStoreInv(store)
    ensures NoteStoreInv(DeleteNote(store, user, id).store)
  {
    RemoveIdKeepsInv(store, id);
  }

  /** Deleting a note the caller owns removes exactly one note when ids
      are unique. */
  lemma DeleteNoteRemovesOne(store: NoteStore, user: string, id: NoteId)
    requires UniqueNoteIds(store) && FindOwned(store, id, user).Some?
    ensures |DeleteNote(store, user, id).store| == |store| - 1
  {
    RemoveIdRemovesOne(store, id, FindOwned(store, id, user).value);
  }

  lemma {:induction false} RemoveIdRemovesOne(store: NoteStore, id: NoteId, i: nat)
    requires UniqueNoteIds(store) && i < |store| && store[i].id == id
    ensures |RemoveId(store, id)| == |store| - 1
  {
    var tail := store[1..];
    UniqueTail(store);
    if i == 0 {
      RemoveIdKeepsAll(tail, id);
    } else {
      assert store[0].id != id;
      RemoveIdRemovesOne(tail, id, i - 1);
    }
  }

  lemma {:induction false} RemoveIdKeepsAll(store: NoteStore, id: NoteId)
    requires forall k :: 0 <= k < |store| ==> store[k].id != id
    ensures RemoveId(store, id) == store
  {
    if store != [] {
      RemoveIdKeepsAll(store[1..], id);
      assert store == [store[0]] + store[1..];
    }
  }

  // ---------------------------------------------------------------------
  // deleteMultipleNotes

  /** The ids of the caller's notes. */
  function OwnedIds(store: NoteStore, user: string): set<NoteId> {
    if store == [] then {}
    else (if store[0].owner == user then {store[0].id} else {}) + OwnedIds(store[1..], user)
  }

  /** An id is in `OwnedIds` exactly when one of the caller's notes has it. */
  lemma {:induction false} OwnedIdsMember(store: NoteStore, user: string, id: NoteId)
    ensures id in OwnedIds(store, user) <==> exists k :: 0 <= k < |store| && store[k].id == id && store[k].owner == user
  {
    if store != [] {
      var tail := store[1..];
      OwnedIdsMember(tail, user, id);
      if exists k :: 0 <= k < |tail| && tail[k].id == id && tail[k].owner == user {
        var k :| 0 <= k < |tail| && tail[k].id == id && tail[k].owner == user;
        assert store[k + 1] == tail[k];
      }
      if exists k :: 0 <= k < |store| && store[k].id == id && store[k].owner == user {
        var k :| 0 <= k < |store| && store[k].id == id && store[k].owner == user;
        if k > 0 {
          assert tail[k - 1] == store[k];
        }
      }
    }
  }

  function IdSet(ids: seq<NoteId>): set<NoteId> {
    set id | id in ids
  }

  /** With unique ids, `deletedCount` is the number of requested ids that
      name one of the caller's notes: ids of other users' notes and unknown
      ids count for nothing, and a repeated id counts once. */
  lemma {:induction false} DeletedCountIsOverlap(store: NoteStore, user: string, ids: seq<NoteId>)
    requires UniqueNoteIds(store)
    ensures |store| - |KeepUnlisted(store, user, ids)| == |OwnedIds(store, user) * IdSet(ids)|
  {
    if store != [] {
      var n := store[0];
      var tail := store[1..];
      var listed := IdSet(ids);
      UniqueTail(store);
      DeletedCountIsOverlap(tail, user, ids);
      HeadIdNotInTail(store, user);
      var rest := OwnedIds(tail, user) * listed;
      if n.id in ids && n.owner == user {
        assert KeepUnlisted(store, user, ids) == KeepUnlisted(tail, user, ids);
        assert OwnedIds(store, user) * listed == rest + {n.id};
        assert n.id !in rest;
      } else {
        assert KeepUnlisted(store, user, ids) == [n] + KeepUnlisted(tail, user, ids);
        assert OwnedIds(store, user) * listed == rest;
      }
    }
  }

  lemma HeadIdNotInTail(store: NoteStore, user: string)
    requires UniqueNoteIds(store) && store != []
    ensures store[0].id !in OwnedIds(store[1..], user)
  {
    var tail := store[1..];
    OwnedIdsMember(tail, user, store[0].id);
  }

  lemma {:induction false} KeepUnlistedKeepsInv(store: NoteStore, user: string, ids: seq<NoteId>)
    requires NoteStoreInv(store)
    ensures NoteStoreInv(KeepUnlisted(store, user, ids))
  {
    if store != [] {
      UniqueTail(store);
      KeepUnlistedKeepsInv(store[1..], user, ids);
      if !(store[0].id in ids && store[0].owner == user) {
        var rest := KeepUnlisted(store[1..], user, ids);
        HeadIdFresh(store, rest);
        ConsUnique(store[0], rest);
      }
    }
  }

  lemma DeleteMultipleNotesKeepsInv(store: NoteStore, user: string, noteIds: Option<seq<NoteId>>)
    requires NoteStoreInv(store)
    ensures NoteStoreInv(DeleteMultipleNotes(store, user, noteIds).store)
  {
    if noteIds.Some? {
      KeepUnlistedKeepsInv(store, user, noteIds.value);
    }
  }
}
