/** The owner-scoped note store behind `api/notes`. The caller's identity is the
    value of the token's `NameIdentifier` claim; every operation takes it as
    `caller`. The two queries are functions over the table; the three operations
    that write are methods of `NoteTable`. */
module NotesController {
  import opened Base
  import opened NoteModel

  // ---------------------------------------------------------------------------
  // The error-field mapping of PostNote

  /** The `field` given to a validation message: the first keyword it contains,
      matched case-sensitively, decides. */
  function FieldOfNoteMessage(message: string): (field: string)
    ensures field == "title" <==> Contains(message, "Title")
    ensures field == "description" <==> !Contains(message, "Title") && Contains(message, "Description")
    ensures field == "" <==> !Contains(message, "Title") && !Contains(message, "Description")
  {
    if Contains(message, "Title") then "title"
    else if Contains(message, "Description") then "description"
    else ""
  }

  /** A text without a capital T that contains "Description" lands under "description". */
  lemma DescriptionField(message: string)
    requires 'T' !in message && Contains(message, "Description")
    ensures FieldOfNoteMessage(message) == "description"
  {
    ContainsNeedsFirstChar(message, "Title");
  }

  lemma TitleRequiredField()
    ensures FieldOfNoteMessage(TitleRequired) == "title"
  {
    OccursContains(TitleRequired, "Title", 0);
  }

  lemma TitleTooLongField()
    ensures FieldOfNoteMessage(TitleTooLong) == "title"
  {
    assert TitleTooLong[0] == 'T' && TitleTooLong[1] == 'i' && TitleTooLong[2] == 't';
    assert TitleTooLong[3] == 'l' && TitleTooLong[4] == 'e';
    OccursContains(TitleTooLong, "Title", 0);
  }

  lemma DescriptionRequiredField()
    ensures FieldOfNoteMessage(DescriptionRequired) == "description"
  {
    OccursContains(DescriptionRequired, "Description", 0);
    DescriptionField(DescriptionRequired);
  }

  /** Every message the attributes on `Note` can produce lands on the field of the
      property that produced it. */
  lemma NoteMessagesMapToTheirField()
    ensures FieldOfNoteMessage(TitleRequired) == "title"
    ensures FieldOfNoteMessage(TitleTooLong) == "title"
    ensures FieldOfNoteMessage(DescriptionRequired) == "description"
  {
    TitleRequiredField();
    TitleTooLongField();
    DescriptionRequiredField();
  }

  /** A title of 101 code units is answered with a title error; one of 100 is not. */
  lemma TitleBoundaryResponse(n: Note)
    requires n.title.Some?
    ensures Utf16Length(n.title.value) == 101 ==>
      FieldError("title", TitleTooLong) in FieldErrors(ValidationErrors(n), FieldOfNoteMessage)
    ensures Utf16Length(n.title.value) == 100 ==>
      forall e :: e in FieldErrors(ValidationErrors(n), FieldOfNoteMessage) ==> e.message != TitleTooLong
  {
    TitleTooLongField();
    var msgs := ValidationErrors(n);
    var errors := FieldErrors(msgs, FieldOfNoteMessage);
    if Utf16Length(n.title.value) == 101 {
      var i :| 0 <= i < |msgs| && msgs[i] == TitleTooLong;
      assert errors[i] == FieldError("title", TitleTooLong);
    }
    if Utf16Length(n.title.value) == 100 {
      forall e | e in errors ensures e.message != TitleTooLong {
        var i :| 0 <= i < |errors| && errors[i] == e;
        assert e.message == msgs[i];
      }
    }
  }

  /** The body of a BadRequest from PostNote: one entry per failed attribute, with
      the title's messages under "title" and the description's under "description". */
  lemma PostNoteErrorFields(n: Note)
    ensures var errors := FieldErrors(ValidationErrors(n), FieldOfNoteMessage);
      forall e :: e in errors ==>
        && e.message in ValidationErrors(n)
        && (e.field == "title" <==> e.message == TitleRequired || e.message == TitleTooLong)
        && (e.field == "description" <==> e.message == DescriptionRequired)
  {
    NoteMessagesMapToTheirField();
    var msgs := ValidationErrors(n);
    var errors := FieldErrors(msgs, FieldOfNoteMessage);
    forall e | e in errors
      ensures e.message in msgs
      ensures e.field == "title" <==> e.message == TitleRequired || e.message == TitleTooLong
      ensures e.field == "description" <==> e.message == DescriptionRequired
    {
      var i :| 0 <= i < |errors| && errors[i] == e;
      assert e == FieldError(FieldOfNoteMessage(msgs[i]), msgs[i]);
    }
  }

  // ---------------------------------------------------------------------------
  // Queries: GetNotes and GetNote

  /** One `Where` clause of the GetNotes query. */
  datatype Criterion =
    | OwnedBy(userId: string)
    | TitleContains(search: string)
    | CreatedFrom(from: int)
    | CreatedUntil(until: int)

  predicate Holds(c: Criterion, n: Note)
  {
    match c
    case OwnedBy(u) => n.userId == Some(u)
    case TitleContains(s) => n.title.Some? && Contains(n.title.value, s)
    case CreatedFrom(t) => n.createdAt >= t
    case CreatedUntil(t) => n.createdAt <= t
  }

  /** `query.Where(c)`: keeps the notes satisfying `c`, in their order. */
  function Where(c: Criterion, s: seq<Note>): (r: seq<Note>)
    ensures |r| <= |s|
    ensures forall n :: multiset(r)[n] == if Holds(c, n) then multiset(s)[n] else 0
  {
    if s == [] then []
    else
      assert s == [s[0]] + s[1..];
      (if Holds(c, s[0]) then [s[0]] else []) + Where(c, s[1..])
  }

  /** Most recent first; notes with equal timestamps in any order. */
  ghost predicate NewestFirst(s: seq<Note>)
  {
    forall i, j :: 0 <= i < j < |s| ==> s[i].createdAt >= s[j].createdAt
  }

  /** Places `n` before the first note that is not more recent than it. */
  function InsertByDate(n: Note, s: seq<Note>): (r: seq<Note>)
    ensures multiset(r) == multiset(s) + multiset{n}
  {
    if s == [] || n.createdAt >= s[0].createdAt then [n] + s
    else
      assert s == [s[0]] + s[1..];
      [s[0]] + InsertByDate(n, s[1..])
  }

  /** `OrderByDescending(n => n.CreatedAt)`. The order of notes with equal
      timestamps is up to the database; this model keeps their table order. */
  function OrderByNewest(s: seq<Note>): (r: seq<Note>)
    ensures multiset(r) == multiset(s)
  {
    if s == [] then []
    else
      assert s == [s[0]] + s[1..];
      InsertByDate(s[0], OrderByNewest(s[1..]))
  }

  /** The optional filters of GetNotes: a non-empty `search` must occur in the
      title, and the creation time must lie within the inclusive bounds given. */
  predicate PassesFilters(n: Note, search: string, fromDate: Option<int>, toDate: Option<int>)
  {
    && (search != "" ==> n.title.Some? && Contains(n.title.value, search))
    && (fromDate.Some? ==> fromDate.value <= n.createdAt)
    && (toDate.Some? ==> n.createdAt <= toDate.value)
  }

  /** Lines 35-48: each filter is applied to the ordered query only when given. */
  function ApplyFilters(q: seq<Note>, search: string, fromDate: Option<int>, toDate: Option<int>): (r: seq<Note>)
    ensures forall n :: multiset(r)[n] == if PassesFilters(n, search, fromDate, toDate) then multiset(q)[n] else 0
  {
    var q1 := if search != "" then Where(TitleContains(search), q) else q;
    var q2 := if fromDate.Some? then Where(CreatedFrom(fromDate.value), q1) else q1;
    if toDate.Some? then Where(CreatedUntil(toDate.value), q2) else q2
  }

  /** GetNotes: the caller's notes, newest first, then narrowed by the filters.
      A null `search` binds as the empty string. */
  function GetNotes(table: seq<Note>, caller: string, search: string,
                    fromDate: Option<int>, toDate: Option<int>): (r: seq<Note>)
    ensures NewestFirst(r)
    ensures forall n :: multiset(r)[n] == if Selected(n, caller, search, fromDate, toDate) then multiset(table)[n] else 0
  {
    var owned := Where(OwnedBy(caller), table);
    OrderByNewestSorts(owned);
    ApplyFiltersKeepOrder(OrderByNewest(owned), search, fromDate, toDate);
    ApplyFilters(OrderByNewest(owned), search, fromDate, toDate)
  }

  /** The notes GetNotes is meant to return: the caller's own that pass the filters. */
  predicate Selected(n: Note, caller: string, search: string, fromDate: Option<int>, toDate: Option<int>)
  {
    n.userId == Some(caller) && PassesFilters(n, search, fromDate, toDate)
  }

  /** In a sorted sequence nothing after the head is more recent than the head. */
  lemma TailNotNewer(s: seq<Note>, x: Note)
    requires NewestFirst(s) && s != [] && x in multiset(s[1..])
    ensures x.createdAt <= s[0].createdAt
  {
    var i :| 0 <= i < |s[1..]| && s[1..][i] == x;
    assert s[i + 1] == x;
  }

  lemma TailSorted(s: seq<Note>)
    requires NewestFirst(s) && s != []
    ensures NewestFirst(s[1..])
  {
    forall i, j | 0 <= i < j < |s[1..]| ensures s[1..][i].createdAt >= s[1..][j].createdAt {
      assert s[1..][i] == s[i + 1] && s[1..][j] == s[j + 1];
    }
  }

  /** A note at least as recent as every note of a sorted sequence can go in front. */
  lemma ConsSorted(x: Note, t: seq<Note>)
    requires NewestFirst(t)
    requires forall k :: 0 <= k < |t| ==> t[k].createdAt <= x.createdAt
    ensures NewestFirst([x] + t)
  {
    var s := [x] + t;
    forall i, j | 0 <= i < j < |s| ensures s[i].createdAt >= s[j].createdAt {
      assert s[j] == t[j - 1];
      if i > 0 {
        assert s[i] == t[i - 1];
      }
    }
  }

  lemma {:induction false} InsertByDateKeepsOrder(n: Note, s: seq<Note>)
    requires NewestFirst(s)
    ensures NewestFirst(InsertByDate(n, s))
    decreases |s|
  {
    if s != [] && n.createdAt < s[0].createdAt {
      var t := InsertByDate(n, s[1..]);
      TailSorted(s);
      InsertByDateKeepsOrder(n, s[1..]);
      forall k | 0 <= k < |t| ensures t[k].createdAt <= s[0].createdAt {
        assert t[k] in multiset(t);
        if t[k] != n {
          TailNotNewer(s, t[k]);
        }
      }
      ConsSorted(s[0], t);
    }
  }

  lemma {:induction false} OrderByNewestSorts(s: seq<Note>)
    ensures NewestFirst(OrderByNewest(s))
    decreases |s|
  {
    if s != [] {
      OrderByNewestSorts(s[1..]);
      InsertByDateKeepsOrder(s[0], OrderByNewest(s[1..]));
    }
  }

  /** A filter keeps a sorted sequence sorted. */
  lemma {:induction false} WhereKeepsOrder(c: Criterion, s: seq<Note>)
    requires NewestFirst(s)
    ensures NewestFirst(Where(c, s))
    decreases |s|
  {
    if s != [] {
      var t := Where(c, s[1..]);
      TailSorted(s);
      WhereKeepsOrder(c, s[1..]);
      if Holds(c, s[0]) {
        forall k | 0 <= k < |t| ensures t[k].createdAt <= s[0].createdAt {
          assert t[k] in multiset(t);
          TailNotNewer(s, t[k]);
        }
        assert Where(c, s) == [s[0]] + t;
        ConsSorted(s[0], t);
      } else {
        assert Where(c, s) == t;
      }
    }
  }

  /** The filters applied after the ordering keep it. */
  lemma ApplyFiltersKeepOrder(q: seq<Note>, search: string, fromDate: Option<int>, toDate: Option<int>)
    requires NewestFirst(q)
    ensures NewestFirst(ApplyFilters(q, search, fromDate, toDate))
  {
    var q1 := if search != "" then Where(TitleContains(search), q) else q;
    var q2 := if fromDate.Some? then Where(CreatedFrom(fromDate.value), q1) else q1;
    if search != "" { WhereKeepsOrder(TitleContains(search), q); }
    if fromDate.Some? { WhereKeepsOrder(CreatedFrom(fromDate.value), q1); }
    if toDate.Some? { WhereKeepsOrder(CreatedUntil(toDate.value), q2); }
  }

  /** `Where` of a sequence with a known head. */
  lemma WhereCons(c: Criterion, x: Note, s: seq<Note>)
    ensures Where(c, [x] + s) == if Holds(c, x) then [x] + Where(c, s) else Where(c, s)
  {
    assert ([x] + s)[0] == x && ([x] + s)[1..] == s;
  }

  /** Inserting a note at least as recent as the head puts it in front. */
  lemma InsertByDateFront(n: Note, s: seq<Note>)
    requires s == [] || n.createdAt >= s[0].createdAt
    ensures InsertByDate(n, s) == [n] + s
  {
  }

  /** Inserting a note older than the head leaves the head in front. */
  lemma InsertByDateBehind(n: Note, x: Note, s: seq<Note>)
    requires n.createdAt < x.createdAt
    ensures InsertByDate(n, [x] + s) == [x] + InsertByDate(n, s)
  {
    assert ([x] + s)[0] == x && ([x] + s)[1..] == s;
  }

  /** The case of WhereInsertByDate where `n` goes in front. */
  lemma WhereInsertInFront(c: Criterion, n: Note, s: seq<Note>)
    requires NewestFirst(s)
    requires s == [] || n.createdAt >= s[0].createdAt
    ensures Where(c, InsertByDate(n, s)) ==
      if Holds(c, n) then InsertByDate(n, Where(c, s)) else Where(c, s)
  {
    InsertByDateFront(n, s);
    WhereCons(c, n, s);
    var w := Where(c, s);
    if Holds(c, n) && w != [] {
      assert w[0] in multiset(w);
      if w[0] != s[0] {
        TailNotNewer(s, w[0]);
      }
    }
    if Holds(c, n) {
      InsertByDateFront(n, w);
    }
  }

  /** Filtering a sorted sequence commutes with inserting into it. */
  lemma {:induction false} WhereInsertByDate(c: Criterion, n: Note, s: seq<Note>)
    requires NewestFirst(s)
    ensures Where(c, InsertByDate(n, s)) ==
      if Holds(c, n) then InsertByDate(n, Where(c, s)) else Where(c, s)
    decreases |s|
  {
    if s == [] || n.createdAt >= s[0].createdAt {
      WhereInsertInFront(c, n, s);
    } else {
      var x, s1 := s[0], s[1..];
      assert s == [x] + s1;
      assert NewestFirst(s1);
      WhereInsertByDate(c, n, s1);
      InsertByDateBehind(n, x, s1);
      WhereCons(c, x, InsertByDate(n, s1));
      WhereCons(c, x, s1);
      if Holds(c, x) && Holds(c, n) {
        InsertByDateBehind(n, x, Where(c, s1));
      }
    }
  }

  /** Filtering then ordering gives the same sequence as ordering then filtering. */
  lemma {:induction false} WhereOrderByNewest(c: Criterion, s: seq<Note>)
    ensures Where(c, OrderByNewest(s)) == OrderByNewest(Where(c, s))
    decreases |s|
  {
    if s != [] {
      var s1 := s[1..];
      WhereOrderByNewest(c, s1);
      OrderByNewestSorts(s1);
      WhereInsertByDate(c, s[0], OrderByNewest(s1));
      if Holds(c, s[0]) {
        assert Where(c, s) == [s[0]] + Where(c, s1);
        assert ([s[0]] + Where(c, s1))[0] == s[0] && ([s[0]] + Where(c, s1))[1..] == Where(c, s1);
      } else {
        assert Where(c, s) == Where(c, s1);
      }
    }
  }

  lemma ApplyFiltersOrderByNewest(q: seq<Note>, search: string, fromDate: Option<int>, toDate: Option<int>)
    ensures ApplyFilters(OrderByNewest(q), search, fromDate, toDate) ==
            OrderByNewest(ApplyFilters(q, search, fromDate, toDate))
  {
    var q1 := if search != "" then Where(TitleContains(search), q) else q;
    var q2 := if fromDate.Some? then Where(CreatedFrom(fromDate.value), q1) else q1;
    if search != "" { WhereOrderByNewest(TitleContains(search), q); }
    if fromDate.Some? { WhereOrderByNewest(CreatedFrom(fromDate.value), q1); }
    if toDate.Some? { WhereOrderByNewest(CreatedUntil(toDate.value), q2); }
  }

  /** No combination of filters lets GetNotes return another user's note. */
  lemma GetNotesOwnerOnly(table: seq<Note>, caller: string, search: string, fromDate: Option<int>, toDate: Option<int>)
    ensures forall n :: n in GetNotes(table, caller, search, fromDate, toDate) ==>
      n in table && n.userId == Some(caller) && PassesFilters(n, search, fromDate, toDate)
  {
    var r := GetNotes(table, caller, search, fromDate, toDate);
    forall n | n in r ensures n in table && Selected(n, caller, search, fromDate, toDate) {
      assert multiset(r)[n] > 0;
    }
  }

  /** Sorting first and filtering later, as the query is written, yields the
      ordering of the selected notes: the later filters do not disturb it. */
  lemma GetNotesFilterThenOrder(table: seq<Note>, caller: string, search: string, fromDate: Option<int>, toDate: Option<int>)
    ensures GetNotes(table, caller, search, fromDate, toDate) ==
            OrderByNewest(ApplyFilters(Where(OwnedBy(caller), table), search, fromDate, toDate))
  {
    ApplyFiltersOrderByNewest(Where(OwnedBy(caller), table), search, fromDate, toDate);
  }

  /** The predicate of `FirstOrDefaultAsync` in GetNote, PutNote and DeleteNote. */
  predicate IsOwned(n: Note, caller: string, id: int)
  {
    n.id == id && n.userId == Some(caller)
  }

  /** The position of the first note with this id that belongs to the caller. */
  function FindOwned(table: seq<Note>, caller: string, id: int): (r: Option<nat>)
    ensures r.Some? ==> r.value < |table| && IsOwned(table[r.value], caller, id)
    ensures r.Some? ==> forall j :: 0 <= j < r.value ==> !IsOwned(table[j], caller, id)
    ensures r.None? <==> forall j :: 0 <= j < |table| ==> !IsOwned(table[j], caller, id)
  {
    if table == [] then None
    else if IsOwned(table[0], caller, id) then Some(0)
    else match FindOwned(table[1..], caller, id)
      case None => None
      case Some(k) => Some(k + 1)
  }

  /** GetNote: the caller's note with this id, or NotFound (None). */
  function GetNote(table: seq<Note>, caller: string, id: int): (r: Option<Note>)
    ensures r.Some? ==> r.value in table && r.value.id == id && r.value.userId == Some(caller)
    ensures r.None? <==> forall n :: n in table ==> !IsOwned(n, caller, id)
  {
    match FindOwned(table, caller, id)
    case None => None
    case Some(i) => Some(table[i])
  }

  /** `NoteExists`: whether any note, of any owner, has this id. */
  function HasId(table: seq<Note>, id: int): (b: bool)
    ensures b <==> exists i :: 0 <= i < |table| && table[i].id == id
  {
    if table == [] then false
    else table[0].id == id || HasId(table[1..], id)
  }

  /** No two rows share an id: the table's key. */
  ghost predicate UniqueIds(table: seq<Note>)
  {
    forall i, j :: 0 <= i < j < |table| ==> table[i].id != table[j].id
  }

  /** Another user's note is invisible: asking for its id gives NotFound, the same
      answer as for an id that no note has. */
  lemma OthersNotesNotFound(table: seq<Note>, n: Note, caller: string)
    requires UniqueIds(table) && n in table && n.userId != Some(caller)
    ensures GetNote(table, caller, n.id) == None
    ensures FindOwned(table, caller, n.id) == None
    ensures HasId(table, n.id)
  {
    var k :| 0 <= k < |table| && table[k] == n;
    forall m | m in table ensures !IsOwned(m, caller, n.id) {
      var j :| 0 <= j < |table| && table[j] == m;
      if j != k {
        assert table[j].id != table[k].id;
      }
    }
  }

  /** NotFound covers both an id that no note has and one that is someone else's. */
  lemma NotFoundCases(table: seq<Note>, caller: string, id: int)
    requires UniqueIds(table)
    ensures GetNote(table, caller, id) == None <==>
      !HasId(table, id) || exists n :: n in table && n.id == id && n.userId != Some(caller)
  {
    if HasId(table, id) {
      var i :| 0 <= i < |table| && table[i].id == id;
      if GetNote(table, caller, id) == None {
        assert !IsOwned(table[i], caller, id);
      } else {
        forall n | n in table && n.id == id ensures n.userId == Some(caller) {
          var j :| 0 <= j < |table| && table[j] == n;
          var k := FindOwned(table, caller, id).value;
          assert j == k;
        }
      }
    }
  }

  // ---------------------------------------------------------------------------
  // The operations that write: PostNote, PutNote, DeleteNote

  /** The answer of PostNote: 201 with the stored note, or 400 with the body
      `{ message, errors }`. */
  datatype PostResult =
    | Created(note: Note)
    | Rejected(message: string, errors: seq<FieldError>)

  /** The answers of PutNote and DeleteNote. `SaveFailed` is the 500 of an
      exception that `SaveChangesAsync` throws and no handler catches. */
  datatype Status = NoContent | NotFound | BadRequest | SaveFailed

  /** The `Notes` table: its rows in insertion order and the next value of the
      identity column. */
  class NoteTable {
    var notes: seq<Note>
    var nextId: int

    ghost predicate Valid()
      reads this
    {
      && 1 <= nextId
      && (forall i :: 0 <= i < |notes| ==> 1 <= notes[i].id < nextId)
      && UniqueIds(notes)
    }

    constructor ()
      ensures Valid() && notes == [] && nextId == 1
    {
      notes := [];
      nextId := 1;
    }

    /** PostNote. An invalid body is answered with the mapped validation errors and
        stores nothing. A valid one is stored as exactly one new row whose owner is
        the caller and whose creation time is `now`, whatever the body said about
        either; its id is the next identity value. */
    method PostNote(caller: string, now: int, note: Note) returns (r: PostResult)
      requires Valid()
      modifies this
      ensures Valid()
      ensures !IsValid(note) ==>
        && r == Rejected(ValidationFailedMessage, FieldErrors(ValidationErrors(note), FieldOfNoteMessage))
        && notes == old(notes) && nextId == old(nextId)
      ensures IsValid(note) ==>
        && r == Created(Note(old(nextId), note.title, note.description, now, Some(caller)))
        && notes == old(notes) + [r.note] && nextId == old(nextId) + 1
      ensures r.Created? ==> GetNote(notes, caller, r.note.id) == Some(r.note)
    {
      var errors := ValidationErrors(note);
      if errors != [] {
        return Rejected(ValidationFailedMessage, FieldErrors(errors, FieldOfNoteMessage));
      }
      var stored := note.(id := nextId, userId := Some(caller), createdAt := now);
      notes := notes + [stored];
      nextId := nextId + 1;
      r := Created(stored);
      assert IsOwned(notes[|notes| - 1], caller, stored.id);
    }

    /** PutNote. A route id that differs from the body's is a BadRequest; an id the
        caller does not own is NotFound; both leave the table as it was. Otherwise
        the title and description of that one row are overwritten, without any
        validation in the action, and everything else is kept. A null title or
        description cannot be saved: `[Required]` makes both columns NOT NULL, the
        update fails with an exception the concurrency handler does not catch, and
        the table is kept. */
    method PutNote(caller: string, id: int, note: Note) returns (r: Status)
      requires Valid()
      modifies this
      ensures Valid() && nextId == old(nextId)
      ensures id != note.id ==> r == BadRequest && notes == old(notes)
      ensures id == note.id && FindOwned(old(notes), caller, id).None? ==> r == NotFound && notes == old(notes)
      ensures id == note.id && FindOwned(old(notes), caller, id).Some? && (note.title.None? || note.description.None?) ==>
        r == SaveFailed && notes == old(notes)
      ensures id == note.id && FindOwned(old(notes), caller, id).Some? && note.title.Some? && note.description.Some? ==>
        var i := FindOwned(old(notes), caller, id).value;
        && r == NoContent
        && notes == old(notes)[i := old(notes)[i].(title := note.title, description := note.description)]
      ensures r == NoContent ==>
        GetNote(notes, caller, id) == Some(GetNote(old(notes), caller, id).value.(title := note.title, description := note.description))
    {
      if id != note.id {
        return BadRequest;
      }
      var found := FindOwned(notes, caller, id);
      if found.None? {
        return NotFound;
      }
      if note.title.None? || note.description.None? {
        return SaveFailed;
      }
      var i := found.value;
      ghost var before := notes;
      notes := notes[i := notes[i].(title := note.title, description := note.description)];
      assert forall j :: 0 <= j < |notes| ==> (IsOwned(notes[j], caller, id) <==> IsOwned(before[j], caller, id));
      r := NoContent;
    }

    /** DeleteNote. An id the caller does not own is NotFound and the table is kept;
        otherwise exactly that row is removed. Either way the caller owns no note
        with that id afterwards, so a second delete is NotFound. */
    method DeleteNote(caller: string, id: int) returns (r: Status)
      requires Valid()
      modifies this
      ensures Valid() && nextId == old(nextId)
      ensures r == NoContent || r == NotFound
      ensures FindOwned(old(notes), caller, id).None? ==> r == NotFound && notes == old(notes)
      ensures FindOwned(old(notes), caller, id).Some? ==>
        var i := FindOwned(old(notes), caller, id).value;
        r == NoContent && notes == old(notes)[..i] + old(notes)[i + 1..]
      ensures GetNote(notes, caller, id) == None
    {
      var found := FindOwned(notes, caller, id);
      if found.None? {
        return NotFound;
      }
      var i := found.value;
      ghost var before := notes;
      notes := notes[..i] + notes[i + 1..];
      forall j | 0 <= j < |notes| ensures notes[j].id != id {
        if j < i {
          assert notes[j] == before[j];
        } else {
          assert notes[j] == before[j + 1];
        }
      }
      r := NoContent;
    }
  }

  // ---------------------------------------------------------------------------
  // Sequences of requests

  /** Deleting the same id twice: the second answer is NotFound. */
  method DeleteTwice(table: NoteTable, caller: string, id: int) returns (first: Status, second: Status)
    requires table.Valid()
    modifies table
    ensures table.Valid()
    ensures first == NoContent <==> FindOwned(old(table.notes), caller, id).Some?
    ensures second == NotFound && GetNote(table.notes, caller, id) == None
  {
    first := table.DeleteNote(caller, id);
    second := table.DeleteNote(caller, id);
  }

  /** A creates a note; B then asks for it, tries to overwrite it and to delete it,
      and is told NotFound each time. The note stays as A created it, A reads it
      back, and A's list holds it. */
  method OtherUserScenario(table: NoteTable, a: string, b: string, now: int, note: Note)
      returns (created: PostResult, got: Option<Note>, put: Status, deleted: Status)
    requires table.Valid() && a != b && IsValid(note)
    modifies table
    ensures table.Valid()
    ensures created.Created? && created.note.userId == Some(a) && created.note.createdAt == now
    ensures created.note.title == note.title && created.note.description == note.description
    ensures got == None && put == NotFound && deleted == NotFound
    ensures GetNote(table.notes, a, created.note.id) == Some(created.note)
    ensures created.note in GetNotes(table.notes, a, "", None, None)
    ensures created.note !in GetNotes(table.notes, b, "", None, None)
  {
    created := table.PostNote(a, now, note);
    OthersNotesNotFound(table.notes, created.note, b);
    got := GetNote(table.notes, b, created.note.id);
    put := table.PutNote(b, created.note.id, created.note);
    deleted := table.DeleteNote(b, created.note.id);
    assert created.note in table.notes;
    assert multiset(GetNotes(table.notes, a, "", None, None))[created.note] > 0;
    GetNotesOwnerOnly(table.notes, b, "", None, None);
  }
}
