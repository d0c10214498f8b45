/**
 * The decisions the HTTP handlers of the notes API make around the table
 * store: who the caller is, which notes a listing returns and in what order,
 * what a new note or an update writes, and which status code a request ends
 * with. Store results are inputs (`Lookup`); a handler ends with the value it
 * returns or the write it asks for.
 */
module Handlers {
  import opened Options
  import opened Sequences
  import opened Text
  import opened Sentences
  import opened Summarizer

  /** A handler's outcome: a value, or an HTTP error with its status code. */
  datatype Response<T> = Ok(value: T) | Error(status: nat, detail: string)

  /** Python truthiness of an optional string: present and not empty. */
  predicate Truthy(s: Option<string>)
  {
    s.Some? && s.value != []
  }

  /** `s or ''` */
  function OrEmpty(s: Option<string>): string
  {
    if s.Some? then s.value else []
  }

  // ---------------------------------------------------------------------------
  // The caller: `get_current_user`.

  /** `s.split(' ', 1)[1]`: what follows the first space, if there is one. */
  function AfterFirstSpace(s: string): (r: Option<string>)
    ensures r.Some? <==> ' ' in s
    ensures r.Some? ==> exists i :: 0 <= i < |s| && s[i] == ' ' && ' ' !in s[..i] && r.value == s[i + 1..]
  {
    if s == [] then None
    else if s[0] == ' ' then Some(s[1..])
    else
      var r := AfterFirstSpace(s[1..]);
      if r.Some? then
        var i :| 0 <= i < |s[1..]| && s[1..][i] == ' ' && ' ' !in s[1..][..i] && r.value == s[1..][i + 1..];
        assert s[i + 1] == ' ' && s[..i + 1] == [s[0]] + s[1..][..i] && s[i + 2..] == s[1..][i + 1..];
        r
      else None
  }

  const BearerPrefix: string := "Bearer "

  /**
   * The token of an `Authorization` header: 401 when the header is missing or
   * empty, 401 when it does not start with `Bearer `, otherwise the text after
   * the prefix with surrounding whitespace removed.
   */
  function BearerToken(authorization: Option<string>): (r: Response<string>)
    ensures r.Error? ==> r.status == 401
    ensures r.Ok? <==> authorization.Some? && BearerPrefix <= authorization.value
    ensures r.Ok? ==> r.value == Strip(authorization.value[|BearerPrefix|..])
  {
    if !Truthy(authorization) then
      Error(401, "Authorization header is required")
    else if !(BearerPrefix <= authorization.value) then
      Error(401, "Authorization header must be a Bearer token")
    else
      var h := authorization.value;
      var rest := AfterFirstSpace(h);
      assert h[6] == ' ' && ' ' !in h[..6];
      assert rest.Some? && rest.value == h[7..] by {
        AfterFirstSpaceAt(h, 6);
      }
      Ok(Strip(rest.value))
  }

  /** The first space decides `AfterFirstSpace`. */
  lemma {:induction false} AfterFirstSpaceAt(s: string, i: nat)
    requires i < |s| && s[i] == ' ' && ' ' !in s[..i]
    ensures AfterFirstSpace(s) == Some(s[i + 1..])
  {
    if i > 0 {
      assert s[0] != ' ' by {
        assert s[..i][0] == s[0];
      }
      assert ' ' !in s[1..][..i - 1] by {
        assert s[1..][..i - 1] == s[1..i];
        assert forall k :: 0 <= k < i - 1 ==> s[1..i][k] == s[..i][k + 1];
      }
      AfterFirstSpaceAt(s[1..], i - 1);
      assert s[1..][i..] == s[i + 1..];
    }
  }

  /** What the identity provider returns for a token: a mapping or an object. */
  datatype Identity =
    | Mapping(id: Option<string>, nestedId: Option<string>)
    | Object(objectId: Option<string>)

  /** `user.get('id') or (user.get('user') or {}).get('id')`, or `user.id`. */
  function UserId(user: Identity): Option<string>
  {
    match user
    case Mapping(id, nestedId) => if Truthy(id) then id else nestedId
    case Object(objectId) => objectId
  }

  /**
   * `get_current_user`: the caller's user id, or 401. `resolve` stands for the
   * identity provider; `None` is any falsy answer.
   */
  method CurrentUser(authorization: Option<string>, resolve: string -> Option<Identity>)
    returns (r: Response<string>)
    ensures r.Error? ==> r.status == 401
    ensures r.Ok? <==>
      && BearerToken(authorization).Ok?
      && resolve(BearerToken(authorization).value).Some?
      && Truthy(UserId(resolve(BearerToken(authorization).value).value))
    ensures r.Ok? ==> r.value != [] && Some(r.value) == UserId(resolve(BearerToken(authorization).value).value)
  {
    var token := BearerToken(authorization);
    if token.Error? {
      return Error(token.status, token.detail);
    }
    var user := resolve(token.value);
    if user.None? {
      return Error(401, "Invalid or expired token");
    }
    var uid := UserId(user.value);
    if !Truthy(uid) {
      return Error(401, "Unable to determine user id");
    }
    return Ok(uid.value);
  }

  // ---------------------------------------------------------------------------
  // Notes as the table store returns them.

  /**
   * A row of the `notes` table. Timestamps are modelled as integers ordered as
   * the stored timestamps are; a missing or empty `updated_at` is `None`.
   */
  datatype Note = Note(
    id: string,
    userId: Option<string>,
    title: Option<string>,
    content: Option<string>,
    pinned: bool,
    createdAt: int,
    updatedAt: Option<int>)

  /** A read from the table store: an error, or the rows it returned. */
  datatype Lookup = Failed(message: string) | Rows(rows: seq<Note>)

  /** `match(n)`: does the note contain the lower-cased query where `filter` says? */
  predicate Matches(n: Note, ql: string, filter: string)
  {
    var t := Lower(OrEmpty(n.title));
    var c := Lower(OrEmpty(n.content));
    if filter == "title" then Contains(t, ql)
    else if filter == "content" then Contains(c, ql)
    else Contains(t, ql) || Contains(c, ql)
  }

  /** `[n for n in notes if match(n)]` */
  function KeepMatching(notes: seq<Note>, ql: string, filter: string): (r: seq<Note>)
    ensures forall i :: 0 <= i < |r| ==> Matches(r[i], ql, filter)
  {
    if notes == [] then []
    else
      var rest := KeepMatching(notes[1..], ql, filter);
      if Matches(notes[0], ql, filter) then [notes[0]] + rest else rest
  }

  /** Every matching note is kept as often as it occurs, and no other note is. */
  lemma {:induction false} KeepMatchingCounts(notes: seq<Note>, ql: string, filter: string)
    ensures var r := KeepMatching(notes, ql, filter);
      forall n :: multiset(r)[n] == if Matches(n, ql, filter) then multiset(notes)[n] else 0
  {
    if notes != [] {
      KeepMatchingCounts(notes[1..], ql, filter);
      assert notes == [notes[0]] + notes[1..];
    }
  }

  /** The kept notes are in their original relative order. */
  lemma {:induction false} KeepMatchingOrder(notes: seq<Note>, ql: string, filter: string)
    ensures IsSubsequence(KeepMatching(notes, ql, filter), notes)
  {
    if notes != [] {
      var rest := KeepMatching(notes[1..], ql, filter);
      KeepMatchingOrder(notes[1..], ql, filter);
      if Matches(notes[0], ql, filter) {
        assert ([notes[0]] + rest)[1..] == rest;
      } else {
        assert rest != [] ==> rest[0] != notes[0];
      }
    }
  }

  /** The search step of `list_notes`. */
  function FilterNotes(notes: seq<Note>, q: Option<string>, filter: string): seq<Note>
  {
    if Truthy(q) then KeepMatching(notes, Lower(q.value), filter) else notes
  }

  /**
   * Without a non-empty query every note is kept; with one, exactly the
   * notes that match the lower-cased query are kept, in their order.
   */
  lemma FilterNotesSpec(notes: seq<Note>, q: Option<string>, filter: string)
    ensures !Truthy(q) ==> FilterNotes(notes, q, filter) == notes
    ensures Truthy(q) ==> var r := FilterNotes(notes, q, filter); var ql := Lower(q.value);
      && (forall i :: 0 <= i < |r| ==> Matches(r[i], ql, filter))
      && (forall n :: multiset(r)[n] == if Matches(n, ql, filter) then multiset(notes)[n] else 0)
      && IsSubsequence(r, notes)
  {
    if Truthy(q) {
      KeepMatchingCounts(notes, Lower(q.value), filter);
      KeepMatchingOrder(notes, Lower(q.value), filter);
    }
  }

  /** `n.get('updated_at') or n.get('created_at')` */
  function Timestamp(n: Note): int
  {
    if n.updatedAt.Some? then n.updatedAt.value else n.createdAt
  }

  /** The sort key `(0 if pinned else 1, updated_at or created_at)`. */
  function NoteKey(n: Note): (int, int)
  {
    (if n.pinned then 0 else 1, Timestamp(n))
  }

  /**
   * Sorted by `NoteKey`: pinned notes come before unpinned ones and, among
   * notes pinned alike, timestamps ascend; notes with the same key keep their
   * order, and nothing is added or lost.
   */
  lemma {:induction false} NoteOrder(notes: seq<Note>)
    ensures var s := SortBy(notes, NoteKey);
      && multiset(s) == multiset(notes)
      && (forall i, j :: 0 <= i < j < |s| && s[j].pinned ==> s[i].pinned)
      && (forall i, j :: 0 <= i < j < |s| && s[i].pinned == s[j].pinned ==> Timestamp(s[i]) <= Timestamp(s[j]))
      && (forall k :: WithKey(s, NoteKey, k) == WithKey(notes, NoteKey, k))
  {
    var s := SortBy(notes, NoteKey);
    forall i, j | 0 <= i < j < |s|
      ensures s[j].pinned ==> s[i].pinned
      ensures s[i].pinned == s[j].pinned ==> Timestamp(s[i]) <= Timestamp(s[j])
    {
      assert KeyLe(NoteKey(s[i]), NoteKey(s[j]));
    }
    forall k
      ensures WithKey(s, NoteKey, k) == WithKey(notes, NoteKey, k)
    {
      SortByStable(notes, NoteKey, k);
    }
  }

  /**
   * `list_notes`: 500 when the store read fails, otherwise the caller's rows
   * filtered by the search and sorted pinned first, then by timestamp.
   */
  method ListNotes(look: Lookup, q: Option<string>, filter: string) returns (r: Response<seq<Note>>)
    ensures r.Error? <==> look.Failed?
    ensures r.Error? ==> r.status == 500 && r.detail == look.message
    ensures r.Ok? ==> r.value == SortBy(FilterNotes(look.rows, q, filter), NoteKey)
    ensures r.Ok? ==> multiset(r.value) == multiset(FilterNotes(look.rows, q, filter))
    ensures r.Ok? ==> forall i, j :: 0 <= i < j < |r.value| && r.value[j].pinned ==> r.value[i].pinned
    ensures r.Ok? ==> forall i, j :: 0 <= i < j < |r.value| && r.value[i].pinned == r.value[j].pinned ==>
      Timestamp(r.value[i]) <= Timestamp(r.value[j])
  {
    if look.Failed? {
      return Error(500, look.message);
    }
    var notes := look.rows;
    if Truthy(q) {
      notes := KeepMatching(notes, Lower(q.value), filter);
    }
    NoteOrder(notes);
    notes := SortBy(notes, NoteKey);
    return Ok(notes);
  }

  // ---------------------------------------------------------------------------
  // Creating a note.

  /** The request body of `create_note`; `user_id` is accepted and ignored. */
  datatype NoteIn = NoteIn(userId: Option<string>, title: string, content: Option<string>, pinned: Option<bool>)

  /** The row `create_note` asks the store to insert. */
  datatype NewNote = NewNote(userId: string, title: string, content: string, pinned: bool)

  /**
   * `create_note`: 400 for a blank title; otherwise the insert of the stripped
   * title and content (a missing content is empty), `pinned` as given or
   * false, owned by the authenticated caller whatever the body says.
   */
  method CreateNote(note: NoteIn, userId: string) returns (r: Response<NewNote>)
    ensures r.Error? <==> AllSpace(note.title)
    ensures r.Error? ==> r.status == 400
    ensures r.Ok? ==> r.value == NewNote(userId, Strip(note.title), Strip(OrEmpty(note.content)), note.pinned == Some(true))
    ensures r.Ok? ==> r.value.title != [] && IsStripped(r.value.title) && IsStripped(r.value.content)
  {
    if note.title == [] || Strip(note.title) == [] {
      return Error(400, "Title is required and cannot be empty");
    }
    var content := if note.content.Some? then note.content.value else [];
    return Ok(NewNote(userId, Strip(note.title), Strip(content), note.pinned == Some(true)));
  }

  // ---------------------------------------------------------------------------
  // The checks shared by update, delete and summarize.

  /**
   * Load the note and check its owner: 500 when the read fails, 404 when no
   * row came back, 403 when the first row belongs to someone else.
   */
  function OwnedNote(look: Lookup, userId: string): (r: Response<Note>)
    ensures r.Error? ==> r.status in {403, 404, 500}
    ensures r.Error? && r.status == 500 <==> look.Failed?
    ensures r.Error? && r.status == 404 <==> look.Rows? && look.rows == []
    ensures r.Error? && r.status == 403 <==> look.Rows? && look.rows != [] && look.rows[0].userId != Some(userId)
    ensures r.Ok? ==> look.Rows? && look.rows != [] && r.value == look.rows[0] && r.value.userId == Some(userId)
  {
    if look.Failed? then Error(500, look.message)
    else if look.rows == [] then Error(404, "Note not found")
    else if look.rows[0].userId != Some(userId) then Error(403, "Not allowed")
    else Ok(look.rows[0])
  }

  // ---------------------------------------------------------------------------
  // Updating a note.

  /** The request body of `update_note`. */
  datatype NoteUpdate = NoteUpdate(title: Option<string>, content: Option<string>, pinned: Option<bool>)

  datatype FieldValue = Text(text: string) | Flag(flag: bool)

  /** `{k: v for k, v in data.dict().items() if v is not None}` */
  function Payload(data: NoteUpdate): (p: map<string, FieldValue>)
    ensures "title" in p <==> data.title.Some?
    ensures "content" in p <==> data.content.Some?
    ensures "pinned" in p <==> data.pinned.Some?
    ensures "title" in p ==> p["title"] == Text(data.title.value)
    ensures "content" in p ==> p["content"] == Text(data.content.value)
    ensures "pinned" in p ==> p["pinned"] == Flag(data.pinned.value)
    ensures p.Keys <= {"title", "content", "pinned"}
  {
    var withTitle: map<string, FieldValue> := if data.title.Some? then map["title" := Text(data.title.value)] else map[];
    var withContent := if data.content.Some? then withTitle["content" := Text(data.content.value)] else withTitle;
    if data.pinned.Some? then withContent["pinned" := Flag(data.pinned.value)] else withContent
  }

  /** The update `update_note` asks the store to apply. */
  datatype UpdateRequest = UpdateRequest(noteId: string, payload: map<string, FieldValue>)

  /**
   * `update_note`: the ownership checks first, then 400 when no field is
   * given and 400 when a given title is blank; otherwise the update of exactly
   * the given fields.
   */
  method UpdateNote(noteId: string, data: NoteUpdate, look: Lookup, userId: string)
    returns (r: Response<UpdateRequest>)
    ensures OwnedNote(look, userId).Error? ==>
      r == Error(OwnedNote(look, userId).status, OwnedNote(look, userId).detail)
    ensures OwnedNote(look, userId).Ok? ==>
      (r.Error? <==> data == NoteUpdate(None, None, None) || (data.title.Some? && AllSpace(data.title.value)))
    ensures r.Error? ==> r.status in {400, 403, 404, 500}
    ensures OwnedNote(look, userId).Ok? && r.Error? ==> r.status == 400
    ensures r.Ok? ==> OwnedNote(look, userId).Ok? && r.value == UpdateRequest(noteId, Payload(data))
    ensures r.Ok? ==> r.value.payload != map[]
  {
    var owned := OwnedNote(look, userId);
    if owned.Error? {
      return Error(owned.status, owned.detail);
    }
    var payload := Payload(data);
    if payload == map[] {
      assert data == NoteUpdate(None, None, None);
      return Error(400, "No fields to update");
    }
    assert data != NoteUpdate(None, None, None) by {
      assert "title" in payload || "content" in payload || "pinned" in payload;
    }
    if "title" in payload && Strip(payload["title"].text) == [] {
      return Error(400, "Title cannot be empty");
    }
    return Ok(UpdateRequest(noteId, payload));
  }

  // ---------------------------------------------------------------------------
  // Deleting a note.

  /** `delete_note`: the ownership checks, then the delete of that note. */
  method DeleteNote(noteId: string, look: Lookup, userId: string) returns (r: Response<string>)
    ensures r.Error? <==> OwnedNote(look, userId).Error?
    ensures r.Error? ==> r.status == OwnedNote(look, userId).status
    ensures r.Ok? ==> r.value == noteId
  {
    var owned := OwnedNote(look, userId);
    if owned.Error? {
      return Error(owned.status, owned.detail);
    }
    return Ok(noteId);
  }

  // ---------------------------------------------------------------------------
  // Summarizing a note.

  /** `max(1, min(10, n))` */
  function ClampMaxSentences(n: int): (m: int)
    ensures 1 <= m <= 10
    ensures 1 <= n <= 10 ==> m == n
    ensures n < 1 ==> m == 1
    ensures n > 10 ==> m == 10
  {
    Max(1, Min(10, n))
  }

  /**
   * `summarize_note`: the ownership checks, then 400 when the content is
   * blank; otherwise the summary of the content with between one and ten
   * sentences. The summary is never empty and splits back into
   * `min(k, n)` sentences of the note, `k` the clamped count.
   */
  method SummarizeNote(look: Lookup, userId: string, maxSentences: int) returns (r: Response<string>)
    ensures OwnedNote(look, userId).Error? ==>
      r == Error(OwnedNote(look, userId).status, OwnedNote(look, userId).detail)
    ensures OwnedNote(look, userId).Ok? ==>
      (r.Error? <==> AllSpace(OrEmpty(OwnedNote(look, userId).value.content)))
    ensures r.Error? ==> r.status in {400, 403, 404, 500}
    ensures OwnedNote(look, userId).Ok? && r.Error? ==> r.status == 400
    ensures r.Ok? ==> OwnedNote(look, userId).Ok?
    ensures r.Ok? ==>
      var content := OrEmpty(OwnedNote(look, userId).value.content);
      var k := ClampMaxSentences(maxSentences);
      && r.value == Summarize(content, k)
      && r.value != []
      && |SplitSentences(r.value)| == Min(k, |SplitSentences(content)|)
      && 1 <= |SplitSentences(r.value)| <= 10
  {
    var owned := OwnedNote(look, userId);
    if owned.Error? {
      return Error(owned.status, owned.detail);
    }
    var content := OrEmpty(owned.value.content);
    if Strip(content) == [] {
      return Error(400, "Note has no content to summarize");
    }
    var k := ClampMaxSentences(maxSentences);
    var summary := SummarizeText(content, k);
    SummaryFacts(content, k);
    return Ok(summary);
  }

  /** What `SummarizeNote` relies on for non-blank content. */
  lemma {:induction false} SummaryFacts(content: string, k: int)
    requires !AllSpace(content) && 1 <= k <= 10
    ensures Summarize(content, k) != []
    ensures |SplitSentences(Summarize(content, k))| == Min(k, |SplitSentences(content)|)
    ensures 1 <= |SplitSentences(Summarize(content, k))| <= 10
  {
    SummaryEmptyIffBlank(content, k);
    SummaryRoundTrip(content, k);
    SummaryIsOrderedSelection(content, k);
    SplitSentencesBlank(content);
  }
}
