/** The notes controller: request validation, normalisation of body fields and the
    mapping of service results to HTTP status codes. Each handler takes the store
    and the already-extracted request fields and returns the service's `Step`
    with the response in place of the service result. */
module NotesController {
  import opened Wrappers
  import opened Text
  import opened JsValues
  import opened Notes
  import opened NotesService

  datatype Payload = OneNote(note: Note) | Listing(page: Page)

  /** `{status: 'success', data}`, `{status: 'fail', message}`, or an empty body. */
  datatype Body = Success(payload: Payload) | Fail(message: string) | NoContent

  datatype Response = Response(status: nat, body: Body)

  const CreateInvalid: string := "Validation error: provide a non-empty \"title\" or \"content\"."
  const UpdateInvalid: string := "Validation error: \"title\" and \"content\" must be strings if provided."
  const NotFound: string := "Note not found"

  /** A body field that is a string with something other than whitespace in it. */
  predicate NonBlankString(v: JsVal) {
    v.Str? && |Trim(v.s)| > 0
  }

  /** What create stores for a body field: the trimmed string, or '' for anything else. */
  function CreateText(v: JsVal): string {
    if v.Str? then Trim(v.s) else []
  }

  /** A field that is present but is not a string, which update refuses. */
  predicate WrongType(v: JsVal) {
    v != Absent && !v.Str?
  }

  /** What update hands the service for a body field: the trimmed string, or
      "not provided". */
  function UpdateField(v: JsVal): Option<string> {
    if v.Str? then Some(Trim(v.s)) else None
  }

  /** GET /notes: always 200 with the page and its metadata. */
  function HandleList(store: seq<Note>, q: JsVal, limit: Option<int>, offset: Option<int>): (r: Step<Response>)
    ensures r.store == store && !r.saved
    ensures r.result.status == 200
    ensures r.result.body == Success(Listing(List(store, q, limit, offset).result))
    ensures r.result.body.payload.page.pagination.total == |Ranked(store, q)|
  {
    var l := List(store, q, limit, offset);
    Step(l.store, Response(200, Success(Listing(l.result))), l.saved)
  }

  /** POST /notes: 400 unless title or content is a non-blank string; otherwise
      the trimmed fields, '' for a non-string, are appended as a new note and 201
      answers with it. */
  function HandleCreate(store: seq<Note>, title: JsVal, content: JsVal, id: string, now: string): (r: Step<Response>)
    requires id !in Ids(store)
    ensures r.result.status == 400 <==> !NonBlankString(title) && !NonBlankString(content)
    ensures r.result.status == 400 ==>
      r.store == store && !r.saved && r.result.body == Fail(CreateInvalid)
    ensures r.result.status != 400 ==>
      && r.result.status == 201
      && r.saved
      && r.store == store + [Note(id, CreateText(title), CreateText(content), now, now)]
      && r.result.body == Success(OneNote(r.store[|store|]))
  {
    if (!title.Str? || |Trim(title.s)| == 0) && (!content.Str? || |Trim(content.s)| == 0) then
      Step(store, Response(400, Fail(CreateInvalid)), false)
    else
      var c := Create(store, id, now, Some(CreateText(title)), Some(CreateText(content)));
      assert c.store == c.store[..|store|] + [c.store[|store|]];
      Step(c.store, Response(201, Success(OneNote(c.result))), c.saved)
  }

  /** GET /notes/:id: 200 with the first note carrying `id`, 404 when there is none. */
  function HandleGetById(store: seq<Note>, id: string): (r: Step<Response>)
    ensures r.store == store && !r.saved
    ensures r.result.status == 404 <==> id !in Ids(store)
    ensures r.result.status == 404 ==> r.result.body == Fail(NotFound)
    ensures r.result.status != 404 ==>
      r.result.status == 200 && r.result.body == Success(OneNote(store[FindIndex(store, id).value]))
  {
    var g := GetById(store, id);
    match g.result
    case None => Step(store, Response(404, Fail(NotFound)), false)
    case Some(n) => Step(store, Response(200, Success(OneNote(n))), false)
  }

  /** PUT /notes/:id: 400 when a provided title or content is not a string, before
      the service is called; otherwise the trimmed strings, and "not provided" for
      omitted fields, go to the service's update, and 404 or 200 follows from its
      answer. Empty strings are accepted here: there is no emptiness check. */
  function HandleUpdate(store: seq<Note>, id: string, title: JsVal, content: JsVal, now: string): (r: Step<Response>)
    ensures r.result.status == 400 <==> WrongType(title) || WrongType(content)
    ensures r.result.status == 400 ==>
      r.store == store && !r.saved && r.result.body == Fail(UpdateInvalid)
    ensures r.result.status == 404 <==> !WrongType(title) && !WrongType(content) && id !in Ids(store)
    ensures r.result.status == 404 ==>
      r.store == store && !r.saved && r.result.body == Fail(NotFound)
    ensures r.result.status !in {400, 404} ==>
      var u := Update(store, id, now, UpdateField(title), UpdateField(content));
      && r.result.status == 200
      && r.saved
      && r.store == u.store
      && r.result.body == Success(OneNote(u.result.value))
  {
    if (title != Absent && !title.Str?) || (content != Absent && !content.Str?) then
      Step(store, Response(400, Fail(UpdateInvalid)), false)
    else
      var u := Update(store, id, now, UpdateField(title), UpdateField(content));
      match u.result
      case None => Step(u.store, Response(404, Fail(NotFound)), u.saved)
      case Some(n) => Step(u.store, Response(200, Success(OneNote(n))), u.saved)
  }

  /** DELETE /notes/:id: 204 with no body when a note was removed, 404 otherwise. */
  function HandleRemove(store: seq<Note>, id: string): (r: Step<Response>)
    ensures r.result.status == 404 <==> id !in Ids(store)
    ensures r.result.status == 404 ==>
      r.store == store && !r.saved && r.result.body == Fail(NotFound)
    ensures r.result.status != 404 ==>
      && r.result.status == 204
      && r.result.body == NoContent
      && r.saved
      && |r.store| == |store| - 1
      && r.store == Remove(store, id).store
  {
    var d := Remove(store, id);
    if !d.result then Step(d.store, Response(404, Fail(NotFound)), d.saved)
    else Step(d.store, Response(204, NoContent), d.saved)
  }

  // ---------------------------------------------------------------- properties

  /** A note created through the controller has trimmed fields, at least one of
      them non-empty. */
  lemma CreatedNoteNotBlank(store: seq<Note>, title: JsVal, content: JsVal, id: string, now: string)
    requires id !in Ids(store)
    ensures var r := HandleCreate(store, title, content, id, now);
            r.result.status == 201 ==>
              var n := r.store[|store|];
              && (n.title != [] || n.content != [])
              && IsTrimmed(n.title) && IsTrimmed(n.content)
  {
  }

  /** Update does not repeat create's emptiness rule: blanking both fields of an
      existing note is answered 200, where creating with the same fields is a 400. */
  lemma UpdateMayBlankBoth(store: seq<Note>, id: string, now: string, newId: string)
    requires id in Ids(store) && newId !in Ids(store)
    ensures var u := HandleUpdate(store, id, Str(" "), Str(""), now);
            && u.result.status == 200
            && u.result.body.payload.note.title == []
            && u.result.body.payload.note.content == []
    ensures HandleCreate(store, Str(" "), Str(""), newId, now).result.status == 400
  {
    assert Trim(" ") == [] by {
      assert AllSpace(" ");
    }
  }

  /** An update whose body names no field still refreshes `updatedAt` and nothing else. */
  lemma EmptyUpdateOnlyTouches(store: seq<Note>, id: string, now: string)
    requires id in Ids(store)
    ensures var r := HandleUpdate(store, id, Absent, Absent, now);
            var i := FindIndex(store, id).value;
            && r.result.status == 200
            && r.store == store[i := store[i].(updatedAt := now)]
  {
    var r := HandleUpdate(store, id, Absent, Absent, now);
    var i := FindIndex(store, id).value;
    assert r.store[i] == store[i].(updatedAt := now);
  }
}
