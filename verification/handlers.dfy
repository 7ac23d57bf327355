/** The five HTTP handlers of the service, each as a function from the table,
    the request's inputs and the medium's answers to its storage calls, to the
    table afterwards and the response. A response is a status code and the
    kind of body written; the bytes of the JSON encoding and of the HTML
    templates are not modelled, only which of them is chosen. */
module Handlers {
  import opened Common
  import opened Database
  import opened Strconv

  const StatusOK: int := 200
  const StatusNoContent: int := 204
  const StatusBadRequest: int := 400
  const StatusInternalServerError: int := 500

  /** The only Accept value that selects JSON; it is compared as a whole. */
  const JsonMediaType: string := "application/json"

  // The fixed texts handed to `http.Error`.
  const MsgInternalServerError: string := "Internal Server Error"
  const MsgDoBadId: string := "Markdone expects an integer path element"
  const MsgDoFailed: string := "Unable to mark entry as done"
  const MsgUndoBadId: string := "Markundone expects an integer path element"
  const MsgUndoFailed: string := "Unable to mark entry as not done"
  const MsgRetrieveFailed: string := "Unable to retrieve marked entry"
  const MsgDeleteBadId: string := "Delete expects an integer path element"
  const MsgDeleteFailed: string := "Unable to delete entry"
  const MsgBadForm: string := "Error parsing add request"
  const MsgEmptyTodo: string := "Empty todo items are not accepted"
  const MsgWriteFailed: string := "Unable to write new entry"

  datatype Format = Json | Html

  /** What is written in the response body. */
  datatype Body =
    | JsonItem(item: TodoItem)          // one item, JSON-encoded
    | JsonList(items: seq<TodoItem>)    // the whole list, JSON-encoded
    | HtmlItem(item: TodoItem)          // the `todoitem.html` fragment
    | HtmlPage(items: seq<TodoItem>)    // the `index.html` page
    | Empty                             // a 200 with an empty body
    | NoContent                         // a bare 204 status line
    | ErrorText(msg: string)            // `http.Error` with a fixed text

  datatype Response = Response(status: int, body: Body)

  /** The table after a handler ran, and what it answered. */
  datatype Outcome = Outcome(store: Store, resp: Response)

  /** The submitted form: either `ParseForm` failed, or the parsed values. */
  datatype Form = Malformed | Parsed(values: map<string, seq<string>>)

  /** The medium's answers to a handler's first and second storage call
      (only do and undo make a second one). */
  datatype Faults = Faults(first: Io, second: Io)

  /** The switch on `r.Header.Get("Accept")`: an absent header reads as "". */
  function Negotiate(accept: string): (f: Format)
    ensures f == Json <==> accept == JsonMediaType
  {
    if accept == JsonMediaType then Json else Html
  }

  function RenderItem(f: Format, item: TodoItem): Body {
    match f
    case Json => JsonItem(item)
    case Html => HtmlItem(item)
  }

  function RenderList(f: Format, items: seq<TodoItem>): Body {
    match f
    case Json => JsonList(items)
    case Html => HtmlPage(items)
  }

  function Error(status: int, msg: string): Response {
    Response(status, ErrorText(msg))
  }

  /** `r.FormValue(key)`: the first value submitted under `key`, or "". */
  function FormValue(values: map<string, seq<string>>, key: string): (v: string)
    ensures v != "" ==> key in values && |values[key]| > 0 && v == values[key][0]
  {
    if key in values && |values[key]| > 0 then values[key][0] else ""
  }

  /** The item a single-item body carries. */
  function BodyItem(b: Body): Option<TodoItem> {
    match b
    case JsonItem(item) => Some(item)
    case HtmlItem(item) => Some(item)
    case _ => None
  }

  /** `indexHandlerFunc`: the whole list, as JSON or as the index page. A
      failing read gives a 500 with the standard status text. */
  method IndexHandler(s: Store, accept: string, io: Io) returns (resp: Response)
    ensures io.Failing? ==> resp == Error(StatusInternalServerError, MsgInternalServerError)
    ensures io.Available? ==> resp.status == StatusOK
    ensures io.Available? ==> (resp.body.JsonList? <==> accept == JsonMediaType)
    ensures io.Available? ==> (resp.body.HtmlPage? <==> accept != JsonMediaType)
    ensures resp.body.JsonList? ==> IsListing(s, resp.body.items)
    ensures resp.body.HtmlPage? ==> IsListing(s, resp.body.items)
  {
    var r := GetTodos(s, io);
    if r.Err? {
      return Error(StatusInternalServerError, MsgInternalServerError);
    }
    return Response(StatusOK, RenderList(Negotiate(accept), r.value));
  }

  /** The shared ladder of `doHandlerFunc` (`done` true) and
      `undoHandlerFunc` (`done` false): parse the id, update the row, read it
      back, answer with the re-read item. `badId` and `markFailed` are the
      handler's own texts. */
  function MarkHandler(s: Store, param: string, accept: string, done: bool,
                       badId: string, markFailed: string, f: Faults): (out: Outcome)
    ensures out.resp.status in {StatusOK, StatusBadRequest, StatusInternalServerError}
    ensures ParseInt(param).Err? ==> out == Outcome(s, Error(StatusBadRequest, badId))
    ensures ParseInt(param).Ok? && f.first.Failing? ==>
      out == Outcome(s, Error(StatusInternalServerError, markFailed))
    ensures ParseInt(param).Ok? && f.first.Available? && ParseInt(param).value !in s.rows ==>
      out == Outcome(s, Error(StatusInternalServerError, MsgRetrieveFailed))
    ensures ParseInt(param).Ok? && f.first.Available? && f.second.Failing? ==>
      out.resp == Error(StatusInternalServerError, MsgRetrieveFailed)
    ensures ParseInt(param).Ok? && f.first.Available? ==>
      out.store == MarkTodo(s, ParseInt(param).value, done, Available).store
    ensures out.resp.status == StatusOK <==>
      ParseInt(param).Ok? && ParseInt(param).value in s.rows
      && f.first.Available? && f.second.Available?
    ensures out.resp.status == StatusOK ==>
      var tid := ParseInt(param).value;
      && BodyItem(out.resp.body) == Some(TodoItem(tid, s.rows[tid].text, done))
      && (out.resp.body.JsonItem? <==> accept == JsonMediaType)
      && out.store.rows.Keys == s.rows.Keys
      && out.store.rows[tid] == Row(s.rows[tid].text, done)
    ensures out.resp.status != StatusOK ==>
      out.resp.body in {ErrorText(badId), ErrorText(markFailed), ErrorText(MsgRetrieveFailed)}
    ensures out.store.lastId == s.lastId
    ensures forall id :: id in s.rows && (ParseInt(param).Err? || id != ParseInt(param).value) ==>
      id in out.store.rows && out.store.rows[id] == s.rows[id]
  {
    match ParseInt(param)
    case Err(_) => Outcome(s, Error(StatusBadRequest, badId))
    case Ok(tid) =>
      var marked := if done then MarkTodoDone(s, tid, f.first) else MarkTodoNotDone(s, tid, f.first);
      if marked.result.Err? then
        Outcome(marked.store, Error(StatusInternalServerError, markFailed))
      else
        match GetOneTodo(marked.store, tid, f.second)
        case Err(_) => Outcome(marked.store, Error(StatusInternalServerError, MsgRetrieveFailed))
        case Ok(item) => Outcome(marked.store, Response(StatusOK, RenderItem(Negotiate(accept), item)))
  }

  /** `doHandlerFunc`. */
  function DoHandler(s: Store, param: string, accept: string, f: Faults): (out: Outcome)
    ensures ParseInt(param).Err? ==> out.resp == Error(StatusBadRequest, MsgDoBadId)
    ensures out.resp.status == StatusOK ==>
      BodyItem(out.resp.body).Some? && BodyItem(out.resp.body).value.done
  {
    MarkHandler(s, param, accept, true, MsgDoBadId, MsgDoFailed, f)
  }

  /** `undoHandlerFunc`. */
  function UndoHandler(s: Store, param: string, accept: string, f: Faults): (out: Outcome)
    ensures ParseInt(param).Err? ==> out.resp == Error(StatusBadRequest, MsgUndoBadId)
    ensures out.resp.status == StatusOK ==>
      BodyItem(out.resp.body).Some? && !BodyItem(out.resp.body).value.done
  {
    MarkHandler(s, param, accept, false, MsgUndoBadId, MsgUndoFailed, f)
  }

  /** `deleteHandlerFunc`: parse the id, delete the row; a bare 204 for a
      JSON client, an empty 200 otherwise. */
  function DeleteHandler(s: Store, param: string, accept: string, f: Faults): (out: Outcome)
    ensures ParseInt(param).Err? ==> out == Outcome(s, Error(StatusBadRequest, MsgDeleteBadId))
    ensures ParseInt(param).Ok? && (f.first.Failing? || ParseInt(param).value !in s.rows) ==>
      out == Outcome(s, Error(StatusInternalServerError, MsgDeleteFailed))
    ensures ParseInt(param).Ok? && f.first.Available? && ParseInt(param).value in s.rows ==>
      var tid := ParseInt(param).value;
      && out.resp == (if accept == JsonMediaType then Response(StatusNoContent, NoContent)
                      else Response(StatusOK, Empty))
      && out.store.rows.Keys == s.rows.Keys - {tid}
      && (forall id :: id in out.store.rows ==> out.store.rows[id] == s.rows[id])
    ensures out.store.lastId == s.lastId
  {
    match ParseInt(param)
    case Err(_) => Outcome(s, Error(StatusBadRequest, MsgDeleteBadId))
    case Ok(tid) =>
      var deleted := DeleteTodo(s, tid, f.first);
      if deleted.result.Err? then
        Outcome(deleted.store, Error(StatusInternalServerError, MsgDeleteFailed))
      else
        match Negotiate(accept)
        case Json => Outcome(deleted.store, Response(StatusNoContent, NoContent))
        case Html => Outcome(deleted.store, Response(StatusOK, Empty))
  }

  /** `addHandlerFunc`: parse the form, refuse an empty `newTodo`, insert,
      and answer with the item built from the new id and the submitted text
      (it is not read back). */
  function AddHandler(s: Store, form: Form, accept: string, f: Faults): (out: Outcome)
    ensures form.Malformed? ==> out == Outcome(s, Error(StatusBadRequest, MsgBadForm))
    ensures form.Parsed? && FormValue(form.values, "newTodo") == "" ==>
      out == Outcome(s, Error(StatusBadRequest, MsgEmptyTodo))
    ensures out.resp.status == StatusOK <==>
      form.Parsed? && FormValue(form.values, "newTodo") != ""
      && f.first.Available? && s.lastId < MaxInt64
    ensures out.resp.status != StatusOK ==> out.store == s
    ensures (form.Parsed? && FormValue(form.values, "newTodo") != ""
             && (f.first.Failing? || s.lastId >= MaxInt64)) ==>
      out == Outcome(s, Error(StatusInternalServerError, MsgWriteFailed))
    ensures out.resp.status == StatusInternalServerError ==>
      out.resp == Error(StatusInternalServerError, MsgWriteFailed)
    ensures out.resp.status == StatusOK ==>
      var text := FormValue(form.values, "newTodo");
      && BodyItem(out.resp.body).Some?
      && var item := BodyItem(out.resp.body).value;
      && item.text == text && !item.done
      && item.id > s.lastId && (Valid(s) ==> item.id !in s.rows)
      && (out.resp.body.JsonItem? <==> accept == JsonMediaType)
      && GetOneTodo(out.store, item.id, Available) == Ok(item)
      && out.store.rows.Keys == s.rows.Keys + {item.id}
      && (forall id :: id in s.rows && id != item.id ==> out.store.rows[id] == s.rows[id])
    ensures s.lastId <= out.store.lastId
  {
    match form
    case Malformed => Outcome(s, Error(StatusBadRequest, MsgBadForm))
    case Parsed(values) =>
      var text := FormValue(values, "newTodo");
      if text == "" then Outcome(s, Error(StatusBadRequest, MsgEmptyTodo))
      else
        var added := AddTodo(s, text, f.first);
        if added.result.Err? then
          Outcome(added.store, Error(StatusInternalServerError, MsgWriteFailed))
        else
          var item := TodoItem(added.result.value, text, false);
          Outcome(added.store, Response(StatusOK, RenderItem(Negotiate(accept), item)))
  }

  /** A state-changing request as the router hands it over: the route's
      handler and its inputs. */
  datatype Request =
    | AddRequest(form: Form, accept: string)
    | DoRequest(param: string, accept: string)
    | UndoRequest(param: string, accept: string)
    | DeleteRequest(param: string, accept: string)

  function Handle(s: Store, req: Request, f: Faults): Outcome {
    match req
    case AddRequest(form, accept) => AddHandler(s, form, accept, f)
    case DoRequest(param, accept) => DoHandler(s, param, accept, f)
    case UndoRequest(param, accept) => UndoHandler(s, param, accept, f)
    case DeleteRequest(param, accept) => DeleteHandler(s, param, accept, f)
  }

  /** Every request keeps the table invariant and never lowers the record of
      issued ids. */
  lemma HandlePreservesValid(s: Store, req: Request, f: Faults)
    requires Valid(s)
    ensures Valid(Handle(s, req, f).store)
    ensures s.lastId <= Handle(s, req, f).store.lastId
  {
  }

  /** The medium's answers with the driver's error text blanked out. */
  function Mask(io: Io): Io {
    if io.Failing? then Failing("") else Available
  }

  /** Storage error text never reaches the client: the outcome of every
      request depends only on WHETHER its storage calls failed. */
  lemma StorageDetailNeverReachesClient(s: Store, req: Request, f: Faults)
    ensures Handle(s, req, f) == Handle(s, req, Faults(Mask(f.first), Mask(f.second)))
  {
  }

  /** Every 500 carries one of the handlers' fixed texts. */
  lemma ServerErrorsUseFixedTexts(s: Store, req: Request, f: Faults)
    ensures var out := Handle(s, req, f);
      out.resp.status == StatusInternalServerError ==>
        out.resp.body in {ErrorText(MsgDoFailed), ErrorText(MsgUndoFailed),
                          ErrorText(MsgRetrieveFailed), ErrorText(MsgDeleteFailed),
                          ErrorText(MsgWriteFailed)}
  {
  }

  /** A path segment the route admits is refused with a 400 by do, undo and
      delete exactly when its value overflows `int64`; the table is then
      untouched. */
  lemma RouteIdRejectedIffOverflow(s: Store, req: Request, f: Faults)
    requires req.DoRequest? || req.UndoRequest? || req.DeleteRequest?
    requires IsDigitString(req.param)
    ensures var out := Handle(s, req, f);
      (out.resp.status == StatusBadRequest <==> DecimalValue(req.param) > MaxInt64)
      && (out.resp.status == StatusBadRequest ==> out.store == s)
  {
    RouteIdFailsIffOverflow(req.param);
  }

  /** Negotiation is the same for every handler: on success the body is JSON
      exactly when the Accept header is the JSON media type, verbatim. */
  lemma JsonOnlyForExactAccept(s: Store, req: Request, f: Faults)
    ensures var out := Handle(s, req, f);
      out.resp.status in {StatusOK, StatusNoContent} ==>
        ((out.resp.body.JsonItem? || out.resp.body.NoContent?) <==> req.accept == JsonMediaType)
  {
  }
}
