/** The storage layer: the single SQLite table
      `items(id integer primary key autoincrement, value TEXT, done INTEGER default 0)`
    as an immutable value, and each storage function as a pure transition that
    returns the table after the call together with what the call returned.

    A failure of the database medium (driver, file, lock) is not modelled as a
    mechanism: every call takes an `Io` argument saying whether the medium
    answers, and a failing medium leaves the table as it was. */
module Database {
  import opened Common

  /** Go's `TodoItem`; in JSON its fields are `Id`, `Text` and `Done`. */
  datatype TodoItem = TodoItem(id: Int64, text: string, done: bool)

  /** One row of `items`, keyed by its id: the `value` column and the
      `done` column (0 or 1), read back as a boolean. */
  datatype Row = Row(text: string, done: bool)

  /** The table contents plus AUTOINCREMENT's record of the largest id ever
      handed out (SQLite keeps it in `sqlite_sequence`); 0 before any insert. */
  datatype Store = Store(rows: map<Int64, Row>, lastId: nat)

  /** Whether the database medium answers a call, and if not, the driver's
      error text. */
  datatype Io = Available | Failing(detail: string)

  datatype DbError =
    | NoRows                   // `sql.ErrNoRows` from a single-row query
    | Unavailable(detail: string)
    | Full                     // SQLITE_FULL: the largest id was already issued
    | RowsAffected(n: nat)     // a delete that did not remove exactly one row

  /** A storage call: the table after the call, and its Go return values. */
  datatype Step<T> = Step(store: Store, result: Result<T, DbError>)

  /** What the engine maintains about the table: every id lies in 1..lastId,
      so an id above `lastId` has never been handed out, and `lastId` still
      fits in an `int64`. Ids are unique because they are the map's keys. */
  predicate Valid(s: Store) {
    && s.lastId <= MaxInt64
    && forall id :: id in s.rows ==> 1 <= id <= s.lastId
  }

  /** The row with id `id`, as Go reads it into a `TodoItem`. */
  function ItemAt(s: Store, id: Int64): TodoItem
    requires id in s.rows
  {
    TodoItem(id, s.rows[id].text, s.rows[id].done)
  }

  /** `createDatabase` on a fresh file: an empty table that has issued no id. */
  function CreateDatabase(): (s: Store)
    ensures Valid(s)
    ensures |s.rows| == 0 && s.lastId == 0
  {
    Store(map[], 0)
  }

  /** `getOneTodo`: `select value, done from items where id=?`. */
  function GetOneTodo(s: Store, tid: Int64, io: Io): (r: Result<TodoItem, DbError>)
    ensures r.Ok? <==> io.Available? && tid in s.rows
    ensures r.Ok? ==> r.value.id == tid && Row(r.value.text, r.value.done) == s.rows[tid]
    ensures io.Available? && tid !in s.rows ==> r == Err(NoRows)
    ensures io.Failing? ==> r == Err(Unavailable(io.detail))
  {
    if io.Failing? then Err(Unavailable(io.detail))
    else if tid !in s.rows then Err(NoRows)
    else Ok(ItemAt(s, tid))
  }

  /** `addTodo`: `insert into items (value) VALUES (?)`, then
      `LastInsertId`. AUTOINCREMENT gives the new row an id one above the
      largest ever issued, and refuses the insert once that would leave
      `int64`. */
  function AddTodo(s: Store, text: string, io: Io): (st: Step<Int64>)
    ensures st.result.Ok? <==> io.Available? && s.lastId < MaxInt64
    ensures io.Failing? ==> st.result == Err(Unavailable(io.detail))
    ensures io.Available? && s.lastId >= MaxInt64 ==> st.result == Err(Full)
    ensures st.result.Err? ==> st.store == s
    ensures st.result.Ok? ==>
      var id := st.result.value;
      && id > s.lastId
      && (Valid(s) ==> id !in s.rows)
      && st.store.lastId == id
      && id in st.store.rows && st.store.rows[id] == Row(text, false)
      && st.store.rows.Keys == s.rows.Keys + {id}
      && forall other :: other in s.rows && other != id ==> st.store.rows[other] == s.rows[other]
    ensures s.lastId <= st.store.lastId
    ensures Valid(s) ==> Valid(st.store)
  {
    if io.Failing? then Step(s, Err(Unavailable(io.detail)))
    else if s.lastId >= MaxInt64 then Step(s, Err(Full))
    else
      var id: Int64 := s.lastId + 1;
      Step(Store(s.rows[id := Row(text, false)], id), Ok(id))
  }

  /** `update items set done=? where id=?`, shared by `markTodoDone`
      (`done` true) and `markTodoNotDone` (`done` false). An id that matches
      no row is not an error: the update simply changes nothing. */
  function MarkTodo(s: Store, tid: Int64, done: bool, io: Io): (st: Step<()>)
    ensures st.result.Ok? <==> io.Available?
    ensures io.Failing? ==> st == Step(s, Err(Unavailable(io.detail)))
    ensures tid !in s.rows ==> st.store == s
    ensures st.store.lastId == s.lastId && st.store.rows.Keys == s.rows.Keys
    ensures io.Available? && tid in s.rows ==>
      st.store.rows[tid] == Row(s.rows[tid].text, done)
    ensures forall id :: id in s.rows && id != tid ==> st.store.rows[id] == s.rows[id]
    ensures Valid(s) ==> Valid(st.store)
  {
    if io.Failing? then Step(s, Err(Unavailable(io.detail)))
    else if tid !in s.rows then Step(s, Ok(()))
    else Step(s.(rows := s.rows[tid := s.rows[tid].(done := done)]), Ok(()))
  }

  /** `markTodoDone`. */
  function MarkTodoDone(s: Store, tid: Int64, io: Io): (st: Step<()>)
    ensures io.Available? && tid in s.rows ==> tid in st.store.rows && st.store.rows[tid].done
  {
    MarkTodo(s, tid, true, io)
  }

  /** `markTodoNotDone`. */
  function MarkTodoNotDone(s: Store, tid: Int64, io: Io): (st: Step<()>)
    ensures io.Available? && tid in s.rows ==> tid in st.store.rows && !st.store.rows[tid].done
  {
    MarkTodo(s, tid, false, io)
  }

  /** `deleteTodo`: `delete from items where id=?` is executed, then the
      number of affected rows is checked; anything but exactly one is
      reported as an error. The id is the primary key, so at most one row
      can match. */
  function DeleteTodo(s: Store, tid: Int64, io: Io): (st: Step<()>)
    ensures st.result.Ok? <==> io.Available? && tid in s.rows
    ensures io.Failing? ==> st.result == Err(Unavailable(io.detail))
    ensures io.Available? && tid !in s.rows ==> st.result == Err(RowsAffected(0))
    ensures st.result.Err? ==> st.store == s
    ensures st.result.Ok? ==>
      && tid !in st.store.rows
      && st.store.rows.Keys == s.rows.Keys - {tid}
      && forall id :: id in st.store.rows ==> st.store.rows[id] == s.rows[id]
    ensures st.store.lastId == s.lastId
    ensures Valid(s) ==> Valid(st.store)
  {
    if io.Failing? then Step(s, Err(Unavailable(io.detail)))
    else
      var after := s.(rows := s.rows - {tid});
      var n: nat := if tid in s.rows then 1 else 0;
      if n != 1 then
        assert after.rows == s.rows;
        Step(after, Err(RowsAffected(n)))
      else Step(after, Ok(()))
  }

  /** `l` is a listing of the whole table in some order: every entry is a
      stored row, every stored row appears, and no id appears twice. */
  predicate IsListing(s: Store, l: seq<TodoItem>) {
    && |l| == |s.rows|
    && (forall i :: 0 <= i < |l| ==> l[i].id in s.rows && l[i] == ItemAt(s, l[i].id))
    && (forall id :: id in s.rows ==> ItemAt(s, id) in l)
    && (forall i, j :: 0 <= i < j < |l| ==> l[i].id != l[j].id)
  }

  /** `getTodos`: `select id, value, done from items` with no `ORDER BY`, so
      the engine may return the rows in any order; the row picked next is a
      free choice here. An empty table gives an empty (nil) list. */
  method GetTodos(s: Store, io: Io) returns (r: Result<seq<TodoItem>, DbError>)
    ensures io.Failing? ==> r == Err(Unavailable(io.detail))
    ensures io.Available? ==> r.Ok? && IsListing(s, r.value)
    ensures r.Ok? && |s.rows| == 0 ==> r.value == []
  {
    if io.Failing? {
      return Err(Unavailable(io.detail));
    }
    var remaining := s.rows.Keys;
    var list: seq<TodoItem> := [];
    while remaining != {}
      invariant remaining <= s.rows.Keys
      invariant |list| + |remaining| == |s.rows|
      invariant forall i :: 0 <= i < |list| ==>
        list[i].id in s.rows && list[i].id !in remaining && list[i] == ItemAt(s, list[i].id)
      invariant forall id :: id in s.rows && id !in remaining ==> ItemAt(s, id) in list
      invariant forall i, j :: 0 <= i < j < |list| ==> list[i].id != list[j].id
      decreases remaining
    {
      var id :| id in remaining;
      list := list + [ItemAt(s, id)];
      remaining := remaining - {id};
    }
    return Ok(list);
  }

  // ---------------------------------------------------------------------
  // Properties relating the transitions to the single-row read.

  /** A freshly added row reads back as `{id, text, false}`, and every other
      row reads back as before. */
  lemma AddThenGet(s: Store, text: string, other: Int64)
    requires AddTodo(s, text, Available).result.Ok?
    ensures var st := AddTodo(s, text, Available);
      GetOneTodo(st.store, st.result.value, Available) == Ok(TodoItem(st.result.value, text, false))
    ensures var st := AddTodo(s, text, Available);
      other != st.result.value ==>
        GetOneTodo(st.store, other, Available) == GetOneTodo(s, other, Available)
  {
  }

  /** Marking a present row and reading it back yields the requested flag,
      with id and text untouched. */
  lemma MarkThenGet(s: Store, tid: Int64, done: bool)
    requires tid in s.rows
    ensures GetOneTodo(MarkTodo(s, tid, done, Available).store, tid, Available)
         == Ok(TodoItem(tid, s.rows[tid].text, done))
  {
  }

  /** Marking twice with the same flag is the same as marking once. */
  lemma MarkIdempotent(s: Store, tid: Int64, done: bool)
    ensures var once := MarkTodo(s, tid, done, Available);
      MarkTodo(once.store, tid, done, Available) == once
  {
  }

  /** Marking done and then not done restores the table when the row was not
      done to begin with (and symmetrically). */
  lemma MarkRoundTrip(s: Store, tid: Int64, done: bool)
    requires tid in s.rows && s.rows[tid].done == !done
    ensures MarkTodo(MarkTodo(s, tid, done, Available).store, tid, !done, Available).store == s
  {
  }

  /** After a successful delete the id reads as absent, and a second delete
      of the same id fails with zero affected rows and changes nothing. */
  lemma DeleteThenGet(s: Store, tid: Int64)
    requires tid in s.rows
    ensures var after := DeleteTodo(s, tid, Available).store;
      && GetOneTodo(after, tid, Available) == Err(NoRows)
      && DeleteTodo(after, tid, Available) == Step(after, Err(RowsAffected(0)))
  {
  }
}
