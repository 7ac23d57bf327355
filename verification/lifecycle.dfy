/** Sequences of requests against one table: the service as a state machine
    whose state is the table and whose transitions are the handlers. The
    property that matters here is AUTOINCREMENT's: ids handed out by
    successful adds only grow, and an id once present in the table, deleted
    or not, is never handed out again. */
module Lifecycle {
  import opened Common
  import opened Database
  import opened Handlers

  /** One request together with the medium's answers to its storage calls. */
  datatype Call = Call(req: Request, faults: Faults)

  /** The id a call handed out: that of the item a successful add answered with. */
  function Issued(c: Call, out: Outcome): seq<Int64> {
    if c.req.AddRequest? && out.resp.status == StatusOK && BodyItem(out.resp.body).Some?
    then [BodyItem(out.resp.body).value.id]
    else []
  }

  /** The table after a run of calls, and the ids handed out, in order. */
  datatype Trace = Trace(store: Store, issued: seq<Int64>)

  /** One call served by its handler. */
  function Serve(s: Store, c: Call): Outcome {
    Handle(s, c.req, c.faults)
  }

  /** A run of calls, each served by `step` on the table the previous one
      left. The service runs with `step` = `Serve`; stating the run over any
      step keeps the bookkeeping below apart from the handlers' details. */
  function RunWith(step: (Store, Call) -> Outcome, s: Store, calls: seq<Call>): Trace
    decreases |calls|
  {
    if |calls| == 0 then Trace(s, [])
    else
      var out := step(s, calls[0]);
      var rest := RunWith(step, out.store, calls[1..]);
      Trace(rest.store, Issued(calls[0], out) + rest.issued)
  }

  function Run(s: Store, calls: seq<Call>): Trace {
    RunWith(Serve, s, calls)
  }

  /** What one call may do to the id record: from a valid table it leaves a
      valid table, does not lower the record, and hands out at most one id,
      above the old record and within the new one. */
  ghost predicate KeepsIdRecord(s: Store, c: Call, out: Outcome) {
    Valid(s) ==>
      && Valid(out.store)
      && s.lastId <= out.store.lastId
      && |Issued(c, out)| <= 1
      && forall i :: 0 <= i < |Issued(c, out)| ==> s.lastId < Issued(c, out)[i] <= out.store.lastId
  }

  /** Every handler keeps the id record. */
  lemma ServeKeepsIdRecord(s: Store, c: Call)
    ensures KeepsIdRecord(s, c, Serve(s, c))
  {
  }

  /** Running `a` then `b` is running `a + b`. */
  lemma {:induction false} RunAppend(step: (Store, Call) -> Outcome, s: Store, a: seq<Call>, b: seq<Call>)
    ensures var first := RunWith(step, s, a);
      var second := RunWith(step, first.store, b);
      RunWith(step, s, a + b) == Trace(second.store, first.issued + second.issued)
    decreases |a|
  {
    if |a| > 0 {
      var ab := a + b;
      assert ab[0] == a[0];
      assert ab[1..] == a[1..] + b;
      var out := step(s, a[0]);
      var here := Issued(a[0], out);
      var tail := RunWith(step, out.store, a[1..]);
      RunAppend(step, out.store, a[1..], b);
      var second := RunWith(step, tail.store, b);
      assert here + (tail.issued + second.issued) == (here + tail.issued) + second.issued;
    } else {
      assert a + b == b;
    }
  }

  /** Over any run from a valid table whose every step keeps the id record:
      the table stays valid, the record never decreases, and the ids handed
      out are strictly increasing, all above the record at the start and
      none above the record at the end. */
  lemma {:induction false} RunWithIssuesFreshIds(step: (Store, Call) -> Outcome, s: Store, calls: seq<Call>)
    requires Valid(s)
    requires forall s', c :: KeepsIdRecord(s', c, step(s', c))
    ensures var t := RunWith(step, s, calls);
      && Valid(t.store)
      && s.lastId <= t.store.lastId
      && (forall i :: 0 <= i < |t.issued| ==> s.lastId < t.issued[i] <= t.store.lastId)
      && (forall i, j :: 0 <= i < j < |t.issued| ==> t.issued[i] < t.issued[j])
    decreases |calls|
  {
    if |calls| > 0 {
      var c := calls[0];
      var out := step(s, c);
      assert KeepsIdRecord(s, c, out);
      var rest := RunWith(step, out.store, calls[1..]);
      RunWithIssuesFreshIds(step, out.store, calls[1..]);
      var here := Issued(c, out);
      var t := RunWith(step, s, calls);
      assert t.issued == here + rest.issued;
      forall i | 0 <= i < |t.issued|
        ensures s.lastId < t.issued[i] <= t.store.lastId
      {
        if i >= |here| { assert t.issued[i] == rest.issued[i - |here|]; }
      }
      forall i, j | 0 <= i < j < |t.issued|
        ensures t.issued[i] < t.issued[j]
      {
        assert t.issued[j] == rest.issued[j - |here|];
        if i >= |here| {
          assert t.issued[i] == rest.issued[i - |here|];
        }
      }
    }
  }

  /** The service's runs: ids handed out by successful adds are strictly
      increasing and above every id issued before the run. */
  lemma RunIssuesFreshIds(s: Store, calls: seq<Call>)
    requires Valid(s)
    ensures var t := Run(s, calls);
      && Valid(t.store)
      && s.lastId <= t.store.lastId
      && (forall i :: 0 <= i < |t.issued| ==> s.lastId < t.issued[i] <= t.store.lastId)
      && (forall i, j :: 0 <= i < j < |t.issued| ==> t.issued[i] < t.issued[j])
  {
    forall s', c ensures KeepsIdRecord(s', c, Serve(s', c)) {
      ServeKeepsIdRecord(s', c);
    }
    RunWithIssuesFreshIds(Serve, s, calls);
  }

  /** No reuse of ids: an id present in the table after the calls `before`
      is below, hence different from, every id the calls `after` hand out,
      even if it has been deleted in between. Stated both for the later
      calls served alone and for the same calls as the tail of the whole
      run `before + after`. */
  lemma NoIdReissued(s: Store, before: seq<Call>, after: seq<Call>, id: Int64)
    requires Valid(s)
    requires id in Run(s, before).store.rows
    ensures var later := Run(Run(s, before).store, after).issued;
      forall i :: 0 <= i < |later| ==> later[i] > id
    ensures var whole := Run(s, before + after).issued;
      forall i :: |Run(s, before).issued| <= i < |whole| ==> whole[i] > id
  {
    var mid := Run(s, before);
    RunIssuesFreshIds(s, before);
    RunIssuesFreshIds(mid.store, after);
    RunAppend(Serve, s, before, after);
    var later := Run(mid.store, after).issued;
    var whole := Run(s, before + after).issued;
    assert whole == mid.issued + later;
    forall i | |mid.issued| <= i < |whole|
      ensures whole[i] > id
    {
      assert whole[i] == later[i - |mid.issued|];
    }
  }

  /** The fields of a one-value form carrying `newTodo`. */
  function NewTodoForm(text: string): Form {
    Parsed(map["newTodo" := [text]])
  }

  const NoFaults: Faults := Faults(Available, Available)

  /** The table after "buy milk" and "walk dog" were added to a fresh one. */
  const TwoItems: Store := Store(map[1 := Row("buy milk", false), 2 := Row("walk dog", false)], 2)

  /** A short session, first half: on a fresh table two adds get ids 1 and
      2 and answer with the submitted texts, not done. */
  lemma FreshTableAdds()
    ensures var a1 := AddHandler(CreateDatabase(), NewTodoForm("buy milk"), JsonMediaType, NoFaults);
      var a2 := AddHandler(a1.store, NewTodoForm("walk dog"), JsonMediaType, NoFaults);
      && a1.resp == Response(StatusOK, JsonItem(TodoItem(1, "buy milk", false)))
      && a2.resp == Response(StatusOK, JsonItem(TodoItem(2, "walk dog", false)))
      && a2.store == TwoItems
  {
  }

  /** A short session, second half: marking 1 done answers with it done,
      deleting 2 answers a JSON client with a bare 204, and afterwards
      marking or deleting 2 fails with the handlers' fixed texts while the
      table keeps only id 1. */
  lemma TwoItemsSession()
    ensures var d1 := DoHandler(TwoItems, "1", JsonMediaType, NoFaults);
      var x2 := DeleteHandler(d1.store, "2", JsonMediaType, NoFaults);
      && d1.resp == Response(StatusOK, JsonItem(TodoItem(1, "buy milk", true)))
      && x2.resp == Response(StatusNoContent, NoContent)
      && x2.store == Store(map[1 := Row("buy milk", true)], 2)
      && DoHandler(x2.store, "2", "", NoFaults) == Outcome(x2.store, Error(StatusInternalServerError, MsgRetrieveFailed))
      && DeleteHandler(x2.store, "2", "", NoFaults) == Outcome(x2.store, Error(StatusInternalServerError, MsgDeleteFailed))
  {
  }
}
