/**
 * The `admin-requests` handler: `list` every request newest first with its
 * project, `mark-read` one request and `delete` one request.
 */
module AdminRequests {
  import opened Wrappers
  import opened Http
  import opened SubmitRequest
  import opened AdminProjects

  /** The `projects (id, title, category)` part a listed request carries. */
  datatype ProjectSummary = ProjectSummary(id: string, title: string, category: Category)

  datatype ListedRequest = ListedRequest(request: RequestRow, project: Option<ProjectSummary>)

  datatype RequestsBody =
    | Listing(requests: seq<ListedRequest>)   // { requests }
    | Done                                    // { success: true }

  datatype RequestsCall = RequestsCall(action: string, requestId: string)

  // ---------------------------------------------------------------------------
  // list: order by created_at descending
  // ---------------------------------------------------------------------------

  ghost predicate NewestFirst(rows: seq<RequestRow>) {
    forall i, j :: 0 <= i < j < |rows| ==> rows[i].createdAt >= rows[j].createdAt
  }

  ghost predicate NoNewerThan(rows: seq<RequestRow>, t: nat) {
    forall i :: 0 <= i < |rows| ==> rows[i].createdAt <= t
  }

  /** A bound on every row carries over to any reordering of the rows. */
  lemma NoNewerThanPermutation(a: seq<RequestRow>, b: seq<RequestRow>, t: nat)
    requires multiset(a) == multiset(b) && NoNewerThan(b, t)
    ensures NoNewerThan(a, t)
  {
    forall i | 0 <= i < |a| ensures a[i].createdAt <= t {
      assert a[i] in multiset(b);
      var j :| 0 <= j < |b| && b[j] == a[i];
    }
  }

  /** A row no older than every row of a newest-first sequence can go in front of it. */
  lemma PrependNewest(head: RequestRow, tail: seq<RequestRow>)
    requires NewestFirst(tail) && NoNewerThan(tail, head.createdAt)
    ensures NewestFirst([head] + tail)
  {
    var out := [head] + tail;
    forall i, j | 0 <= i < j < |out| ensures out[i].createdAt >= out[j].createdAt {
      assert out[j] == tail[j - 1];
      if i > 0 {
        assert out[i] == tail[i - 1];
      }
    }
  }

  /** Puts `r` into a newest-first sequence, before the first row that is not newer than it. */
  function InsertByDate(r: RequestRow, sorted: seq<RequestRow>): (out: seq<RequestRow>)
    requires NewestFirst(sorted)
    ensures NewestFirst(out)
    ensures multiset(out) == multiset(sorted) + multiset{r}
  {
    if |sorted| == 0 then [r]
    else if r.createdAt >= sorted[0].createdAt then
      PrependNewest(r, sorted);
      [r] + sorted
    else
      var head := sorted[0];
      var rest := sorted[1..];
      assert sorted == [head] + rest;
      assert NewestFirst(rest);
      var tail := InsertByDate(r, rest);
      assert NoNewerThan(rest + [r], head.createdAt);
      NoNewerThanPermutation(tail, rest + [r], head.createdAt);
      PrependNewest(head, tail);
      [head] + tail
  }

  /** The rows newest first: `.order('created_at', { ascending: false })`. */
  function SortNewestFirst(rows: seq<RequestRow>): (out: seq<RequestRow>)
    ensures NewestFirst(out)
    ensures multiset(out) == multiset(rows)
  {
    if |rows| == 0 then []
    else
      assert rows == [rows[0]] + rows[1..];
      InsertByDate(rows[0], SortNewestFirst(rows[1..]))
  }

  /** The embedded project of a request: its id, title and category, or null. */
  function ProjectOf(row: RequestRow, projects: ProjectStore): (r: Option<ProjectSummary>)
    ensures r.Some? <==> row.projectId.Some? && row.projectId.value in projects
    ensures r.Some? ==> var p := projects[row.projectId.value];
                        r.value == ProjectSummary(p.id, p.title, p.category)
  {
    if row.projectId.Some? && row.projectId.value in projects then
      var p := projects[row.projectId.value];
      Some(ProjectSummary(p.id, p.title, p.category))
    else None
  }

  function WithProjects(rows: seq<RequestRow>, projects: ProjectStore): (r: seq<ListedRequest>)
    ensures |r| == |rows|
    ensures forall i :: 0 <= i < |rows| ==> r[i] == ListedRequest(rows[i], ProjectOf(rows[i], projects))
  {
    if |rows| == 0 then [] else [ListedRequest(rows[0], ProjectOf(rows[0], projects))] + WithProjects(rows[1..], projects)
  }

  /** The request rows of a listing. */
  function RowsOf(listed: seq<ListedRequest>): (rows: seq<RequestRow>)
    ensures |rows| == |listed|
    ensures forall i :: 0 <= i < |listed| ==> rows[i] == listed[i].request
  {
    if |listed| == 0 then [] else [listed[0].request] + RowsOf(listed[1..])
  }

  /** `list`: every row, newest first, each with its referenced project or null. */
  function List(table: RequestTable, projects: ProjectStore): (r: seq<ListedRequest>)
    ensures multiset(RowsOf(r)) == multiset(table)
    ensures NewestFirst(RowsOf(r))
    ensures forall i :: 0 <= i < |r| ==> r[i].project == ProjectOf(r[i].request, projects)
  {
    var sorted := SortNewestFirst(table);
    var r := WithProjects(sorted, projects);
    assert RowsOf(r) == sorted;
    r
  }

  // ---------------------------------------------------------------------------
  // mark-read and delete
  // ---------------------------------------------------------------------------

  /** `update({ is_read: true }).eq('id', requestId)`. */
  function MarkRead(table: RequestTable, id: string): (out: RequestTable)
    ensures |out| == |table|
    ensures forall i :: 0 <= i < |table| ==>
              out[i] == if table[i].id == id then table[i].(isRead := true) else table[i]
  {
    if |table| == 0 then []
    else
      var r := table[0];
      [if r.id == id then r.(isRead := true) else r] + MarkRead(table[1..], id)
  }

  /** `delete().eq('id', requestId)`: every row with that id goes, the others stay in order. */
  function Remove(table: RequestTable, id: string): (out: RequestTable)
    ensures forall r :: r in out <==> r in table && r.id != id
    ensures !HasId(table, id) ==> out == table
    ensures |out| <= |table|
  {
    if |table| == 0 then []
    else if table[0].id == id then Remove(table[1..], id)
    else
      assert !HasId(table, id) ==> !HasId(table[1..], id);
      [table[0]] + Remove(table[1..], id)
  }

  /** With unique ids, deleting a present id removes exactly one row. */
  lemma {:induction false} RemoveOne(table: RequestTable, id: string)
    requires UniqueIds(table) && HasId(table, id)
    ensures |Remove(table, id)| == |table| - 1
  {
    assert UniqueIds(table[1..]);
    if table[0].id == id {
      assert !HasId(table[1..], id) by {
        forall i | 0 <= i < |table[1..]| ensures table[1..][i].id != id {
          assert table[1..][i] == table[i + 1];
        }
      }
    } else {
      var k :| 0 <= k < |table| && table[k].id == id;
      assert table[1..][k - 1].id == id;
      RemoveOne(table[1..], id);
    }
  }

  /** The handler. `mark-read` and `delete` answer success whether or not the id exists. */
  function Handle(table: RequestTable, projects: ProjectStore, call: RequestsCall): (out: (RequestTable, Response<RequestsBody>))
    ensures call.action == "list" ==>
              out.0 == table && out.1.Ok? && out.1.body.Listing?
              && multiset(RowsOf(out.1.body.requests)) == multiset(table) && NewestFirst(RowsOf(out.1.body.requests))
    ensures call.action == "mark-read" ==>
              out.1 == Ok(Done) && |out.0| == |table|
              && forall i :: 0 <= i < |table| ==>
                   (table[i].id == call.requestId ==> out.0[i] == table[i].(isRead := true))
                   && (table[i].id != call.requestId ==> out.0[i] == table[i])
    ensures call.action == "delete" ==>
              out.1 == Ok(Done) && forall r :: r in out.0 <==> r in table && r.id != call.requestId
    ensures call.action in {"mark-read", "delete"} && !HasId(table, call.requestId) ==> out == (table, Ok(Done))
    ensures call.action !in {"list", "mark-read", "delete"} ==> out == (table, Fail(BadRequest, InvalidAction))
  {
    if call.action == "list" then (table, Ok(Listing(List(table, projects))))
    else if call.action == "mark-read" then
      var t := MarkRead(table, call.requestId);
      assert !HasId(table, call.requestId) ==> t == table;
      (t, Ok(Done))
    else if call.action == "delete" then (Remove(table, call.requestId), Ok(Done))
    else (table, Fail(BadRequest, InvalidAction))
  }

  // ---------------------------------------------------------------------------
  // Properties over several calls
  // ---------------------------------------------------------------------------

  /** Marking a request read twice gives the same table as marking it once. */
  lemma MarkReadIdempotent(table: RequestTable, id: string)
    ensures MarkRead(MarkRead(table, id), id) == MarkRead(table, id)
  {
  }

  /** Deleting keeps the ids unique and leaves no row with the deleted id. */
  lemma RemoveKeepsUniqueIds(table: RequestTable, id: string)
    requires UniqueIds(table)
    ensures UniqueIds(Remove(table, id)) && !HasId(Remove(table, id), id)
  {
    var t := Remove(table, id);
    RemoveSubsequence(table, id);
    assert !HasId(t, id) by {
      forall i | 0 <= i < |t| ensures t[i].id != id {
        assert t[i] in t;
      }
    }
  }

  /** The rows left by Remove keep their relative order, so distinct positions hold distinct rows of `table`. */
  lemma {:induction false} RemoveSubsequence(table: RequestTable, id: string)
    requires UniqueIds(table)
    ensures UniqueIds(Remove(table, id))
  {
    if |table| > 0 {
      assert UniqueIds(table[1..]);
      RemoveSubsequence(table[1..], id);
      if table[0].id != id {
        var rest := Remove(table[1..], id);
        var t := [table[0]] + rest;
        forall i, j | 0 <= i < j < |t| ensures t[i].id != t[j].id {
          if i == 0 {
            assert t[j] in rest;
            assert t[j] in table[1..];
            var k :| 0 <= k < |table[1..]| && table[1..][k] == t[j];
            assert table[k + 1] == t[j];
          }
        }
      }
    }
  }

  /**
   * A request stored after every other one is listed first: a submission is at
   * the head of the next listing.
   */
  lemma NewestListedFirst(table: RequestTable, input: RequestInput, defaults: ColumnDefaults, projects: ProjectStore)
    requires HasRequiredFields(input)
    requires forall i :: 0 <= i < |table| ==> table[i].createdAt < defaults.createdAt
    ensures var out := Submit(table, input, defaults);
            var listed := List(out.0, projects);
            |listed| > 0 && listed[0].request == out.1.body
  {
    var out := Submit(table, input, defaults);
    var row := out.1.body;
    var t := out.0;
    var listed := List(t, projects);
    var rows := RowsOf(listed);
    assert row in multiset(t) by { assert t[|table|] == row; }
    assert row in multiset(rows);
    var j :| 0 <= j < |rows| && rows[j] == row;
    assert rows[0].createdAt >= row.createdAt;
    assert forall i :: 0 <= i < |table| ==> t[i].createdAt < row.createdAt;
    assert rows[0] in multiset(t);
    var k :| 0 <= k < |t| && t[k] == rows[0];
    assert t[k].createdAt >= row.createdAt;
    assert k == |table|;
  }
}
