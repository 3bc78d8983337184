/**
 * The `submit-request` handler: the one write path open to visitors. It checks
 * four fields for truthiness and inserts one row into `project_requests`.
 */
module SubmitRequest {
  import opened Wrappers
  import opened JsString
  import opened Http

  /** The `request` object of the body; null/undefined members are None. */
  datatype RequestInput = RequestInput(
    requestType: Option<string>,
    name: Option<string>,
    email: Option<string>,
    phone: Option<string>,
    projectId: Option<string>,
    details: Option<string>,
    companyName: Option<string>)

  /** A row of the `project_requests` table. */
  datatype RequestRow = RequestRow(
    id: string,
    requestType: string,
    name: string,
    email: string,
    phone: Option<string>,
    projectId: Option<string>,
    details: string,
    companyName: Option<string>,
    isRead: bool,
    createdAt: nat)

  /** The rows of `project_requests` in the order they were inserted. */
  type RequestTable = seq<RequestRow>

  predicate HasId(table: RequestTable, id: string) {
    exists i :: 0 <= i < |table| && table[i].id == id
  }

  ghost predicate UniqueIds(table: RequestTable) {
    forall i, j :: 0 <= i < j < |table| ==> table[i].id != table[j].id
  }

  /** What the database supplies on insert: the new id, the creation time and the column default of `is_read`. */
  datatype ColumnDefaults = ColumnDefaults(id: string, createdAt: nat, isRead: bool)

  /** The table's default for `is_read`. */
  const IsReadDefault: bool := false

  const MissingFields: string := "Missing required fields"

  /** `name`, `email`, `details` and `request_type` are all truthy; nothing is trimmed. */
  predicate HasRequiredFields(input: RequestInput) {
    Truthy(input.name) && Truthy(input.email) && Truthy(input.details) && Truthy(input.requestType)
  }

  /**
   * The handler. A request missing a required field is refused and nothing is
   * written; otherwise one row is appended, with falsy optional fields stored
   * as null and `is_read` left to the column default.
   */
  function Submit(table: RequestTable, input: RequestInput, defaults: ColumnDefaults): (out: (RequestTable, Response<RequestRow>))
    ensures !HasRequiredFields(input) ==> out == (table, Fail(BadRequest, MissingFields))
    ensures HasRequiredFields(input) ==>
              out.1.Ok? && out.0 == table + [out.1.body]
              && var row := out.1.body;
              row.id == defaults.id && row.createdAt == defaults.createdAt && row.isRead == defaults.isRead
              && Some(row.requestType) == input.requestType && Some(row.name) == input.name
              && Some(row.email) == input.email && Some(row.details) == input.details
              && row.phone == OrNull(input.phone) && row.projectId == OrNull(input.projectId)
              && row.companyName == OrNull(input.companyName)
  {
    if !HasRequiredFields(input) then (table, Fail(BadRequest, MissingFields))
    else
      var row := RequestRow(
        defaults.id,
        input.requestType.value,
        input.name.value,
        input.email.value,
        OrNull(input.phone),
        OrNull(input.projectId),
        input.details.value,
        OrNull(input.companyName),
        defaults.isRead,
        defaults.createdAt);
      (table + [row], Ok(row))
  }

  /** With the schema's default a submitted request is stored unread, and the table keeps unique ids. */
  lemma SubmittedUnread(table: RequestTable, input: RequestInput, defaults: ColumnDefaults)
    requires HasRequiredFields(input) && defaults.isRead == IsReadDefault
    requires UniqueIds(table) && !HasId(table, defaults.id)
    ensures !Submit(table, input, defaults).1.body.isRead
    ensures UniqueIds(Submit(table, input, defaults).0)
  {
    var t := Submit(table, input, defaults).0;
    forall i, j | 0 <= i < j < |t| ensures t[i].id != t[j].id {
      if j == |table| {
        assert t[i] == table[i];
      }
    }
  }

  /** Validation does no trimming: a name of one blank is accepted and stored as is. */
  lemma BlankNameAccepted(table: RequestTable, input: RequestInput, defaults: ColumnDefaults)
    requires input.name == Some(" ")
    requires Truthy(input.email) && Truthy(input.details) && Truthy(input.requestType)
    ensures Submit(table, input, defaults).1.Ok?
    ensures Submit(table, input, defaults).1.body.name == " "
  {
  }
}
