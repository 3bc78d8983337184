/**
 * The contact page: its form, the prefill from the query string, the client
 * check and the submission through the `submit-request` handler.
 */
module ContactPage {
  import opened Wrappers
  import opened JsString
  import opened SubmitRequest

  /** The form's `type` select: "student" or "business". */
  datatype FormType = StudentForm | BusinessForm

  datatype ContactForm = ContactForm(
    name: string,
    email: string,
    phone: string,
    formType: FormType,
    message: string,
    projectId: string,
    companyName: string)

  /** The form as the page opens and as it is reset after a successful send. */
  const InitialForm: ContactForm := ContactForm("", "", "", StudentForm, "", "", "")

  /**
   * The prefill from `?project=` and `?type=`: a non-empty project id is
   * taken; `graduation` selects the student form, `trial` the business form,
   * any other type leaves the selection as it is.
   */
  function Prefill(form: ContactForm, projectParam: Option<string>, typeParam: Option<string>): (f: ContactForm)
    ensures f.projectId == if Truthy(projectParam) then projectParam.value else form.projectId
    ensures typeParam == Some("graduation") ==> f.formType == StudentForm
    ensures typeParam == Some("trial") ==> f.formType == BusinessForm
    ensures typeParam != Some("graduation") && typeParam != Some("trial") ==> f.formType == form.formType
    ensures f.name == form.name && f.email == form.email && f.phone == form.phone
    ensures f.message == form.message && f.companyName == form.companyName
  {
    var withProject := if Truthy(projectParam) then form.(projectId := projectParam.value) else form;
    if typeParam == Some("graduation") then withProject.(formType := StudentForm)
    else if typeParam == Some("trial") then withProject.(formType := BusinessForm)
    else withProject
  }

  /** The stored `request_type` of a form type. */
  function RequestTypeOf(t: FormType): (requestType: string)
    ensures requestType == "graduation" <==> t == StudentForm
    ensures requestType == "trial" <==> t == BusinessForm
  {
    match t
    case StudentForm => "graduation"
    case BusinessForm => "trial"
  }

  const MissingFieldsTitle: string := "Missing required fields"

  /** The client check: name, phone and message are non-blank after trimming. Email is not checked. */
  predicate ClientValid(form: ContactForm) {
    Trim(form.name) != "" && Trim(form.phone) != "" && Trim(form.message) != ""
  }

  /** The `request` object sent: trimmed text, blank optional text as null. */
  function Payload(form: ContactForm): (p: RequestInput)
    ensures p.requestType == Some(RequestTypeOf(form.formType))
    ensures p.name == Some(Trim(form.name)) && p.phone == Some(Trim(form.phone)) && p.details == Some(Trim(form.message))
    ensures p.email == OrNull(Some(Trim(form.email)))
    ensures p.projectId == OrNull(Some(form.projectId))
    ensures p.companyName == OrNull(Some(Trim(form.companyName)))
  {
    RequestInput(
      Some(RequestTypeOf(form.formType)),
      Some(Trim(form.name)),
      OrNull(Some(Trim(form.email))),
      Some(Trim(form.phone)),
      OrNull(Some(form.projectId)),
      Some(Trim(form.message)),
      OrNull(Some(Trim(form.companyName))))
  }

  /** What the visitor sees: the client refusal, the success toast, or the error toast. */
  datatype Outcome = Refused(title: string) | Sent | SendFailed

  datatype SubmitState = SubmitState(form: ContactForm, table: RequestTable, outcome: Outcome)

  /**
   * `handleSubmit`: refuse an incomplete form on the client; otherwise call
   * the handler. A non-success answer is thrown and shown as an error with
   * the form kept; success resets the form.
   */
  function HandleSubmit(form: ContactForm, table: RequestTable, defaults: ColumnDefaults): (s: SubmitState)
    ensures !ClientValid(form) ==> s == SubmitState(form, table, Refused(MissingFieldsTitle))
    ensures s.outcome == Sent <==> ClientValid(form) && HasRequiredFields(Payload(form))
    ensures s.outcome == Sent ==> s.form == InitialForm && s.table == Submit(table, Payload(form), defaults).0
    ensures s.outcome != Sent ==> s.form == form && s.table == table
  {
    if !ClientValid(form) then SubmitState(form, table, Refused(MissingFieldsTitle))
    else
      var (t, answer) := Submit(table, Payload(form), defaults);
      if answer.Ok? then SubmitState(InitialForm, t, Sent)
      else SubmitState(form, t, SendFailed)
  }

  /**
   * The page lets a blank email through, but the handler requires one: such
   * a submission is never stored and always ends in the error toast.
   */
  lemma BlankEmailNeverSent(form: ContactForm, table: RequestTable, defaults: ColumnDefaults)
    requires ClientValid(form) && Trim(form.email) == ""
    ensures HandleSubmit(form, table, defaults) == SubmitState(form, table, SendFailed)
  {
    assert Payload(form).email == None;
  }

  /**
   * A complete form is stored as one new row holding the trimmed text and the
   * request type of the selected form, and the form is reset.
   */
  lemma CompleteFormSent(form: ContactForm, table: RequestTable, defaults: ColumnDefaults)
    requires ClientValid(form) && Trim(form.email) != ""
    ensures var s := HandleSubmit(form, table, defaults);
            s.outcome == Sent && s.form == InitialForm && |s.table| == |table| + 1
            && s.table[..|table|] == table
            && var row := s.table[|table|];
               row.name == Trim(form.name) && row.email == Trim(form.email)
               && row.phone == Some(Trim(form.phone)) && row.details == Trim(form.message)
               && row.requestType == RequestTypeOf(form.formType)
               && row.id == defaults.id && row.createdAt == defaults.createdAt
  {
    var p := Payload(form);
    assert HasRequiredFields(p);
    var t := Submit(table, p, defaults).0;
    assert t[..|table|] == table;
  }

  /** A successful send leaves a form that the client check refuses until it is filled in again. */
  lemma ResetFormRefused(form: ContactForm, table: RequestTable, defaults: ColumnDefaults)
    requires HandleSubmit(form, table, defaults).outcome == Sent
    ensures !ClientValid(HandleSubmit(form, table, defaults).form)
  {
    assert Trim("") == "";
  }
}
