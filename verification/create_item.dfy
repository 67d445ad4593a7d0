/** The `CreateItem` form: its state, the request its Create button sends,
    and what a response does to the state. The component renders nothing
    for a user who is not a teacher. Date fields hold the raw
    `datetime-local` input text. */
module CreateItem {
  import opened Wrappers

  datatype User = User(id: string, name: string, email: string, role: string)

  datatype Tab = TaskTab | EventTab

  /** The component's state hooks. */
  datatype Form = Form(tab: Tab, title: string, desc: string, start: string, end: string, due: string, audience: string)

  /** The hooks' initial values: the task tab, empty fields, all students. */
  const InitialForm: Form := Form(TaskTab, "", "", "", "", "", "all_students")

  datatype Field = Title | Desc | Start | End | Due | Audience

  function Get(f: Form, field: Field): string {
    match field
    case Title => f.title
    case Desc => f.desc
    case Start => f.start
    case End => f.end
    case Due => f.due
    case Audience => f.audience
  }

  /** The body of the POST the Create button sends; the tab picks
      `submitTask` or `submitEvent`. */
  datatype Request =
    | TaskRequest(title: string, description: string, dueDate: string, audience: string)
    | EventRequest(title: string, description: string, startTime: string, endTime: string, audience: string)

  /** The fields each kind of request is built from. */
  function FieldsOf(tab: Tab): set<Field> {
    match tab
    case TaskTab => {Title, Desc, Due, Audience}
    case EventTab => {Title, Desc, Start, End, Audience}
  }

  /** The form field a request component was read from, if any: `description`
      comes from `desc`, `due_date` from `due`, `start_time` and `end_time`
      from `start` and `end`. */
  function Carried(r: Request, field: Field): Option<string> {
    match r
    case TaskRequest(title, description, dueDate, audience) =>
      (match field
       case Title => Some(title)
       case Desc => Some(description)
       case Due => Some(dueDate)
       case Audience => Some(audience)
       case _ => None)
    case EventRequest(title, description, startTime, endTime, audience) =>
      (match field
       case Title => Some(title)
       case Desc => Some(description)
       case Start => Some(startTime)
       case End => Some(endTime)
       case Audience => Some(audience)
       case _ => None)
  }

  /** The request of the shown tab carries exactly that tab's fields, each
      with the form's current value. */
  function RequestFor(f: Form): (r: Request)
    ensures r.TaskRequest? <==> f.tab == TaskTab
    ensures forall field :: Carried(r, field) == if field in FieldsOf(f.tab) then Some(Get(f, field)) else None
  {
    match f.tab
    case TaskTab => TaskRequest(f.title, f.desc, f.due, f.audience)
    case EventTab => EventRequest(f.title, f.desc, f.start, f.end, f.audience)
  }

  /** The path the request is posted to. */
  function Endpoint(r: Request): string {
    if r.TaskRequest? then "/tasks" else "/events"
  }

  /** The request depends on the tab and on that tab's fields only. */
  lemma RequestReadsOnlyItsFields(f: Form, g: Form)
    requires f.tab == g.tab
    requires forall field :: field in FieldsOf(f.tab) ==> Get(f, field) == Get(g, field)
    ensures RequestFor(f) == RequestFor(g)
  {
    assert Title in FieldsOf(f.tab) && Desc in FieldsOf(f.tab) && Audience in FieldsOf(f.tab);
    if f.tab == TaskTab {
      assert Due in FieldsOf(f.tab);
    } else {
      assert Start in FieldsOf(f.tab) && End in FieldsOf(f.tab);
    }
  }

  /** Conversely, the request determines the tab and that tab's fields. */
  lemma RequestDeterminesItsFields(f: Form, g: Form)
    requires RequestFor(f) == RequestFor(g)
    ensures f.tab == g.tab
    ensures forall field :: field in FieldsOf(f.tab) ==> Get(f, field) == Get(g, field)
  {
  }

  /** `res.ok`: a status in the range 200-299. */
  predicate IsOk(status: int) {
    200 <= status <= 299
  }

  /** The tab whose handler sends a request of this kind. */
  function SenderTab(r: Request): Tab {
    if r.TaskRequest? then TaskTab else EventTab
  }

  lemma SenderTabOfRequest(f: Form)
    ensures SenderTab(RequestFor(f)) == f.tab
  {
  }

  /** The state after the response, and whether `refresh()` is called. */
  datatype Outcome = Outcome(form: Form, refresh: bool)

  /** `f` is the form when the response arrives: the user may have edited
      fields or switched tabs during the `await`. `sent` is the request that
      was posted; its handler decides which setters run. `response` is the
      HTTP status, or `None` when the `fetch` rejects (the handler then stops
      before touching the state). On success the fields of the sent kind are
      cleared, except the audience, whatever tab is shown by then. */
  function AfterResponse(f: Form, sent: Request, response: Option<int>): (o: Outcome)
    ensures o.refresh <==> response.Some? && IsOk(response.value)
    ensures o.form.tab == f.tab && o.form.audience == f.audience
    ensures !o.refresh ==> o.form == f
    ensures o.refresh && sent.TaskRequest? ==>
      o.form.title == "" && o.form.desc == "" && o.form.due == ""
      && o.form.start == f.start && o.form.end == f.end
    ensures o.refresh && sent.EventRequest? ==>
      o.form.title == "" && o.form.desc == "" && o.form.start == "" && o.form.end == ""
      && o.form.due == f.due
  {
    if response.None? || !IsOk(response.value) then Outcome(f, false)
    else match sent
      case TaskRequest(_, _, _, _) => Outcome(f.(title := "", desc := "", due := ""), true)
      case EventRequest(_, _, _, _, _) => Outcome(f.(title := "", desc := "", start := "", end := ""), true)
  }

  /** Field by field: a success clears exactly the fields the sent request
      was built from, audience aside, and leaves every other field, and the
      tab, as they are now. */
  lemma SuccessClearsRequestFields(f: Form, sent: Request, status: int, field: Field)
    requires IsOk(status)
    ensures Get(AfterResponse(f, sent, Some(status)).form, field)
      == if field in FieldsOf(SenderTab(sent)) && field != Audience then "" else Get(f, field)
    ensures AfterResponse(f, sent, Some(status)).form.tab == f.tab
  {
  }

  /** A success puts the sent request's fields back to their initial values,
      audience aside: a fresh form of that kind, with the other fields kept. */
  lemma SuccessRestoresInitialFields(f: Form, sent: Request, status: int, field: Field)
    requires IsOk(status)
    requires field in FieldsOf(SenderTab(sent)) && field != Audience
    ensures Get(AfterResponse(f, sent, Some(status)).form, field) == Get(InitialForm, field)
  {
  }

  /** A second success clears nothing more. */
  lemma ClearingIsIdempotent(f: Form, sent: Request, s1: int, s2: int)
    requires IsOk(s1) && IsOk(s2)
    ensures AfterResponse(AfterResponse(f, sent, Some(s1)).form, sent, Some(s2)).form
      == AfterResponse(f, sent, Some(s1)).form
  {
  }

  /** A switch to the other tab during the `await` does not change what the
      response clears: only the shown tab differs. */
  lemma TabSwitchDuringAwait(f: Form, sent: Request, response: Option<int>, t: Tab)
    ensures AfterResponse(f.(tab := t), sent, response)
      == var o := AfterResponse(f, sent, response); o.(form := o.form.(tab := t))
  {
  }

  /** What the component renders: nothing unless the user is a teacher. */
  function Panel(user: User, f: Form): (r: Option<Form>)
    ensures r.Some? <==> user.role == "teacher"
    ensures r.Some? ==> r.value == f
  {
    if user.role != "teacher" then None else Some(f)
  }

  /** Submitting from the panel: a non-teacher has no panel, so nothing is
      sent and nothing changes; a teacher sends the request of the form as it
      is at the click, and the response is applied to the form as it is when
      the response arrives. */
  function Submit(user: User, atClick: Form, atResponse: Form, response: Option<int>): (r: Option<(Request, Outcome)>)
    ensures r.None? <==> user.role != "teacher"
    ensures r.Some? ==>
      r.value.0 == RequestFor(atClick) && r.value.1 == AfterResponse(atResponse, RequestFor(atClick), response)
  {
    match Panel(user, atClick)
    case None => None
    case Some(shown) =>
      var sent := RequestFor(shown);
      Some((sent, AfterResponse(atResponse, sent, response)))
  }

  /** With no edit during the `await`, the fields cleared are those of the
      tab the request was sent from. */
  lemma SubmitClearsItsTab(user: User, f: Form, status: int, field: Field)
    requires user.role == "teacher" && IsOk(status)
    ensures Submit(user, f, f, Some(status)).Some?
    ensures Get(Submit(user, f, f, Some(status)).value.1.form, field)
      == if field in FieldsOf(f.tab) && field != Audience then "" else Get(f, field)
  {
    SenderTabOfRequest(f);
    SuccessClearsRequestFields(f, RequestFor(f), status, field);
  }
}
