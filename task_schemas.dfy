/** The request validators for the task routes: what the create, update,
    path-parameter and query schemas accept, and what they produce. */
module TaskSchemas {
  import opened Wrappers
  import Text

  datatype Priority = Low | Medium | High

  function PriorityName(p: Priority): string {
    match p
    case Low => "low"
    case Medium => "medium"
    case High => "high"
  }

  /** `z.enum(["low", "medium", "high"])` on a string. */
  function ParsePriority(s: string): (r: Option<Priority>)
    ensures r.Some? <==> s == "low" || s == "medium" || s == "high"
    ensures r.Some? ==> PriorityName(r.value) == s
  {
    if s == "low" then Some(Low)
    else if s == "medium" then Some(Medium)
    else if s == "high" then Some(High)
    else None
  }

  /** One validation issue: the field it is about and its message. */
  datatype Issue = Issue(field: string, message: string)

  /** Either the parsed value or every issue found. */
  datatype Parsed<T> = Accepted(value: T) | Refused(issues: seq<Issue>)

  const MaxTitle: nat := 100

  /** The body fields as they arrive: absent or a value of the right JSON
      type. The due date is kept as the text the client sent. */
  datatype RawTask = RawTask(title: Option<string>, description: Option<string>,
                             completed: Option<bool>, priority: Option<string>,
                             dueDate: Option<string>)

  datatype CreateTaskInput = CreateTaskInput(title: string, description: Option<string>,
                                             completed: bool, priority: Priority,
                                             dueDate: Option<string>)

  datatype UpdateTaskInput = UpdateTaskInput(title: Option<string>, description: Option<string>,
                                             completed: Option<bool>, priority: Option<Priority>,
                                             dueDate: Option<string>)

  /** zod's `.min(1).max(100)`, which compares JavaScript's `.length`. */
  predicate TitleOk(t: string) {
    1 <= Text.JsLength(t) <= MaxTitle
  }

  predicate PriorityOk(p: Option<string>) {
    p.None? || ParsePriority(p.value).Some?
  }

  /** The messages the schemas attach to a title that is too short or too long. */
  function TitleIssues(t: string, tooShort: string, tooLong: string): seq<Issue> {
    (if Text.JsLength(t) < 1 then [Issue("title", tooShort)] else [])
    + (if Text.JsLength(t) > MaxTitle then [Issue("title", tooLong)] else [])
  }

  function EnumIssue(p: Option<string>): seq<Issue> {
    if PriorityOk(p) then []
    else [Issue("priority", "Invalid enum value. Expected 'low' | 'medium' | 'high', received '" + p.value + "'")]
  }

  /** `createTaskSchema`: a title of 1 to 100 characters is required, the
      priority must be in the enum and defaults to medium, `completed`
      defaults to false. */
  function CreateTaskSchema(b: RawTask): (r: Parsed<CreateTaskInput>)
    ensures r.Accepted? <==> b.title.Some? && TitleOk(b.title.value) && PriorityOk(b.priority)
    ensures r.Accepted? ==>
              && r.value.title == b.title.value
              && r.value.description == b.description
              && r.value.completed == b.completed.GetOr(false)
              && r.value.priority == (if b.priority.Some? then ParsePriority(b.priority.value).value else Medium)
              && r.value.dueDate == b.dueDate
    ensures r.Refused? ==> r.issues != [] && forall i :: 0 <= i < |r.issues| ==> r.issues[i].field in {"title", "priority"}
  {
    var issues :=
      (match b.title
       case None => [Issue("title", "Required")]
       case Some(t) => TitleIssues(t, "Title is required", "Title must be less than 100 characters"))
      + EnumIssue(b.priority);
    if issues != [] then Refused(issues)
    else Accepted(CreateTaskInput(b.title.value, b.description, b.completed.GetOr(false),
                                  if b.priority.Some? then ParsePriority(b.priority.value).value else Medium,
                                  b.dueDate))
  }

  /** The 100/101 boundary of the title's `.length`, and the empty title. */
  lemma TitleBoundary(b: RawTask)
    requires b.title.Some? && PriorityOk(b.priority)
    ensures Text.JsLength(b.title.value) == 100 ==> CreateTaskSchema(b).Accepted?
    ensures Text.JsLength(b.title.value) == 101 ==> CreateTaskSchema(b) == Refused([Issue("title", "Title must be less than 100 characters")])
    ensures b.title.value == "" ==> CreateTaskSchema(b) == Refused([Issue("title", "Title is required")])
  {
  }

  /** A title of more than 50 astral characters (emoji, say) is over the
      limit, since each counts as two UTF-16 units. */
  lemma {:induction false} AstralTitleRefused(b: RawTask)
    requires b.title.Some? && PriorityOk(b.priority) && |b.title.value| > 50
    requires forall i :: 0 <= i < |b.title.value| ==> Text.IsAstral(b.title.value[i])
    ensures CreateTaskSchema(b) == Refused([Issue("title", "Title must be less than 100 characters")])
  {
    Text.JsLengthUnits(b.title.value);
  }

  /** The shape `z.string().datetime()` accepts by default:
      `YYYY-MM-DDTHH:MM:SS`, optional fraction digits, then `Z`. */
  predicate IsDatetime(s: string) {
    && |s| >= 20
    && Text.AllDigits(s[0..4]) && s[4] == '-' && Text.AllDigits(s[5..7]) && s[7] == '-'
    && Text.AllDigits(s[8..10]) && s[10] == 'T' && Text.AllDigits(s[11..13]) && s[13] == ':'
    && Text.AllDigits(s[14..16]) && s[16] == ':' && Text.AllDigits(s[17..19])
    && s[|s| - 1] == 'Z'
    && (|s| == 20 || (|s| >= 22 && s[19] == '.' && Text.AllDigits(s[20..|s| - 1])))
  }

  /** `updateTaskSchema`: every field optional; a title, when sent, must be
      1 to 100 characters; a priority must be in the enum; a due date must be
      an ISO date-time. */
  function UpdateTaskSchema(b: RawTask): (r: Parsed<UpdateTaskInput>)
    ensures r.Accepted? <==>
              (b.title.None? || TitleOk(b.title.value)) && PriorityOk(b.priority) &&
              (b.dueDate.None? || IsDatetime(b.dueDate.value))
    ensures r.Accepted? ==>
              && r.value.title == b.title
              && r.value.description == b.description
              && r.value.completed == b.completed
              && (r.value.priority.Some? <==> b.priority.Some?)
              && (r.value.priority.Some? ==> PriorityName(r.value.priority.value) == b.priority.value)
              && r.value.dueDate == b.dueDate
  {
    var issues :=
      (match b.title
       case None => []
       case Some(t) => TitleIssues(t, "String must contain at least 1 character(s)",
                                      "String must contain at most 100 character(s)"))
      + EnumIssue(b.priority)
      + (if b.dueDate.Some? && !IsDatetime(b.dueDate.value) then [Issue("dueDate", "Invalid datetime")] else []);
    if issues != [] then Refused(issues)
    else Accepted(UpdateTaskInput(b.title, b.description, b.completed,
                                  if b.priority.Some? then ParsePriority(b.priority.value) else None,
                                  b.dueDate))
  }

  /** An empty update body is accepted and asks to change nothing. */
  lemma EmptyUpdateAccepted()
    ensures UpdateTaskSchema(RawTask(None, None, None, None, None)) ==
              Accepted(UpdateTaskInput(None, None, None, None, None))
  {
  }

  predicate IsHexDigit(c: char) {
    Text.IsDigit(c) || 'a' <= c <= 'f' || 'A' <= c <= 'F'
  }

  /** The regular expression `/^[0-9a-fA-F]{n}$/` run over `s`: consume one
      hex digit at a time, then require the end of the input. */
  function MatchHex(s: string, n: nat): (r: bool)
    ensures r <==> |s| == n && forall i :: 0 <= i < |s| ==> IsHexDigit(s[i])
  {
    if n == 0 then s == []
    else s != [] && IsHexDigit(s[0]) && MatchHex(s[1..], n - 1)
  }

  const ObjectIdLength: nat := 24

  /** `taskParamsSchema`: the id is exactly 24 hex digits, either case. */
  function TaskParamsSchema(id: string): (r: Parsed<string>)
    ensures r.Accepted? <==> |id| == ObjectIdLength && forall i :: 0 <= i < |id| ==> IsHexDigit(id[i])
    ensures r.Accepted? ==> r.value == id
    ensures r.Refused? ==> r.issues == [Issue("id", "Invalid task ID format")]
  {
    if MatchHex(id, ObjectIdLength) then Accepted(id) else Refused([Issue("id", "Invalid task ID format")])
  }

  /** The regular expression `/^\d+$/`: at least one digit, then the end. */
  function MatchDigits(s: string): (r: bool)
    ensures r <==> s != [] && Text.AllDigits(s)
  {
    s != [] && Text.IsDigit(s[0]) && (|s| == 1 || MatchDigits(s[1..]))
  }

  /** The query string as it arrives. */
  datatype RawQuery = RawQuery(completed: Option<string>, priority: Option<string>,
                               page: Option<string>, limit: Option<string>)

  /** The query after validation; `completed` stays the string "true" or "false". */
  datatype TaskQuery = TaskQuery(completed: Option<string>, priority: Option<Priority>,
                                 page: Option<string>, limit: Option<string>)

  /** `taskQuerySchema`: `completed` is "true" or "false", `priority` is in
      the enum, and `page` and `limit` are non-empty digit strings; every
      field is optional. */
  function TaskQuerySchema(q: RawQuery): (r: Parsed<TaskQuery>)
    ensures r.Accepted? <==>
              && (q.completed.None? || q.completed.value == "true" || q.completed.value == "false")
              && PriorityOk(q.priority)
              && (q.page.None? || (q.page.value != [] && Text.AllDigits(q.page.value)))
              && (q.limit.None? || (q.limit.value != [] && Text.AllDigits(q.limit.value)))
    ensures r.Accepted? ==>
              && r.value.completed == q.completed && r.value.page == q.page && r.value.limit == q.limit
              && (r.value.priority.Some? <==> q.priority.Some?)
              && (r.value.priority.Some? ==> PriorityName(r.value.priority.value) == q.priority.value)
  {
    var issues :=
      (if q.completed.Some? && q.completed.value != "true" && q.completed.value != "false"
       then [Issue("completed", "Invalid enum value. Expected 'true' | 'false', received '" + q.completed.value + "'")]
       else [])
      + EnumIssue(q.priority)
      + (if q.page.Some? && !MatchDigits(q.page.value) then [Issue("page", "Invalid")] else [])
      + (if q.limit.Some? && !MatchDigits(q.limit.value) then [Issue("limit", "Invalid")] else []);
    if issues != [] then Refused(issues)
    else Accepted(TaskQuery(q.completed, if q.priority.Some? then ParsePriority(q.priority.value) else None,
                            q.page, q.limit))
  }
}
