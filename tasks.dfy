/** The task handlers: ownership-scoped create, list, update and delete over
    the task collection, and the lookup by id. */
module Tasks {
  import opened Wrappers
  import Text
  import Http
  import Users
  import opened TaskSchemas

  type TaskId = nat

  /** A stored task. `createdAt` is a creation counter standing in for the
      timestamp MongoDB records. */
  datatype Task = Task(id: TaskId, title: string, description: Option<string>, completed: bool,
                       priority: Priority, dueDate: Option<string>, createdBy: Users.UserId,
                       createdAt: nat)

  const AuthRequiredMessage: string := "Authentication required"
  const FetchErrorMessage: string := "Error fetching tasks"
  const CreatedMessage: string := "Task created successfully"
  const CreateErrorMessage: string := "Error creating task"
  const UpdateMissingMessage: string := "Task not found or you do not have permission to update it"
  const UpdatedMessage: string := "Task updated successfully"
  const UpdateErrorMessage: string := "Error updating task"
  const TaskMissingMessage: string := "Task not found"
  const FetchOneErrorMessage: string := "Error fetching task"
  const DeleteMissingMessage: string := "Task not found or you do not have permission to delete it"
  const DeletedMessage: string := "Task deleted successfully"
  const DeleteErrorMessage: string := "Error deleting task"

  const DefaultPage: nat := 1
  const DefaultLimit: nat := 10

  // ---------------------------------------------------------------------
  // The collection's invariants

  /** Tasks are kept in insertion order, so creation times increase. */
  predicate Chronological(ts: seq<Task>) {
    forall i, j :: 0 <= i < j < |ts| ==> ts[i].createdAt < ts[j].createdAt
  }

  /** Listing order: newest first. */
  predicate NewestFirst(ts: seq<Task>) {
    forall i, j :: 0 <= i < j < |ts| ==> ts[i].createdAt > ts[j].createdAt
  }

  predicate UniqueIds(ts: seq<Task>) {
    forall i, j :: 0 <= i < j < |ts| ==> ts[i].id != ts[j].id
  }

  /** Every id and creation time already handed out is below its counter. */
  predicate TableOk(ts: seq<Task>, nextId: TaskId, clock: nat) {
    && (forall i :: 0 <= i < |ts| ==> ts[i].id < nextId && ts[i].createdAt < clock)
    && UniqueIds(ts)
    && Chronological(ts)
  }

  // ---------------------------------------------------------------------
  // Single-document lookups

  /** The filter of a single-document query: `{ _id }`, or
      `{ _id, createdBy }` when an owner is given. */
  datatype Key = Key(id: TaskId, owner: Option<Users.UserId>)

  predicate Hits(k: Key, t: Task) {
    t.id == k.id && (k.owner.None? || t.createdBy == k.owner.value)
  }

  /** The position of the document a `findOne`-style query returns: the first
      that matches, or none. */
  function FindFirst(ts: seq<Task>, k: Key): (r: Option<nat>)
    ensures r.Some? ==> r.value < |ts| && Hits(k, ts[r.value])
    ensures r.None? <==> forall i :: 0 <= i < |ts| ==> !Hits(k, ts[i])
  {
    if ts == [] then None
    else if Hits(k, ts[0]) then Some(0)
    else match FindFirst(ts[1..], k)
      case Some(i) => Some(i + 1)
      case None => None
  }

  /** With unique ids, the owner-scoped query finds the caller's task exactly
      when the id-only query finds a task and the caller owns it. */
  lemma OwnedLookupAgreesWithIdLookup(ts: seq<Task>, id: TaskId, owner: Users.UserId)
    requires UniqueIds(ts)
    ensures var byId := FindFirst(ts, Key(id, None));
            FindFirst(ts, Key(id, Some(owner))) ==
              if byId.Some? && ts[byId.value].createdBy == owner then byId else None
  {
  }

  // ---------------------------------------------------------------------
  // Listing: filter, sort, paginate

  /** The filter object `getTasks` builds. */
  datatype Filter = Filter(createdBy: Users.UserId, completed: Option<bool>, priority: Option<Priority>)

  predicate Matches(f: Filter, t: Task) {
    && t.createdBy == f.createdBy
    && (f.completed.Some? ==> t.completed == f.completed.value)
    && (f.priority.Some? ==> t.priority == f.priority.value)
  }

  /** The filter for a caller and a validated query. */
  function QueryFilter(caller: Users.UserId, q: TaskQuery): Filter {
    Filter(caller,
           if q.completed.Some? then Some(q.completed.value == "true") else None,
           q.priority)
  }

  /** The filter always pins the owner to the caller; `completed`, when
      sent, selects on `completed == "true"`, and `priority` on equality;
      an absent field does not constrain. */
  lemma QueryFilterMeaning(caller: Users.UserId, q: TaskQuery, t: Task)
    ensures Matches(QueryFilter(caller, q), t) <==>
              && t.createdBy == caller
              && (q.completed.Some? ==> t.completed == (q.completed.value == "true"))
              && (q.priority.Some? ==> t.priority == q.priority.value)
  {
  }

  /** The matching tasks, in collection order (`Task.find(filter)`). */
  function Select(ts: seq<Task>, f: Filter): seq<Task> {
    if ts == [] then [] else (if Matches(f, ts[0]) then [ts[0]] else []) + Select(ts[1..], f)
  }

  /** `Select` keeps exactly the matching tasks and never more than it was given. */
  lemma {:induction false} SelectMembers(ts: seq<Task>, f: Filter)
    ensures |Select(ts, f)| <= |ts|
    ensures forall t :: t in Select(ts, f) <==> t in ts && Matches(f, t)
  {
    if ts != [] {
      SelectMembers(ts[1..], f);
      assert forall t :: t in ts <==> t == ts[0] || t in ts[1..];
    }
  }

  /** Selecting from a chronological collection stays chronological. */
  lemma {:induction false} SelectChronological(ts: seq<Task>, f: Filter)
    requires Chronological(ts)
    ensures Chronological(Select(ts, f))
  {
    if ts != [] {
      var rest := ts[1..];
      assert Chronological(rest) by {
        forall i, j | 0 <= i < j < |rest| ensures rest[i].createdAt < rest[j].createdAt {
          assert rest[i] == ts[i + 1] && rest[j] == ts[j + 1];
        }
      }
      SelectChronological(rest, f);
      SelectMembers(rest, f);
      var s := Select(rest, f);
      forall t | t in s ensures ts[0].createdAt < t.createdAt {
        var j :| 0 <= j < |rest| && rest[j] == t;
        assert ts[j + 1] == t;
      }
      if Matches(f, ts[0]) {
        var r := [ts[0]] + s;
        forall i, j | 0 <= i < j < |r| ensures r[i].createdAt < r[j].createdAt {
          if i == 0 {
            assert r[j] == s[j - 1] && r[j] in s;
          } else {
            assert r[i] == s[i - 1] && r[j] == s[j - 1];
          }
        }
      }
    }
  }

  function Reverse(s: seq<Task>): seq<Task> {
    if s == [] then [] else Reverse(s[1..]) + [s[0]]
  }

  lemma {:induction false} ReverseAt(s: seq<Task>)
    ensures |Reverse(s)| == |s|
    ensures forall k :: 0 <= k < |s| ==> Reverse(s)[k] == s[|s| - 1 - k]
  {
    if s != [] {
      ReverseAt(s[1..]);
    }
  }

  /** `Task.find(filter).sort({ createdAt: -1 })`: the matching tasks, newest
      first. Creation times are distinct, so the order is fully determined. */
  function Listing(ts: seq<Task>, f: Filter): seq<Task> {
    Reverse(Select(ts, f))
  }

  /** The listing holds exactly the matching tasks, as many as
      `countDocuments(filter)` counts, newest first. */
  lemma ListingIsSortedSelection(ts: seq<Task>, f: Filter)
    requires Chronological(ts)
    ensures |Listing(ts, f)| == |Select(ts, f)|
    ensures forall t :: t in Listing(ts, f) <==> t in ts && Matches(f, t)
    ensures NewestFirst(Listing(ts, f))
  {
    var s := Select(ts, f);
    SelectMembers(ts, f);
    SelectChronological(ts, f);
    ReverseAt(s);
    var r := Reverse(s);
    forall t ensures t in r <==> t in s {
      if t in r {
        var k :| 0 <= k < |r| && r[k] == t;
        assert s[|s| - 1 - k] == t;
      }
      if t in s {
        var k :| 0 <= k < |s| && s[k] == t;
        assert r[|s| - 1 - k] == t;
      }
    }
    forall i, j | 0 <= i < j < |r| ensures r[i].createdAt > r[j].createdAt {
      assert r[i] == s[|s| - 1 - i] && r[j] == s[|s| - 1 - j];
    }
  }

  /** `.skip(skip).limit(limit)`. */
  function Window(s: seq<Task>, skip: nat, limit: nat): seq<Task> {
    var lo := if skip < |s| then skip else |s|;
    var hi := if skip + limit < |s| then skip + limit else |s|;
    s[lo..hi]
  }

  /** A window holds at most `limit` tasks, the ones from position `skip` on. */
  lemma WindowShape(s: seq<Task>, skip: nat, limit: nat)
    ensures |Window(s, skip, limit)| <= limit
    ensures |Window(s, skip, limit)| == if skip >= |s| then 0 else if skip + limit <= |s| then limit else |s| - skip
    ensures forall k :: 0 <= k < |Window(s, skip, limit)| ==> Window(s, skip, limit)[k] == s[skip + k]
  {
  }

  /** `Math.ceil(total / limit)`. */
  function PageCount(total: nat, limit: nat): nat
    requires limit >= 1
  {
    (total + limit - 1) / limit
  }

  /** `PageCount` is the least number of `limit`-sized pages that hold `total` items. */
  lemma PageCountIsCeiling(total: nat, limit: nat)
    requires limit >= 1
    ensures PageCount(total, limit) * limit >= total
    ensures PageCount(total, limit) == 0 || (PageCount(total, limit) - 1) * limit < total
  {
  }

  /** Division rounds down, so `a / d` is at least any `b` with `b * d <= a`. */
  lemma DivAtLeast(a: nat, b: nat, d: nat)
    requires d >= 1 && b * d <= a
    ensures a / d >= b
  {
    var q, r := a / d, a % d;
    assert a == q * d + r && r < d;
    if q < b {
      assert q + 1 <= b;
      MulMonotone(q + 1, b, d);
    }
  }

  lemma MulMonotone(x: nat, y: nat, d: nat)
    requires x <= y
    ensures x * d <= y * d
  {
    assert y * d == x * d + (y - x) * d;
  }

  /** Every listed task appears on exactly one page: item `i` is entry
      `i % limit` of page `i / limit + 1`, and that page is within the count. */
  lemma EveryItemOnItsPage(s: seq<Task>, i: nat, limit: nat)
    requires limit >= 1 && i < |s|
    ensures var page := i / limit + 1;
            && page <= PageCount(|s|, limit)
            && (page - 1) * limit + i % limit == i
            && i % limit < |Window(s, (page - 1) * limit, limit)|
            && Window(s, (page - 1) * limit, limit)[i % limit] == s[i]
  {
    var q, r := i / limit, i % limit;
    assert i == q * limit + r && r < limit;
    assert (q + 1) * limit == q * limit + limit;
    DivAtLeast(|s| + limit - 1, q + 1, limit);
    WindowShape(s, q * limit, limit);
  }

  /** One page of a listing: at most `limit` tasks, all matching, newest first. */
  lemma ListedPage(ts: seq<Task>, f: Filter, skip: nat, limit: nat)
    requires Chronological(ts)
    ensures var w := Window(Listing(ts, f), skip, limit);
            && |w| <= limit
            && NewestFirst(w)
            && (forall t :: t in w ==> t in ts && Matches(f, t))
  {
    var all := Listing(ts, f);
    ListingIsSortedSelection(ts, f);
    WindowShape(all, skip, limit);
    var w := Window(all, skip, limit);
    forall t | t in w ensures t in all {
      var k :| 0 <= k < |w| && w[k] == t;
      assert all[skip + k] == t;
    }
    forall i, j | 0 <= i < j < |w| ensures w[i].createdAt > w[j].createdAt {
      assert w[i] == all[skip + i] && w[j] == all[skip + j];
    }
  }

  /** The page number or size a query string asks for, `parseInt` of its digits. */
  function PageParam(s: Option<string>, default: nat): nat
    requires s.None? || Text.AllDigits(s.value)
  {
    if s.None? then default else Text.DecimalValue(s.value)
  }

  /** Page and size are, when sent, digit strings naming at least 1. */
  predicate PagingOk(q: TaskQuery) {
    && (q.page.None? || (Text.AllDigits(q.page.value) && Text.DecimalValue(q.page.value) >= 1))
    && (q.limit.None? || (Text.AllDigits(q.limit.value) && Text.DecimalValue(q.limit.value) >= 1))
  }

  datatype Pagination = Pagination(current: nat, total: nat, count: nat, totalItems: nat)

  datatype TaskList = TaskList(tasks: seq<Task>, pagination: Pagination)

  // ---------------------------------------------------------------------
  // Updates

  /** `findOneAndUpdate` with `{ ...updateData, dueDate }`: the fields sent
      replace the stored ones; absent fields (an absent due date is
      `undefined` and dropped from the update) keep their values. */
  function Patch(t: Task, u: UpdateTaskInput): (r: Task)
    ensures r.id == t.id && r.createdBy == t.createdBy && r.createdAt == t.createdAt
  {
    t.(title := u.title.GetOr(t.title),
       description := if u.description.Some? then u.description else t.description,
       completed := u.completed.GetOr(t.completed),
       priority := u.priority.GetOr(t.priority),
       dueDate := if u.dueDate.Some? then u.dueDate else t.dueDate)
  }

  /** Removing one task keeps the collection's invariants and every other task. */
  lemma RemoveKeepsTable(ts: seq<Task>, k: nat, nextId: TaskId, clock: nat)
    requires k < |ts| && TableOk(ts, nextId, clock)
    ensures TableOk(ts[..k] + ts[k + 1..], nextId, clock)
    ensures forall t :: t in ts && t != ts[k] ==> t in ts[..k] + ts[k + 1..]
  {
  }

  /** The task collection. */
  class TaskTable {
    var tasks: seq<Task>
    var nextId: TaskId
    var clock: nat

    ghost predicate Valid()
      reads this
    {
      TableOk(tasks, nextId, clock)
    }

    constructor ()
      ensures Valid() && tasks == [] && nextId == 0 && clock == 0
    {
      tasks := [];
      nextId := 0;
      clock := 0;
    }

    /** The filter-building steps of `getTasks`: start from the owner and
        add each query field that was sent. */
    method BuildFilter(caller: Users.UserId, q: TaskQuery) returns (f: Filter)
      ensures f == QueryFilter(caller, q)
      ensures forall t :: Matches(f, t) <==>
                && t.createdBy == caller
                && (q.completed.Some? ==> t.completed == (q.completed.value == "true"))
                && (q.priority.Some? ==> t.priority == q.priority.value)
    {
      f := Filter(caller, None, None);
      if q.completed.Some? {
        f := f.(completed := Some(q.completed.value == "true"));
      }
      if q.priority.Some? {
        f := f.(priority := q.priority);
      }
    }

    /** `getTasks`: 401 without a caller; otherwise the caller's matching
        tasks, newest first, page `page` of size `limit` (defaults 1 and 10),
        with `totalItems` counting every match and `total` the number of
        pages. */
    method GetTasks(caller: Option<Users.UserId>, q: TaskQuery, outage: bool)
      returns (resp: Http.Response<TaskList>)
      requires Valid() && PagingOk(q)
      ensures caller.None? ==> resp == Http.Fail(401, AuthRequiredMessage)
      ensures caller.Some? && outage ==> resp == Http.Fail(500, FetchErrorMessage)
      ensures caller.Some? && !outage ==>
                && resp.status == 200 && resp.body.success && resp.body.data.Some?
                && var d := resp.body.data.value;
                   var page := PageParam(q.page, DefaultPage);
                   var limit := PageParam(q.limit, DefaultLimit);
                   var all := Listing(tasks, QueryFilter(caller.value, q));
                   && d.tasks == Window(all, (page - 1) * limit, limit)
                   && d.pagination == Pagination(page, PageCount(|all|, limit), |d.tasks|, |all|)
                   && |d.tasks| <= limit
                   && NewestFirst(d.tasks)
                   && (forall t :: t in d.tasks ==> t in tasks && Matches(QueryFilter(caller.value, q), t))
                   && (forall t :: t in d.tasks ==> t.createdBy == caller.value)
    {
      if caller.None? {
        return Http.Fail(401, AuthRequiredMessage);
      }
      if outage {
        return Http.Fail(500, FetchErrorMessage);
      }
      var filter := BuildFilter(caller.value, q);
      var pageNum := PageParam(q.page, DefaultPage);
      var limitNum := PageParam(q.limit, DefaultLimit);
      var skip := (pageNum - 1) * limitNum;
      var found := Window(Listing(tasks, filter), skip, limitNum);
      var total := |Select(tasks, filter)|;
      ListingIsSortedSelection(tasks, filter);
      ListedPage(tasks, filter, skip, limitNum);
      resp := Http.Succeed(200, None, Some(TaskList(found, Pagination(pageNum, PageCount(total, limitNum), |found|, total))));
    }

    /** `createTask`: 401 without a caller; otherwise exactly one task is
        appended, owned by the caller whatever the body says, not completed,
        with a fresh id and the newest creation time. */
    method CreateTask(caller: Option<Users.UserId>, input: CreateTaskInput, outage: bool)
      returns (resp: Http.Response<Task>)
      requires Valid()
      modifies this
      ensures Valid()
      ensures resp.status != 201 ==> tasks == old(tasks) && nextId == old(nextId) && clock == old(clock)
      ensures caller.None? ==> resp == Http.Fail(401, AuthRequiredMessage)
      ensures caller.Some? && outage ==> resp == Http.Fail(500, CreateErrorMessage)
      ensures caller.Some? && !outage ==>
                var t := Task(old(nextId), input.title, input.description, false, input.priority,
                              input.dueDate, caller.value, old(clock));
                && tasks == old(tasks) + [t]
                && nextId == old(nextId) + 1 && clock == old(clock) + 1
                && resp == Http.Succeed(201, Some(CreatedMessage), Some(t))
    {
      if caller.None? {
        return Http.Fail(401, AuthRequiredMessage);
      }
      if outage {
        return Http.Fail(500, CreateErrorMessage);
      }
      var t := Task(nextId, input.title, input.description, false, input.priority,
                    input.dueDate, caller.value, clock);
      tasks := tasks + [t];
      nextId := nextId + 1;
      clock := clock + 1;
      resp := Http.Succeed(201, Some(CreatedMessage), Some(t));
    }

    /** `updateTask`: 401 without a caller; otherwise only the task with this
        id that the caller owns is patched, and if there is none the answer is
        404 and nothing changes. No other task changes in any case. */
    method UpdateTask(caller: Option<Users.UserId>, id: TaskId, input: UpdateTaskInput, outage: bool)
      returns (resp: Http.Response<Task>)
      requires Valid()
      modifies this
      ensures Valid() && nextId == old(nextId) && clock == old(clock)
      ensures |tasks| == |old(tasks)|
      ensures forall i :: 0 <= i < |tasks| && !(caller.Some? && Hits(Key(id, caller), old(tasks)[i])) ==>
                tasks[i] == old(tasks)[i]
      ensures caller.None? ==> resp == Http.Fail(401, AuthRequiredMessage) && tasks == old(tasks)
      ensures caller.Some? && outage ==> resp == Http.Fail(500, UpdateErrorMessage) && tasks == old(tasks)
      ensures caller.Some? && !outage ==>
                match FindFirst(old(tasks), Key(id, caller))
                case None => resp == Http.Fail(404, UpdateMissingMessage) && tasks == old(tasks)
                case Some(k) =>
                  && tasks == old(tasks)[k := Patch(old(tasks)[k], input)]
                  && resp == Http.Succeed(200, Some(UpdatedMessage), Some(tasks[k]))
    {
      if caller.None? {
        return Http.Fail(401, AuthRequiredMessage);
      }
      if outage {
        return Http.Fail(500, UpdateErrorMessage);
      }
      var hit := FindFirst(tasks, Key(id, caller));
      if hit.None? {
        return Http.Fail(404, UpdateMissingMessage);
      }
      var k := hit.value;
      var updated := Patch(tasks[k], input);
      forall i | 0 <= i < |tasks| && i != k ensures tasks[i].id != tasks[k].id {
        assert i < k || k < i;
      }
      tasks := tasks[k := updated];
      resp := Http.Succeed(200, Some(UpdatedMessage), Some(updated));
    }

    /** `getTaskById`, as written: the lookup is by id alone, so any stored
        task is returned whoever owns it; a missing id answers 404. */
    method GetTaskById(id: TaskId, outage: bool) returns (resp: Http.Response<Task>)
      ensures outage ==> resp == Http.Fail(500, FetchOneErrorMessage)
      ensures !outage ==>
                match FindFirst(tasks, Key(id, None))
                case None => resp == Http.Fail(404, TaskMissingMessage)
                case Some(k) => resp == Http.Succeed(200, None, Some(tasks[k]))
      ensures resp.status == 200 <==> !outage && exists i :: 0 <= i < |tasks| && tasks[i].id == id
    {
      if outage {
        return Http.Fail(500, FetchOneErrorMessage);
      }
      var hit := FindFirst(tasks, Key(id, None));
      if hit.None? {
        return Http.Fail(404, TaskMissingMessage);
      }
      resp := Http.Succeed(200, None, Some(tasks[hit.value]));
    }

    /** The lookup with the ownership filter the other handlers use: a task
        owned by someone else answers exactly as a missing one. */
    method GetOwnTaskById(caller: Users.UserId, id: TaskId, outage: bool) returns (resp: Http.Response<Task>)
      ensures outage ==> resp == Http.Fail(500, FetchOneErrorMessage)
      ensures resp.status == 200 ==> resp.body.data.Some? && resp.body.data.value.createdBy == caller
      ensures !outage && (forall i :: 0 <= i < |tasks| && tasks[i].id == id ==> tasks[i].createdBy != caller) ==>
                resp == Http.Fail(404, TaskMissingMessage)
      ensures !outage && (exists i :: 0 <= i < |tasks| && tasks[i].id == id && tasks[i].createdBy == caller) ==>
                resp.status == 200 && resp.body.data.value.id == id
    {
      if outage {
        return Http.Fail(500, FetchOneErrorMessage);
      }
      var hit := FindFirst(tasks, Key(id, Some(caller)));
      if hit.None? {
        return Http.Fail(404, TaskMissingMessage);
      }
      resp := Http.Succeed(200, None, Some(tasks[hit.value]));
    }

    /** `deleteTask`: only the task with this id that the caller owns is
        removed, and if there is none the answer is 404 and nothing changes.
        There is no guard for a missing caller: reading `req.user._id` throws
        and the answer is 500. */
    method DeleteTask(caller: Option<Users.UserId>, id: TaskId, outage: bool)
      returns (resp: Http.Response<Http.NoData>)
      requires Valid()
      modifies this
      ensures Valid() && nextId == old(nextId) && clock == old(clock)
      ensures caller.None? || outage ==> resp == Http.Fail(500, DeleteErrorMessage) && tasks == old(tasks)
      ensures caller.Some? && !outage ==>
                match FindFirst(old(tasks), Key(id, caller))
                case None => resp == Http.Fail(404, DeleteMissingMessage) && tasks == old(tasks)
                case Some(k) =>
                  && tasks == old(tasks)[..k] + old(tasks)[k + 1..]
                  && resp == Http.Succeed(200, Some(DeletedMessage), None)
      ensures forall t :: t in old(tasks) && !(caller.Some? && Hits(Key(id, caller), t)) ==> t in tasks
    {
      if caller.None? || outage {
        return Http.Fail(500, DeleteErrorMessage);
      }
      var hit := FindFirst(tasks, Key(id, caller));
      if hit.None? {
        return Http.Fail(404, DeleteMissingMessage);
      }
      var k := hit.value;
      RemoveKeepsTable(tasks, k, nextId, clock);
      tasks := tasks[..k] + tasks[k + 1..];
      resp := Http.Succeed(200, Some(DeletedMessage), None);
    }
  }

  /** What the lookup by id does with another user's task: user 1 asking for
      task 0, which user 2 owns, is answered with that task. */
  lemma ForeignTaskReadableById()
    ensures var t := Task(0, "b's task", None, false, Medium, None, 2, 0);
            var ts := [t];
            && FindFirst(ts, Key(0, None)) == Some(0) && ts[0].createdBy != 1
            && FindFirst(ts, Key(0, Some(1))).None?
  {
  }
}
