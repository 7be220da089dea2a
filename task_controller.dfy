/** TaskController: every action is scoped to the caller, whose id comes
    from the NameIdentifier claim. The two queries are functions of the
    tables; the three writes are methods on the context. */
module TaskController {
  import opened Common
  import opened Int32
  import opened Entities
  import opened Sorting
  import opened Pagination
  import opened Identity
  import opened Data

  /** A task as GetAllTask, CreateTask and EditTask show it. */
  datatype TaskView = TaskView(
    id: int,
    title: string,
    description: string,
    status: int,
    dueDate: DateTime,
    createdAt: DateTime,
    updatedAt: DateTime,
    userId: int,
    user: Option<UserSummary>)

  /** A task as GetTaskById shows it: without the two timestamps. */
  datatype TaskDetail = TaskDetail(
    id: int,
    title: string,
    description: string,
    status: int,
    dueDate: DateTime,
    userId: int,
    user: Option<UserSummary>)

  function ViewOf(t: Task, users: seq<User>): TaskView {
    TaskView(t.id, t.title, t.description, t.status, t.dueDate, t.createdAt, t.updatedAt, t.userId,
             OwnerSummary(users, t.userId))
  }

  function DetailOf(t: Task, users: seq<User>): TaskDetail {
    TaskDetail(t.id, t.title, t.description, t.status, t.dueDate, t.userId, OwnerSummary(users, t.userId))
  }

  /** The projection `Select(t => new { ... })` applied to a run of tasks. */
  function Views(s: seq<Task>, users: seq<User>): (r: seq<TaskView>)
    ensures |r| == |s| && forall k :: 0 <= k < |s| ==> r[k] == ViewOf(s[k], users)
    decreases |s|
  {
    if s == [] then [] else [ViewOf(s[0], users)] + Views(s[1..], users)
  }

  /** Where(t => t.UserId == caller): the caller's tasks in store order. */
  function OwnedBy(tasks: seq<Task>, caller: int): (r: seq<Task>)
    ensures forall t :: t in r <==> t in tasks && t.userId == caller
    ensures |r| <= |tasks|
    decreases |tasks|
  {
    if tasks == [] then []
    else
      assert forall t :: t in tasks <==> t == tasks[0] || t in tasks[1..];
      (if tasks[0].userId == caller then [tasks[0]] else []) + OwnedBy(tasks[1..], caller)
  }

  /** The filter keeps every one of the caller's tasks as often as the store
      holds it and drops every other task, so the count the envelope reports
      is the number of the caller's rows. */
  lemma {:induction false} OwnedByCounts(tasks: seq<Task>, caller: int)
    ensures forall t :: multiset(OwnedBy(tasks, caller))[t] == if t.userId == caller then multiset(tasks)[t] else 0
    decreases |tasks|
  {
    if tasks != [] {
      OwnedByCounts(tasks[1..], caller);
      assert tasks == [tasks[0]] + tasks[1..];
    }
  }

  /** The filter keeps store order: filtering a concatenation concatenates
      the filtered parts, so the caller's tasks appear in the order they are
      stored. */
  lemma {:induction false} OwnedByConcat(a: seq<Task>, b: seq<Task>, caller: int)
    ensures OwnedBy(a + b, caller) == OwnedBy(a, caller) + OwnedBy(b, caller)
    decreases |a|
  {
    if a == [] {
      assert a + b == b;
    } else {
      assert (a + b)[1..] == a[1..] + b;
      OwnedByConcat(a[1..], b, caller);
      var head := if a[0].userId == caller then [a[0]] else [];
      ConcatAssoc(head, OwnedBy(a[1..], caller), OwnedBy(b, caller));
    }
  }

  /** The ownership gate `t.Id == id && t.UserId == currentUserId`. */
  predicate Matches(t: Task, id: int, caller: int) {
    t.id == id && t.userId == caller
  }

  /** Index of the first task that passes the gate. */
  function FirstMatch(tasks: seq<Task>, id: int, caller: int): (r: Option<nat>)
    ensures r.Some? ==> r.value < |tasks| && Matches(tasks[r.value], id, caller)
    ensures r.Some? ==> forall j :: 0 <= j < r.value ==> !Matches(tasks[j], id, caller)
    ensures r.None? ==> forall j :: 0 <= j < |tasks| ==> !Matches(tasks[j], id, caller)
    decreases |tasks|
  {
    if tasks == [] then None
    else if Matches(tasks[0], id, caller) then Some(0)
    else match FirstMatch(tasks[1..], id, caller)
      case None => None
      case Some(k) => Some(k + 1)
  }

  /** The sort key of OrderByDescending(t => t.CreatedAt). */
  function NewestFirstKey(t: Task): int {
    -t.createdAt
  }

  const NoTaskFound: string := "No Task Found"
  const TaskNotFound: string := "Task not found"

  // ----- GET /task -----

  /** GetAllTask: the normalised page of the caller's tasks, newest first,
      in the envelope built from the caller's task count. A claim that does
      not identify a caller is a 500. */
  function GetAllTask(tasks: seq<Task>, users: seq<User>, claim: Claim, pagination: PaginationRequest)
    : (r: ActionResult<PaginatedResponse<TaskView>>)
    ensures r.Ok? <==> GetCurrentUserId(claim).Some?
    ensures !r.Ok? ==> r == ServerError(InternalError)
  {
    match GetCurrentUserId(claim)
    case None => ServerError(InternalError)
    case Some(caller) => Ok(TaskPage(tasks, users, caller as int, pagination))
  }

  /** The envelope GetAllTask answers a known caller with. */
  function TaskPage(tasks: seq<Task>, users: seq<User>, caller: int, pagination: PaginationRequest)
    : PaginatedResponse<TaskView>
  {
    var page := GetValidPage(pagination);
    var pageSize := GetValidPageSize(pagination);
    var mine := OwnedBy(tasks, caller);
    var window := PageItems(tasks, caller, pagination);
    BuildResponse(Views(window, users), page, pageSize, |mine|)
  }

  /** The items of a caller's page: the window of the caller's tasks ordered
      newest first. */
  function PageItems(tasks: seq<Task>, caller: int, pagination: PaginationRequest): seq<Task> {
    PageOf(SortBy(OwnedBy(tasks, caller), NewestFirstKey), pagination)
  }

  lemma PageItemsOwnerOnly(tasks: seq<Task>, caller: int, pagination: PaginationRequest)
    ensures var w := PageItems(tasks, caller, pagination);
      && (forall t <- w :: t.userId == caller)
      && |w| <= GetValidPageSize(pagination) as int
      && (forall i, j :: 0 <= i < j < |w| ==> w[i].createdAt >= w[j].createdAt)
  {
    var mine := OwnedBy(tasks, caller);
    var sorted := SortBy(mine, NewestFirstKey);
    var w := PageItems(tasks, caller, pagination);
    PageWindowOfSorted(sorted, GetValidPage(pagination), GetValidPageSize(pagination), NewestFirstKey);
    SortByElements(mine, NewestFirstKey);
    forall t <- w ensures t.userId == caller {
      assert t in sorted;
    }
    forall i, j | 0 <= i < j < |w| ensures w[i].createdAt >= w[j].createdAt {
      assert NewestFirstKey(w[i]) <= NewestFirstKey(w[j]);
    }
  }

  /** Every listed task belongs to the caller; the page holds at most
      pageSize of them; the envelope carries the normalised page and size and
      the number of the caller's tasks; and the tasks come newest first. */
  lemma GetAllTaskOwnerOnly(tasks: seq<Task>, users: seq<User>, claim: Claim, caller: int32, pagination: PaginationRequest)
    requires GetCurrentUserId(claim) == Some(caller)
    ensures var r := GetAllTask(tasks, users, claim, pagination).value;
      && (forall v <- r.data :: v.userId == caller as int)
      && |r.data| <= r.pageSize
      && r.page == GetValidPage(pagination) as int
      && r.pageSize == GetValidPageSize(pagination) as int
      && r.totalCount == |OwnedBy(tasks, caller as int)|
      && (forall i, j :: 0 <= i < j < |r.data| ==> r.data[i].createdAt >= r.data[j].createdAt)
  {
    var r := TaskPage(tasks, users, caller as int, pagination);
    assert GetAllTask(tasks, users, claim, pagination) == Ok(r);
    var w := PageItems(tasks, caller as int, pagination);
    PageItemsOwnerOnly(tasks, caller as int, pagination);
    assert r.data == Views(w, users);
    forall v <- r.data ensures v.userId == caller as int {
      var k :| 0 <= k < |r.data| && r.data[k] == v;
      assert w[k] in w;
    }
  }

  /** The page of a known caller, when the normalised offset fits in int32:
      the run of the caller's tasks, newest first, that starts at
      (page - 1) * pageSize and holds min(pageSize, what is left). */
  lemma TaskPageSlice(tasks: seq<Task>, users: seq<User>, caller: int, pagination: PaginationRequest)
    requires RequestOffset(pagination) <= MaxValue
    ensures var sorted := SortBy(OwnedBy(tasks, caller), NewestFirstKey);
      var data := TaskPage(tasks, users, caller, pagination).data;
      && (RequestOffset(pagination) < |sorted| ==> data == Views(PageSlice(sorted, pagination), users))
      && (RequestOffset(pagination) >= |sorted| ==> data == [])
  {
    var sorted := SortBy(OwnedBy(tasks, caller), NewestFirstKey);
    var w := PageItems(tasks, caller, pagination);
    assert w == PageOf(sorted, pagination);
    PageOfSlice(sorted, pagination);
    assert TaskPage(tasks, users, caller, pagination).data == Views(w, users);
  }

  /** When the normalised offset fits in int32, the page is exactly the run
      of the caller's tasks, ordered newest first, that starts at
      (page - 1) * pageSize and holds min(pageSize, what is left). */
  lemma GetAllTaskPage(tasks: seq<Task>, users: seq<User>, claim: Claim, caller: int32, pagination: PaginationRequest)
    requires GetCurrentUserId(claim) == Some(caller)
    requires RequestOffset(pagination) <= MaxValue
    ensures var sorted := SortBy(OwnedBy(tasks, caller as int), NewestFirstKey);
      var data := GetAllTask(tasks, users, claim, pagination).value.data;
      && (RequestOffset(pagination) < |sorted| ==> data == Views(PageSlice(sorted, pagination), users))
      && (RequestOffset(pagination) >= |sorted| ==> data == [])
  {
    assert GetAllTask(tasks, users, claim, pagination) == Ok(TaskPage(tasks, users, caller as int, pagination));
    TaskPageSlice(tasks, users, caller as int, pagination);
  }

  /** A caller who owns no task gets 200 with an empty page, TotalCount 0,
      TotalPages 0 and no next page. */
  lemma GetAllTaskNoTasks(tasks: seq<Task>, users: seq<User>, claim: Claim, caller: int32, pagination: PaginationRequest)
    requires GetCurrentUserId(claim) == Some(caller)
    requires forall t <- tasks :: t.userId != caller as int
    requires Product(GetValidPage(pagination) as int, GetValidPageSize(pagination) as int) <= MaxValue
    ensures GetAllTask(tasks, users, claim, pagination)
      == Ok(PaginatedResponse([], GetValidPage(pagination) as int, GetValidPageSize(pagination) as int,
                              0, 0, false, GetValidPage(pagination) > 1))
  {
    assert GetAllTask(tasks, users, claim, pagination) == Ok(TaskPage(tasks, users, caller as int, pagination));
    OwnedByNone(tasks, caller as int);
    assert PageItems(tasks, caller as int, pagination) == [];
    var page := GetValidPage(pagination);
    var size := GetValidPageSize(pagination);
    assert TaskPage(tasks, users, caller as int, pagination) == BuildResponse<TaskView>([], page, size, 0);
    EmptyResponse<TaskView>(page, size);
  }

  // ----- GET /task/{id} -----

  /** GetTaskById: 200 exactly when the caller owns a task with that id, and
      then it is the first such task (FirstOrDefaultAsync) with its owner;
      otherwise 404 "No Task Found". */
  function GetTaskById(tasks: seq<Task>, users: seq<User>, claim: Claim, id: int): (r: ActionResult<TaskDetail>)
    ensures GetCurrentUserId(claim).None? ==> r == ServerError(InternalError)
    ensures GetCurrentUserId(claim).Some? ==>
      var caller := GetCurrentUserId(claim).value as int;
      && (r.Ok? <==> exists i :: 0 <= i < |tasks| && Matches(tasks[i], id, caller))
      && (r.Ok? ==> r.value.id == id && r.value.userId == caller && r.value.user == OwnerSummary(users, caller))
      && (r.Ok? ==> exists i :: 0 <= i < |tasks| && Matches(tasks[i], id, caller)
                       && (forall j :: 0 <= j < i ==> !Matches(tasks[j], id, caller))
                       && r.value == DetailOf(tasks[i], users))
      && (!r.Ok? ==> r == NotFound(Some(NoTaskFound)))
  {
    match GetCurrentUserId(claim)
    case None => ServerError(InternalError)
    case Some(caller) =>
      match FirstMatch(tasks, id, caller as int)
      case None => NotFound(Some(NoTaskFound))
      case Some(i) => Ok(DetailOf(tasks[i], users))
  }

  /** A store where the caller owns no task with that id answers 404. */
  lemma NoMatchNotFound(tasks: seq<Task>, users: seq<User>, claim: Claim, caller: int32, id: int)
    requires GetCurrentUserId(claim) == Some(caller)
    requires forall t <- tasks :: !Matches(t, id, caller as int)
    ensures GetTaskById(tasks, users, claim, id) == NotFound(Some(NoTaskFound))
  {
    forall i | 0 <= i < |tasks| ensures !Matches(tasks[i], id, caller as int) {
      assert tasks[i] in tasks;
    }
  }

  lemma {:induction false} FirstMatchOwnedBy(tasks: seq<Task>, id: int, caller: int)
    ensures var i := FirstMatch(tasks, id, caller);
      var k := FirstMatch(OwnedBy(tasks, caller), id, caller);
      (i.Some? <==> k.Some?) && (i.Some? ==> OwnedBy(tasks, caller)[k.value] == tasks[i.value])
    decreases |tasks|
  {
    if tasks != [] {
      var rest := OwnedBy(tasks[1..], caller);
      var o := OwnedBy(tasks, caller);
      FirstMatchOwnedBy(tasks[1..], id, caller);
      if Matches(tasks[0], id, caller) {
        assert o == [tasks[0]] + rest;
        assert FirstMatch(o, id, caller) == Some(0);
      } else if tasks[0].userId == caller {
        assert o == [tasks[0]] + rest;
        assert o[1..] == rest;
        assert !Matches(o[0], id, caller);
      } else {
        assert o == rest;
      }
    }
  }

  /** Tasks of other users play no part in the answer: the response is the
      one the caller would get from a store holding only the caller's own
      tasks, so another user's task looks exactly like a missing one. */
  lemma GetTaskByIdOwnerScoped(tasks: seq<Task>, users: seq<User>, claim: Claim, caller: int32, id: int)
    requires GetCurrentUserId(claim) == Some(caller)
    ensures GetTaskById(tasks, users, claim, id) == GetTaskById(OwnedBy(tasks, caller as int), users, claim, id)
  {
    FirstMatchOwnedBy(tasks, id, caller as int);
  }

  // ----- what a write does to the caller's and the others' view -----

  lemma {:induction false} OwnedByAppend(tasks: seq<Task>, t: Task, owner: int)
    ensures OwnedBy(tasks + [t], owner) == OwnedBy(tasks, owner) + (if t.userId == owner then [t] else [])
    decreases |tasks|
  {
    if tasks == [] {
      assert tasks + [t] == [t];
    } else {
      var head := if tasks[0].userId == owner then [tasks[0]] else [];
      var last := if t.userId == owner then [t] else [];
      OwnedByAppend(tasks[1..], t, owner);
      ConcatAssoc(head, OwnedBy(tasks[1..], owner), last);
      OwnedByCons(tasks, t, owner);
    }
  }

  lemma {:induction false} OwnedByNone(tasks: seq<Task>, caller: int)
    requires forall t <- tasks :: t.userId != caller
    ensures OwnedBy(tasks, caller) == []
    decreases |tasks|
  {
    if tasks != [] {
      assert tasks[0] in tasks;
      OwnedByNone(tasks[1..], caller);
    }
  }

  /** The first step of filtering tasks + [t]. */
  lemma OwnedByCons(tasks: seq<Task>, t: Task, owner: int)
    requires tasks != []
    ensures OwnedBy(tasks + [t], owner)
      == (if tasks[0].userId == owner then [tasks[0]] else []) + OwnedBy(tasks[1..] + [t], owner)
  {
    assert (tasks + [t])[0] == tasks[0];
    assert (tasks + [t])[1..] == tasks[1..] + [t];
  }

  lemma ConcatAssoc<T>(a: seq<T>, b: seq<T>, c: seq<T>)
    ensures a + (b + c) == (a + b) + c
  {
  }

  lemma {:induction false} OwnedByUpdate(tasks: seq<Task>, i: nat, e: Task, other: int)
    requires i < |tasks| && tasks[i].userId != other && e.userId == tasks[i].userId
    ensures OwnedBy(tasks[i := e], other) == OwnedBy(tasks, other)
    decreases |tasks|
  {
    if i == 0 {
      assert tasks[i := e][1..] == tasks[1..];
    } else {
      assert tasks[i := e][0] == tasks[0];
      assert tasks[i := e][1..] == tasks[1..][i - 1 := e];
      OwnedByUpdate(tasks[1..], i - 1, e, other);
    }
  }

  lemma {:induction false} OwnedByRemove(tasks: seq<Task>, i: nat, other: int)
    requires i < |tasks| && tasks[i].userId != other
    ensures OwnedBy(tasks[..i] + tasks[i + 1..], other) == OwnedBy(tasks, other)
    decreases |tasks|
  {
    if i == 0 {
      assert tasks[..0] + tasks[1..] == tasks[1..];
    } else {
      var rest := tasks[1..];
      assert (tasks[..i] + tasks[i + 1..])[0] == tasks[0];
      assert (tasks[..i] + tasks[i + 1..])[1..] == rest[..i - 1] + rest[i..];
      OwnedByRemove(rest, i - 1, other);
    }
  }

  /** What another user sees of the store is untouched by every write the
      caller makes: adding a task the caller owns, changing one of the
      caller's tasks in place, removing one of them. */
  lemma WritesInvisibleToOthers(tasks: seq<Task>, caller: int, other: int, t: Task, i: nat, e: Task)
    requires caller != other && t.userId == caller
    requires i < |tasks| && tasks[i].userId == caller && e.userId == caller
    ensures OwnedBy(tasks + [t], other) == OwnedBy(tasks, other)
    ensures OwnedBy(tasks[i := e], other) == OwnedBy(tasks, other)
    ensures OwnedBy(tasks[..i] + tasks[i + 1..], other) == OwnedBy(tasks, other)
  {
    OwnedByAppend(tasks, t, other);
    OwnedByUpdate(tasks, i, e, other);
    OwnedByRemove(tasks, i, other);
  }

  /** A task added for the caller under a fresh id is what GetTaskById then
      returns for that id. */
  lemma CreatedTaskFound(tasks: seq<Task>, users: seq<User>, claim: Claim, caller: int32, t: Task)
    requires GetCurrentUserId(claim) == Some(caller) && t.userId == caller as int
    requires forall u <- tasks :: u.id != t.id
    ensures GetTaskById(tasks + [t], users, claim, t.id) == Ok(DetailOf(t, users))
  {
    var caller := t.userId;
    var s := tasks + [t];
    assert Matches(s[|tasks|], t.id, caller);
    forall j | 0 <= j < |tasks| ensures !Matches(s[j], t.id, caller) {
      assert s[j] == tasks[j] && tasks[j] in tasks;
    }
    assert FirstMatch(s, t.id, caller) == Some(|tasks|);
  }

  /** ... and any other caller asking for that id gets 404, as for a task
      that does not exist. */
  lemma CreatedTaskHidden(tasks: seq<Task>, users: seq<User>, claim: Claim, other: int32, t: Task)
    requires GetCurrentUserId(claim) == Some(other) && t.userId != other as int
    requires forall u <- tasks :: u.id != t.id
    ensures GetTaskById(tasks + [t], users, claim, t.id) == NotFound(Some(NoTaskFound))
  {
    var s := tasks + [t];
    forall u <- s ensures !Matches(u, t.id, other as int) {
      if u != t {
        assert u in tasks;
      }
    }
    NoMatchNotFound(s, users, claim, other, t.id);
  }

  /** With unique ids, once the caller's task is removed its id is not found. */
  lemma DeletedTaskGone(tasks: seq<Task>, users: seq<User>, claim: Claim, caller: int32, i: nat)
    requires UniqueTaskIds(tasks) && i < |tasks|
    requires GetCurrentUserId(claim) == Some(caller)
    ensures GetTaskById(tasks[..i] + tasks[i + 1..], users, claim, tasks[i].id) == NotFound(Some(NoTaskFound))
  {
    var s := tasks[..i] + tasks[i + 1..];
    RemovedKeyAbsent(tasks, i);
    NoMatchNotFound(s, users, claim, caller, tasks[i].id);
  }

  /** With unique keys, no row left after removing row i carries its key. */
  lemma RemovedKeyAbsent(tasks: seq<Task>, i: nat)
    requires UniqueTaskIds(tasks) && i < |tasks|
    ensures forall t <- tasks[..i] + tasks[i + 1..] :: t.id != tasks[i].id
  {
    var s := tasks[..i] + tasks[i + 1..];
    forall t <- s ensures t.id != tasks[i].id {
      var j :| 0 <= j < |s| && s[j] == t;
      if j < i {
        assert s[j] == tasks[j];
        assert tasks[j].id != tasks[i].id;
      } else {
        assert s[j] == tasks[j + 1];
        assert tasks[i].id != tasks[j + 1].id;
      }
    }
  }

  /** Removing a row keeps the keys unique and adds no row. */
  lemma RemoveKeepsKeys(tasks: seq<Task>, i: nat)
    requires UniqueTaskIds(tasks) && i < |tasks|
    ensures UniqueTaskIds(tasks[..i] + tasks[i + 1..])
    ensures forall t <- tasks[..i] + tasks[i + 1..] :: t in tasks
  {
    var s := tasks[..i] + tasks[i + 1..];
    assert forall k :: 0 <= k < |s| ==> s[k] == (if k < i then tasks[k] else tasks[k + 1]);
  }

  /** A row under a key above every stored one keeps the keys unique. */
  lemma AppendKeepsKeys(tasks: seq<Task>, t: Task)
    requires UniqueTaskIds(tasks) && forall u <- tasks :: u.id < t.id
    ensures UniqueTaskIds(tasks + [t])
  {
    var s := tasks + [t];
    forall i, j | 0 <= i < j < |s| ensures s[i].id != s[j].id {
      assert s[i] in tasks;
      if j < |tasks| {
        assert s[j] in tasks;
      }
    }
  }

  /** The row CreateTask appends under the next identity value: the keys stay
      unique and below the advanced counter, and a lookup by the new key finds
      the new row. */
  lemma AppendRow(tasks: seq<Task>, t: Task, next: int)
    requires UniqueTaskIds(tasks) && (forall u <- tasks :: u.id < next) && t.id == next
    ensures forall u <- tasks :: u.id != t.id
    ensures UniqueTaskIds(tasks + [t]) && forall u <- tasks + [t] :: u.id < next + 1
    ensures FindTask(tasks + [t], t.id) == Some(|tasks|)
  {
    AppendKeepsKeys(tasks, t);
    FindTaskUnique(tasks + [t], |tasks|);
  }

  /** Overwriting a row without touching its key keeps the keys unique and
      below the same bound. */
  lemma UpdateKeepsKeys(tasks: seq<Task>, i: nat, e: Task, bound: int)
    requires UniqueTaskIds(tasks) && i < |tasks| && e.id == tasks[i].id
    requires forall t <- tasks :: t.id < bound
    ensures UniqueTaskIds(tasks[i := e]) && forall t <- tasks[i := e] :: t.id < bound
  {
    var s := tasks[i := e];
    assert forall k :: 0 <= k < |s| ==> s[k].id == tasks[k].id;
    forall t <- s ensures t.id < bound {
      var k :| 0 <= k < |s| && s[k] == t;
      assert tasks[k] in tasks;
    }
  }

  // ----- the writes -----

  /** CreateTask: a new row owned by the caller under the next identity
      value, stamped with `now` twice, answered by 201 pointing at
      GetTaskById. */
  method CreateTask(db: AppDbContext, claim: Claim, request: CreateTaskRequest, now: DateTime)
    returns (result: ActionResult<TaskView>)
    requires db.Valid()
    modifies db
    ensures db.Valid()
    ensures GetCurrentUserId(claim).None? ==> result == ServerError(InternalError) && unchanged(db)
    ensures GetCurrentUserId(claim).Some? ==>
      var t := Task(old(db.nextTaskId), request.title, request.description, request.status, request.dueDate,
                    now, now, GetCurrentUserId(claim).value as int);
      && (forall u <- old(db.tasks) :: u.id != t.id)
      && db.tasks == old(db.tasks) + [t]
      && db.users == old(db.users)
      && db.nextTaskId == old(db.nextTaskId) + 1 && db.nextUserId == old(db.nextUserId)
      && result == Created("GetTaskById", Some(t.id), ViewOf(t, db.users))
  {
    var caller := GetCurrentUserId(claim);
    if caller.None? {
      return ServerError(InternalError);
    }
    var newTask := Task(db.nextTaskId, request.title, request.description, request.status, request.dueDate,
                        now, now, caller.value as int);
    var appended := db.tasks + [newTask];
    AppendRow(db.tasks, newTask, db.nextTaskId);
    db.tasks := appended;
    db.nextTaskId := db.nextTaskId + 1;
    // the projection re-reads the row by its id
    var row := FindTask(db.tasks, newTask.id);
    assert db.tasks[row.value] == newTask;
    result := Created("GetTaskById", Some(newTask.id), ViewOf(db.tasks[row.value], db.users));
  }

  /** EditTask: overwrite title, description, status and due date of the
      caller's task and stamp UpdatedAt. A null description never reaches
      the row: the store rejects the required column and the handler answers
      500 with nothing saved. */
  method EditTask(db: AppDbContext, claim: Claim, id: int, request: UpdateTaskRequest, now: DateTime)
    returns (result: ActionResult<TaskView>)
    requires db.Valid()
    modifies db
    ensures db.Valid()
    ensures GetCurrentUserId(claim).None? ==> result == ServerError(InternalError) && unchanged(db)
    ensures GetCurrentUserId(claim).Some? ==>
      match FirstMatch(old(db.tasks), id, GetCurrentUserId(claim).value as int)
      case None => result == NotFound(Some(TaskNotFound)) && unchanged(db)
      case Some(i) =>
        if request.description.None? then result == ServerError(InternalError) && unchanged(db)
        else
          var e := old(db.tasks)[i].(title := request.title, description := request.description.value,
                                     status := request.status, dueDate := request.dueDate, updatedAt := now);
          && db.tasks == old(db.tasks)[i := e]
          && db.users == old(db.users)
          && db.nextTaskId == old(db.nextTaskId) && db.nextUserId == old(db.nextUserId)
          && result == Ok(ViewOf(e, db.users))
  {
    var caller := GetCurrentUserId(claim);
    if caller.None? {
      return ServerError(InternalError);
    }
    var found := FirstMatch(db.tasks, id, caller.value as int);
    if found.None? {
      return NotFound(Some(TaskNotFound));
    }
    var i := found.value;
    if request.description.None? {
      return ServerError(InternalError);
    }
    var e := db.tasks[i].(title := request.title, description := request.description.value,
                          status := request.status, dueDate := request.dueDate, updatedAt := now);
    UpdateKeepsKeys(db.tasks, i, e, db.nextTaskId);
    db.tasks := db.tasks[i := e];
    // the projection re-reads the row by its id
    FindTaskUnique(db.tasks, i);
    var row := FindTask(db.tasks, id);
    result := Ok(ViewOf(db.tasks[row.value], db.users));
  }

  /** DeleteTask: remove the caller's task and answer 204; a bare 404 when
      the caller owns no task with that id. */
  method DeleteTask(db: AppDbContext, claim: Claim, id: int) returns (result: ActionResult<TaskView>)
    requires db.Valid()
    modifies db
    ensures db.Valid()
    ensures GetCurrentUserId(claim).None? ==> result == ServerError(InternalError) && unchanged(db)
    ensures GetCurrentUserId(claim).Some? ==>
      match FirstMatch(old(db.tasks), id, GetCurrentUserId(claim).value as int)
      case None => result == NotFound(None) && unchanged(db)
      case Some(i) =>
        && db.tasks == old(db.tasks)[..i] + old(db.tasks)[i + 1..]
        && db.users == old(db.users)
        && db.nextTaskId == old(db.nextTaskId) && db.nextUserId == old(db.nextUserId)
        && result == NoContent
  {
    var caller := GetCurrentUserId(claim);
    if caller.None? {
      return ServerError(InternalError);
    }
    var found := FirstMatch(db.tasks, id, caller.value as int);
    if found.None? {
      return NotFound(None);
    }
    var i := found.value;
    RemoveKeepsKeys(db.tasks, i);
    db.tasks := db.tasks[..i] + db.tasks[i + 1..];
    result := NoContent;
  }
}
