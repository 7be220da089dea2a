/** The two stored entities, Task and User, and the request bodies the
    controllers receive. */
module Entities {
  import opened Common

  /** The named members of the TaskStatus enum, with their underlying values. */
  datatype TaskStatus = Ongoing | Stopped | Finished {
    function Code(): int {
      match this
      case Ongoing => 0
      case Stopped => 1
      case Finished => 2
    }
  }

  /** Enum.IsDefined for TaskStatus: which underlying value names a member.
      A C# enum field can hold any int, so entities and requests keep the raw
      code and this is the only way back to a member. */
  function StatusOf(code: int): (s: Option<TaskStatus>)
    ensures s.Some? <==> 0 <= code <= 2
    ensures s.Some? ==> s.value.Code() == code
  {
    if code == 0 then Some(Ongoing)
    else if code == 1 then Some(Stopped)
    else if code == 2 then Some(Finished)
    else None
  }

  /** A row of the Tasks table; `userId` is the owner (a foreign key into Users). */
  datatype Task = Task(
    id: int,
    title: string,
    description: string,
    status: int,
    dueDate: DateTime,
    createdAt: DateTime,
    updatedAt: DateTime,
    userId: int)

  /** A row of the Users table. The password is stored as submitted. */
  datatype User = User(
    id: int,
    userName: string,
    passWord: string,
    createdAt: DateTime,
    updatedAt: DateTime)

  // ----- request bodies -----

  datatype CreateTaskRequest = CreateTaskRequest(title: string, description: string, status: int, dueDate: DateTime)

  /** Description is declared `string?`: a JSON null arrives as None. */
  datatype UpdateTaskRequest = UpdateTaskRequest(title: string, description: Option<string>, status: int, dueDate: DateTime)

  datatype LoginRequest = LoginRequest(userName: string, passWord: string)

  /** The body of POST register (CreateUserRequest) and of PUT profile (UpdateUserRequest). */
  datatype UserRequest = UserRequest(userName: string, passWord: string)

  /** The 400 answer of register and of a profile rename to a taken name. */
  const UserNameTaken: string := "Username already exists"

  // ----- the store's keys and the uniqueness that register and profile update maintain -----

  predicate UniqueTaskIds(s: seq<Task>) {
    forall i, j :: 0 <= i < j < |s| ==> s[i].id != s[j].id
  }

  predicate UniqueUserIds(s: seq<User>) {
    forall i, j :: 0 <= i < j < |s| ==> s[i].id != s[j].id
  }

  predicate UniqueUserNames(s: seq<User>) {
    forall i, j :: 0 <= i < j < |s| ==> s[i].userName != s[j].userName
  }

  /** Index of the first row whose key is the given one, or None when no row
      carries it: FirstOrDefault on a key, as DbSet.Find and a
      Where(...).FirstOrDefault() on the primary key both do. */
  function FindKey<T>(rows: seq<T>, key: T -> int, id: int): (r: Option<nat>)
    ensures r.Some? ==> r.value < |rows| && key(rows[r.value]) == id
    ensures r.Some? ==> forall j :: 0 <= j < r.value ==> key(rows[j]) != id
    ensures r.None? ==> forall j :: 0 <= j < |rows| ==> key(rows[j]) != id
    decreases |rows|
  {
    if rows == [] then None
    else if key(rows[0]) == id then Some(0)
    else match FindKey(rows[1..], key, id)
      case None => None
      case Some(k) => Some(k + 1)
  }

  function UserKey(u: User): int { u.id }

  function TaskKey(t: Task): int { t.id }

  /** The user with a given primary key (UserController's FindAsync). */
  function FindUser(users: seq<User>, id: int): Option<nat> {
    FindKey(users, UserKey, id)
  }

  /** The task with a given primary key (FirstOrDefault(t => t.Id == id), with
      no owner filter). */
  function FindTask(tasks: seq<Task>, id: int): Option<nat> {
    FindKey(tasks, TaskKey, id)
  }

  /** With unique keys, the user found is the only one carrying the key. */
  lemma FindUserUnique(users: seq<User>, i: nat)
    requires UniqueUserIds(users) && i < |users|
    ensures FindUser(users, users[i].id) == Some(i)
  {
  }

  /** With unique keys, the task found is the only one carrying the key. */
  lemma FindTaskUnique(tasks: seq<Task>, i: nat)
    requires UniqueTaskIds(tasks) && i < |tasks|
    ensures FindTask(tasks, tasks[i].id) == Some(i)
  {
  }

  // ----- the user as other responses show it -----

  /** `new { u.Id, u.UserName }`: a user as a task listing or the user list shows it. */
  datatype UserSummary = UserSummary(id: int, userName: string)

  /** The navigation property `t.User` loaded by Include and projected to a
      summary: None when no user carries the owner id. */
  function OwnerSummary(users: seq<User>, userId: int): (r: Option<UserSummary>)
    ensures r.None? <==> forall u <- users :: u.id != userId
    ensures r.Some? ==> exists i :: 0 <= i < |users| && users[i].id == userId && r.value == UserSummary(userId, users[i].userName)
  {
    match FindUser(users, userId)
    case None => None
    case Some(i) =>
      assert users[i].id == userId;
      Some(UserSummary(users[i].id, users[i].userName))
  }
}
