/** The test suite's fixture (three users sharing one password, two tasks
    of user 1 and one of user 2) and the outcomes its controller tests
    expect, derived from the model. */
module Scenarios {
  import opened Common
  import opened Int32
  import opened Entities
  import opened Pagination
  import opened Identity
  import TaskController
  import UsersController
  import AuthController
  import MockJwtService

  const TicksPerDay: int := 24 * 60 * TicksPerMinute

  function Ago(now: DateTime, days: int): DateTime {
    now - days * TicksPerDay
  }

  function FixtureUsers(now: DateTime): (users: seq<User>)
    ensures UniqueUserIds(users) && UniqueUserNames(users)
  {
    [ User(1, "testuser1", "Password123", Ago(now, 10), Ago(now, 10)),
      User(2, "testuser2", "Password123", Ago(now, 5), Ago(now, 5)),
      User(3, "testuser3", "Password123", Ago(now, 2), Ago(now, 2)) ]
  }

  function FixtureTasks(now: DateTime): (tasks: seq<Task>)
    ensures UniqueTaskIds(tasks)
  {
    [ Task(1, "Test Task 1 - User 1", "Test Description 1 for User 1", 0, Ago(now, -7), Ago(now, 3), Ago(now, 3), 1),
      Task(3, "Test Task 3 - User 1", "Another task for User 1", 1, Ago(now, -10), Ago(now, 1), Ago(now, 1), 1),
      Task(2, "Test Task 2 - User 2", "Test Description 2 for User 2", 2, Ago(now, -14), Ago(now, 2), Ago(now, 2), 2) ]
  }

  /** Page -1 of size -5 is served as page 1 of size 10. */
  lemma InvalidPaginationUsesDefaults()
    ensures Normalize(PaginationRequest(-1, -5)) == PaginationRequest(1, 10)
  {
  }

  /** Page 999 of the users is past the end: 404 "No users found". */
  lemma UsersFarPageNotFound(now: DateTime)
    ensures UsersController.GetAllUsers(FixtureUsers(now), PaginationRequest(999, 10))
      == NotFound(Some(UsersController.NoUsersFound))
  {
    ProductIsMul(998, 10);
    UsersController.GetAllUsersNotFoundIff(FixtureUsers(now), PaginationRequest(999, 10));
  }

  /** Pages of one user: the first shows one user out of three pages and
      announces a next page and no previous one. */
  lemma UsersFirstPageOfOne(now: DateTime)
    ensures var r := UsersController.GetAllUsers(FixtureUsers(now), PaginationRequest(1, 1));
      r.Ok? && |r.value.data| == 1 && r.value.totalPages == 3 && r.value.hasNextPage && !r.value.hasPreviousPage
  {
    var users := FixtureUsers(now);
    var p := PaginationRequest(1, 1);
    ProductIsMul(0, 1);
    ProductIsMul(1, 1);
    UsersController.GetAllUsersNotFoundIff(users, p);
    assert UsersController.GetAllUsers(users, p) == Ok(UsersController.UsersResponse(users, p));
    UsersController.GetAllUsersOrdered(users, p);
    ProductIsMul(CeilDiv(3, 1), 1);
    ProductIsMul(CeilDiv(3, 1) - 1, 1);
  }

  /** A caller who owns no fixture task (the tests use user 999) gets an
      empty first page with nothing before or after it. */
  lemma NoTasksForStranger(now: DateTime, claim: Claim, id: int32)
    requires GetCurrentUserId(claim) == Some(id) && id != 1 && id != 2
    ensures TaskController.GetAllTask(FixtureTasks(now), FixtureUsers(now), claim, PaginationRequest(1, 10))
      == Ok(PaginatedResponse([], 1, 10, 0, 0, false, false))
  {
    ProductIsMul(1, 10);
    TaskController.GetAllTaskNoTasks(FixtureTasks(now), FixtureUsers(now), claim, id, PaginationRequest(1, 10));
  }

  /** Task 2 belongs to user 2: user 1 asking for it gets 404
      "No Task Found", as for a task that does not exist. */
  lemma OtherUsersTaskHidden(now: DateTime, claim: Claim)
    requires GetCurrentUserId(claim) == Some(1)
    ensures TaskController.GetTaskById(FixtureTasks(now), FixtureUsers(now), claim, 2)
      == NotFound(Some(TaskController.NoTaskFound))
  {
    var tasks := FixtureTasks(now);
    assert forall t <- tasks :: !TaskController.Matches(t, 2, 1);
    TaskController.NoMatchNotFound(tasks, FixtureUsers(now), claim, 1, 2);
  }

  /** Task 1 belongs to user 1: user 2 gets 404 for it from GetTaskById, and
      the ownership gate that EditTask and DeleteTask apply finds nothing. */
  lemma UserTwoLockedOut(now: DateTime, claim: Claim)
    requires GetCurrentUserId(claim) == Some(2)
    ensures TaskController.GetTaskById(FixtureTasks(now), FixtureUsers(now), claim, 1)
      == NotFound(Some(TaskController.NoTaskFound))
    ensures TaskController.FirstMatch(FixtureTasks(now), 1, 2) == None
  {
    var tasks := FixtureTasks(now);
    assert forall t <- tasks :: !TaskController.Matches(t, 1, 2);
    TaskController.NoMatchNotFound(tasks, FixtureUsers(now), claim, 2, 1);
  }

  /** testuser1 logs in with Password123 and gets the mock token for user 1;
      a wrong password is a 401. */
  lemma FixtureLogins(now: DateTime)
    ensures AuthController.Login(FixtureUsers(now), LoginRequest("testuser1", "Password123"), now, MockJwtService.GenerateToken)
      == Ok(AuthController.ResponseFor(FixtureUsers(now)[0], now, MockJwtService.GenerateToken))
    ensures AuthController.Login(FixtureUsers(now), LoginRequest("testuser1", "WrongPassword"), now, MockJwtService.GenerateToken)
      == Unauthorized(AuthController.InvalidCredentials)
  {
    AuthController.LoginIdentifiesUser(FixtureUsers(now), 0, LoginRequest("testuser1", "Password123"), now, MockJwtService.GenerateToken);
    AuthController.LoginIdentifiesUser(FixtureUsers(now), 0, LoginRequest("testuser1", "WrongPassword"), now, MockJwtService.GenerateToken);
  }

  /** Registering testuser1 again is refused, and a rename of user 1 to
      testuser2 is refused while keeping the name testuser1 is not checked. */
  lemma FixtureNameClashes(now: DateTime)
    ensures AuthController.NameTaken(FixtureUsers(now), "testuser1")
    ensures !AuthController.NameTaken(FixtureUsers(now), "newuser")
    ensures UsersController.NameTakenByOther(FixtureUsers(now), "testuser2", 1)
  {
    assert FixtureUsers(now)[0].userName == "testuser1";
    assert FixtureUsers(now)[1].userName == "testuser2";
  }
}
