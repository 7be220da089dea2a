/** UsersController: the paged user list, the caller's profile, and the
    profile update that renames the caller only to a name nobody else holds. */
module UsersController {
  import opened Common
  import opened Int32
  import opened Entities
  import opened Sorting
  import opened Pagination
  import opened Identity
  import opened Data

  /** `new { u.Id, u.UserName, u.CreatedAt, u.UpdatedAt }`. */
  datatype ProfileView = ProfileView(id: int, userName: string, createdAt: DateTime, updatedAt: DateTime)

  const NoUsersFound: string := "No users found"
  const UserNotFound: string := "User not found"

  function ProfileOf(u: User): ProfileView {
    ProfileView(u.id, u.userName, u.createdAt, u.updatedAt)
  }

  function Summaries(s: seq<User>): (r: seq<UserSummary>)
    ensures |r| == |s| && forall k :: 0 <= k < |s| ==> r[k] == UserSummary(s[k].id, s[k].userName)
    decreases |s|
  {
    if s == [] then [] else [UserSummary(s[0].id, s[0].userName)] + Summaries(s[1..])
  }

  /** The sort key of OrderBy(u => u.Id). */
  function IdKey(u: User): int {
    u.id
  }

  /** The users on the normalised page, in id order. */
  function UserPage(users: seq<User>, pagination: PaginationRequest): seq<User> {
    PageOf(SortBy(users, IdKey), pagination)
  }

  /** The envelope of a non-empty page. */
  function UsersResponse(users: seq<User>, pagination: PaginationRequest): PaginatedResponse<UserSummary> {
    BuildResponse(Summaries(UserPage(users, pagination)), GetValidPage(pagination), GetValidPageSize(pagination), |users|)
  }

  // ----- GET /users -----

  /** GetAllUsers: the normalised page of all users in id order, or 404
      "No users found" when that page is empty, even though users exist. */
  function GetAllUsers(users: seq<User>, pagination: PaginationRequest): (r: ActionResult<PaginatedResponse<UserSummary>>)
    ensures r.Ok? || r == NotFound(Some(NoUsersFound))
    ensures r.Ok? <==> UserPage(users, pagination) != []
  {
    if UserPage(users, pagination) == [] then NotFound(Some(NoUsersFound))
    else Ok(UsersResponse(users, pagination))
  }

  /** The page holds at most pageSize users of the store, in id order. */
  lemma UserPageOrdered(users: seq<User>, pagination: PaginationRequest)
    ensures var w := UserPage(users, pagination);
      && |w| <= GetValidPageSize(pagination) as int
      && (forall u <- w :: u in users)
      && (forall i, j :: 0 <= i < j < |w| ==> w[i].id <= w[j].id)
  {
    var sorted := SortBy(users, IdKey);
    var w := UserPage(users, pagination);
    PageWindowOfSorted(sorted, GetValidPage(pagination), GetValidPageSize(pagination), IdKey);
    SortByElements(users, IdKey);
    forall i, j | 0 <= i < j < |w| ensures w[i].id <= w[j].id {
      assert IdKey(w[i]) <= IdKey(w[j]);
    }
  }

  /** A listed page shows at most pageSize users, each one a user of the
      store, in ascending id order, over the count of all users. */
  lemma GetAllUsersOrdered(users: seq<User>, pagination: PaginationRequest)
    requires GetAllUsers(users, pagination).Ok?
    ensures var r := GetAllUsers(users, pagination).value;
      && |r.data| <= r.pageSize
      && r.page == GetValidPage(pagination) as int && r.pageSize == GetValidPageSize(pagination) as int
      && r.totalCount == |users|
      && (forall v <- r.data :: exists u <- users :: v == UserSummary(u.id, u.userName))
      && (forall i, j :: 0 <= i < j < |r.data| ==> r.data[i].id <= r.data[j].id)
  {
    var r := UsersResponse(users, pagination);
    assert GetAllUsers(users, pagination) == Ok(r);
    var w := UserPage(users, pagination);
    UserPageOrdered(users, pagination);
    assert r.data == Summaries(w);
    forall v <- r.data ensures exists u <- users :: v == UserSummary(u.id, u.userName) {
      var k :| 0 <= k < |r.data| && r.data[k] == v;
      assert w[k] in w;
    }
  }

  /** When the normalised offset fits in int32, the answer is 404 exactly
      when the offset is at or past the number of users. */
  lemma GetAllUsersNotFoundIff(users: seq<User>, pagination: PaginationRequest)
    requires RequestOffset(pagination) <= MaxValue
    ensures GetAllUsers(users, pagination) == NotFound(Some(NoUsersFound))
      <==> RequestOffset(pagination) >= |users|
  {
    SortByElements(users, IdKey);
    PageWindowEmpty(SortBy(users, IdKey), GetValidPage(pagination), GetValidPageSize(pagination));
  }

  /** ... and otherwise the page is the run of users in id order that starts
      at the offset. */
  lemma GetAllUsersPage(users: seq<User>, pagination: PaginationRequest)
    requires RequestOffset(pagination) <= MaxValue
    ensures var sorted := SortBy(users, IdKey);
      RequestOffset(pagination) < |sorted| ==>
        && GetAllUsers(users, pagination).Ok?
        && GetAllUsers(users, pagination).value.data == Summaries(PageSlice(sorted, pagination))
  {
    var sorted := SortBy(users, IdKey);
    PageOfSlice(sorted, pagination);
    if RequestOffset(pagination) < |sorted| {
      assert UserPage(users, pagination) == PageSlice(sorted, pagination);
      assert GetAllUsers(users, pagination) == Ok(UsersResponse(users, pagination));
    }
  }

  // ----- GET /users/profile -----

  /** GetProfile: the caller's own record, or 404 "User not found". */
  function GetProfile(users: seq<User>, claim: Claim): (r: ActionResult<ProfileView>)
    ensures GetCurrentUserId(claim).None? ==> r == ServerError(InternalError)
  {
    match GetCurrentUserId(claim)
    case None => ServerError(InternalError)
    case Some(caller) =>
      match FindUser(users, caller as int)
      case None => NotFound(Some(UserNotFound))
      case Some(i) => Ok(ProfileOf(users[i]))
  }

  /** 200 exactly when some user has the caller's id, and then the profile
      is that user's; otherwise 404 "User not found". */
  lemma GetProfileIff(users: seq<User>, claim: Claim, caller: int32)
    requires GetCurrentUserId(claim) == Some(caller)
    ensures var r := GetProfile(users, claim);
      && (r.Ok? <==> exists u <- users :: u.id == caller as int)
      && (r.Ok? ==> exists u <- users :: u.id == caller as int && r.value == ProfileOf(u))
      && (!r.Ok? ==> r == NotFound(Some(UserNotFound)))
  {
    var r := GetProfile(users, claim);
    match FindUser(users, caller as int)
    case None =>
    case Some(i) =>
      assert users[i] in users;
  }

  // ----- PUT /users/profile -----

  /** AnyAsync(u => u.UserName == name && u.Id != caller). */
  predicate NameTakenByOther(users: seq<User>, name: string, caller: int) {
    exists j :: 0 <= j < |users| && users[j].userName == name && users[j].id != caller
  }

  /** The row UpdateProfile writes. */
  function Renamed(u: User, request: UserRequest, now: DateTime): User {
    u.(userName := request.userName, passWord := request.passWord, updatedAt := now)
  }

  /** With unique keys, renaming user i keeps the names unique exactly when
      no other user holds the new name: the uniqueness check is the one the
      update needs, no weaker and no stronger. */
  lemma RenameKeepsNamesUnique(users: seq<User>, i: nat, request: UserRequest, now: DateTime)
    requires UniqueUserIds(users) && UniqueUserNames(users) && i < |users|
    ensures UniqueUserNames(users[i := Renamed(users[i], request, now)])
      <==> !NameTakenByOther(users, request.userName, users[i].id)
  {
    var s := users[i := Renamed(users[i], request, now)];
    if NameTakenByOther(users, request.userName, users[i].id) {
      var j :| 0 <= j < |users| && users[j].userName == request.userName && users[j].id != users[i].id;
      assert j != i && s[j].userName == s[i].userName;
      if j < i {
        assert !UniqueUserNames(s);
      } else {
        assert !UniqueUserNames(s);
      }
    } else {
      forall a, b | 0 <= a < b < |s| ensures s[a].userName != s[b].userName {
        if a == i {
          assert users[b].id != users[i].id;
        } else if b == i {
          assert users[a].id != users[i].id;
        }
      }
    }
  }

  /** Renaming changes no key. */
  lemma RenameKeepsKeys(users: seq<User>, i: nat, request: UserRequest, now: DateTime, bound: int)
    requires i < |users| && UniqueUserIds(users) && forall u <- users :: u.id < bound
    ensures var s := users[i := Renamed(users[i], request, now)];
      UniqueUserIds(s) && forall u <- s :: u.id < bound
  {
    var s := users[i := Renamed(users[i], request, now)];
    assert forall k :: 0 <= k < |s| ==> s[k].id == users[k].id;
    forall u <- s ensures u.id < bound {
      var k :| 0 <= k < |s| && s[k] == u;
      assert users[k] in users;
    }
  }

  /** With unique names, a user's own name is held by no other user. */
  lemma SameNameNotTaken(users: seq<User>, i: nat)
    requires UniqueUserNames(users) && i < |users|
    ensures !NameTakenByOther(users, users[i].userName, users[i].id)
  {
    forall j | 0 <= j < |users| && users[j].userName == users[i].userName
      ensures users[j].id == users[i].id
    {
      assert j == i;
    }
  }

  /** UpdateProfile: replace the caller's name and password and stamp
      UpdatedAt; the name check runs only when the name changes. */
  method UpdateProfile(db: AppDbContext, claim: Claim, request: UserRequest, now: DateTime)
    returns (result: ActionResult<ProfileView>)
    requires db.Valid()
    modifies db
    ensures db.Valid()
    ensures GetCurrentUserId(claim).None? ==> result == ServerError(InternalError) && unchanged(db)
    ensures GetCurrentUserId(claim).Some? ==>
      var caller := GetCurrentUserId(claim).value as int;
      match FindUser(old(db.users), caller)
      case None => result == NotFound(Some(UserNotFound)) && unchanged(db)
      case Some(i) =>
        if old(db.users)[i].userName != request.userName && NameTakenByOther(old(db.users), request.userName, caller)
        then result == BadRequest(UserNameTaken) && unchanged(db)
        else
          && db.users == old(db.users)[i := Renamed(old(db.users)[i], request, now)]
          && db.tasks == old(db.tasks)
          && db.nextUserId == old(db.nextUserId) && db.nextTaskId == old(db.nextTaskId)
          && result == Ok(ProfileOf(db.users[i]))
  {
    var caller := GetCurrentUserId(claim);
    if caller.None? {
      return ServerError(InternalError);
    }
    var found := FindUser(db.users, caller.value as int);
    if found.None? {
      return NotFound(Some(UserNotFound));
    }
    var i := found.value;
    var existing := db.users[i];
    assert UserKey(existing) == caller.value as int;
    if existing.userName != request.userName {
      if NameTakenByOther(db.users, request.userName, caller.value as int) {
        return BadRequest(UserNameTaken);
      }
    } else {
      SameNameNotTaken(db.users, i);
    }
    RenameKeepsNamesUnique(db.users, i, request, now);
    RenameKeepsKeys(db.users, i, request, now, db.nextUserId);
    db.users := db.users[i := Renamed(existing, request, now)];
    result := Ok(ProfileOf(db.users[i]));
  }
}
