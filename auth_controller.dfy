/** AuthController: login by a credential lookup, and registration of a new
    user under an unused name. Token issuance is the IJwtService dependency,
    passed in as a function of the user. */
module AuthController {
  import opened Common
  import opened Int32
  import opened Entities
  import opened Data
  import MockJwtService

  datatype UserInfo = UserInfo(id: int, userName: string, createdAt: DateTime)
  datatype AuthResponse = AuthResponse(token: string, expires: DateTime, user: UserInfo)

  const InvalidCredentials: string := "Invalid username or password"
  /** Tokens are announced as valid for an hour. */
  const TokenLifetimeMinutes: int := 60

  /** FirstOrDefaultAsync(u => u.UserName == name && u.PassWord == password). */
  function FindCredentials(users: seq<User>, userName: string, passWord: string): (r: Option<nat>)
    ensures r.None? <==> forall u <- users :: !(u.userName == userName && u.passWord == passWord)
    ensures r.Some? ==>
      && r.value < |users|
      && users[r.value].userName == userName && users[r.value].passWord == passWord
      && forall k :: 0 <= k < r.value ==> !(users[k].userName == userName && users[k].passWord == passWord)
    decreases |users|
  {
    if users == [] then None
    else if users[0].userName == userName && users[0].passWord == passWord then Some(0)
    else
      match FindCredentials(users[1..], userName, passWord)
      case None =>
        assert forall k :: 1 <= k < |users| ==> users[k] == users[1..][k - 1];
        None
      case Some(i) => Some(i + 1)
  }

  /** The 200/201 body for a user: a fresh token, its expiry an hour after
      now, and the user's public fields. */
  function ResponseFor(u: User, now: DateTime, generateToken: User -> string): AuthResponse {
    AuthResponse(generateToken(u), AddMinutes(now, TokenLifetimeMinutes), UserInfo(u.id, u.userName, u.createdAt))
  }

  // ----- POST /auth/login -----

  /** Login: 200 with a token for the first user whose name and password
      both match, otherwise 401. */
  function Login(users: seq<User>, request: LoginRequest, now: DateTime, generateToken: User -> string)
    : (r: ActionResult<AuthResponse>)
    ensures r.Ok? || r == Unauthorized(InvalidCredentials)
    ensures r.Ok? <==> exists u <- users :: u.userName == request.userName && u.passWord == request.passWord
    ensures r.Ok? ==>
      exists u <- users ::
        && u.userName == request.userName && u.passWord == request.passWord
        && r.value == ResponseFor(u, now, generateToken)
  {
    match FindCredentials(users, request.userName, request.passWord)
    case None => Unauthorized(InvalidCredentials)
    case Some(i) =>
      assert users[i] in users;
      Ok(ResponseFor(users[i], now, generateToken))
  }

  /** With unique user names the credentials identify a single user, so a
      successful login answers for exactly the user of that name. */
  lemma LoginIdentifiesUser(users: seq<User>, i: nat, request: LoginRequest, now: DateTime, generateToken: User -> string)
    requires UniqueUserNames(users) && i < |users|
    requires users[i].userName == request.userName
    ensures Login(users, request, now, generateToken)
      == if users[i].passWord == request.passWord then Ok(ResponseFor(users[i], now, generateToken))
         else Unauthorized(InvalidCredentials)
  {
    match FindCredentials(users, request.userName, request.passWord)
    case None =>
    case Some(k) =>
  }

  /** With the test suite's token service, a login token decodes to the id
      of the user it answers for. */
  lemma LoginTokenIdentifiesUser(users: seq<User>, request: LoginRequest, now: DateTime)
    requires forall u <- users :: InRange(u.id)
    requires Login(users, request, now, MockJwtService.GenerateToken).Ok?
    ensures var r := Login(users, request, now, MockJwtService.GenerateToken).value;
      InRange(r.user.id) && MockJwtService.GetUserIdFromToken(Some(r.token)) == Some(r.user.id as int32)
  {
    var i := FindCredentials(users, request.userName, request.passWord).value;
    assert users[i] in users;
    assert Login(users, request, now, MockJwtService.GenerateToken).value.token == MockJwtService.GenerateToken(users[i]);
    MockJwtService.TokenRoundTrip(users[i]);
  }

  // ----- POST /auth/register -----

  /** AnyAsync(u => u.UserName == name). */
  predicate NameTaken(users: seq<User>, userName: string) {
    exists u <- users :: u.userName == userName
  }

  /** Appending a user under an unused name and a fresh key keeps the keys
      and the names unique. */
  lemma AppendKeepsUnique(users: seq<User>, u: User)
    requires UniqueUserIds(users) && UniqueUserNames(users)
    requires !NameTaken(users, u.userName)
    requires forall v <- users :: v.id < u.id
    ensures UniqueUserIds(users + [u]) && UniqueUserNames(users + [u])
  {
    var s := users + [u];
    forall i, j | 0 <= i < j < |s| ensures s[i].id != s[j].id && s[i].userName != s[j].userName {
      assert s[i] in users;
      if j < |users| {
        assert s[j] in users;
      }
    }
  }

  /** Register: 400 when the name is taken; otherwise the user is stored
      under the next key, with both timestamps now, and 201 answers with a
      token for it as login would. */
  method Register(db: AppDbContext, request: UserRequest, now: DateTime, generateToken: User -> string)
    returns (result: ActionResult<AuthResponse>)
    requires db.Valid()
    modifies db
    ensures db.Valid()
    ensures NameTaken(old(db.users), request.userName) ==> result == BadRequest(UserNameTaken) && unchanged(db)
    ensures !NameTaken(old(db.users), request.userName) ==>
      var u := User(old(db.nextUserId), request.userName, request.passWord, now, now);
      && db.users == old(db.users) + [u]
      && db.tasks == old(db.tasks)
      && db.nextUserId == old(db.nextUserId) + 1 && db.nextTaskId == old(db.nextTaskId)
      && result == Created("Login", None, ResponseFor(u, now, generateToken))
  {
    if NameTaken(db.users, request.userName) {
      return BadRequest(UserNameTaken);
    }
    var newUser := User(db.nextUserId, request.userName, request.passWord, now, now);
    AppendKeepsUnique(db.users, newUser);
    db.users := db.users + [newUser];
    db.nextUserId := db.nextUserId + 1;
    result := Created("Login", None, ResponseFor(newUser, now, generateToken));
  }

  /** Round trip: after a successful registration, logging in with the same
      name and password answers for the new user. */
  lemma RegisterThenLogin(users: seq<User>, request: UserRequest, id: int, now: DateTime, later: DateTime,
                          generateToken: User -> string)
    requires !NameTaken(users, request.userName)
    ensures var u := User(id, request.userName, request.passWord, now, now);
      Login(users + [u], LoginRequest(request.userName, request.passWord), later, generateToken)
        == Ok(ResponseFor(u, later, generateToken))
  {
    var u := User(id, request.userName, request.passWord, now, now);
    var s := users + [u];
    match FindCredentials(s, request.userName, request.passWord)
    case None =>
      assert s[|users|] == u;
    case Some(k) =>
  }
}
