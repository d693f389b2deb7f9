/**
 * AuthController: register runs three request guards in a fixed order before calling the
 * service and turns the outcome into a status and a JSON body; login and check-username map
 * the service's answer the same way. A request body is a map from field name to string;
 * a field that is absent is Java's null.
 */
module AuthApi {
  import opened Wrappers
  import opened Text
  import opened Errors
  import opened AdminUsers
  import opened Authentication

  datatype Json = Str(text: string) | Bool(flag: bool)

  datatype Response = Response(status: int, body: map<string, Json>)

  const Ok := 200
  const Created := 201
  const BadRequest := 400
  const Unauthorized := 401
  const Conflict := 409

  const UsernameRequired := "Username is required"
  const PasswordTooShort := "Password must be at least 6 characters"
  const EmailRequired := "Valid email is required"

  /** The username guard: null, or nothing left after trimming. */
  predicate UsernameMissing(username: Option<string>) {
    username.None? || Trim(username.value) == []
  }

  /** The password guard: null, or fewer than six characters. */
  predicate PasswordShort(password: Option<string>) {
    password.None? || |password.value| < 6
  }

  /** The email guard: null, or no '@' anywhere. */
  predicate EmailMalformed(email: Option<string>) {
    email.None? || '@' !in email.value
  }

  /**
   * The message of the first guard that fails, checking username, then password, then email;
   * None when the request passes all three.
   */
  function RegisterGuard(request: map<string, string>): (r: Option<string>)
    ensures r == Some(UsernameRequired) <==> UsernameMissing(Get(request, "username"))
    ensures r == Some(PasswordTooShort) <==>
              !UsernameMissing(Get(request, "username")) && PasswordShort(Get(request, "password"))
    ensures r == Some(EmailRequired) <==>
              && !UsernameMissing(Get(request, "username"))
              && !PasswordShort(Get(request, "password"))
              && EmailMalformed(Get(request, "email"))
    ensures r.None? <==>
              && "username" in request && "password" in request && "email" in request
              && !IsBlank(request["username"]) && |request["password"]| >= 6 && '@' in request["email"]
  {
    var username := Get(request, "username");
    var password := Get(request, "password");
    var email := Get(request, "email");
    if UsernameMissing(username) then Some(UsernameRequired)
    else if PasswordShort(password) then Some(PasswordTooShort)
    else if EmailMalformed(email) then Some(EmailRequired)
    else None
  }

  /** Every request whose three fields satisfy the entity's constraints passes the guards. */
  lemma ValidAccountPassesGuards(request: map<string, string>)
    requires "username" in request && "password" in request && "email" in request
    requires ValidAdminUser(NewAdminUser(request["username"], request["password"], request["email"]))
    ensures RegisterGuard(request) == None
  {
    var e := request["email"];
    var i :| 0 < i < |e| - 1 && e[i] == '@' && '@' !in e[i + 1..];
    assert e[i] in e;
  }

  /**
   * The guards are weaker than the entity's constraints: a three-character username and an
   * address with nothing after the '@' both reach the service.
   */
  lemma GuardsAdmitInvalidAccounts()
    ensures var request := map["username" := "bob", "password" := "secret", "email" := "bob@"];
            RegisterGuard(request) == None && !ValidUsername("bob") && !ValidAdminEmail("bob@")
  {
    var request := map["username" := "bob", "password" := "secret", "email" := "bob@"];
    NotBlankAt("bob", 0);
    assert "bob@"[3] == '@';
  }

  /**
   * POST /api/auth/register: 400 with the first failing guard's message and no call to the
   * service; otherwise 201 with the stored username, or 409 with the service's message.
   */
  method Register(auth: AuthService, request: map<string, string>) returns (resp: Response)
    requires auth.Valid()
    modifies auth
    ensures auth.Valid()
    ensures RegisterGuard(request).Some? ==>
              && resp == Response(BadRequest, map["message" := Str(RegisterGuard(request).value)])
              && auth.users == old(auth.users) && auth.nextId == old(auth.nextId)
    ensures RegisterGuard(request).None? ==>
              var (u, p, e) := (request["username"], request["password"], request["email"]);
              && (resp.status == Created <==>
                    forall id :: id in old(auth.users) ==> old(auth.users)[id].username != u && old(auth.users)[id].email != e)
              && (resp.status == Created ==>
                    && resp.body == map["message" := Str("Registration successful"), "username" := Str(u)]
                    && auth.users == old(auth.users)[old(auth.nextId) := AdminUser(Some(old(auth.nextId)), u, p, e, DefaultRole)]
                    && auth.nextId == old(auth.nextId) + 1
                    && auth.Login(Some(u), Some(p)).Some?)
              && (resp.status != Created ==>
                    && resp.status == Conflict
                    && resp.body == map["message" := Str(if exists id :: id in old(auth.users) && old(auth.users)[id].username == u
                                                         then "Username already exists" else "Email already exists")]
                    && auth.users == old(auth.users) && auth.nextId == old(auth.nextId))
  {
    var guard := RegisterGuard(request);
    if guard.Some? {
      return Response(BadRequest, map["message" := Str(guard.value)]);
    }
    var r := auth.Register(request["username"], request["password"], request["email"]);
    match r {
      case Success(user) =>
        resp := Response(Created, map["message" := Str("Registration successful"), "username" := Str(user.username)]);
      case Failure(error) =>
        resp := Response(Conflict, map["message" := Str(error.message)]);
    }
  }

  /**
   * POST /api/auth/login: 200 with the account's username, email and role and success=true when
   * the credentials match a stored account; otherwise 401 with success=false.
   */
  function Login(auth: AuthService, credentials: map<string, string>): (resp: Response)
    requires auth.Valid()
    reads auth
    ensures resp.status == Ok <==>
              && "username" in credentials && "password" in credentials
              && exists id :: id in auth.users && auth.users[id].username == credentials["username"]
                                               && auth.users[id].password == credentials["password"]
    ensures resp.status == Ok ==>
              && resp.body.Keys == {"message", "username", "email", "role", "success"}
              && resp.body["username"] == Str(credentials["username"])
              && resp.body["role"] == Str(DefaultRole) && resp.body["success"] == Bool(true)
              && resp.body["message"] == Str("Login successful")
              && exists id :: id in auth.users && auth.users[id].username == credentials["username"]
                                               && resp.body["email"] == Str(auth.users[id].email)
    ensures resp.status != Ok ==>
              resp == Response(Unauthorized, map["message" := Str("Invalid username or password"), "success" := Bool(false)])
  {
    var found := auth.Login(Get(credentials, "username"), Get(credentials, "password"));
    match found {
      case Some(user) =>
        Response(Ok, map["message" := Str("Login successful"), "username" := Str(user.username),
                         "email" := Str(user.email), "role" := Str(user.role), "success" := Bool(true)])
      case None =>
        Response(Unauthorized, map["message" := Str("Invalid username or password"), "success" := Bool(false)])
    }
  }

  /** GET /api/auth/check-username: always 200, reporting whether an account holds the name. */
  function CheckUsername(auth: AuthService, username: string): (resp: Response)
    requires auth.Valid()
    reads auth
    ensures resp.status == Ok && resp.body.Keys == {"exists"}
    ensures resp.body["exists"] == Bool(exists id :: id in auth.users && auth.users[id].username == username)
  {
    Response(Ok, map["exists" := Bool(auth.UserExists(username))])
  }
}
