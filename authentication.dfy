/**
 * AuthService over the admin_users table: registration refuses a taken username, then a
 * taken email; login compares the stored password with the supplied one for equality.
 */
module Authentication {
  import opened Wrappers
  import opened Collections
  import opened Errors
  import opened AdminUsers

  const UsernameTaken: Failure := DuplicateResource("Username already exists")
  const EmailTaken: Failure := DuplicateResource("Email already exists")

  class AuthService {
    var users: map<int, AdminUser>
    var nextId: int

    /** Keys are generated ids; usernames and emails are unique; every account has role ADMIN. */
    ghost predicate Valid()
      reads this
    {
      && 1 <= nextId
      && (forall id :: id in users ==> 1 <= id < nextId && users[id].id == Some(id) && users[id].role == DefaultRole)
      && (forall i, j :: i in users && j in users && i != j ==> users[i].username != users[j].username)
      && (forall i, j :: i in users && j in users && i != j ==> users[i].email != users[j].email)
    }

    constructor ()
      ensures Valid() && users == map[] && nextId == 1
    {
      users := map[];
      nextId := 1;
    }

    /** The rows in primary-key order. */
    function Table(): seq<AdminUser>
      reads this
    {
      Rows(users, 1, nextId)
    }

    lemma TableIsStored()
      requires Valid()
      ensures forall u :: u in Table() ==> exists id :: id in users && users[id] == u
      ensures forall id :: id in users ==> users[id] in Table()
    {
    }

    /** existsByUsername and existsByEmail over the table. */
    lemma Taken(username: string, email: string)
      requires Valid()
      ensures ExistsByUsername(Table(), username) <==> exists id :: id in users && users[id].username == username
      ensures ExistsByEmail(Table(), email) <==> exists id :: id in users && users[id].email == email
    {
      TableIsStored();
    }

    /**
     * register: DuplicateResource "Username already exists" when the username is taken,
     * otherwise "Email already exists" when the email is; otherwise stores a new ADMIN account.
     */
    method Register(username: string, password: string, email: string) returns (r: Result<AdminUser, Failure>)
      requires Valid()
      modifies this
      ensures Valid()
      ensures (exists id :: id in old(users) && old(users)[id].username == username) ==> r == Failure(UsernameTaken)
      ensures ((forall id :: id in old(users) ==> old(users)[id].username != username) &&
               (exists id :: id in old(users) && old(users)[id].email == email)) ==> r == Failure(EmailTaken)
      ensures r.Failure? ==> users == old(users) && nextId == old(nextId)
      ensures r.Success? <==> forall id :: id in old(users) ==> old(users)[id].username != username && old(users)[id].email != email
      ensures r.Success? ==>
                && r.value == AdminUser(Some(old(nextId)), username, password, email, "ADMIN")
                && old(nextId) !in old(users)
                && users == old(users)[old(nextId) := r.value] && nextId == old(nextId) + 1
      ensures r.Success? ==> Login(Some(username), Some(password)) == Some(r.value)
    {
      Taken(username, email);
      if ExistsByUsername(Table(), username) {
        return Failure(UsernameTaken);
      }
      if ExistsByEmail(Table(), email) {
        return Failure(EmailTaken);
      }
      var user := NewAdminUser(username, password, email);
      user := user.(role := "ADMIN");
      user := user.(id := Some(nextId));
      users := users[nextId := user];
      nextId := nextId + 1;
      r := Success(user);
      assert users[nextId - 1] == user;
      LoginFinds(username, password, nextId - 1);
    }

    /** login finds the account that holds the username; equal passwords make it a match. */
    lemma LoginFinds(username: string, password: string, id: int)
      requires Valid() && id in users && users[id].username == username
      ensures Login(Some(username), Some(password)) == if users[id].password == password then Some(users[id]) else None
    {
      TableIsStored();
      var found := FindByUsername(Table(), username);
      var k :| k in users && users[k] == found.value;
    }

    /**
     * login: the account whose username is `username`, when its stored password equals
     * `password` exactly; empty for an unknown or null username and for any other password.
     */
    function Login(username: Option<string>, password: Option<string>): (r: Option<AdminUser>)
      requires Valid()
      reads this
      ensures r.Some? <==> (username.Some? && password.Some? &&
                            exists id :: id in users && users[id].username == username.value && users[id].password == password.value)
      ensures r.Some? ==> (r.value in users.Values && r.value.username == username.value &&
                           r.value.password == password.value && r.value.role == DefaultRole)
    {
      TableIsStored();
      if username.None? then None
      else
        var found := FindByUsername(Table(), username.value);
        if found.Some? && Some(found.value.password) == password then found else None
    }

    /** userExists: existsByUsername over the table. */
    function UserExists(username: string): (b: bool)
      requires Valid()
      reads this
      ensures b <==> exists id :: id in users && users[id].username == username
    {
      Taken(username, "");
      ExistsByUsername(Table(), username)
    }
  }

  /** The admin account scenario: register, log in with the password, fail with another. */
  method RegisterThenLogin(auth: AuthService)
    requires auth.Valid() && auth.users == map[]
    modifies auth
  {
    var r := auth.Register("admin1", "secret1", "a@x.com");
    assert r.Success?;
    assert auth.Login(Some("admin1"), Some("secret1")) == Some(r.value) && r.value.role == "ADMIN";
    auth.LoginFinds("admin1", "wrong", r.value.id.value);
    assert auth.Login(Some("admin1"), Some("wrong")) == None;
  }
}
