/** The AdminUser entity, its field constraints, and the derived queries of its repository. */
module AdminUsers {
  import opened Wrappers
  import opened Text
  import opened Collections
  import Students

  /** The value the role field is initialised with. */
  const DefaultRole: string := "ADMIN"

  datatype AdminUser = AdminUser(id: Option<int>, username: string, password: string, email: string, role: string)

  /** `new AdminUser()` followed by the three setters: no id yet, and the default role. */
  function NewAdminUser(username: string, password: string, email: string): (u: AdminUser)
    ensures u.id == None && u.role == DefaultRole
    ensures u.username == username && u.password == password && u.email == email
  {
    AdminUser(None, username, password, email, DefaultRole)
  }

  /** @NotBlank @Size(min = 4, max = 50) */
  predicate ValidUsername(u: string) {
    !IsBlank(u) && 4 <= |u| <= 50
  }

  /** @NotBlank @Size(min = 6) */
  predicate ValidPassword(p: string) {
    !IsBlank(p) && |p| >= 6
  }

  /** @NotBlank @Email */
  predicate ValidAdminEmail(e: string) {
    !IsBlank(e) && Students.IsEmailShaped(e)
  }

  predicate ValidAdminUser(u: AdminUser) {
    ValidUsername(u.username) && ValidPassword(u.password) && ValidAdminEmail(u.email)
  }

  /**
   * What the three constraints demand, character by character: usernames of 4 to 50 characters
   * and passwords of at least 6, each with some character above ' '; an email-shaped address.
   */
  lemma ValidAdminUserIff(u: AdminUser)
    ensures ValidAdminUser(u) <==>
              && 4 <= |u.username| <= 50 && (exists i :: 0 <= i < |u.username| && !IsJavaSpace(u.username[i]))
              && |u.password| >= 6 && (exists i :: 0 <= i < |u.password| && !IsJavaSpace(u.password[i]))
              && Students.IsEmailShaped(u.email)
  {
    UsernameIff(u.username);
    PasswordIff(u.password);
    if Students.IsEmailShaped(u.email) {
      Students.EmailShapedIsNotBlank(u.email);
    }
  }

  lemma UsernameIff(n: string)
    ensures ValidUsername(n) <==> 4 <= |n| <= 50 && exists i :: 0 <= i < |n| && !IsJavaSpace(n[i])
  {
    NotBlankIff(n);
  }

  lemma PasswordIff(p: string)
    ensures ValidPassword(p) <==> |p| >= 6 && exists i :: 0 <= i < |p| && !IsJavaSpace(p[i])
  {
    NotBlankIff(p);
  }

  /** A password of six or more spaces meets @Size but not @NotBlank, so neither rule implies the other. */
  lemma SizeDoesNotImplyNotBlank(p: string)
    requires |p| >= 6 && forall i :: 0 <= i < |p| ==> p[i] == ' '
    ensures !ValidPassword(p)
  {
    BlankIffAllSpace(p);
  }

  // ---- AdminUserRepository ----

  /** findByUsername: the row with that username, if any (the first one, were there several). */
  function FindByUsername(db: seq<AdminUser>, username: string): (r: Option<AdminUser>)
    ensures r.Some? ==> r.value in db && r.value.username == username
    ensures r.None? <==> forall u :: u in db ==> u.username != username
  {
    if db == [] then None
    else if db[0].username == username then Some(db[0])
    else FindByUsername(db[1..], username)
  }

  /** existsByUsername */
  function ExistsByUsername(db: seq<AdminUser>, username: string): (b: bool)
    ensures b <==> exists u :: u in db && u.username == username
  {
    FindByUsername(db, username).Some?
  }

  /** existsByEmail */
  function ExistsByEmail(db: seq<AdminUser>, email: string): (b: bool)
    ensures b <==> exists u :: u in db && u.email == email
  {
    Count(db, (u: AdminUser) => u.email == email) > 0
  }
}
