/** Password login (app/api/auth/login/route.ts). The bcrypt comparison is
    the parameter `matches(plain, stored)`. */
module Login {
  import opened Common
  import opened UserModel

  /** The user data returned on success; it has no password. */
  datatype SessionUser = SessionUser(
    id: Id, email: string, firstName: string, lastName: string, role: Role, department: string)

  /** `User.findOne({ email })`: some user with that email, if any. */
  ghost function FindByEmail(users: map<Id, User>, email: string): (r: Option<Id>)
    ensures r.Some? ==> r.value in users && users[r.value].email == email
    ensures r.None? <==> !EmailTaken(users, email)
  {
    if EmailTaken(users, email) then
      var id :| id in users && users[id].email == email;
      Some(id)
    else None
  }

  /** `POST`: the checks in the handler's order. The store is only read. */
  ghost function Login(users: map<Id, User>, email: string, password: string,
                       matches: (string, string) -> bool): (r: Response<SessionUser>)
    ensures (email == "" || password == "") <==> r == Fail(HttpBadRequest, MissingFields)
    ensures email != "" && password != "" && !EmailTaken(users, email)
            ==> r == Fail(HttpUnauthorized, InvalidCredentials)
    ensures r == Fail(HttpBadRequest, SetupIncomplete) <==>
              email != "" && password != "" && EmailTaken(users, email)
              && users[FindByEmail(users, email).value].password == ""
    ensures r.code in {HttpOk, HttpBadRequest, HttpUnauthorized}
    ensures r.Success? ==> r.code == HttpOk && r.value.id in users
    ensures r.Success? ==>
              var u := users[r.value.id];
              && u.email == email
              && u.password != ""
              && matches(password, u.password)
              && r.value == SessionUser(r.value.id, u.email, u.firstName, u.lastName, u.role, u.department)
    ensures email != "" && password != "" && EmailTaken(users, email) ==>
              var u := users[FindByEmail(users, email).value];
              u.password != "" && !matches(password, u.password)
              ==> r == Fail(HttpUnauthorized, InvalidCredentials)
    ensures email != "" && password != "" && EmailTaken(users, email) ==>
              var u := users[FindByEmail(users, email).value];
              u.password != "" && matches(password, u.password) ==> r.Success?
  {
    if email == "" || password == "" then Fail(HttpBadRequest, MissingFields)
    else
      match FindByEmail(users, email)
      case None => Fail(HttpUnauthorized, InvalidCredentials)
      case Some(id) =>
        var u := users[id];
        if u.password == "" then Fail(HttpBadRequest, SetupIncomplete)
        else if !matches(password, u.password) then Fail(HttpUnauthorized, InvalidCredentials)
        else Success(HttpOk, SessionUser(id, u.email, u.firstName, u.lastName, u.role, u.department))
  }

  /** With unique emails the user found is the only one with that email. */
  lemma LoginFindsTheOwner(users: map<Id, User>, email: string, password: string,
                           matches: (string, string) -> bool, owner: Id)
    requires UniqueEmails(users)
    requires owner in users && users[owner].email == email
    requires Login(users, email, password, matches).Success?
    ensures Login(users, email, password, matches).value.id == owner
  {
  }
}
