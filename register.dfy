/** Account creation (app/api/auth/register/route.ts). Password hashing is
    the parameter `hash`. */
module Registration {
  import opened Common
  import opened UserModel
  import opened Tables

  /** The public part of a user returned on registration; it has no password. */
  datatype PublicUser = PublicUser(email: string, firstName: string, lastName: string, role: Role)

  /** The document built from the request body: the role defaults to
      "student"; a faculty member gets a `faculty_id` and `approved = false`,
      anyone else a null `student_id` and `cgpa = 0`. */
  function RegistrationFields(email: string, hashed: string, firstName: string, lastName: string,
                              role: string, department: string, facultyId: string): UserFields
  {
    if role == "faculty" then
      UserFields(email, hashed, firstName, lastName, Some(StringOr(role, "student")), department,
                 "", None, facultyId, Some(false))
    else
      UserFields(email, hashed, firstName, lastName, Some(StringOr(role, "student")), department,
                 "", Some(0.0), "", None)
  }

  /** `POST`: register a user. A faculty registration without a faculty id is
      refused before the collection is read; an email in use is refused; a
      missing password makes the hash call throw (500); schema validation
      failures and unique-index violations are both reported as 400. */
  function Register(db: Db, email: string, password: Option<string>, firstName: string,
                    lastName: string, role: string, department: string, facultyId: string,
                    newId: Id, hash: string -> string): (o: Outcome<PublicUser>)
    requires newId !in db.users
    ensures (role == "faculty" && facultyId == "") <==> o.response == Fail(HttpBadRequest, FacultyIdRequired)
    ensures !(role == "faculty" && facultyId == "") && EmailTaken(db.users, email)
            <==> o.response == Fail(HttpBadRequest, UserExists)
    ensures o.response == Fail(HttpServerError, ServerError)
            <==> !(role == "faculty" && facultyId == "") && !EmailTaken(db.users, email) && password.None?
    ensures password.Some? && !(role == "faculty" && facultyId == "") && !EmailTaken(db.users, email) ==>
              var fields := RegistrationFields(email, hash(password.value), firstName, lastName, role,
                                               department, facultyId);
              && (o.response == Fail(HttpBadRequest, ValidationError) <==> !UserFieldsValid(fields))
              && (o.response == Fail(HttpBadRequest, DuplicateKey)
                  <==> UserFieldsValid(fields) && FacultyIdTaken(db.users, fields.facultyId))
              && (o.response.Success?
                  <==> UserFieldsValid(fields) && !FacultyIdTaken(db.users, fields.facultyId))
    ensures o.response.code in {HttpCreated, HttpBadRequest, HttpServerError}
    ensures o.response.Fail? ==> o.db == db
    ensures o.response.Success? ==>
              && o.response.code == HttpCreated
              && newId in o.db.users
              && o.db.users == db.users[newId := o.db.users[newId]]
              && o.db.requests == db.requests
    ensures o.response.Success? ==>
              var u := o.db.users[newId];
              && u.email == email && u.firstName == firstName && u.lastName == lastName
              && u.password == hash(password.value)
              && RoleName(u.role) == StringOr(role, "student")
              && u.department == department
              && !u.approved
              && o.response.value == PublicUser(email, firstName, lastName, u.role)
    ensures o.response.Success? && role == "faculty" ==>
              var u := o.db.users[newId];
              u.facultyId == facultyId && u.studentId == "" && u.cgpa == Some(0.0)
    ensures o.response.Success? && role != "faculty" ==>
              var u := o.db.users[newId];
              u.studentId == "" && u.cgpa == Some(0.0) && u.facultyId == ""
    ensures ValidDb(db) ==> ValidDb(o.db)
  {
    if role == "faculty" && facultyId == "" then
      Outcome(Fail(HttpBadRequest, FacultyIdRequired), db)
    else if EmailTaken(db.users, email) then
      Outcome(Fail(HttpBadRequest, UserExists), db)
    else if password.None? then
      Outcome(Fail(HttpServerError, ServerError), db)
    else
      var fields := RegistrationFields(email, hash(password.value), firstName, lastName, role, department, facultyId);
      match CreateUser(fields)
      case None => Outcome(Fail(HttpBadRequest, ValidationError), db)
      case Some(u) =>
        if FacultyIdTaken(db.users, u.facultyId) then
          Outcome(Fail(HttpBadRequest, DuplicateKey), db)
        else
          Outcome(Success(HttpCreated, PublicUser(u.email, u.firstName, u.lastName, u.role)),
                  db.(users := db.users[newId := u]))
  }
}
