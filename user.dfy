/** The User schema (models/User.ts): role enum, role-dependent required
    department, CGPA range and default, approval flag, and the unique indexes
    on `email` and (sparse) `faculty_id`. */
module UserModel {
  import opened Common

  datatype Role = Student | Faculty

  const DefaultRole: Role := Student

  function RoleName(r: Role): string {
    match r
    case Student => "student"
    case Faculty => "faculty"
  }

  /** The enum validator on `role`. */
  function ParseRole(name: string): (r: Option<Role>)
    ensures r.Some? ==> RoleName(r.value) == name
    ensures r.None? ==> forall x: Role :: RoleName(x) != name
  {
    if name == "student" then Some(Student)
    else if name == "faculty" then Some(Faculty)
    else None
  }

  /** A stored user. Optional strings (`department`, `studentId`, `facultyId`)
      are "" when absent; `cgpa` is `None` when the stored value is null. */
  datatype User = User(
    email: string,
    password: string,
    firstName: string,
    lastName: string,
    role: Role,
    department: string,
    studentId: string,
    cgpa: Option<real>,
    facultyId: string,
    approved: bool)

  /** The per-document validators: required strings are non-empty, the
      department is required exactly for faculty, and a present cgpa lies in
      [0, 10]. */
  predicate ValidUser(u: User) {
    && u.email != ""
    && u.password != ""
    && u.firstName != ""
    && u.lastName != ""
    && (u.role == Faculty ==> u.department != "")
    && (u.cgpa.Some? ==> InCgpaRange(u.cgpa.value))
  }

  /** The unique index on `email`. */
  predicate UniqueEmails(users: map<Id, User>) {
    forall a, b :: a in users && b in users && users[a].email == users[b].email ==> a == b
  }

  /** The sparse unique index on `faculty_id`: users without one are exempt. */
  predicate UniqueFacultyIds(users: map<Id, User>) {
    forall a, b ::
      a in users && b in users && users[a].facultyId != "" && users[a].facultyId == users[b].facultyId ==> a == b
  }

  predicate ValidUsers(users: map<Id, User>) {
    && (forall id :: id in users ==> ValidUser(users[id]))
    && UniqueEmails(users)
    && UniqueFacultyIds(users)
  }

  predicate EmailTaken(users: map<Id, User>, email: string) {
    exists id :: id in users && users[id].email == email
  }

  predicate FacultyIdTaken(users: map<Id, User>, facultyId: string) {
    facultyId != "" && exists id :: id in users && users[id].facultyId == facultyId
  }

  /** The object literal passed to `User.create`; `None` is an undefined field. */
  datatype UserFields = UserFields(
    email: string,
    password: string,
    firstName: string,
    lastName: string,
    role: Option<string>,
    department: string,
    studentId: string,
    cgpa: Option<real>,
    facultyId: string,
    approved: Option<bool>)

  /** The role the document gets: the default for an undefined field, else the
      parsed enum value. */
  function FieldsRole(f: UserFields): Option<Role> {
    match f.role
    case None => Some(DefaultRole)
    case Some(name) => ParseRole(name)
  }

  predicate UserFieldsValid(f: UserFields) {
    && f.email != ""
    && f.password != ""
    && f.firstName != ""
    && f.lastName != ""
    && FieldsRole(f).Some?
    && (FieldsRole(f).value == Faculty ==> f.department != "")
    && (f.cgpa.Some? ==> InCgpaRange(f.cgpa.value))
  }

  /** Building a user document: defaults (`role` student, `cgpa` 0, `approved`
      false) fill undefined fields, then the validators run. */
  function CreateUser(f: UserFields): (r: Option<User>)
    ensures r.Some? <==> UserFieldsValid(f)
    ensures r.Some? ==> ValidUser(r.value)
    ensures r.Some? ==> f.role.None? ==> r.value.role == Student
    ensures r.Some? ==> f.role.Some? ==> RoleName(r.value.role) == f.role.value
    ensures r.Some? ==> r.value.cgpa == (if f.cgpa.None? then Some(0.0) else f.cgpa)
    ensures r.Some? ==> r.value.approved == (f.approved == Some(true))
    ensures r.Some? ==> r.value.email == f.email && r.value.password == f.password
    ensures r.Some? ==> r.value.firstName == f.firstName && r.value.lastName == f.lastName
    ensures r.Some? ==> r.value.department == f.department && r.value.studentId == f.studentId
    ensures r.Some? ==> r.value.facultyId == f.facultyId
  {
    if !UserFieldsValid(f) then None
    else
      var cgpa := match f.cgpa case None => Some(0.0) case Some(c) => Some(c);
      var approved := match f.approved case None => false case Some(a) => a;
      Some(User(f.email, f.password, f.firstName, f.lastName, FieldsRole(f).value,
                f.department, f.studentId, cgpa, f.facultyId, approved))
  }

  /** The department is required exactly when the role is faculty: a faculty
      document without one is refused, a student document without one is not. */
  lemma DepartmentRequiredOnlyForFaculty(f: UserFields)
    requires f.department == ""
    ensures CreateUser(f).Some? ==> CreateUser(f).value.role == Student
    ensures FieldsRole(f) == Some(Student) && f.email != "" && f.password != ""
            && f.firstName != "" && f.lastName != "" && (f.cgpa.Some? ==> InCgpaRange(f.cgpa.value))
            ==> CreateUser(f).Some?
  {
  }
}
