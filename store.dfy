/** The two collections as mutable state, with one method per handler that
    writes to them. Each method changes the tables step by step, as the
    handler does, and is proved to leave exactly the state, and return exactly
    the reply, that the handler's specification function describes. */
module RecordStore {
  import opened Common
  import opened CgpaUpdateModel
  import opened UserModel
  import opened Tables
  import StudentRequests
  import FacultyRequests
  import Registration

  class Store {
    var users: map<Id, User>
    var requests: map<Id, CgpaUpdate>

    function Snapshot(): Db
      reads this
    {
      Db(users, requests)
    }

    /** Every stored document passed validation and the unique indexes hold. */
    ghost predicate Valid()
      reads this
    {
      ValidDb(Snapshot())
    }

    constructor ()
      ensures Valid()
      ensures users == map[] && requests == map[]
    {
      users := map[];
      requests := map[];
    }

    /** `POST /api/cgpa-updates`. */
    method SubmitRequest(studentId: Id, newCgpa: Option<real>, semester: string,
                         documents: seq<Document>, newId: Id, now: nat)
      returns (r: Response<CgpaUpdate>)
      requires Valid() && newId !in requests
      modifies this
      ensures Valid()
      ensures Outcome(r, Snapshot()) == StudentRequests.Submit(old(Snapshot()), studentId, newCgpa, semester, documents, newId, now)
      ensures users == old(users)
    {
      if studentId == "" || IsFalsyNumber(newCgpa) || semester == "" {
        return Fail(HttpBadRequest, MissingFields);
      }
      if studentId !in users {
        return Fail(HttpNotFound, NotFound);
      }
      var student := users[studentId];
      var fields := StudentRequests.SubmissionFields(student, studentId, newCgpa.value, semester, documents);
      var created := CreateRequest(fields, now);
      if created.None? {
        return Fail(HttpServerError, ServerError);
      }
      requests := requests[newId := created.value];
      r := Success(HttpCreated, created.value);
    }

    /** `PUT /api/faculty/cgpa-updates`. */
    method DecideRequest(updateId: Id, action: string, faculty: Id) returns (r: Response<CgpaUpdate>)
      requires Valid()
      modifies this
      ensures Valid()
      ensures Outcome(r, Snapshot()) == FacultyRequests.Decide(old(Snapshot()), updateId, action, faculty)
      ensures requests.Keys == old(requests.Keys) && users.Keys == old(users.Keys)
    {
      ghost var spec := FacultyRequests.Decide(Snapshot(), updateId, action, faculty);
      if updateId == "" || action == "" || faculty == "" {
        return Fail(HttpBadRequest, MissingFields);
      }
      if updateId !in requests {
        return Fail(HttpNotFound, NotFound);
      }
      var update := requests[updateId];
      // The enum validator runs when the document is saved.
      var status := ParseStatus(action);
      if status.None? {
        return Fail(HttpServerError, ServerError);
      }
      update := update.(status := status.value);
      update := update.(approvedBy := Some(faculty));
      if update.studentDepartment == "" {
        update := update.(studentDepartment := DefaultDepartment);
      }
      if !ValidRequest(update) {
        return Fail(HttpServerError, ServerError);
      }
      assert update == FacultyRequests.Decided(old(requests)[updateId], status.value, faculty);
      requests := requests[updateId := update];
      if action == "approved" && update.student in users {
        users := users[update.student := users[update.student].(cgpa := Some(update.newCgpa))];
      }
      r := Success(HttpOk, update);
      assert Outcome(r, Snapshot()) == spec;
    }

    /** `POST /api/auth/register`. */
    method RegisterUser(email: string, password: Option<string>, firstName: string, lastName: string,
                        role: string, department: string, facultyId: string, newId: Id,
                        hash: string -> string)
      returns (r: Response<Registration.PublicUser>)
      requires Valid() && newId !in users
      modifies this
      ensures Valid()
      ensures Outcome(r, Snapshot()) == Registration.Register(old(Snapshot()), email, password, firstName, lastName, role, department, facultyId, newId, hash)
      ensures requests == old(requests)
    {
      if role == "faculty" && facultyId == "" {
        return Fail(HttpBadRequest, FacultyIdRequired);
      }
      if EmailTaken(users, email) {
        return Fail(HttpBadRequest, UserExists);
      }
      if password.None? {
        return Fail(HttpServerError, ServerError);
      }
      var hashed := hash(password.value);
      var fields := Registration.RegistrationFields(email, hashed, firstName, lastName, role, department, facultyId);
      var created := CreateUser(fields);
      if created.None? {
        return Fail(HttpBadRequest, ValidationError);
      }
      var u := created.value;
      if FacultyIdTaken(users, u.facultyId) {
        return Fail(HttpBadRequest, DuplicateKey);
      }
      users := users[newId := u];
      r := Success(HttpCreated, Registration.PublicUser(u.email, u.firstName, u.lastName, u.role));
    }
  }
}
