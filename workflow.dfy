/** Properties of the approval workflow that relate several handlers: a
    submitted request reaches exactly the queues of its department, a
    decision takes it out of them, a second decision overwrites the first, an
    approval is what the student's dashboard then shows, and a registered
    user can log in. */
module Workflow {
  import opened Common
  import opened CgpaUpdateModel
  import opened UserModel
  import opened Tables
  import opened StudentRequests
  import opened FacultyRequests
  import opened Approvals
  import FacultyStats
  import Dashboard
  import Registration
  import Login

  /** A submitted request is listed for its student and reaches the queue of
      a faculty member exactly when the faculty's department is the
      department snapshot taken at submission. */
  lemma SubmittedRequestIsQueued(db: Db, studentId: Id, newCgpa: Option<real>, semester: string,
                                 documents: seq<Document>, newId: Id, now: nat, facultyId: Id)
    requires newId !in db.requests
    requires Submit(db, studentId, newCgpa, semester, documents, newId, now).response.Success?
    requires facultyId != "" && IsFaculty(db.users, facultyId)
    ensures var db' := Submit(db, studentId, newCgpa, semester, documents, newId, now).db;
            && newId in ListForStudent(db', studentId).value
            && newId in PendingAll(db', "").value
            && Queue(db', facultyId, "").Success?
            && (newId in Queue(db', facultyId, "").value
                <==> db.users[facultyId].department == StringOr(db.users[studentId].department, "General"))
  {
  }

  /** After a decision other than "pending" the request leaves the pending
      list and every department queue. */
  lemma DecidedRequestLeavesQueues(db: Db, updateId: Id, action: string, faculty: Id, facultyId: Id)
    requires action != "pending"
    requires Decide(db, updateId, action, faculty).response.Success?
    ensures var db' := Decide(db, updateId, action, faculty).db;
            && updateId !in PendingAll(db', "").value
            && (Queue(db', facultyId, "").Success? ==> updateId !in Queue(db', facultyId, "").value)
  {
    var o := Decide(db, updateId, action, faculty);
    assert o.db.requests[updateId] == o.response.value;
    assert o.response.value.status != Pending by {
      assert StatusName(o.response.value.status) == action;
    }
  }

  /** The prior status is not checked: deciding an already decided request
      succeeds and the second decision and reviewer replace the first. */
  lemma SecondDecisionOverwrites(db: Db, updateId: Id, first: string, faculty1: Id,
                                 second: Status, faculty2: Id)
    requires ValidDb(db)
    requires Decide(db, updateId, first, faculty1).response.Success?
    requires faculty2 != ""
    ensures var db1 := Decide(db, updateId, first, faculty1).db;
            var o := Decide(db1, updateId, StatusName(second), faculty2);
            && o.response.Success?
            && o.db.requests[updateId].status == second
            && o.db.requests[updateId].approvedBy == Some(faculty2)
  {
    var db1 := Decide(db, updateId, first, faculty1).db;
    assert ValidDb(db1) && updateId in db1.requests;
    StatusNameRoundTrip(second);
    var o := Decide(db1, updateId, StatusName(second), faculty2);
    assert o.response.Success?;
    assert ParseStatus(StatusName(o.response.value.status)) == Some(second);
    StatusNameRoundTrip(o.response.value.status);
  }

  /** A decision changes no request's student, CGPA snapshot, proposed CGPA
      or semester: the snapshot taken at submission stays even after the
      student's CGPA changes. */
  lemma DecisionKeepsSnapshots(db: Db, updateId: Id, action: string, faculty: Id, id: Id)
    requires id in db.requests
    ensures var db' := Decide(db, updateId, action, faculty).db;
            && id in db'.requests
            && db'.requests[id].student == db.requests[id].student
            && db'.requests[id].currentCgpa == db.requests[id].currentCgpa
            && db'.requests[id].newCgpa == db.requests[id].newCgpa
            && db'.requests[id].semester == db.requests[id].semester
  {
    var o := Decide(db, updateId, action, faculty);
    if o.response.Success? && id == updateId {
      var u := db.requests[updateId];
      var v := o.response.value;
      assert v.(status := u.status, approvedBy := u.approvedBy, studentDepartment := u.studentDepartment) == u;
    }
  }

  /** After an approval the student's dashboard reports the approved CGPA. */
  lemma ApprovalShowsOnDashboard(db: Db, updateId: Id, faculty: Id)
    requires Decide(db, updateId, "approved", faculty).response.Success?
    requires Decide(db, updateId, "approved", faculty).response.value.student in db.users
    ensures var o := Decide(db, updateId, "approved", faculty);
            var r := Dashboard.GetStats(o.db.users, o.response.value.student);
            r.Success? && r.value.cgpa == o.response.value.newCgpa
  {
    var o := Decide(db, updateId, "approved", faculty);
    assert ValidRequest(o.response.value) by {
      assert o.response.value == Decided(db.requests[updateId], Approved, faculty);
    }
  }

  /** An approval by a faculty member of a request they had not yet approved
      raises their approved count by one. */
  lemma ApprovalCounts(db: Db, updateId: Id, faculty: Id)
    requires FacultyStats.GetStats(db, faculty).Success?
    requires Decide(db, updateId, "approved", faculty).response.Success?
    requires !(db.requests[updateId].status == Approved && db.requests[updateId].approvedBy == Some(faculty))
    ensures var db' := Decide(db, updateId, "approved", faculty).db;
            && FacultyStats.GetStats(db', faculty).Success?
            && FacultyStats.GetStats(db', faculty).value.approvedRequests
               == FacultyStats.GetStats(db, faculty).value.approvedRequests + 1
  {
    var o := Decide(db, updateId, "approved", faculty);
    var before := FacultyStats.ApprovedBy(db.requests, faculty);
    var after := FacultyStats.ApprovedBy(o.db.requests, faculty);
    assert o.response.value.status == Approved by {
      assert StatusName(o.response.value.status) == "approved";
    }
    assert after == before + {updateId};
    assert updateId !in before;
    assert IsFaculty(o.db.users, faculty);
  }

  /** A user who registered with a non-empty password can log in with it,
      given a hash whose output the comparison accepts for that password; the
      session carries the new user's id and fields. */
  lemma RegisteredUserCanLogIn(db: Db, email: string, password: string, firstName: string,
                               lastName: string, role: string, department: string, facultyId: string,
                               newId: Id, hash: string -> string, matches: (string, string) -> bool)
    requires newId !in db.users
    requires Registration.Register(db, email, Some(password), firstName, lastName, role, department,
                                   facultyId, newId, hash).response.Success?
    requires password != "" && matches(password, hash(password))
    ensures var o := Registration.Register(db, email, Some(password), firstName, lastName, role,
                                           department, facultyId, newId, hash);
            var u := o.db.users[newId];
            Login.Login(o.db.users, email, password, matches)
              == Success(HttpOk, Login.SessionUser(newId, email, firstName, lastName, u.role, department))
  {
    var o := Registration.Register(db, email, Some(password), firstName, lastName, role, department,
                                   facultyId, newId, hash);
    var users := o.db.users;
    assert !EmailTaken(db.users, email);
    assert users[newId].email == email;
    assert email != "" by {
      assert ValidUser(users[newId]) by {
        assert CreateUser(Registration.RegistrationFields(email, hash(password), firstName, lastName,
                                                          role, department, facultyId)).Some?;
      }
    }
  }

  /** An empty password can be registered, but the login handler refuses an
      empty password before looking the user up. */
  lemma EmptyPasswordNeverLogsIn(users: map<Id, User>, email: string, matches: (string, string) -> bool)
    ensures Login.Login(users, email, "", matches) == Fail(HttpBadRequest, MissingFields)
  {
  }

  /** A concrete run: a CS student with CGPA 7.5 submits 8.8 for "Fall 2025";
      the request snapshots 7.5 and "CS", is pending, and is in the queue of a
      CS faculty member but not in that of an EE faculty member. */
  lemma SubmissionScenario()
    ensures var student := User("s@x", "h", "S", "T", Student, "CS", "", Some(7.5), "", false);
            var cs := User("f@x", "h", "F", "G", Faculty, "CS", "", Some(0.0), "F1", false);
            var ee := User("e@x", "h", "E", "H", Faculty, "EE", "", Some(0.0), "F2", false);
            var db := Db(map["s" := student, "f" := cs, "e" := ee], map[]);
            var o := Submit(db, "s", Some(8.8), "Fall 2025", [], "r1", 1);
            && o.response.Success?
            && o.response.value.currentCgpa == 7.5
            && o.response.value.status == Pending
            && o.response.value.studentDepartment == "CS"
            && "r1" in Queue(o.db, "f", "").value
            && Queue(o.db, "e", "").Success? && "r1" !in Queue(o.db, "e", "").value
  {
    var student := User("s@x", "h", "S", "T", Student, "CS", "", Some(7.5), "", false);
    var cs := User("f@x", "h", "F", "G", Faculty, "CS", "", Some(0.0), "F1", false);
    var ee := User("e@x", "h", "E", "H", Faculty, "EE", "", Some(0.0), "F2", false);
    var db := Db(map["s" := student, "f" := cs, "e" := ee], map[]);
    assert "CS" != "EE";
    SubmittedRequestIsQueued(db, "s", Some(8.8), "Fall 2025", [], "r1", 1, "f");
    SubmittedRequestIsQueued(db, "s", Some(8.8), "Fall 2025", [], "r1", 1, "e");
  }
}
