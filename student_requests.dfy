/** The student-facing request endpoint (app/api/cgpa-updates/route.ts):
    `POST` submits a request, `GET` lists one student's requests. */
module StudentRequests {
  import opened Common
  import opened CgpaUpdateModel
  import opened UserModel
  import opened Tables

  /** The document `POST` passes to `CgpaUpdate.create`: the student's current
      CGPA and department are copied into the request. */
  function SubmissionFields(student: User, studentId: Id, newCgpa: real, semester: string,
                            documents: seq<Document>): RequestFields
  {
    RequestFields(
      studentId,
      Some(StringOr(student.department, DefaultDepartment)),
      Some(NumberOrZero(student.cgpa)),
      Some(newCgpa),
      semester,
      Some(StatusName(Pending)),
      documents,
      None,
      "")
  }

  /** `POST`: submit a request for `studentId`. The id of the new document and
      its creation time come from the database. A falsy `newCgpa` (missing or
      0) is refused like a missing field; a value outside [0, 10] fails schema
      validation inside `create`, which the handler reports as 500. No role
      check is made: any existing user may submit. */
  function Submit(db: Db, studentId: Id, newCgpa: Option<real>, semester: string,
                  documents: seq<Document>, newId: Id, now: nat): (o: Outcome<CgpaUpdate>)
    requires newId !in db.requests
    ensures (studentId == "" || IsFalsyNumber(newCgpa) || semester == "")
            <==> o.response == Fail(HttpBadRequest, MissingFields)
    ensures o.response == Fail(HttpNotFound, NotFound)
            <==> studentId != "" && !IsFalsyNumber(newCgpa) && semester != "" && studentId !in db.users
    ensures o.response == Fail(HttpServerError, ServerError)
            <==> studentId != "" && !IsFalsyNumber(newCgpa) && semester != "" && studentId in db.users
                 && !InCgpaRange(newCgpa.value)
    ensures o.response.Fail? ==>
              o.response in {Fail(HttpBadRequest, MissingFields), Fail(HttpNotFound, NotFound),
                             Fail(HttpServerError, ServerError)}
    ensures o.response.Fail? ==> o.db == db
    ensures o.response.Success? ==>
              && o.response.code == HttpCreated
              && o.db.users == db.users
              && o.db.requests == db.requests[newId := o.response.value]
    ensures o.response.Success? ==>
              var u := o.response.value;
              var s := db.users[studentId];
              && u.status == Pending
              && u.student == studentId
              && u.currentCgpa == NumberOrZero(s.cgpa)
              && u.studentDepartment == StringOr(s.department, "General")
              && Some(u.newCgpa) == newCgpa && u.semester == semester
              && u.approvedBy.None? && u.createdAt == now
              && u.documents == documents && u.comments == ""
    ensures ValidDb(db) ==> ValidDb(o.db)
  {
    if studentId == "" || IsFalsyNumber(newCgpa) || semester == "" then
      Outcome(Fail(HttpBadRequest, MissingFields), db)
    else if studentId !in db.users then
      Outcome(Fail(HttpNotFound, NotFound), db)
    else
      var fields := SubmissionFields(db.users[studentId], studentId, newCgpa.value, semester, documents);
      match CreateRequest(fields, now)
      case None => Outcome(Fail(HttpServerError, ServerError), db)
      case Some(u) => Outcome(Success(HttpCreated, u), db.(requests := db.requests[newId := u]))
  }

  /** The requests of one student. */
  ghost function RequestsOf(requests: map<Id, CgpaUpdate>, studentId: Id): (ids: set<Id>)
    ensures forall id :: id in ids <==> id in requests && requests[id].student == studentId
  {
    set id | id in requests && requests[id].student == studentId
  }

  /** `GET`: the requests of `studentId`, newest first. An unknown student
      gets an empty list, not an error. */
  ghost function ListForStudent(db: Db, studentId: Id): (r: Response<seq<Id>>)
    ensures studentId == "" <==> r == Fail(HttpBadRequest, MissingFields)
    ensures studentId != "" ==> r.Success? && r.code == HttpOk
    ensures r.Success? ==>
              && Distinct(r.value)
              && NewestFirstOrder(r.value, db.requests)
              && forall id :: id in r.value <==> id in db.requests && db.requests[id].student == studentId
  {
    if studentId == "" then Fail(HttpBadRequest, MissingFields)
    else Success(HttpOk, NewestFirst(RequestsOf(db.requests, studentId), db.requests))
  }
}
