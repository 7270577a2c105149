/** The faculty request endpoint (app/api/faculty/cgpa-updates/route.ts):
    `GET` lists every pending request, `PUT` records a decision and, on
    approval, writes the new CGPA onto the student. */
module FacultyRequests {
  import opened Common
  import opened CgpaUpdateModel
  import opened UserModel
  import opened Tables

  ghost function PendingIds(requests: map<Id, CgpaUpdate>): (ids: set<Id>)
    ensures forall id :: id in ids <==> id in requests && requests[id].status == Pending
  {
    set id | id in requests && requests[id].status == Pending
  }

  /** `GET`: all pending requests, newest first. The `department` query
      parameter is read but not used. */
  ghost function PendingAll(db: Db, department: string): (r: Response<seq<Id>>)
    ensures r.Success? && r.code == HttpOk
    ensures Distinct(r.value) && NewestFirstOrder(r.value, db.requests)
    ensures forall id :: id in r.value <==> id in db.requests && db.requests[id].status == Pending
  {
    Success(HttpOk, NewestFirst(PendingIds(db.requests), db.requests))
  }

  /** The listing does not depend on the department asked for. */
  lemma PendingAllIgnoresDepartment(db: Db, d1: string, d2: string)
    ensures PendingAll(db, d1) == PendingAll(db, d2)
  {
  }

  /** The request as `PUT` changes it before saving: the new status, the
      reviewer, and "General" for a missing department. */
  function Decided(u: CgpaUpdate, status: Status, faculty: Id): CgpaUpdate {
    u.(status := status,
       approvedBy := Some(faculty),
       studentDepartment := StringOr(u.studentDepartment, DefaultDepartment))
  }

  /** `PUT`: decide request `updateId`. The action string becomes the status;
      one outside the enum fails validation on save (500) and nothing is
      written. The prior status is not looked at. Only after the request is
      saved, and only for "approved", is the student's `cgpa` overwritten
      with the request's `newCgpa`, and only if the student exists. The
      `feedback` and `reviewedAt` the handler assigns are not schema fields
      and are not stored. */
  function Decide(db: Db, updateId: Id, action: string, faculty: Id): (o: Outcome<CgpaUpdate>)
    ensures (updateId == "" || action == "" || faculty == "")
            <==> o.response == Fail(HttpBadRequest, MissingFields)
    ensures o.response == Fail(HttpNotFound, NotFound)
            <==> updateId != "" && action != "" && faculty != "" && updateId !in db.requests
    ensures ValidDb(db) ==>
              (o.response == Fail(HttpServerError, ServerError)
               <==> updateId != "" && action != "" && faculty != "" && updateId in db.requests
                    && ParseStatus(action).None?)
    ensures o.response.Fail? ==>
              o.response in {Fail(HttpBadRequest, MissingFields), Fail(HttpNotFound, NotFound),
                             Fail(HttpServerError, ServerError)}
    ensures o.response.Fail? ==> o.db == db
    ensures o.response.Success? ==>
              var v := o.response.value;
              var u := db.requests[updateId];
              && o.response.code == HttpOk
              && o.db.requests == db.requests[updateId := v]
              && StatusName(v.status) == action
              && v.approvedBy == Some(faculty)
              && v.studentDepartment == StringOr(u.studentDepartment, "General")
              && v.(status := u.status, approvedBy := u.approvedBy, studentDepartment := u.studentDepartment) == u
    ensures o.response.Success? && action == "approved" && o.response.value.student in db.users ==>
              var s := o.response.value.student;
              o.db.users == db.users[s := db.users[s].(cgpa := Some(o.response.value.newCgpa))]
    ensures action != "approved" ==> o.db.users == db.users
    ensures o.response.Success? && o.response.value.student !in db.users ==> o.db.users == db.users
    ensures ValidDb(db) ==> ValidDb(o.db)
  {
    if updateId == "" || action == "" || faculty == "" then
      Outcome(Fail(HttpBadRequest, MissingFields), db)
    else if updateId !in db.requests then
      Outcome(Fail(HttpNotFound, NotFound), db)
    else
      match ParseStatus(action)
      case None => Outcome(Fail(HttpServerError, ServerError), db)
      case Some(status) =>
        var v := Decided(db.requests[updateId], status, faculty);
        if !ValidRequest(v) then Outcome(Fail(HttpServerError, ServerError), db)
        else
          var requests := db.requests[updateId := v];
          var users :=
            if status == Approved && v.student in db.users
            then db.users[v.student := db.users[v.student].(cgpa := Some(v.newCgpa))]
            else db.users;
          Outcome(Success(HttpOk, v), Db(users, requests))
  }
}
