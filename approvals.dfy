/** The department-scoped approval queue (app/api/faculty/approvals/route.ts). */
module Approvals {
  import opened Common
  import opened CgpaUpdateModel
  import opened UserModel
  import opened Tables

  /** The `type` query parameter, "cgpa" when absent. */
  function QueueKind(kind: string): (k: string)
    ensures kind == "" ==> k == "cgpa"
    ensures kind != "" ==> k == kind
  {
    StringOr(kind, "cgpa")
  }

  /** The cgpa-branch query: pending requests whose department snapshot is
      the faculty's department. */
  ghost function DepartmentQueueIds(requests: map<Id, CgpaUpdate>, department: string): (ids: set<Id>)
    ensures forall id :: id in ids <==>
              id in requests && requests[id].status == Pending && requests[id].studentDepartment == department
  {
    set id | id in requests && requests[id].status == Pending && requests[id].studentDepartment == department
  }

  predicate IsFaculty(users: map<Id, User>, id: Id) {
    id in users && users[id].role == Faculty
  }

  /** `GET`: the pending requests of the faculty's department, newest first.
      Only the "cgpa" branch of the `type` parameter is modelled. */
  ghost function Queue(db: Db, facultyId: Id, kind: string): (r: Response<seq<Id>>)
    requires QueueKind(kind) == "cgpa"
    ensures facultyId == "" <==> r == Fail(HttpBadRequest, MissingFields)
    ensures facultyId != "" && !IsFaculty(db.users, facultyId) <==> r == Fail(HttpNotFound, InvalidFaculty)
    ensures facultyId != "" && IsFaculty(db.users, facultyId) ==> r.Success?
    ensures r.Success? ==> r.code == HttpOk && IsFaculty(db.users, facultyId)
    ensures r.Success? ==>
              && Distinct(r.value)
              && NewestFirstOrder(r.value, db.requests)
              && forall id :: id in r.value <==>
                   && id in db.requests
                   && db.requests[id].status == Pending
                   && db.requests[id].studentDepartment == db.users[facultyId].department
  {
    if facultyId == "" then Fail(HttpBadRequest, MissingFields)
    else if !IsFaculty(db.users, facultyId) then Fail(HttpNotFound, InvalidFaculty)
    else
      var department := db.users[facultyId].department;
      Success(HttpOk, NewestFirst(DepartmentQueueIds(db.requests, department), db.requests))
  }
}
