/** The faculty dashboard figures (app/api/faculty/stats/route.ts). */
module FacultyStats {
  import opened Common
  import opened CgpaUpdateModel
  import opened UserModel
  import opened Tables
  import opened Approvals

  datatype Stats = Stats(totalStudents: nat, approvedRequests: nat, departmentAvgCgpa: real)

  /** The students of a department. */
  ghost function DepartmentStudents(users: map<Id, User>, department: string): (ids: set<Id>)
    ensures ids <= users.Keys
    ensures forall id :: id in ids <==>
              id in users && users[id].role == Student && users[id].department == department
  {
    set id | id in users && users[id].role == Student && users[id].department == department
  }

  /** The requests a faculty member approved. */
  ghost function ApprovedBy(requests: map<Id, CgpaUpdate>, facultyId: Id): (ids: set<Id>)
    ensures forall id :: id in ids <==>
              id in requests && requests[id].status == Approved && requests[id].approvedBy == Some(facultyId)
  {
    set id | id in requests && requests[id].status == Approved && requests[id].approvedBy == Some(facultyId)
  }

  /** The `reduce` of `sum + (student.cgpa || 0)` over the students; the
      order of the fold does not matter for a sum of reals. */
  ghost function SumCgpa(ids: set<Id>, users: map<Id, User>): real
    requires ids <= users.Keys
    decreases |ids|
  {
    if ids == {} then 0.0
    else
      var id :| id in ids;
      NumberOrZero(users[id].cgpa) + SumCgpa(ids - {id}, users)
  }

  /** The mean of the department's CGPAs, 0 when it has no students. */
  ghost function DepartmentAverage(ids: set<Id>, users: map<Id, User>): real
    requires ids <= users.Keys
  {
    if |ids| > 0 then SumCgpa(ids, users) / (|ids| as real) else 0.0
  }

  /** `GET`: student count of the faculty's department, the number of
      requests this faculty member approved, and the department mean CGPA.
      The `pendingApprovals` count of the handler is not modelled. */
  ghost function GetStats(db: Db, facultyId: Id): (r: Response<Stats>)
    ensures facultyId == "" <==> r == Fail(HttpBadRequest, MissingFields)
    ensures facultyId != "" && !IsFaculty(db.users, facultyId) <==> r == Fail(HttpNotFound, InvalidFaculty)
    ensures facultyId != "" && IsFaculty(db.users, facultyId) ==> r.Success?
    ensures r.Success? ==> r.code == HttpOk && IsFaculty(db.users, facultyId)
    ensures r.Success? ==>
              var students := DepartmentStudents(db.users, db.users[facultyId].department);
              && r.value.totalStudents == |students|
              && r.value.approvedRequests == |ApprovedBy(db.requests, facultyId)|
              && (|students| == 0 ==> r.value.departmentAvgCgpa == 0.0)
              && (|students| > 0 ==>
                    r.value.departmentAvgCgpa * (|students| as real) == SumCgpa(students, db.users))
  {
    if facultyId == "" then Fail(HttpBadRequest, MissingFields)
    else if !IsFaculty(db.users, facultyId) then Fail(HttpNotFound, InvalidFaculty)
    else
      var students := DepartmentStudents(db.users, db.users[facultyId].department);
      Success(HttpOk, Stats(|students|, |ApprovedBy(db.requests, facultyId)|,
                            DepartmentAverage(students, db.users)))
  }

  /** Each summed CGPA lies in [0, 10] for valid users, so the sum lies in
      [0, 10 * count]. */
  lemma {:induction false} SumCgpaBounds(ids: set<Id>, users: map<Id, User>)
    requires ids <= users.Keys
    requires forall id :: id in ids ==> ValidUser(users[id])
    ensures 0.0 <= SumCgpa(ids, users) <= MaxCgpa * (|ids| as real)
    decreases |ids|
  {
    if ids != {} {
      var id :| id in ids && SumCgpa(ids, users) == NumberOrZero(users[id].cgpa) + SumCgpa(ids - {id}, users);
      SumCgpaBounds(ids - {id}, users);
      assert |ids - {id}| == |ids| - 1;
      assert (|ids - {id}| as real) == (|ids| as real) - 1.0;
      assert 0.0 <= NumberOrZero(users[id].cgpa) <= MaxCgpa by {
        assert ValidUser(users[id]);
      }
    }
  }

  /** A mean of values in [0, 10] lies in [0, 10]. */
  lemma MeanInRange(sum: real, n: real)
    requires n > 0.0 && 0.0 <= sum <= MaxCgpa * n
    ensures InCgpaRange(sum / n)
  {
  }

  /** With valid user documents the department mean is itself a CGPA in [0, 10]. */
  lemma AverageInRange(db: Db, facultyId: Id)
    requires ValidUsers(db.users)
    requires GetStats(db, facultyId).Success?
    ensures InCgpaRange(GetStats(db, facultyId).value.departmentAvgCgpa)
  {
    var students := DepartmentStudents(db.users, db.users[facultyId].department);
    if |students| > 0 {
      SumCgpaBounds(students, db.users);
      MeanInRange(SumCgpa(students, db.users), |students| as real);
    }
  }
}
