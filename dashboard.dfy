/** The student dashboard figures (app/api/dashboard/stats/route.ts). */
module Dashboard {
  import opened Common
  import opened UserModel

  /** Fixed activity figures the handler returns for every user. */
  const TotalActivities: nat := 15
  const ApprovedActivities: nat := 12
  const PendingActivities: nat := 3
  const PerformanceScore: nat := 85

  datatype StudentStats = StudentStats(
    cgpa: real,
    totalActivities: nat,
    approvedActivities: nat,
    pendingActivities: nat,
    performanceScore: nat,
    name: string,
    studentId: string,
    department: string)

  /** `GET`: the user's CGPA (0 when falsy), full name, and student id and
      department with "N/A" for missing values. */
  function GetStats(users: map<Id, User>, userId: Id): (r: Response<StudentStats>)
    ensures userId == "" <==> r == Fail(HttpBadRequest, MissingFields)
    ensures userId != "" && userId !in users <==> r == Fail(HttpNotFound, NotFound)
    ensures userId != "" && userId in users ==> r.Success?
    ensures r.Success? ==>
              var u := users[userId];
              && r.code == HttpOk && userId in users
              && r.value.cgpa == NumberOrZero(u.cgpa)
              && r.value.name == u.firstName + " " + u.lastName
              && r.value.studentId == StringOr(u.studentId, "N/A")
              && r.value.department == StringOr(u.department, "N/A")
              && r.value.totalActivities == 15 && r.value.approvedActivities == 12
              && r.value.pendingActivities == 3 && r.value.performanceScore == 85
    ensures r.Success? && ValidUser(users[userId]) ==> InCgpaRange(r.value.cgpa)
  {
    if userId == "" then Fail(HttpBadRequest, MissingFields)
    else if userId !in users then Fail(HttpNotFound, NotFound)
    else
      var u := users[userId];
      Success(HttpOk, StudentStats(
        NumberOrZero(u.cgpa), TotalActivities, ApprovedActivities, PendingActivities, PerformanceScore,
        u.firstName + " " + u.lastName, StringOr(u.studentId, "N/A"), StringOr(u.department, "N/A")))
  }
}
