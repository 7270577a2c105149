/** The CgpaUpdate schema (models/CgpaUpdate.ts): one student's request to
    change their CGPA, with the enum, range, required fields and defaults the
    schema declares. */
module CgpaUpdateModel {
  import opened Common

  /** The `status` enum. */
  datatype Status = Pending | Approved | Rejected

  const DefaultStatus: Status := Pending
  const DefaultDepartment: string := "General"

  function StatusName(s: Status): string {
    match s
    case Pending => "pending"
    case Approved => "approved"
    case Rejected => "rejected"
  }

  /** Mongoose's enum validator: a string is a status exactly when it is the
      name of one of the three values. */
  function ParseStatus(name: string): (r: Option<Status>)
    ensures r.Some? ==> StatusName(r.value) == name
    ensures r.None? ==> forall s: Status :: StatusName(s) != name
  {
    if name == "pending" then Some(Pending)
    else if name == "approved" then Some(Approved)
    else if name == "rejected" then Some(Rejected)
    else None
  }

  lemma StatusNameRoundTrip(s: Status)
    ensures ParseStatus(StatusName(s)) == Some(s)
  {
  }

  /** An uploaded supporting document, an opaque name/url pair. */
  datatype Document = Document(name: string, url: string)

  /** A stored request. `approvedBy` is the optional reviewer reference;
      `comments` is the only free-text review field of the schema (there is no
      `feedback` and no `reviewedAt`); `createdAt` is the timestamp the schema
      option `timestamps` adds. */
  datatype CgpaUpdate = CgpaUpdate(
    student: Id,
    studentDepartment: string,
    currentCgpa: real,
    newCgpa: real,
    semester: string,
    status: Status,
    documents: seq<Document>,
    approvedBy: Option<Id>,
    comments: string,
    createdAt: nat)

  /** What the schema validators demand of a stored request: the required
      `student`, `studentDepartment` and `semester` are present and `newCgpa`
      lies in [0, 10]. `currentCgpa` is required but has no range; `status` is
      one of the enum values by its type. */
  predicate ValidRequest(u: CgpaUpdate) {
    && u.student != ""
    && u.studentDepartment != ""
    && InCgpaRange(u.newCgpa)
    && u.semester != ""
  }

  /** The object literal passed to `CgpaUpdate.create`: a field that is `None`
      was left undefined, so the schema default (if any) applies. */
  datatype RequestFields = RequestFields(
    student: Id,
    studentDepartment: Option<string>,
    currentCgpa: Option<real>,
    newCgpa: Option<real>,
    semester: string,
    status: Option<string>,
    documents: seq<Document>,
    approvedBy: Option<Id>,
    comments: string)

  /** Whether the document built from `f` passes validation. */
  predicate FieldsValid(f: RequestFields) {
    && f.student != ""
    && f.studentDepartment != Some("")
    && f.currentCgpa.Some?
    && f.newCgpa.Some? && InCgpaRange(f.newCgpa.value)
    && f.semester != ""
    && (f.status.None? || ParseStatus(f.status.value).Some?)
  }

  /** Building a document from `f`: defaults are applied to undefined fields,
      then the validators run; `None` is a validation failure, and nothing is
      stored. */
  function CreateRequest(f: RequestFields, createdAt: nat): (r: Option<CgpaUpdate>)
    ensures r.Some? <==> FieldsValid(f)
    ensures r.Some? ==> ValidRequest(r.value)
    ensures r.Some? ==> r.value.status == (if f.status.None? then Pending else ParseStatus(f.status.value).value)
    ensures r.Some? ==> r.value.studentDepartment == (if f.studentDepartment.None? then "General" else f.studentDepartment.value)
    ensures r.Some? ==> r.value.student == f.student && Some(r.value.currentCgpa) == f.currentCgpa
    ensures r.Some? ==> Some(r.value.newCgpa) == f.newCgpa && r.value.semester == f.semester
    ensures r.Some? ==> r.value.approvedBy == f.approvedBy && r.value.createdAt == createdAt
    ensures r.Some? ==> r.value.documents == f.documents && r.value.comments == f.comments
  {
    var department := match f.studentDepartment case None => DefaultDepartment case Some(d) => d;
    var status := match f.status case None => Some(DefaultStatus) case Some(s) => ParseStatus(s);
    if !FieldsValid(f) then None
    else
      Some(CgpaUpdate(f.student, department, f.currentCgpa.value, f.newCgpa.value, f.semester,
                      status.value, f.documents, f.approvedBy, f.comments, createdAt))
  }

  /** An omitted status becomes pending and an omitted department "General". */
  lemma CreateAppliesDefaults(f: RequestFields, createdAt: nat)
    requires FieldsValid(f) && f.status.None? && f.studentDepartment.None?
    ensures CreateRequest(f, createdAt).Some?
    ensures CreateRequest(f, createdAt).value.status == Pending
    ensures CreateRequest(f, createdAt).value.studentDepartment == "General"
  {
  }
}
