# CGPA-update approval workflow, modelled in Dafny

This project models the server side and the faculty queue component of a
student portal in which students ask to have their CGPA changed and faculty
members approve or reject those requests.

- **Schemas.** Two document schemas: `CgpaUpdate`, a request, and `User`. The
  model keeps their enums, ranges, required fields, defaults and unique indexes.
- **Submission.** A student submits a request. The handler snapshots the
  student's current CGPA and department into the request, with fallbacks 0 and
  "General", and stores it as `pending`.
- **Listings.** A student lists their own requests. Faculty members list the
  pending requests, either all of them or only their department's (the
  department-scoped queue). Every listing is newest first.
- **Decisions.** A faculty member decides a request: it is approved or
  rejected, the reviewer is recorded, and a missing department is backfilled
  with "General". On approval the student's CGPA is overwritten with the
  requested value.
- **Figures.** The faculty dashboard reports the department's student count,
  the reviewer's approved count and the department's mean CGPA. The student
  dashboard reports the student's CGPA.
- **Accounts.** Registration and password login.
- **Queue component.** The faculty approval queue filters the fetched list by
  search term and status, and keeps a selection. It sends single decisions and
  bulk decisions; a bulk decision is an independent decision per selected id.

## Structure

- **common.dfy**: ids and JavaScript fallbacks (`x || 0`, `s || fallback`,
  `!x`), the CGPA range, status codes, and `Response`.
- **cgpa_update.dfy**, **user.dfy**: the schemas. A create function applies
  defaults, then validates.
- **tables.dfy**: the two collections as maps (`Db`) and the newest-first
  listing.
- **Handlers**: student_requests.dfy, faculty_requests.dfy, approvals.dfy,
  faculty_stats.dfy, register.dfy, login.dfy and dashboard.dfy each hold the
  handlers of one route file, one function per handler. Each function returns
  the reply and the collections afterwards.
- **store.dfy**: the class `Store` holds both collections as mutable fields.
  It has one method per writing handler. Each method's body changes the state
  step by step, and its contract proves the reply and the new state are
  exactly what the handler's function describes.
- **approval_queue.dfy**: the queue component. `ApprovalQueue` is a class over
  the component's state. The bulk action is a loop, proved against a fold of
  single decisions.
- **workflow.dfy**: properties that span several handlers.

Each of these is a parameter or left unspecified:

- Document ids and creation timestamps come from the database, so they are
  parameters.
- Password hashing is the parameter `hash`, and the bcrypt comparison is the
  parameter `matches`.
- The faculty id read from client storage is a parameter.

Three behaviours of the code differ from the system's intended design; the
model follows the code:

- A `newCgpa` outside [0, 10] fails schema validation inside `create` and is
  reported as 500, not as an input error.
- A decision does not look at the prior status. A decided request can be
  decided again, and the second decision overwrites the first.
- The faculty `GET /api/faculty/cgpa-updates` reads a `department` parameter
  but lists every pending request. Only `/api/faculty/approvals` scopes by
  department.

## Model

| member | source | states |
|---|---|---|
| CgpaUpdateModel.ParseStatus | models/CgpaUpdate.ts:28-32 | a string is accepted as a status exactly when it is the name of one of pending/approved/rejected, and the accepted status has that name |
| CgpaUpdateModel.StatusNameRoundTrip | models/CgpaUpdate.ts:28-31 | parsing a status's name gives back that status |
| CgpaUpdateModel.CreateRequest | models/CgpaUpdate.ts:3-44 | a request document is created iff its fields pass the validators (required student, department, current CGPA, semester; newCgpa in [0, 10]; status in the enum); the created document is valid, gets status pending and department "General" when those are omitted, and carries the given student, CGPAs, semester, documents, reviewer and comments |
| CgpaUpdateModel.CreateAppliesDefaults | models/CgpaUpdate.ts:9-32 | a valid document with status and department omitted is created as pending in department "General" |
| UserModel.ParseRole | models/User.ts:8-13 | a string is a role exactly when it is "student" or "faculty", and the role parsed has that name |
| UserModel.CreateUser | models/User.ts:3-40 | a user document is created iff the required fields are present, the role is in the enum, a faculty member has a department and a given cgpa lies in [0, 10]; the created user is valid, defaults role to student, cgpa to 0 and approved to false, and copies the other fields |
| UserModel.DepartmentRequiredOnlyForFaculty | models/User.ts:14-19 | without a department only a student document can be created, and a student document is not refused for lacking one |
| Tables.NewestFirst | app/api/cgpa-updates/route.ts:77-78 | the listing holds each selected request exactly once, in non-increasing creation time |
| StudentRequests.Submit | app/api/cgpa-updates/route.ts:6-61 | 400 iff studentId, newCgpa (missing or 0) or semester is falsy; 404 iff the student does not exist; 500 iff newCgpa is outside [0, 10]; every failure leaves both collections unchanged; on 201 exactly one request is added and users are unchanged, and the request is pending, belongs to the student, snapshots the student's CGPA (0 if unset) and department ("General" if unset), and carries the given newCgpa, semester and documents, with no reviewer and no comments; valid collections stay valid |
| StudentRequests.ListForStudent | app/api/cgpa-updates/route.ts:63-81 | 400 iff no student id; otherwise 200 with exactly that student's requests, each once, newest first (an unknown student gets an empty list) |
| FacultyRequests.PendingAll | app/api/faculty/cgpa-updates/route.ts:6-24 | 200 with exactly the pending requests, each once, newest first |
| FacultyRequests.PendingAllIgnoresDepartment | app/api/faculty/cgpa-updates/route.ts:9-15 | the listing is the same whatever department is asked for |
| FacultyRequests.Decide | app/api/faculty/cgpa-updates/route.ts:34-86 | 400 iff updateId, action or faculty is missing; 404 iff the request does not exist; for valid collections 500 iff the action is not a status name; failures change nothing; on 200 only that request changes: its status is the action, the reviewer is the faculty, an empty department becomes "General", and no other field changes; an approval of a request whose student exists sets exactly that student's cgpa to newCgpa; any other action, and an approval whose student no longer exists, leaves users unchanged; valid collections stay valid |
| Approvals.QueueKind | app/api/faculty/approvals/route.ts:11 | an absent `type` parameter means "cgpa"; a given one is kept |
| Approvals.Queue | app/api/faculty/approvals/route.ts:6-69 | 400 iff no faculty id; 404 iff the id does not name a user whose role is faculty; otherwise 200 with exactly the pending requests whose department snapshot equals the faculty's department, each once, newest first |
| FacultyStats.GetStats | app/api/faculty/stats/route.ts:6-56 | 400 iff no faculty id; 404 iff not a faculty user; otherwise the number of students in the faculty's department, the number of requests approved by this faculty member, and a mean CGPA that times the student count equals the sum of their CGPAs (unset counted as 0), and is 0 for an empty department |
| FacultyStats.SumCgpaBounds | app/api/faculty/stats/route.ts:48 | for valid users the summed CGPA of n students lies in [0, 10n] |
| FacultyStats.AverageInRange | app/api/faculty/stats/route.ts:48-49 | for valid users the department mean CGPA lies in [0, 10] |
| Registration.Register | app/api/auth/register/route.ts:6-108 | 400 FacultyIdRequired iff a faculty registration has no faculty id; 400 UserExists iff otherwise the email is taken; 500 iff otherwise the password is missing; past those checks, 400 ValidationError iff the built document fails the schema validators, 400 DuplicateKey iff it passes but its faculty id is already taken, and 201 iff neither; only 201, 400 or 500 are returned and failures change nothing; on 201 exactly one user is added, with the given email, names and department, the hashed password, the role (student by default), not approved, for faculty the given faculty id, no student id and the schema's default CGPA 0, for students CGPA 0 with no ids, and the reply is the public part of that user; valid collections stay valid |
| Login.FindByEmail | app/api/auth/login/route.ts:18 | finds a user with the given email iff one exists |
| Login.Login | app/api/auth/login/route.ts:6-55 | 400 iff email or password is empty; 401 for an unknown email; 400 SetupIncomplete iff the found user has no stored password; 401 when the password does not match; 200 when it matches; only 200, 400 or 401 are returned; on 200 the session is the found user's id, email, names, role and department, and the password matched |
| Login.LoginFindsTheOwner | app/api/auth/login/route.ts:18 | with unique emails a successful login is for the one user who owns the email |
| Dashboard.GetStats | app/api/dashboard/stats/route.ts:5-45 | 400 iff no user id; 404 iff the user does not exist; otherwise the user's CGPA (0 if unset), full name, student id and department ("N/A" if missing) and the fixed activity figures; for a valid user the CGPA lies in [0, 10] |
| RecordStore.Store.SubmitRequest | app/api/cgpa-updates/route.ts:6-61 | the stored collections and the reply after the step-by-step submission are exactly those of `StudentRequests.Submit`; validity is kept |
| RecordStore.Store.DecideRequest | app/api/faculty/cgpa-updates/route.ts:34-86 | the stored collections and the reply after the step-by-step decision are exactly those of `FacultyRequests.Decide`; validity is kept and no document is added or removed |
| RecordStore.Store.RegisterUser | app/api/auth/register/route.ts:6-108 | the stored collections and the reply after the step-by-step registration are exactly those of `Registration.Register`; validity is kept |
| ApprovalQueueUi.Filtered | components/faculty/approval-temp.tsx:150-156 | the shown list keeps the fetched order, and an item is shown iff its lower-cased name and semester contain the lower-cased search term and its status matches the filter (or the filter is "all") |
| ApprovalQueueUi.EmptySearchKeepsAll | components/faculty/approval-temp.tsx:150-156 | with no search term and filter "all" every fetched item is shown, in order |
| ApprovalQueueUi.NonPendingFilterShowsNothing | components/faculty/approval-temp.tsx:150-156 | over a fetched list of pending requests, the "approved" and "rejected" filters show nothing |
| ApprovalQueueUi.Without | components/faculty/approval-temp.tsx:121 | removing an id from the selection keeps every other occurrence, in order, and drops every occurrence of that id |
| ApprovalQueueUi.Toggle | components/faculty/approval-temp.tsx:144-148 | toggling makes the id selected iff it was not and leaves every other id as it was: a newly selected id is appended, and a selected id is removed by `Without`, which keeps the rest in order |
| ApprovalQueueUi.ToggleTwice | components/faculty/approval-temp.tsx:144-148 | toggling twice restores the selected ids; it restores the selection itself when the id was not selected, and moves a selected id to the end |
| ApprovalQueueUi.SelectAll | components/faculty/approval-temp.tsx:136-142 | a selection as long as the list is cleared, otherwise the selection becomes every fetched id in order |
| ApprovalQueueUi.SelectAllCoversShown | components/faculty/approval-temp.tsx:136-156 | from a partial selection, select-all selects every request the filtered view shows |
| ApprovalQueueUi.SelectAllTwice | components/faculty/approval-temp.tsx:136-142 | from a partial selection, select-all twice ends with nothing selected |
| ApprovalQueueUi.BulkDecidesEach | components/faculty/approval-temp.tsx:172-185 | after deciding every selected id in turn, a selected request that exists has the decision and the reviewer, an id is reported done iff it is a non-empty id of an existing request, no request is added or removed, unselected requests are unchanged and valid collections stay valid |
| ApprovalQueueUi.ApprovalQueue.constructor | components/faculty/approval-temp.tsx:34-37 | the component starts with no selection, no search term, the "pending" filter and no updates |
| ApprovalQueueUi.ApprovalQueue.HandleSelectItem | components/faculty/approval-temp.tsx:144-148 | the new selection is the old one with the id toggled |
| ApprovalQueueUi.ApprovalQueue.HandleSelectAll | components/faculty/approval-temp.tsx:136-142 | the new selection is select-all applied to the old one and the fetched list |
| ApprovalQueueUi.ApprovalQueue.HandleAction | components/faculty/approval-temp.tsx:72-134 | without a faculty id nothing is sent and nothing changes; otherwise the store ends as the decision leaves it, and the id leaves the selection iff the decision succeeded |
| ApprovalQueueUi.ApprovalQueue.BulkAction | components/faculty/approval-temp.tsx:172-185 | the store ends as the decisions of all selected ids, one after the other, leave it, and the selection loses exactly the ids whose decision succeeded |
| Workflow.SubmittedRequestIsQueued | app/api/faculty/approvals/route.ts:41-46 | a submitted request is in its student's list and in the pending list, and is in a faculty member's queue iff the faculty's department equals the department snapshot taken at submission |
| Workflow.DecidedRequestLeavesQueues | app/api/faculty/cgpa-updates/route.ts:57-67 | after an approval or rejection the request is in neither the pending list nor any department queue |
| Workflow.SecondDecisionOverwrites | app/api/faculty/cgpa-updates/route.ts:48-67 | a decided request can be decided again, and the second status and reviewer replace the first |
| Workflow.DecisionKeepsSnapshots | app/api/faculty/cgpa-updates/route.ts:56-67 | a decision never changes any request's student, CGPA snapshot, requested CGPA or semester |
| Workflow.ApprovalShowsOnDashboard | app/api/faculty/cgpa-updates/route.ts:70-79 | after an approval the student's dashboard shows the approved CGPA |
| Workflow.ApprovalCounts | app/api/faculty/stats/route.ts:42-45 | an approval by a faculty member of a request they had not yet approved raises their approved count by exactly one |
| Workflow.RegisteredUserCanLogIn | app/api/auth/login/route.ts:18-55 | when the comparison accepts the password's own hash, a user registered with a non-empty password logs in with it, and the session carries the new user's id, email, names, role and department |
| Workflow.EmptyPasswordNeverLogsIn | app/api/auth/login/route.ts:10-12 | a login with an empty password is refused as missing fields, so an account registered with an empty password can never log in |
| Workflow.SubmissionScenario | app/api/cgpa-updates/route.ts:39-47 | a CS student with CGPA 7.5 submitting 8.8 gets a pending request with snapshot 7.5 and department "CS", visible to a CS faculty member and not to an EE one |

## Left out

- Database connection, logging, JSON (de)serialisation and the `populate` joins that add the student's and reviewer's display fields to listings. Listings are modelled as the ordered ids of the matching requests.
- Malformed ids. The model treats every non-empty id as a well-formed ObjectId. In the code a malformed one makes the driver throw, and the handler answers 500. This happens in the `findById` lookups (the model answers 404), in the student listing's `find` (the model answers 200 with an empty list), and when a decision saves a malformed faculty id as `approvedBy` (the model answers 200 and stores it).
- Non-numeric values and NaN for `newCgpa` or a stored CGPA. Numbers are modelled as reals.
- `toLowerCase` is modelled on ASCII letters only.
- Approvals.Queue: requires the `type` parameter to be absent or "cgpa". The other branch queries a `type` field and a `student.department` path, and the schema has neither.
- FacultyStats.GetStats: does not model `pendingApprovals`. Its query filters on `student.department`, a path the request schema does not have, and what it counts depends on the driver's query filtering.
- The `feedback` text and the `reviewedAt` time the decision handler assigns. Neither is a schema field, so neither is stored.
- Concurrency. Every handler is modelled as one atomic step. Concurrent decisions, and the bulk action's un-awaited calls, are modelled as sequential, in selection order.
- A store failure between saving a decision and updating the student's CGPA. Each handler either completes or changes nothing.
- The component's list refetch after a decision, the loading flag, the toasts and the feedback text box.
- The dashboard's fixed `recentActivities` and `performanceGraph` lists. The fixed counts and score are modelled.
- `app/api/user/route.ts` and the other routes and pages that only call these handlers are not part of this model.
- Emails are strings. An undefined email and an email that is "" are treated alike, as matching no user.
- Faculty members without a department. The schema requires a faculty member to have one, so a valid store holds none. Outside a valid store, such a member's queue is matched literally against the empty department.
