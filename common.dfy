/** Values shared by every handler: identifiers, JavaScript-style fallbacks
    and the HTTP responses the route handlers return. */
module Common {

  /** A document id (a MongoDB ObjectId, kept opaque). The empty string stands
      for a missing or falsy id, which is what `!id` tests in the handlers. */
  type Id = string

  datatype Option<+T> = None | Some(value: T)

  /** `x || 0` on a Number field that may be null. */
  function NumberOrZero(x: Option<real>): (r: real)
    ensures x.None? ==> r == 0.0
    ensures x.Some? ==> r == x.value
  {
    match x
    case None => 0.0
    case Some(v) => v
  }

  /** `!x` on a Number: true for a missing value and for 0. */
  predicate IsFalsyNumber(x: Option<real>) {
    x.None? || x.value == 0.0
  }

  /** `s || fallback` on a String field: the empty string is falsy. */
  function StringOr(s: string, fallback: string): (r: string)
    ensures s != "" ==> r == s
    ensures s == "" ==> r == fallback
  {
    if s == "" then fallback else s
  }

  /** The schema range of a CGPA value, shared by `User.cgpa` and `CgpaUpdate.newCgpa`. */
  const MinCgpa: real := 0.0
  const MaxCgpa: real := 10.0

  predicate InCgpaRange(x: real) {
    MinCgpa <= x <= MaxCgpa
  }

  /** HTTP status codes used by the handlers. */
  const HttpOk := 200
  const HttpCreated := 201
  const HttpBadRequest := 400
  const HttpUnauthorized := 401
  const HttpNotFound := 404
  const HttpServerError := 500

  /** Why a handler refused a request; each is returned with one status code. */
  datatype Problem =
    | MissingFields        // a required parameter is missing or falsy
    | NotFound             // the referenced document does not exist
    | InvalidFaculty       // the id does not name a user whose role is faculty
    | FacultyIdRequired    // faculty registration without a faculty id
    | UserExists           // registration with an email already in use
    | ValidationError      // schema validation failed (registration maps it to 400)
    | DuplicateKey         // a unique index rejected the insert
    | InvalidCredentials   // unknown email or wrong password
    | SetupIncomplete      // the stored user has no password
    | ServerError          // any other exception caught by the handler

  /** The JSON reply of a handler together with its HTTP status code. */
  datatype Response<+T> = Success(code: int, value: T) | Fail(code: int, problem: Problem)
}
