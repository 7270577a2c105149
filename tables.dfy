/** The two collections the handlers work on, and the "sorted by createdAt,
    descending" listing every query of the request collection returns. */
module Tables {
  import opened Common
  import opened CgpaUpdateModel
  import opened UserModel

  /** The Users and CgpaUpdate collections, each keyed by document id. */
  datatype Db = Db(users: map<Id, User>, requests: map<Id, CgpaUpdate>)

  /** A handler's reply together with the collections after it ran. */
  datatype Outcome<+T> = Outcome(response: Response<T>, db: Db)

  /** Every document passed its schema validators and the unique indexes hold. */
  predicate ValidDb(db: Db) {
    && ValidUsers(db.users)
    && forall id :: id in db.requests ==> ValidRequest(db.requests[id])
  }

  predicate Distinct(s: seq<Id>) {
    forall i, j :: 0 <= i < j < |s| ==> s[i] != s[j]
  }

  /** `sort({ createdAt: -1 })`: no request is listed before a newer one. */
  predicate NewestFirstOrder(s: seq<Id>, requests: map<Id, CgpaUpdate>) {
    forall i, j ::
      0 <= i < j < |s| && s[i] in requests && s[j] in requests ==>
        requests[s[i]].createdAt >= requests[s[j]].createdAt
  }

  /** `s` lists each id of `ids` exactly once, newest first. */
  ghost predicate IsListing(s: seq<Id>, requests: map<Id, CgpaUpdate>, ids: set<Id>) {
    && Distinct(s)
    && (forall x :: x in s <==> x in ids)
    && NewestFirstOrder(s, requests)
  }

  predicate IsNewest(m: Id, ids: set<Id>, requests: map<Id, CgpaUpdate>)
    requires ids <= requests.Keys
  {
    m in ids && forall x :: x in ids ==> requests[x].createdAt <= requests[m].createdAt
  }

  /** A non-empty set of requests has a newest member. */
  lemma {:induction false} NewestExists(ids: set<Id>, requests: map<Id, CgpaUpdate>)
    requires ids != {} && ids <= requests.Keys
    ensures exists m :: IsNewest(m, ids, requests)
    decreases |ids|
  {
    var a :| a in ids;
    if ids == {a} {
      assert IsNewest(a, ids, requests);
    } else {
      var rest := ids - {a};
      NewestExists(rest, requests);
      var m :| IsNewest(m, rest, requests);
      if requests[a].createdAt > requests[m].createdAt {
        assert IsNewest(a, ids, requests);
      } else {
        assert IsNewest(m, ids, requests);
      }
    }
  }

  /** Putting the newest request in front of a listing of the others lists them all. */
  lemma ConsNewest(m: Id, rest: seq<Id>, ids: set<Id>, requests: map<Id, CgpaUpdate>)
    requires ids <= requests.Keys && IsNewest(m, ids, requests)
    requires IsListing(rest, requests, ids - {m})
    ensures IsListing([m] + rest, requests, ids)
  {
    var s := [m] + rest;
    forall i, j | 0 <= i < j < |s|
      ensures s[i] != s[j] && s[i] in requests && s[j] in requests
      ensures s[i] in requests && s[j] in requests && requests[s[i]].createdAt >= requests[s[j]].createdAt
    {
      assert s[j] == rest[j - 1] && rest[j - 1] in rest;
      assert s[j] in ids - {m};
      if i > 0 {
        assert s[i] == rest[i - 1] && rest[i - 1] in rest;
      }
    }
    forall x
      ensures x in s <==> x in ids
    {
      assert x in s <==> x == m || x in rest;
    }
  }

  /** The ids of `ids` ordered by creation time, newest first (ties in some
      order, as the database leaves them). */
  ghost function NewestFirst(ids: set<Id>, requests: map<Id, CgpaUpdate>): (r: seq<Id>)
    requires ids <= requests.Keys
    ensures IsListing(r, requests, ids)
    ensures |r| == |ids|
    decreases |ids|
  {
    if ids == {} then []
    else
      NewestExists(ids, requests);
      var m :| IsNewest(m, ids, requests);
      var rest := NewestFirst(ids - {m}, requests);
      ConsNewest(m, rest, ids, requests);
      [m] + rest
  }
}
