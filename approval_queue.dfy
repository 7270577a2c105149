/** The faculty approval-queue component (components/faculty/approval-temp.tsx):
    the search and status filter over the fetched requests, the selection
    held in component state, and the single and bulk decisions it sends. */
module ApprovalQueueUi {
  import opened Common
  import opened CgpaUpdateModel
  import opened Tables
  import opened FacultyRequests
  import opened RecordStore

  /** The fields of a fetched request that the component reads. */
  datatype QueueItem = QueueItem(id: Id, firstName: string, lastName: string, semester: string, status: string)

  /** `toLowerCase` on ASCII letters. */
  function LowerChar(c: char): char {
    if 'A' <= c <= 'Z' then (c as int + 32) as char else c
  }

  function Lower(s: string): (r: string)
    ensures |r| == |s|
    ensures forall i :: 0 <= i < |s| ==> r[i] == LowerChar(s[i])
  {
    seq(|s|, i requires 0 <= i < |s| => LowerChar(s[i]))
  }

  predicate IsPrefix(t: string, s: string) {
    |t| <= |s| && s[..|t|] == t
  }

  /** `s.includes(t)`: `t` occurs in `s` at some position. */
  predicate Includes(s: string, t: string)
    decreases |s|
  {
    IsPrefix(t, s) || (s != [] && Includes(s[1..], t))
  }

  function SearchContent(u: QueueItem): string {
    Lower(u.firstName + " " + u.lastName + " " + u.semester)
  }

  /** The condition `filteredUpdates` keeps an item by. */
  predicate Keep(u: QueueItem, searchTerm: string, statusFilter: string) {
    Includes(SearchContent(u), Lower(searchTerm)) && (statusFilter == "all" || u.status == statusFilter)
  }

  /** `a` is `b` with some items left out, in the same order. */
  predicate IsSubsequence<T(==)>(a: seq<T>, b: seq<T>)
    decreases |b|
  {
    if a == [] then true
    else if b == [] then false
    else (a[0] == b[0] && IsSubsequence(a[1..], b[1..])) || IsSubsequence(a, b[1..])
  }

  /** `filteredUpdates`. */
  function Filtered(updates: seq<QueueItem>, searchTerm: string, statusFilter: string): (r: seq<QueueItem>)
    ensures |r| <= |updates|
    ensures IsSubsequence(r, updates)
    ensures forall u :: u in r <==> u in updates && Keep(u, searchTerm, statusFilter)
    decreases |updates|
  {
    if updates == [] then []
    else
      var rest := Filtered(updates[1..], searchTerm, statusFilter);
      if Keep(updates[0], searchTerm, statusFilter) then
        assert ([updates[0]] + rest)[1..] == rest;
        [updates[0]] + rest
      else rest
  }

  /** With no search term and the "all" filter every update is shown, in order. */
  lemma {:induction false} EmptySearchKeepsAll(updates: seq<QueueItem>)
    ensures Filtered(updates, "", "all") == updates
    decreases |updates|
  {
    if updates != [] {
      assert IsPrefix(Lower(""), SearchContent(updates[0]));
      EmptySearchKeepsAll(updates[1..]);
      assert [updates[0]] + updates[1..] == updates;
    }
  }

  /** The list the component fetches holds only pending requests, so the
      "approved" and "rejected" filters always show an empty list. */
  lemma NonPendingFilterShowsNothing(updates: seq<QueueItem>, searchTerm: string, statusFilter: string)
    requires forall i :: 0 <= i < |updates| ==> updates[i].status == "pending"
    requires statusFilter != "all" && statusFilter != "pending"
    ensures Filtered(updates, searchTerm, statusFilter) == []
  {
  }

  /** `prev.filter(item => item !== id)`. */
  function Without(sel: seq<Id>, id: Id): (r: seq<Id>)
    ensures |r| <= |sel|
    ensures IsSubsequence(r, sel)
    ensures multiset(r) == multiset(sel)[id := 0]
    ensures forall x :: x in r <==> x in sel && x != id
    decreases |sel|
  {
    if sel == [] then []
    else
      var rest := Without(sel[1..], id);
      assert sel == [sel[0]] + sel[1..];
      if sel[0] == id then rest
      else
        assert ([sel[0]] + rest)[1..] == rest;
        [sel[0]] + rest
  }

  /** `handleSelectItem`: remove the id if selected, append it otherwise. */
  function Toggle(sel: seq<Id>, id: Id): (r: seq<Id>)
    ensures id in r <==> id !in sel
    ensures forall x :: x != id ==> (x in r <==> x in sel)
    ensures id !in sel ==> r == sel + [id]
    ensures id in sel ==> r == Without(sel, id)
  {
    if id in sel then Without(sel, id) else sel + [id]
  }

  lemma {:induction false} WithoutAppended(sel: seq<Id>, id: Id)
    requires id !in sel
    ensures Without(sel + [id], id) == sel
    decreases |sel|
  {
    if sel == [] {
      assert Without([id], id) == [] + Without([], id);
    } else {
      assert (sel + [id])[1..] == sel[1..] + [id];
      WithoutAppended(sel[1..], id);
      assert [sel[0]] + sel[1..] == sel;
    }
  }

  /** Toggling an item twice restores the set of selected ids. It restores
      the selection itself when the item was not selected; a selected item
      moves to the end. */
  lemma ToggleTwice(sel: seq<Id>, id: Id)
    ensures forall x :: x in Toggle(Toggle(sel, id), id) <==> x in sel
    ensures id !in sel ==> Toggle(Toggle(sel, id), id) == sel
    ensures id in sel ==> Toggle(Toggle(sel, id), id) == Without(sel, id) + [id]
  {
    if id !in sel {
      WithoutAppended(sel, id);
    }
  }

  /** The ids of the fetched updates, in order. */
  function UpdateIds(updates: seq<QueueItem>): (r: seq<Id>)
    ensures |r| == |updates|
    ensures forall i :: 0 <= i < |updates| ==> r[i] == updates[i].id
  {
    seq(|updates|, i requires 0 <= i < |updates| => updates[i].id)
  }

  /** `handleSelectAll`: clear the selection when it is as long as the list,
      otherwise select every update. Only lengths are compared, so a
      selection of the same length is cleared whatever ids it holds. */
  function SelectAll(sel: seq<Id>, updates: seq<QueueItem>): (r: seq<Id>)
    ensures |sel| == |updates| ==> r == []
    ensures |sel| != |updates| ==>
              |r| == |updates| && forall i :: 0 <= i < |updates| ==> r[i] == updates[i].id
  {
    if |sel| == |updates| then [] else UpdateIds(updates)
  }

  /** Select-all is a toggle: used twice in a row from a partial selection it
      ends with nothing selected. */
  lemma SelectAllTwice(sel: seq<Id>, updates: seq<QueueItem>)
    requires |sel| != |updates|
    ensures SelectAll(SelectAll(sel, updates), updates) == []
  {
  }

  /** From a partial selection, select-all selects every request the filtered
      view shows, whatever the search term and status filter. */
  lemma SelectAllCoversShown(sel: seq<Id>, updates: seq<QueueItem>, searchTerm: string,
                             statusFilter: string, u: QueueItem)
    requires |sel| != |updates|
    requires u in Filtered(updates, searchTerm, statusFilter)
    ensures u.id in SelectAll(sel, updates)
  {
    var i :| 0 <= i < |updates| && updates[i] == u;
    assert SelectAll(sel, updates)[i] == u.id;
  }

  /** The selection without the ids in `done`, in order. */
  function RemoveAll(sel: seq<Id>, done: set<Id>): (r: seq<Id>)
    ensures IsSubsequence(r, sel)
    ensures forall x :: x in r <==> x in sel && x !in done
    decreases |sel|
  {
    if sel == [] then []
    else
      var rest := RemoveAll(sel[1..], done);
      if sel[0] in done then
        assert [] + rest == rest;
        [] + rest
      else
        assert ([sel[0]] + rest)[1..] == rest;
        [sel[0]] + rest
  }

  lemma {:induction false} RemoveOneMore(sel: seq<Id>, done: set<Id>, id: Id)
    ensures Without(RemoveAll(sel, done), id) == RemoveAll(sel, done + {id})
    decreases |sel|
  {
    if sel != [] {
      RemoveOneMore(sel[1..], done, id);
      var head := if sel[0] in done then [] else [sel[0]];
      assert RemoveAll(sel, done) == head + RemoveAll(sel[1..], done);
      if head == [] {
        assert head + RemoveAll(sel[1..], done) == RemoveAll(sel[1..], done);
        assert Without(RemoveAll(sel, done), id) == Without(RemoveAll(sel[1..], done), id);
      } else {
        assert (head + RemoveAll(sel[1..], done))[1..] == RemoveAll(sel[1..], done);
      }
    }
  }

  /** The state reached by deciding `ids` one after the other, and the ids
      whose decision succeeded. */
  datatype Progress = Progress(db: Db, done: set<Id>)

  ghost function ActAll(db: Db, ids: seq<Id>, action: string, faculty: Id): Progress
    decreases |ids|
  {
    if ids == [] then Progress(db, {})
    else
      var p := ActAll(db, ids[..|ids| - 1], action, faculty);
      var last := ids[|ids| - 1];
      var o := Decide(p.db, last, action, faculty);
      Progress(o.db, if o.response.Success? then p.done + {last} else p.done)
  }

  /** Independent decisions: after a bulk action every existing selected
      request carries the decision and the reviewer, every missing one (and
      the empty id, which the handler refuses) is reported as not done, and
      no other request changes. */
  lemma {:induction false} BulkDecidesEach(db: Db, ids: seq<Id>, action: Status, faculty: Id)
    requires ValidDb(db) && faculty != ""
    ensures var p := ActAll(db, ids, StatusName(action), faculty);
            && ValidDb(p.db)
            && p.db.requests.Keys == db.requests.Keys
            && (forall x :: x in p.done <==> x in ids && x in db.requests && x != "")
            && (forall x :: x in ids && x in db.requests && x != "" ==>
                  p.db.requests[x].status == action && p.db.requests[x].approvedBy == Some(faculty))
            && (forall x :: x in db.requests && x !in ids ==> p.db.requests[x] == db.requests[x])
    decreases |ids|
  {
    if ids != [] {
      var prefix := ids[..|ids| - 1];
      var last := ids[|ids| - 1];
      BulkDecidesEach(db, prefix, action, faculty);
      var p := ActAll(db, prefix, StatusName(action), faculty);
      StatusNameRoundTrip(action);
      var o := Decide(p.db, last, StatusName(action), faculty);
      assert ids == prefix + [last];
      forall x
        ensures x in ids <==> x in prefix || x == last
      {
      }
      if last in p.db.requests && last != "" {
        assert o.response.Success?;
      }
    }
  }

  /** The component state: the selection, the search term, the status filter
      and the last list fetched. */
  class ApprovalQueue {
    var selectedItems: seq<Id>
    var searchTerm: string
    var statusFilter: string
    var updates: seq<QueueItem>

    constructor ()
      ensures selectedItems == [] && searchTerm == "" && statusFilter == "pending" && updates == []
    {
      selectedItems := [];
      searchTerm := "";
      statusFilter := "pending";
      updates := [];
    }

    method HandleSelectItem(id: Id)
      modifies this`selectedItems
      ensures selectedItems == Toggle(old(selectedItems), id)
    {
      if id in selectedItems {
        selectedItems := Without(selectedItems, id);
      } else {
        selectedItems := selectedItems + [id];
      }
    }

    method HandleSelectAll()
      modifies this`selectedItems
      ensures selectedItems == SelectAll(old(selectedItems), updates)
    {
      if |selectedItems| == |updates| {
        selectedItems := [];
      } else {
        selectedItems := UpdateIds(updates);
      }
    }

    /** `handleAction`: without a logged-in faculty id nothing is sent;
        otherwise the decision is sent and, if it succeeded, the id leaves the
        selection. The feedback text is not stored by the server and the
        refetch of the list is not modelled. */
    method HandleAction(store: Store, updateId: Id, action: Status, facultyId: Id) returns (sent: bool)
      requires action != Pending && store.Valid()
      modifies this`selectedItems, store
      ensures store.Valid()
      ensures sent <==> facultyId != ""
      ensures !sent ==> store.Snapshot() == old(store.Snapshot()) && selectedItems == old(selectedItems)
      ensures sent ==>
                var o := Decide(old(store.Snapshot()), updateId, StatusName(action), facultyId);
                && store.Snapshot() == o.db
                && selectedItems == (if o.response.Success? then Without(old(selectedItems), updateId)
                                     else old(selectedItems))
    {
      if facultyId == "" {
        return false;
      }
      var r := store.DecideRequest(updateId, StatusName(action), facultyId);
      if r.Success? {
        selectedItems := Without(selectedItems, updateId);
      }
      sent := true;
    }

    /** The Approve/Reject buttons: one independent decision per selected id,
        in selection order. */
    method BulkAction(store: Store, action: Status, facultyId: Id)
      requires action != Pending && store.Valid()
      modifies this`selectedItems, store
      ensures store.Valid()
      ensures facultyId == "" ==> store.Snapshot() == old(store.Snapshot()) && selectedItems == old(selectedItems)
      ensures facultyId != "" ==>
                var p := ActAll(old(store.Snapshot()), old(selectedItems), StatusName(action), facultyId);
                store.Snapshot() == p.db && selectedItems == RemoveAll(old(selectedItems), p.done)
    {
      var ids := selectedItems;
      ghost var start := store.Snapshot();
      assert RemoveAll(ids, {}) == ids by {
        RemoveNone(ids);
      }
      var i := 0;
      while i < |ids|
        invariant 0 <= i <= |ids|
        invariant store.Valid()
        invariant facultyId == "" ==> store.Snapshot() == start && selectedItems == ids
        invariant facultyId != "" ==>
                    var p := ActAll(start, ids[..i], StatusName(action), facultyId);
                    store.Snapshot() == p.db && selectedItems == RemoveAll(ids, p.done)
      {
        ghost var p := ActAll(start, ids[..i], StatusName(action), facultyId);
        ActAllStep(start, ids, i, StatusName(action), facultyId);
        var sent := HandleAction(store, ids[i], action, facultyId);
        if facultyId != "" {
          RemoveOneMore(ids, p.done, ids[i]);
        }
        i := i + 1;
      }
      assert ids[..|ids|] == ids;
    }
  }

  /** One more decision extends the fold by the next id. */
  lemma ActAllStep(db: Db, ids: seq<Id>, i: nat, action: string, faculty: Id)
    requires i < |ids|
    ensures var p := ActAll(db, ids[..i], action, faculty);
            var o := Decide(p.db, ids[i], action, faculty);
            ActAll(db, ids[..i + 1], action, faculty)
              == Progress(o.db, if o.response.Success? then p.done + {ids[i]} else p.done)
  {
    assert ids[..i + 1][..i] == ids[..i];
  }

  lemma {:induction false} RemoveNone(sel: seq<Id>)
    ensures RemoveAll(sel, {}) == sel
    decreases |sel|
  {
    if sel != [] {
      RemoveNone(sel[1..]);
      assert [sel[0]] + sel[1..] == sel;
    }
  }
}
