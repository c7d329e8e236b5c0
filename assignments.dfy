/**
  The assignment tracker: its list of assignments (ordered not-done
  first, then by deadline), the done toggle that updates the list locally
  once the backend accepted it, and the add form with its guard, its
  default time of day and its reset. The backend calls themselves are
  parameters: whether they succeeded, and the rows a fetch returned.
 */
module Assignments {
  import opened Opt
  import opened Builtins

  /** A row of the list; `deadline` is the deadline's instant in milliseconds. */
  datatype Assignment = Assignment(id: int, name: string, deadline: int, done: bool, subject: Option<string>)

  /** The row the add form inserts. */
  datatype NewAssignment = NewAssignment(name: string, deadline: string, subjectId: Option<string>, userId: string)

  /**
    The comparator `Number(a.done) - Number(b.done) || deadline(a) - deadline(b)`
    as "may come first": not-done before done, then the earlier deadline. The
    fetch orders rows the same way.
   */
  function ListOrder(a: Assignment, b: Assignment): bool {
    (!a.done && b.done) || (a.done == b.done && a.deadline <= b.deadline)
  }

  lemma ListOrderIsTotalPreorder()
    ensures TotalPreorder(ListOrder)
  {
  }

  /** `prev.map(assign => assign.id === id ? { ...assign, done } : assign)`. */
  function WithDone(list: seq<Assignment>, id: int, done: bool): seq<Assignment> {
    seq(|list|, i requires 0 <= i < |list| => if list[i].id == id then list[i].(done := done) else list[i])
  }

  /** The list `handleToggleDone` stores after a successful update: mapped, then re-sorted. */
  function Toggled(list: seq<Assignment>, id: int, currentStatus: bool): seq<Assignment> {
    ListOrderIsTotalPreorder();
    SortBy(WithDone(list, id, !currentStatus), ListOrder)
  }

  /** Entries with the id get the new flag and are otherwise as they were; all others pass through. */
  lemma WithDoneEntries(list: seq<Assignment>, id: int, done: bool)
    ensures |WithDone(list, id, done)| == |list|
    ensures forall a :: a in WithDone(list, id, done) && a.id == id ==>
      a.done == done && exists b :: b in list && a == b.(done := done)
    ensures forall a :: a in WithDone(list, id, done) && a.id != id ==> a in list
    ensures forall b :: b in list && b.id != id ==> b in WithDone(list, id, done)
    ensures forall b :: b in list && b.id == id ==> b.(done := done) in WithDone(list, id, done)
  {
    var mapped := WithDone(list, id, done);
    forall a | a in mapped && a.id == id ensures a.done == done && exists b :: b in list && a == b.(done := done) {
      var i :| 0 <= i < |mapped| && mapped[i] == a;
      assert list[i] in list;
    }
    forall a | a in mapped && a.id != id ensures a in list {
      var i :| 0 <= i < |mapped| && mapped[i] == a;
    }
    forall b | b in list && b.id != id ensures b in mapped {
      var i :| 0 <= i < |list| && list[i] == b;
      assert mapped[i] == b;
    }
    forall b | b in list && b.id == id ensures b.(done := done) in mapped {
      var i :| 0 <= i < |list| && list[i] == b;
      assert mapped[i] == b.(done := done);
    }
  }

  lemma SameElements<T>(r: seq<T>, s: seq<T>)
    requires multiset(r) == multiset(s)
    ensures forall a :: a in r <==> a in s
  {
    forall a | a in r ensures a in s {
      assert a in multiset(r);
    }
    forall a | a in s ensures a in r {
      assert a in multiset(s);
    }
  }

  /**
    After a toggle the entries with the given id carry `done = !currentStatus`
    and are otherwise as they were, every other entry is kept unchanged, the
    list is a permutation of the mapped one, and it is ordered not-done first,
    then by deadline.
   */
  lemma ToggledSpec(list: seq<Assignment>, id: int, currentStatus: bool)
    ensures |Toggled(list, id, currentStatus)| == |list|
    ensures multiset(Toggled(list, id, currentStatus)) == multiset(WithDone(list, id, !currentStatus))
    ensures SortedBy(Toggled(list, id, currentStatus), ListOrder)
    ensures forall a :: a in Toggled(list, id, currentStatus) && a.id == id ==>
      a.done == !currentStatus && exists b :: b in list && a == b.(done := !currentStatus)
    ensures forall a :: a in Toggled(list, id, currentStatus) && a.id != id ==> a in list
    ensures forall b :: b in list && b.id != id ==> b in Toggled(list, id, currentStatus)
    ensures forall b :: b in list && b.id == id ==> b.(done := !currentStatus) in Toggled(list, id, currentStatus)
  {
    ListOrderIsTotalPreorder();
    WithDoneEntries(list, id, !currentStatus);
    SameElements(Toggled(list, id, currentStatus), WithDone(list, id, !currentStatus));
  }

  /** A toggle that matches no entry leaves a list in fetch order exactly as it was. */
  lemma ToggleWithoutMatchKeepsFetchOrder(list: seq<Assignment>, id: int, currentStatus: bool)
    requires SortedBy(list, ListOrder)
    requires forall a :: a in list ==> a.id != id
    ensures Toggled(list, id, currentStatus) == list
  {
    ListOrderIsTotalPreorder();
    assert WithDone(list, id, !currentStatus) == list;
    SortBySorted(list, ListOrder);
  }

  /** `formatDateTime`: the empty string stays empty; any other goes through the date library's `format`. */
  function FormatDateTime(isoString: string, format: string -> string): (r: string)
    ensures isoString == "" ==> r == ""
    ensures isoString != "" ==> r == format(isoString)
  {
    if isoString == "" then "" else format(isoString)
  }

  /** `${datePart}T${newTime || '23:59'}`. */
  function DeadlineText(datePart: string, time: string): string {
    datePart + "T" + (if time == "" then "23:59" else time)
  }

  /** The state of the assignments panel. */
  class AssignmentsPanel {
    var assignments: seq<Assignment>
    var newName: string
    var newDate: Option<string>
    var newTime: string
    var newSubjectId: Option<string>

    constructor()
      ensures assignments == []
      ensures newName == "" && newDate == None && newTime == "" && newSubjectId == None
    {
      assignments := [];
      newName, newDate, newTime, newSubjectId := "", None, "", None;
    }

    /** `fetchAssignments`: the rows replace the list, unless the query failed (None). */
    method ApplyFetch(rows: Option<seq<Assignment>>)
      modifies this
      ensures assignments == if rows.Some? then rows.value else old(assignments)
      ensures newName == old(newName) && newDate == old(newDate)
      ensures newTime == old(newTime) && newSubjectId == old(newSubjectId)
    {
      if rows.Some? {
        assignments := rows.value;
      }
    }

    /** `handleToggleDone`: the list changes only when the update succeeded. */
    method ToggleDone(id: int, currentStatus: bool, updateSucceeded: bool)
      modifies this
      ensures updateSucceeded ==> assignments == Toggled(old(assignments), id, currentStatus)
      ensures !updateSucceeded ==> assignments == old(assignments)
      ensures newName == old(newName) && newDate == old(newDate)
      ensures newTime == old(newTime) && newSubjectId == old(newSubjectId)
    {
      if updateSucceeded {
        assignments := Toggled(assignments, id, currentStatus);
      }
    }

    /**
      `handleAddAssignment` for the signed-in user `userId`: nothing happens
      without a user, a name or a date; otherwise the row to insert carries
      the form's date as the date library formats it (`formatDate`, standing
      for `format(newDate, 'yyyy-MM-dd')`), then the form's time of day or
      `23:59`, and a successful insert empties the form. The refetch that follows is a separate ApplyFetch.
     */
    method AddAssignment(userId: Option<string>, formatDate: string -> string, insertSucceeded: bool)
      returns (request: Option<NewAssignment>)
      modifies this
      ensures assignments == old(assignments)
      ensures userId.None? || old(newName) == "" || old(newDate).None? || old(newDate).value == "" ==>
        && request == None
        && newName == old(newName) && newDate == old(newDate)
        && newTime == old(newTime) && newSubjectId == old(newSubjectId)
      ensures !(userId.None? || old(newName) == "" || old(newDate).None? || old(newDate).value == "") ==>
        && request == Some(NewAssignment(old(newName), DeadlineText(formatDate(old(newDate).value), old(newTime)), old(newSubjectId), userId.value))
        && (old(newTime) == "" ==> request.value.deadline == formatDate(old(newDate).value) + "T23:59")
        && (insertSucceeded ==> newName == "" && newDate == None && newTime == "" && newSubjectId == None)
        && (!insertSucceeded ==>
              newName == old(newName) && newDate == old(newDate) &&
              newTime == old(newTime) && newSubjectId == old(newSubjectId))
    {
      if userId.None? || newName == "" || newDate.None? || newDate.value == "" {
        return None;
      }
      request := Some(NewAssignment(newName, DeadlineText(formatDate(newDate.value), newTime), newSubjectId, userId.value));
      if insertSucceeded {
        newName := "";
        newDate := None;
        newTime := "";
        newSubjectId := None;
      }
    }
  }
}
