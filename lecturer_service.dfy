/** The lecturer (dosen) handlers: the role-filtered lecturer listing and
    a lecturer's advisee listing. The rows come from the lecturer
    repository's joins and are given to the handlers. */
module LecturerHandlers {
  import opened Common
  import opened Tables
  import opened AdvisorDirectory

  /** Which rows of the lecturer listing a caller is shown: all for an
      administrator, their own row for a lecturer, none for any other role. */
  predicate ListsLecturer(caller: Caller, d: LecturerData)
  {
    IsAdmin(caller) || (IsLecturer(caller) && d.userId == caller.userId)
  }

  function ListsLecturerFor(caller: Caller): LecturerData -> bool
  {
    (d: LecturerData) => ListsLecturer(caller, d)
  }

  /** GetAll over the repository's listing (None when the query failed):
      the rows the caller is shown, in the repository's order. An empty
      selection is an empty list. */
  method GetAll(caller: Caller, listing: Option<seq<LecturerData>>) returns (res: Response<seq<LecturerData>>)
    ensures listing.None? ==> res == Fail(ServerError)
    ensures listing.Some? ==> res == Ok(200, Filter(listing.value, ListsLecturerFor(caller)))
  {
    if listing.None? {
      return Fail(ServerError);
    }
    var rows := listing.value;
    var filtered: seq<LecturerData> := [];
    var i := 0;
    while i < |rows|
      invariant 0 <= i <= |rows|
      invariant filtered == Filter(rows[..i], ListsLecturerFor(caller))
    {
      assert rows[..i + 1][..i] == rows[..i];
      var d := rows[i];
      if IsAdmin(caller) {
        filtered := filtered + [d];
      } else if IsLecturer(caller) && d.userId == caller.userId {
        filtered := filtered + [d];
      }
      i := i + 1;
    }
    assert rows[..|rows|] == rows;
    return Ok(200, filtered);
  }

  /** An administrator is shown every lecturer, in order. */
  lemma AdminListsEveryLecturer(caller: Caller, rows: seq<LecturerData>)
    requires IsAdmin(caller)
    ensures Filter(rows, ListsLecturerFor(caller)) == rows
  {
    FilterAll(rows, ListsLecturerFor(caller));
  }

  /** A lecturer is shown exactly the rows that are theirs. */
  lemma LecturerListsOwnRow(caller: Caller, rows: seq<LecturerData>)
    requires IsLecturer(caller)
    ensures forall d :: d in Filter(rows, ListsLecturerFor(caller)) <==> d in rows && d.userId == caller.userId
  {
    FilterMembers(rows, ListsLecturerFor(caller));
  }

  /** A caller of any other role, a student included, is shown nothing. */
  lemma OtherRolesListNoLecturer(caller: Caller, rows: seq<LecturerData>)
    requires !IsAdmin(caller) && !IsLecturer(caller)
    ensures Filter(rows, ListsLecturerFor(caller)) == []
  {
    FilterNone(rows, ListsLecturerFor(caller));
  }

  /** GetAdvisees: `found` is the lecturer lookup of `lecturerId` (None
      when no row has it or the query failed) and `advisees` the advisee
      query by lecturer id (None when it failed). Only a lecturer is
      restricted, to their own advisees; an administrator and a student
      pass the check. */
  function GetAdvisees(caller: Caller, lecturerId: string, found: Option<LecturerData>,
                       advisees: string -> Option<seq<AdviseeData>>): (res: Response<seq<AdviseeData>>)
    ensures res == Fail(NotFound) <==> found.None?
    ensures res == Fail(Forbidden) <==> found.Some? && IsLecturer(caller) && found.value.userId != caller.userId
    ensures res == Fail(ServerError) <==>
              found.Some? && (IsLecturer(caller) ==> found.value.userId == caller.userId) && advisees(lecturerId).None?
    ensures res.Ok? ==> res == Ok(200, advisees(lecturerId).value)
  {
    match found
    case None => Fail(NotFound)
    case Some(d) =>
      if IsLecturer(caller) && d.userId != caller.userId then Fail(Forbidden)
      else
        match advisees(lecturerId)
        case None => Fail(ServerError)
        case Some(list) => Ok(200, list)
  }
}
