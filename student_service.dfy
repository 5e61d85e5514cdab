/** The student (mahasiswa) handlers: the role-filtered student listing,
    the privacy check on a student's record and achievements, and the
    administrator's change of a student's advisor. The student rows come
    from the student repository's joins and are given to the handlers. */
module StudentHandlers {
  import opened Common
  import opened Tables
  import opened AchievementModels
  import opened ReferenceRows
  import opened AdvisorDirectory
  import opened AchievementRepo
  import opened AchievementDto

  /** The advisor ids the student queries report for a student without an
      advisor. */
  const NoAdvisorId: string := "00000000-0000-0000-0000-000000000000"

  /** Which rows of the student listing a caller is shown: all for an
      administrator, the advisees of a lecturer, the student's own row for a
      student, and none for any other role. */
  predicate ListsStudent(caller: Caller, m: StudentData)
  {
    || IsAdmin(caller)
    || (IsLecturer(caller) && m.advisorUserId == caller.userId)
    || (IsStudent(caller) && m.userId == caller.userId)
  }

  function ListsStudentFor(caller: Caller): StudentData -> bool
  {
    (m: StudentData) => ListsStudent(caller, m)
  }

  /** Who may read one student's record and achievements, whatever their
      role: an administrator, the student's own user, or the user of the
      student's advisor. */
  predicate MayView(caller: Caller, m: StudentData)
  {
    IsAdmin(caller) || m.userId == caller.userId || m.advisorUserId == caller.userId
  }

  /** GetAll over the repository's listing (None when the query failed):
      the rows the caller is shown, in the repository's order. An empty
      selection is an empty list. */
  method GetAll(caller: Caller, listing: Option<seq<StudentData>>) returns (res: Response<seq<StudentData>>)
    ensures listing.None? ==> res == Fail(ServerError)
    ensures listing.Some? ==> res == Ok(200, Filter(listing.value, ListsStudentFor(caller)))
  {
    if listing.None? {
      return Fail(ServerError);
    }
    var rows := listing.value;
    var filtered: seq<StudentData> := [];
    var i := 0;
    while i < |rows|
      invariant 0 <= i <= |rows|
      invariant filtered == Filter(rows[..i], ListsStudentFor(caller))
    {
      assert rows[..i + 1][..i] == rows[..i];
      var m := rows[i];
      if IsAdmin(caller) {
        filtered := filtered + [m];
      } else if IsLecturer(caller) && m.advisorUserId == caller.userId {
        filtered := filtered + [m];
      } else if IsStudent(caller) && m.userId == caller.userId {
        filtered := filtered + [m];
      }
      i := i + 1;
    }
    assert rows[..|rows|] == rows;
    return Ok(200, filtered);
  }

  /** The listing shows a row exactly when the caller is shown it. */
  lemma ListingVisibility(caller: Caller, rows: seq<StudentData>)
    ensures forall m :: m in Filter(rows, ListsStudentFor(caller)) <==> m in rows && ListsStudent(caller, m)
  {
    FilterMembers(rows, ListsStudentFor(caller));
  }

  /** An administrator is shown the whole listing, in order. */
  lemma AdminListsEveryStudent(caller: Caller, rows: seq<StudentData>)
    requires IsAdmin(caller)
    ensures Filter(rows, ListsStudentFor(caller)) == rows
  {
    FilterAll(rows, ListsStudentFor(caller));
  }

  /** A caller of any other role is shown nothing. */
  lemma OtherRolesListNoStudent(caller: Caller, rows: seq<StudentData>)
    requires !IsAdmin(caller) && !IsLecturer(caller) && !IsStudent(caller)
    ensures Filter(rows, ListsStudentFor(caller)) == []
  {
    FilterNone(rows, ListsStudentFor(caller));
  }

  /** Every row the listing shows a caller is one whose detail they may
      read. */
  lemma ListedStudentsViewable(caller: Caller, rows: seq<StudentData>)
    ensures forall m :: m in Filter(rows, ListsStudentFor(caller)) ==> MayView(caller, m)
  {
    FilterMembers(rows, ListsStudentFor(caller));
  }

  /** GetDetail over the repository's lookup of the student id (None when
      no row has it or the query failed). */
  function GetDetail(caller: Caller, found: Option<StudentData>): (res: Response<StudentData>)
    ensures res == Fail(NotFound) <==> found.None?
    ensures res == Fail(Forbidden) <==> found.Some? && !MayView(caller, found.value)
    ensures res.Ok? ==> found.Some? && res == Ok(200, found.value)
  {
    match found
    case None => Fail(NotFound)
    case Some(m) => if MayView(caller, m) then Ok(200, m) else Fail(Forbidden)
  }

  /** A student without an advisor is readable only by an administrator and
      by the student, as long as no user has the all-zero id. */
  lemma NoAdvisorNoAdvisorAccess(caller: Caller, m: StudentData)
    requires m.advisorUserId == NoAdvisorId && caller.userId != NoAdvisorId
    ensures GetDetail(caller, Some(m)).Ok? <==> IsAdmin(caller) || m.userId == caller.userId
  {
  }

  /** The student handlers over the achievement store and the advisor
      relation. */
  class StudentService {
    const achievements: AchievementRepository
    const directory: Directory

    constructor(achievements: AchievementRepository, directory: Directory)
      ensures this.achievements == achievements && this.directory == directory
    {
      this.achievements := achievements;
      this.directory := directory;
    }

    /** GetAchievements: after the check of GetDetail, the student's
        references, newest first, each with its document; those whose
        document cannot be read are dropped. */
    method GetAchievements(caller: Caller, found: Option<StudentData>) returns (res: Response<seq<AchievementResponse>>)
      ensures found.None? ==> res == Fail(NotFound)
      ensures found.Some? && !MayView(caller, found.value) ==> res == Fail(Forbidden)
      ensures found.Some? && MayView(caller, found.value) ==>
                res == if ReferenceTable in achievements.down then Fail(ServerError)
                       else Ok(200, Responses(Listing(achievements.refs, ByStudent(found.value.userId),
                                                      achievements.directory.roster),
                                              achievements.contents, ContentCollection !in achievements.down))
      ensures res.Ok? ==> forall x :: x in res.body ==>
                exists r :: r in achievements.refs && r.studentId == found.value.userId && r.id == x.refId
    {
      if found.None? {
        return Fail(NotFound);
      }
      var m := found.value;
      if !MayView(caller, m) {
        return Fail(Forbidden);
      }
      var ok, refs := achievements.FindRefsByStudentID(m.userId);
      if !ok {
        return Fail(ServerError);
      }
      var results := CollectResponses(achievements, refs);
      StudentResponsesOwned(achievements.refs, m.userId, achievements.directory.roster,
                            achievements.contents, ContentCollection !in achievements.down);
      return Ok(200, results);
    }

    /** UpdateAdvisor: administrators only; the body must name an advisor.
        Setting the advisor of an id that names no student is not an
        error. */
    method UpdateAdvisor(caller: Caller, studentId: string, advisorId: Option<string>) returns (res: Response<()>)
      modifies directory`roster
      ensures !IsAdmin(caller) ==> res == Fail(Forbidden)
      ensures IsAdmin(caller) && (advisorId.None? || advisorId.value == "") ==> res == Fail(BadRequest)
      ensures IsAdmin(caller) && advisorId.Some? && advisorId.value != "" ==>
                res == if directory.offline then Fail(ServerError) else Ok(200, ())
      ensures directory.roster == if res.Ok? then WithAdvisor(old(directory.roster), studentId, advisorId.value)
                                  else old(directory.roster)
    {
      if !IsAdmin(caller) {
        return Fail(Forbidden);
      }
      if advisorId.None? || advisorId.value == "" {
        return Fail(BadRequest);
      }
      var ok := directory.UpdateAdvisor(studentId, advisorId.value);
      if !ok {
        return Fail(ServerError);
      }
      return Ok(200, ());
    }
  }
}
