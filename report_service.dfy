/** The report handlers: statistics scoped by the caller's role, and one
    student's report, their record with their achievements. The counts come
    from the report repository's aggregate queries and are given to the
    handlers. */
module ReportHandlers {
  import opened Common
  import opened AchievementModels
  import opened ReferenceRows
  import opened AdvisorDirectory
  import opened AchievementRepo
  import opened AchievementDto

  /** The global counts: students, references, and references per status
      name. */
  datatype GlobalStatistics = GlobalStatistics(
    totalStudents: int,
    totalAchievements: int,
    byStatus: map<string, int>)

  /** The body of a statistics answer, by scope. */
  datatype StatsReply =
    | Global(stats: GlobalStatistics)
      /** A student's own counts per status name. */
    | Personal(counts: map<string, int>)
      /** The advisor scope, which carries only a message. */
    | AdvisorScope(message: string)

  const AdvisorScopeMessage: string := "Statistik bimbingan Anda"

  /** The scope name an answer is sent under. */
  function ScopeName(reply: StatsReply): string
  {
    match reply
    case Global(_) => "Global"
    case Personal(_) => "Personal"
    case AdvisorScope(_) => "Dosen Wali"
  }

  /** GetGlobalStats: `global` is the global aggregate (None when it
      failed) and `studentStats` the per-student aggregate by user id (None
      when it failed). None means the handler answers nothing at all, which
      is what a caller of an unknown role gets. */
  function GetGlobalStats(caller: Caller, global: Option<GlobalStatistics>,
                          studentStats: string -> Option<map<string, int>>): (res: Option<Response<StatsReply>>)
    ensures res.None? <==> !IsAdmin(caller) && !IsStudent(caller) && !IsLecturer(caller)
    ensures res.Some? && res.value.Ok? ==>
              && res.value.code == 200
              && (ScopeName(res.value.body) == "Global" <==> IsAdmin(caller))
              && (ScopeName(res.value.body) == "Personal" <==> IsStudent(caller))
              && (ScopeName(res.value.body) == "Dosen Wali" <==> IsLecturer(caller))
    ensures IsAdmin(caller) ==> res == Some(if global.None? then Fail(ServerError) else Ok(200, Global(global.value)))
    ensures IsStudent(caller) ==>
              res == Some(if studentStats(caller.userId).None? then Fail(ServerError)
                          else Ok(200, Personal(studentStats(caller.userId).value)))
    ensures IsLecturer(caller) ==> res == Some(Ok(200, AdvisorScope(AdvisorScopeMessage)))
  {
    if IsAdmin(caller) then
      Some(match global
           case None => Fail(ServerError)
           case Some(stats) => Ok(200, Global(stats)))
    else if IsStudent(caller) then
      Some(match studentStats(caller.userId)
           case None => Fail(ServerError)
           case Some(counts) => Ok(200, Personal(counts)))
    else if IsLecturer(caller) then
      Some(Ok(200, AdvisorScope(AdvisorScopeMessage)))
    else
      None
  }

  /** Whatever counts a student is answered, they are the counts of the
      student's own user id. */
  lemma PersonalStatsAreOwn(caller: Caller, global: Option<GlobalStatistics>,
                            studentStats: string -> Option<map<string, int>>, counts: map<string, int>)
    requires GetGlobalStats(caller, global, studentStats) == Some(Ok(200, Personal(counts)))
    ensures IsStudent(caller) && studentStats(caller.userId) == Some(counts)
  {
  }

  /** A student's report: their record and their achievements. */
  datatype StudentReport = StudentReport(studentInfo: StudentData, achievements: seq<AchievementResponse>)

  /** Only a student is restricted, to their own report; every other role,
      whatever it is, passes. */
  predicate MayReadReport(caller: Caller, m: StudentData)
  {
    !(IsStudent(caller) && m.userId != caller.userId)
  }

  /** The report handlers over the achievement store. */
  class ReportService {
    const achievements: AchievementRepository

    constructor(achievements: AchievementRepository)
      ensures this.achievements == achievements
    {
      this.achievements := achievements;
    }

    /** GetStudentReport: `found` is the student lookup of the path id (None
        when no row has it or the query failed). The achievements are the
        student's references, newest first, each with its document; those
        whose document cannot be read are dropped, and a failed reference
        query is read as no references. */
    method GetStudentReport(caller: Caller, found: Option<StudentData>) returns (res: Response<StudentReport>)
      ensures found.None? ==> res == Fail(NotFound)
      ensures found.Some? && !MayReadReport(caller, found.value) ==> res == Fail(Forbidden)
      ensures found.Some? && MayReadReport(caller, found.value) ==>
                res == Ok(200, StudentReport(found.value,
                                             if ReferenceTable in achievements.down then []
                                             else Responses(Listing(achievements.refs, ByStudent(found.value.userId),
                                                                    achievements.directory.roster),
                                                            achievements.contents,
                                                            ContentCollection !in achievements.down)))
      ensures res.Ok? ==> forall x :: x in res.body.achievements ==>
                exists r :: r in achievements.refs && r.studentId == found.value.userId && r.id == x.refId
    {
      if found.None? {
        return Fail(NotFound);
      }
      var m := found.value;
      if !MayReadReport(caller, m) {
        return Fail(Forbidden);
      }
      var _, refs := achievements.FindRefsByStudentID(m.userId);
      var results := CollectResponses(achievements, refs);
      StudentResponsesOwned(achievements.refs, m.userId, achievements.directory.roster,
                            achievements.contents, ContentCollection !in achievements.down);
      return Ok(200, StudentReport(m, results));
    }
  }
}
