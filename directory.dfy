/** The student and lecturer tables as the core uses them: the advisor
    relation that the achievement joins read and that an administrator
    rewrites, and the row shapes the student and lecturer listings return. */
module AdvisorDirectory {
  import opened Common
  import opened AchievementModels

  /** A row of the student listing: the student, their user id and names,
      and their advisor's lecturer id and user id (the all-zero id when the
      student has none). */
  datatype StudentData = StudentData(
    id: string,
    userId: string,
    name: string,
    nim: string,
    programStudy: string,
    academicYear: string,
    advisorName: string,
    advisorId: string,
    advisorUserId: string)

  /** A row of the lecturer listing. */
  datatype LecturerData = LecturerData(id: string, userId: string, name: string, nip: string)

  /** A row of a lecturer's advisee listing. */
  datatype AdviseeData = AdviseeData(id: string, name: string, nim: string, programStudy: string)

  /** The roster after `UPDATE mahasiswa SET advisor_id = a WHERE id = s`:
      every student row whose own id is `s` now names advisor `a`; no other
      row and no lecturer changes. */
  function WithAdvisor(roster: Roster, s: string, a: string): (r: Roster)
    ensures r.lecturers == roster.lecturers
    ensures r.students.Keys == roster.students.Keys
    ensures forall u :: u in r.students ==>
              r.students[u] == if roster.students[u].id == s then StudentLink(s, Some(a)) else roster.students[u]
  {
    Roster(map u | u in roster.students ::
             if roster.students[u].id == s then StudentLink(s, Some(a)) else roster.students[u],
           roster.lecturers)
  }

  /** After the update, the student whose row was rewritten is advised by
      the user of lecturer `a`, when `a` names a lecturer, and by nobody
      otherwise; other students keep their advisor. */
  lemma WithAdvisorAdvisor(roster: Roster, s: string, a: string, u: string)
    requires u in roster.students
    ensures roster.students[u].id == s ==>
              AdvisorUserOf(WithAdvisor(roster, s, a), u)
              == if a in roster.lecturers then Some(roster.lecturers[a]) else None
    ensures roster.students[u].id != s ==>
              AdvisorUserOf(WithAdvisor(roster, s, a), u) == AdvisorUserOf(roster, u)
  {
  }

  /** The mahasiswa and dosen tables, reduced to the advisor relation. */
  class Directory {
    var roster: Roster
    /** Whether the relational store is currently unreachable. */
    var offline: bool

    constructor(roster: Roster)
      ensures this.roster == roster && !offline
    {
      this.roster := roster;
      offline := false;
    }

    /** Make the store reachable or unreachable. */
    method SetOffline(down: bool)
      modifies this`offline
      ensures offline == down
    {
      offline := down;
    }

    /** Set the advisor of the student row with id `studentId`. An id that
        names no row changes nothing and is not an error. */
    method UpdateAdvisor(studentId: string, advisorId: string) returns (ok: bool)
      modifies this`roster
      ensures ok == !offline
      ensures roster == if ok then WithAdvisor(old(roster), studentId, advisorId) else old(roster)
    {
      if offline {
        return false;
      }
      roster := WithAdvisor(roster, studentId, advisorId);
      return true;
    }
  }
}
