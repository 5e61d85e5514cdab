/** The reference and history tables in terms of the generic table
    operations: their keys and creation times, the two UPDATE statements on
    references, the three list queries, and the columns each query reads. */
module ReferenceRows {
  import opened Common
  import opened AchievementModels
  import opened Tables

  function RefId(r: Reference): string { r.id }
  function RefCreatedAt(r: Reference): Time { r.createdAt }
  function HistoryId(h: HistoryEntry): string { h.id }
  function HistoryCreatedAt(h: HistoryEntry): Time { h.createdAt }

  /** The two UPDATE statements on a reference row. */
  datatype RefChange =
      /** Set status and rejection note together (a None note clears it). */
    | SetStatus(status: Status, note: Option<string>, at: Time)
      /** Mark verified by a verifier, leaving the rejection note alone. */
    | SetVerified(verifier: string, at: Time)

  /** The row after the change; id, owner, content and creation time stay. */
  function Apply(c: RefChange, r: Reference): (r': Reference)
    ensures r'.id == r.id && r'.studentId == r.studentId && r'.contentId == r.contentId
    ensures r'.createdAt == r.createdAt
    ensures c.SetStatus? ==> r'.status == c.status && r'.rejectionNote == c.note
                             && r'.verifiedBy == r.verifiedBy && r'.verifiedAt == r.verifiedAt
    ensures c.SetVerified? ==> r'.status == Verified && r'.verifiedBy == Some(c.verifier)
                               && r'.rejectionNote == r.rejectionNote
  {
    match c
    case SetStatus(s, note, at) => r.(status := s, rejectionNote := note, updatedAt := at)
    case SetVerified(v, at) => r.(status := Verified, verifiedBy := Some(v), verifiedAt := Some(at), updatedAt := at)
  }

  function Change(c: RefChange): Reference -> Reference
  {
    (r: Reference) => Apply(c, r)
  }

  /** The list queries over references. */
  datatype RefQuery =
      /** WHERE student_id = s */
    | ByStudent(studentId: string)
      /** Joined with mahasiswa: WHERE mahasiswa.advisor_id = a (a lecturer id). */
    | ByAdvisor(advisorId: string)
      /** Joined with mahasiswa and dosen: WHERE dosen.user_id = u. */
    | ByAdvisorUser(userId: string)
      /** No filter. */
    | Everything

  predicate Matches(q: RefQuery, roster: Roster, r: Reference)
  {
    match q
    case ByStudent(s) => r.studentId == s
    case ByAdvisor(a) =>
      r.studentId in roster.students && roster.students[r.studentId].advisorId == Some(a)
    case ByAdvisorUser(u) => AdvisorUserOf(roster, r.studentId) == Some(u)
    case Everything => true
  }

  function Keep(q: RefQuery, roster: Roster): Reference -> bool
  {
    (r: Reference) => Matches(q, roster, r)
  }

  /** The columns the list queries read: id, student, content id and status.
      The rejection note, verifier and timestamps come back empty. */
  function Listed(r: Reference): Reference
  {
    Reference(r.id, r.studentId, r.contentId, r.status, None, None, None, 0, 0)
  }

  function ListedRows(rows: seq<Reference>): seq<Reference>
  {
    seq(|rows|, i requires 0 <= i < |rows| => Listed(rows[i]))
  }

  /** The columns the single-row query reads: the list columns and the
      rejection note. */
  function Scanned(r: Reference): Reference
  {
    Reference(r.id, r.studentId, r.contentId, r.status, r.rejectionNote, None, None, 0, 0)
  }

  /** The result of a list query over the reference table. */
  function Listing(rows: seq<Reference>, q: RefQuery, roster: Roster): seq<Reference>
  {
    ListedRows(NewestFirst(rows, Keep(q, roster)))
  }

  /** A listing holds exactly the matching rows (as read by the list
      columns), no rejection note among them. */
  lemma ListingContents(rows: seq<Reference>, q: RefQuery, roster: Roster)
    ensures |Listing(rows, q, roster)| <= |rows|
    ensures forall x :: x in Listing(rows, q, roster) <==>
                          exists r :: r in rows && Matches(q, roster, r) && x == Listed(r)
    ensures forall x :: x in Listing(rows, q, roster) ==> x.rejectionNote.None? && x.verifiedBy.None?
  {
    var s := NewestFirst(rows, Keep(q, roster));
    forall x ensures x in ListedRows(s) <==> exists r :: r in rows && Matches(q, roster, r) && x == Listed(r) {
      if x in ListedRows(s) {
        var i :| 0 <= i < |s| && ListedRows(s)[i] == x;
        assert s[i] in s;
      }
      if exists r :: r in rows && Matches(q, roster, r) && x == Listed(r) {
        var r :| r in rows && Matches(q, roster, r) && x == Listed(r);
        assert r in s;
        var i :| 0 <= i < |s| && s[i] == r;
        assert ListedRows(s)[i] == x;
      }
    }
  }

  /** A listing is read from the matching rows taken newest-created first:
      its i-th entry is the list columns of the i-th of those rows. */
  lemma ListingOrder(rows: seq<Reference>, q: RefQuery, roster: Roster)
    requires Chronological(rows, RefCreatedAt)
    ensures var s := NewestFirst(rows, Keep(q, roster));
            && NewestToOldest(s, RefCreatedAt)
            && |Listing(rows, q, roster)| == |s|
            && forall i :: 0 <= i < |s| ==> Listing(rows, q, roster)[i] == Listed(s[i])
  {
    NewestFirstIsNewestToOldest(rows, Keep(q, roster), RefCreatedAt);
  }

  /** The history query: the rows of one achievement, newest first. */
  function HistoryFor(achievementId: string): HistoryEntry -> bool
  {
    (h: HistoryEntry) => h.achievementId == achievementId
  }
}
