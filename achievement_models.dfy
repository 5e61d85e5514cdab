/** The entities of the achievement lifecycle: the workflow reference kept in
    the relational store, the content document kept in the document store,
    the history rows, and the student/advisor relation the joins read. */
module AchievementModels {
  import opened Common

  /** The workflow status of a reference. */
  datatype Status = Draft | Pending | Verified | Rejected

  /** The text the status column holds. */
  function StatusName(s: Status): string
  {
    match s
    case Draft => "DRAFT"
    case Pending => "PENDING"
    case Verified => "VERIFIED"
    case Rejected => "REJECTED"
  }

  /** A row of achievement_references: who owns it, which content document
      it points at, and its workflow state. */
  datatype Reference = Reference(
    id: string,
    studentId: string,
    contentId: string,
    status: Status,
    rejectionNote: Option<string>,
    verifiedBy: Option<string>,
    verifiedAt: Option<Time>,
    createdAt: Time,
    updatedAt: Time)

  /** A row of achievement_histories. Its statuses are free text: creation
      records "NONE" as the previous status, and a verification records the
      status the request body named, whatever it was. */
  datatype HistoryEntry = HistoryEntry(
    id: string,
    achievementId: string,
    changedBy: string,
    previousStatus: string,
    newStatus: string,
    remarks: string,
    createdAt: Time)

  /** One uploaded evidence file. */
  datatype Attachment = Attachment(fileName: string, fileUrl: string, fileType: string, uploadedAt: Time)

  /** A value of the schemaless `details` map. */
  datatype DetailValue =
    | Text(text: string)
    | Number(number: int)
    | Flag(flag: bool)
    | List(items: seq<DetailValue>)
    | Object(fields: map<string, DetailValue>)
    | Null

  type Details = map<string, DetailValue>

  /** A document of the achievement collection. The collections that the
      document store can hold as null (details, attachments, tags) are
      optional; None is null. */
  datatype Content = Content(
    id: string,
    studentId: string,
    achievementType: string,
    title: string,
    description: string,
    details: Option<Details>,
    attachments: Option<seq<Attachment>>,
    tags: Option<seq<string>>,
    points: int,
    createdAt: Time,
    updatedAt: Time,
    deleted: bool)

  predicate IsHexDigit(c: char)
  {
    '0' <= c <= '9' || 'a' <= c <= 'f' || 'A' <= c <= 'F'
  }

  /** The hex form the document store's driver prints for an ObjectID. */
  predicate IsObjectIdHex(s: string)
  {
    |s| == 24 && forall i :: 0 <= i < |s| ==> '0' <= s[i] <= '9' || 'a' <= s[i] <= 'f'
  }

  /** The hex form of the all-zero ObjectID, which the store never generates. */
  const NilObjectId: string := "000000000000000000000000"

  /** Parsing a hex id into an ObjectID and printing it back: the canonical
      hex form when `s` is 24 hex digits of either case, None otherwise. */
  function ParseObjectId(s: string): (r: Option<string>)
    ensures r.Some? <==> |s| == 24 && forall i :: 0 <= i < |s| ==> IsHexDigit(s[i])
    ensures r.Some? ==> IsObjectIdHex(r.value)
  {
    if |s| == 24 && forall i :: 0 <= i < |s| ==> IsHexDigit(s[i]) then Some(Lower(s)) else None
  }

  /** Printing an ObjectID and parsing it back gives the same id. */
  lemma ParseObjectIdRoundTrip(s: string)
    requires IsObjectIdHex(s)
    ensures ParseObjectId(s) == Some(s)
  {
    assert Lower(s) == s;
  }

  /** The ObjectID a write filters on: an unparsable id becomes the nil
      ObjectID, since the parse error is ignored. */
  function FilterId(hexId: string): (oid: string)
    ensures ParseObjectId(hexId).Some? ==> oid == ParseObjectId(hexId).value
    ensures ParseObjectId(hexId).None? ==> oid == NilObjectId
  {
    match ParseObjectId(hexId)
    case Some(k) => k
    case None => NilObjectId
  }

  /** A student's row of the mahasiswa table, as the joins use it: the row's
      own id and the lecturer id of the student's advisor, if one is set. */
  datatype StudentLink = StudentLink(id: string, advisorId: Option<string>)

  /** The advisor relation: the mahasiswa rows keyed by the student's user id,
      and the dosen rows as a map from lecturer id to the lecturer's user id. */
  datatype Roster = Roster(students: map<string, StudentLink>, lecturers: map<string, string>)

  /** The user id of the advisor of the student with user id `studentUserId`:
      student -> mahasiswa.advisor_id -> dosen.user_id. */
  function AdvisorUserOf(roster: Roster, studentUserId: string): (u: Option<string>)
    ensures u.Some? <==> studentUserId in roster.students
                         && roster.students[studentUserId].advisorId.Some?
                         && roster.students[studentUserId].advisorId.value in roster.lecturers
  {
    if studentUserId in roster.students then
      match roster.students[studentUserId].advisorId
      case Some(d) => if d in roster.lecturers then Some(roster.lecturers[d]) else None
      case None => None
    else None
  }
}
