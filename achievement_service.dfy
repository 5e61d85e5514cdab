/** The achievement handlers: each checks the caller's role and ownership,
    then performs its writes on the stores in order. Together they drive a
    reference through DRAFT, PENDING, VERIFIED and REJECTED. */
module AchievementHandlers {
  import opened Common
  import opened Tables
  import opened AchievementModels
  import opened ReferenceRows
  import opened AchievementRepo
  import opened AchievementDto

  /** The multipart form of Create, once read. */
  datatype CreateForm = CreateForm(
    title: string,
    description: string,
    achievementType: string,
    points: int,
    tags: Option<seq<string>>)

  /** The JSON body of Update; none of its fields is required. */
  datatype UpdateForm = UpdateForm(
    title: string,
    description: string,
    achievementType: string,
    points: int,
    tags: Option<seq<string>>)

  /** The JSON body of Verify and Reject. */
  datatype VerifyForm = VerifyForm(status: string, notes: string)

  /** An uploaded file: the name the client gave it, the uuid the handler
      draws to name the stored copy, and whether saving the copy succeeds. */
  datatype Upload = Upload(fileName: string, token: string, saves: bool)

  const UploadDir: string := "uploads"

  /** The extensions Create accepts, compared after case folding. */
  const AllowedExtensions: set<string> := {".pdf", ".jpg", ".jpeg", ".png"}

  /** The form binds: it was readable (None is a malformed request) and
      title, description and type, which are required, are not empty. */
  predicate FormBound(form: Option<CreateForm>)
  {
    form.Some? && form.value.title != "" && form.value.description != "" && form.value.achievementType != ""
  }

  /** The place a saved upload is stored under: the upload directory, then
      `<owner>_<uuid><ext>`. */
  function SavePath(owner: string, token: string, ext: string): string
  {
    UploadDir + "/" + owner + "_" + token + ext
  }

  predicate EndsWithIgnoringCase(name: string, e: string)
  {
    |e| <= |name| && Lower(name[|name| - |e|..]) == e
  }

  /** Every accepted extension is a dot followed by letters. */
  lemma AllowedExtensionsShape(e: string)
    requires e in AllowedExtensions
    ensures |e| >= 1 && e[0] == '.'
    ensures forall k :: 1 <= k < |e| ==> 'a' <= e[k] <= 'z'
  {
  }

  /** Case folding maps a dot only from a dot, and a letter only from a
      letter. */
  lemma LowerCharPunctuation(c: char)
    ensures LowerChar(c) == '.' ==> c == '.'
    ensures 'a' <= LowerChar(c) <= 'z' ==> c != '.' && c != '/'
  {
  }

  /** The extension check of Create accepts exactly the file names that end,
      in any letter case, in one of the accepted extensions. */
  lemma AcceptedFileNames(name: string)
    ensures Lower(Ext(name)) in AllowedExtensions <==> exists e :: e in AllowedExtensions && EndsWithIgnoringCase(name, e)
  {
    var x := Ext(name);
    if Lower(x) in AllowedExtensions {
      assert EndsWithIgnoringCase(name, Lower(x));
    }
    if e :| e in AllowedExtensions && EndsWithIgnoringCase(name, e) {
      AllowedExtensionsShape(e);
      var s := name[|name| - |e|..];
      assert Lower(s) == e;
      LowerCharPunctuation(s[0]);
      forall k | 1 <= k < |s| ensures s[k] != '.' && s[k] != '/' {
        assert LowerChar(s[k]) == e[k];
        LowerCharPunctuation(s[k]);
      }
      ExtOfSuffix(name, s);
    }
  }

  /** The attachments a created document starts with: none without a file,
      otherwise the one saved file, typed by its case-folded extension. */
  function Evidence(caller: Caller, file: Option<Upload>, now: Time): (a: Option<seq<Attachment>>)
    ensures a.None? <==> file.None?
    ensures a.Some? ==> |a.value| == 1 && a.value[0].fileName == file.value.fileName
                        && a.value[0].fileType == Lower(Ext(file.value.fileName))
                        && a.value[0].fileUrl == SavePath(caller.userId, file.value.token, a.value[0].fileType)
  {
    match file
    case None => None
    case Some(f) =>
      var ext := Lower(Ext(f.fileName));
      Some([Attachment(f.fileName, SavePath(caller.userId, f.token, ext), ext, now)])
  }

  /** The document Create stores: the caller's, with the form's fields,
      empty details and at most the one uploaded attachment. */
  function NewContent(caller: Caller, f: CreateForm, file: Option<Upload>, oid: string, now: Time): (c: Content)
    ensures c.id == oid && c.studentId == caller.userId && c.details == Some(map[])
    ensures c.title == f.title && c.description == f.description
    ensures c.achievementType == f.achievementType && c.points == f.points
    ensures c.tags == Some(OrEmpty(f.tags))
    ensures c.attachments.Some? && |c.attachments.value| == (if file.Some? then 1 else 0)
    ensures c.createdAt == now && c.updatedAt == now
  {
    Stamped(Content("", caller.userId, f.achievementType, f.title, f.description, Some(map[]),
                    Evidence(caller, file, now), f.tags, f.points, 0, 0, false), now).(id := oid)
  }

  /** The content Update writes: the body's fields, with null details. */
  function Edit(body: UpdateForm): Content
  {
    Content("", "", body.achievementType, body.title, body.description, None, None, body.tags, body.points, 0, 0, false)
  }

  /** The role check and file check of Create pass. */
  predicate CreateAdmitted(caller: Caller, form: Option<CreateForm>, file: Option<Upload>)
  {
    && IsStudent(caller) && FormBound(form)
    && (file.Some? ==> Lower(Ext(file.value.fileName)) in AllowedExtensions && file.value.saves)
  }

  /** Who may edit a reference's content: a student only their own while it
      is DRAFT or REJECTED; every other role unconditionally. */
  predicate MayEdit(caller: Caller, r: Reference)
  {
    IsStudent(caller) ==> r.studentId == caller.userId && (r.status == Draft || r.status == Rejected)
  }

  /** The reference query behind GetList, as written: a lecturer's user id is
      compared with the advisor_id column, which holds lecturer ids. */
  function ListQueryAsWritten(caller: Caller): (q: Option<RefQuery>)
    ensures q.None? <==> !IsStudent(caller) && !IsLecturer(caller) && !IsAdmin(caller)
    ensures IsStudent(caller) ==> q == Some(ByStudent(caller.userId))
    ensures IsLecturer(caller) ==> q == Some(ByAdvisor(caller.userId))
    ensures IsAdmin(caller) ==> q == Some(Everything)
  {
    if IsStudent(caller) then Some(ByStudent(caller.userId))
    else if IsLecturer(caller) then Some(ByAdvisor(caller.userId))
    else if IsAdmin(caller) then Some(Everything)
    else None
  }

  /** The reference query behind GetList as intended: a lecturer lists the
      references of the students they advise, through the lecturer's user
      id, as the verification check does. */
  function ListQuery(caller: Caller): (q: Option<RefQuery>)
    ensures q.None? <==> !IsStudent(caller) && !IsLecturer(caller) && !IsAdmin(caller)
  {
    if IsStudent(caller) then Some(ByStudent(caller.userId))
    else if IsLecturer(caller) then Some(ByAdvisorUser(caller.userId))
    else if IsAdmin(caller) then Some(Everything)
    else None
  }

  /** What each role lists: a student their own references, a lecturer
      exactly those of their advisees (the ones they may verify), an
      administrator all. */
  lemma ListQueryScope(caller: Caller, roster: Roster, r: Reference)
    ensures IsStudent(caller) ==> (Matches(ListQuery(caller).value, roster, r) <==> r.studentId == caller.userId)
    ensures IsLecturer(caller) ==>
              (Matches(ListQuery(caller).value, roster, r) <==> AdvisorUserOf(roster, r.studentId) == Some(caller.userId))
    ensures IsAdmin(caller) ==> Matches(ListQuery(caller).value, roster, r)
  {
  }

  /** As written, a lecturer does not see the reference of a student they
      advise: their user id is not the lecturer id in the student's row. */
  lemma LecturerListingAsWrittenMissesAdvisee()
    ensures var roster := Roster(map["student-user" := StudentLink("student-row", Some("lecturer-row"))],
                                 map["lecturer-row" := "lecturer-user"]);
            var caller := Caller("lecturer-user", RoleLecturer);
            var r := Reference("ref", "student-user", "content", Pending, None, None, None, 0, 0);
            && AdvisorUserOf(roster, r.studentId) == Some(caller.userId)
            && !Matches(ListQueryAsWritten(caller).value, roster, r)
            && Matches(ListQuery(caller).value, roster, r)
  {
    var roster := Roster(map["student-user" := StudentLink("student-row", Some("lecturer-row"))],
                         map["lecturer-row" := "lecturer-user"]);
    assert roster.students["student-user"].advisorId == Some("lecturer-row");
    assert "lecturer-user" != "lecturer-row";
  }

  /** As written, when the lecturer's user id is not itself a lecturer id,
      the lecturer's listing holds no reference of a student who has an
      advisor: it matches only students whose advisor_id names no lecturer. */
  lemma LecturerListingAsWrittenHoldsNoAdvisee(caller: Caller, roster: Roster, r: Reference)
    requires IsLecturer(caller) && caller.userId !in roster.lecturers
    ensures Matches(ListQueryAsWritten(caller).value, roster, r) ==> AdvisorUserOf(roster, r.studentId).None?
  {
  }

  /** Whether a caller gets past the checks of UploadAttachment on the
      reference the lookup found: it exists and, for a student, is theirs. */
  predicate MayAttach(caller: Caller, found: Option<Reference>)
  {
    found.Some? && (IsStudent(caller) ==> found.value.studentId == caller.userId)
  }

  /** The attachment UploadAttachment appends: stored under the
      reference's id, typed by the extension exactly as given. */
  function Uploaded(refId: string, f: Upload, now: Time): (a: Attachment)
    ensures a.fileName == f.fileName && a.fileType == Ext(f.fileName) && a.uploadedAt == now
    ensures a.fileUrl == SavePath(refId, f.token, a.fileType)
  {
    Attachment(f.fileName, SavePath(refId, f.token, Ext(f.fileName)), Ext(f.fileName), now)
  }

  /** The achievement handlers over one repository. */
  class AchievementService {
    const repo: AchievementRepository

    constructor(repo: AchievementRepository)
      ensures this.repo == repo
    {
      this.repo := repo;
    }

    /** GetList: the caller's references, newest first, each with its
        document; references whose document cannot be read are dropped. */
    method GetList(caller: Caller) returns (res: Response<seq<AchievementResponse>>)
      ensures ListQuery(caller).None? ==> res == Fail(Forbidden)
      ensures ListQuery(caller).Some? && ReferenceTable in repo.down ==> res == Fail(ServerError)
      ensures ListQuery(caller).Some? && ReferenceTable !in repo.down ==>
                res == Ok(200, Responses(Listing(repo.refs, ListQuery(caller).value, repo.directory.roster),
                                         repo.contents, ContentCollection !in repo.down))
    {
      var q := ListQuery(caller);
      if q.None? {
        return Fail(Forbidden);
      }
      var ok, refs := repo.FetchRefs(q.value);
      if !ok {
        return Fail(ServerError);
      }
      var results := CollectResponses(repo, refs);
      return Ok(200, results);
    }

    /** GetDetail: one reference with its document. A student sees only
        their own; other roles see any. */
    method GetDetail(caller: Caller, id: string) returns (res: Response<AchievementResponse>)
      ensures res == Fail(NotFound) <==> repo.FindRefByID(id).None?
      ensures res == Fail(Forbidden) <==>
                repo.FindRefByID(id).Some? && IsStudent(caller) && repo.FindRefByID(id).value.studentId != caller.userId
      ensures res == Fail(ServerError) <==>
                repo.FindRefByID(id).Some? && (IsStudent(caller) ==> repo.FindRefByID(id).value.studentId == caller.userId)
                && repo.FindContent(repo.FindRefByID(id).value.contentId).None?
      ensures res.Ok? ==> exists r :: r in repo.refs && r.id == id && (IsStudent(caller) ==> r.studentId == caller.userId)
                                      && repo.FindContent(r.contentId).Some?
                                      && res == Ok(200, ToAchievementResponse(Scanned(r), repo.FindContent(r.contentId).value))
    {
      var ref := repo.FindRefByID(id);
      if ref.None? {
        return Fail(NotFound);
      }
      if IsStudent(caller) && ref.value.studentId != caller.userId {
        return Fail(Forbidden);
      }
      var content := repo.FindContent(ref.value.contentId);
      if content.None? {
        return Fail(ServerError);
      }
      return Ok(200, ToAchievementResponse(ref.value, content.value));
    }

    /** The writes of Create, in order: the document, then the DRAFT
        reference pointing at it, then the history row. Nothing is rolled
        back, and the outcome of the history write is ignored. */
    method StoreNew(caller: Caller, data: Content, oid: string, refId: string, historyId: string) returns (res: Response<string>)
      requires repo.Valid() && data.id == ""
      requires IsObjectIdHex(oid) && oid != NilObjectId && oid !in repo.contents
      requires refId !in repo.RefIds() && historyId !in repo.HistoryIds()
      modifies repo`refs, repo`contents, repo`histories
      ensures repo.Valid()
      ensures repo.contents == if ContentCollection in repo.down then old(repo.contents)
                               else old(repo.contents)[oid := Stamped(data, repo.clock).(id := oid)]
      ensures res == if ContentCollection in repo.down || ReferenceTable in repo.down || caller.userId !in repo.users.Ids()
                     then Fail(ServerError) else Ok(201, refId)
      ensures repo.refs == if res.Ok? then old(repo.refs) + [Reference(refId, caller.userId, oid, Draft, None, None, None,
                                                                       repo.clock, repo.clock)]
                           else old(repo.refs)
      ensures repo.histories == if res.Ok? && HistoryTable !in repo.down
                                then old(repo.histories) + [HistoryEntry(historyId, refId, caller.userId, "NONE", "DRAFT",
                                                                         "Created with file", repo.clock)]
                                else old(repo.histories)
    {
      var stored, mongoId, _ := repo.InsertMongo(data, oid);
      if !stored {
        return Fail(ServerError);
      }
      var inserted, pgRef := repo.InsertPostgres(Reference("", caller.userId, mongoId, Draft, None, None, None, 0, 0), refId);
      if !inserted {
        return Fail(ServerError);
      }
      var _ := repo.AddHistory(HistoryEntry("", pgRef.id, caller.userId, "NONE", "DRAFT", "Created with file", 0), historyId);
      return Ok(201, pgRef.id);
    }

    /** Create: a student files an achievement, optionally with one file of
        an accepted type, under the ids `oid`, `refId` and `historyId` that
        the stores draw. */
    method Create(caller: Caller, form: Option<CreateForm>, file: Option<Upload>, oid: string, refId: string, historyId: string)
      returns (res: Response<string>)
      requires repo.Valid()
      requires IsObjectIdHex(oid) && oid != NilObjectId && oid !in repo.contents
      requires refId !in repo.RefIds() && historyId !in repo.HistoryIds()
      modifies repo`refs, repo`contents, repo`histories
      ensures repo.Valid()
      ensures !IsStudent(caller) ==> res == Fail(Forbidden)
      ensures IsStudent(caller) && !FormBound(form) ==> res == Fail(BadRequest)
      ensures (IsStudent(caller) && FormBound(form) && file.Some?
               && Lower(Ext(file.value.fileName)) !in AllowedExtensions) ==> res == Fail(BadRequest)
      ensures (IsStudent(caller) && FormBound(form) && file.Some?
               && Lower(Ext(file.value.fileName)) in AllowedExtensions && !file.value.saves) ==> res == Fail(ServerError)
      ensures !CreateAdmitted(caller, form, file) ==>
                repo.refs == old(repo.refs) && repo.contents == old(repo.contents) && repo.histories == old(repo.histories)
      ensures CreateAdmitted(caller, form, file) ==>
                repo.contents == if ContentCollection in repo.down then old(repo.contents)
                                 else old(repo.contents)[oid := NewContent(caller, form.value, file, oid, repo.clock)]
      ensures CreateAdmitted(caller, form, file) ==>
                res == if ContentCollection in repo.down || ReferenceTable in repo.down || caller.userId !in repo.users.Ids()
                       then Fail(ServerError) else Ok(201, refId)
      ensures CreateAdmitted(caller, form, file) ==>
                repo.refs == if res.Ok? then old(repo.refs) + [Reference(refId, caller.userId, oid, Draft, None, None, None,
                                                                         repo.clock, repo.clock)]
                             else old(repo.refs)
      ensures CreateAdmitted(caller, form, file) ==>
                repo.histories == if res.Ok? && HistoryTable !in repo.down
                                  then old(repo.histories) + [HistoryEntry(historyId, refId, caller.userId, "NONE", "DRAFT",
                                                                           "Created with file", repo.clock)]
                                  else old(repo.histories)
    {
      if !IsStudent(caller) {
        return Fail(Forbidden);
      }
      if !FormBound(form) {
        return Fail(BadRequest);
      }
      var f := form.value;
      if file.Some? {
        var ext := Lower(Ext(file.value.fileName));
        if ext !in AllowedExtensions {
          return Fail(BadRequest);
        }
        if !file.value.saves {
          return Fail(ServerError);
        }
      }
      var data := Content("", caller.userId, f.achievementType, f.title, f.description, Some(map[]),
                          Evidence(caller, file, repo.clock), f.tags, f.points, 0, 0, false);
      res := StoreNew(caller, data, oid, refId, historyId);
    }

    /** Update: overwrite the document's editable fields. The outcome of
        the write is not checked. */
    method Update(caller: Caller, id: string, body: Option<UpdateForm>) returns (res: Response<()>)
      requires repo.Valid()
      modifies repo`contents
      ensures repo.Valid()
      ensures old(repo.FindRefByID(id)).None? ==> res == Fail(NotFound)
      ensures (old(repo.FindRefByID(id)).Some? && IsStudent(caller)
               && old(repo.FindRefByID(id)).value.studentId != caller.userId) ==> res == Fail(Forbidden)
      ensures (old(repo.FindRefByID(id)).Some? && IsStudent(caller) && old(repo.FindRefByID(id)).value.studentId == caller.userId
               && !MayEdit(caller, old(repo.FindRefByID(id)).value)) ==> res == Fail(BadRequest)
      ensures old(repo.FindRefByID(id)).Some? && MayEdit(caller, old(repo.FindRefByID(id)).value) ==>
                res == if body.None? then Fail(BadRequest) else Ok(200, ())
      ensures repo.contents == if res.Ok? && ContentCollection !in repo.down
                                  && FilterId(old(repo.FindRefByID(id)).value.contentId) in old(repo.contents)
                               then old(repo.contents)[FilterId(old(repo.FindRefByID(id)).value.contentId) :=
                                      Overwritten(old(repo.contents)[FilterId(old(repo.FindRefByID(id)).value.contentId)],
                                                  Edit(body.value), repo.clock)]
                               else old(repo.contents)
    {
      var ref := repo.FindRefByID(id);
      if ref.None? {
        return Fail(NotFound);
      }
      if IsStudent(caller) {
        if ref.value.studentId != caller.userId {
          return Fail(Forbidden);
        }
        if ref.value.status != Draft && ref.value.status != Rejected {
          return Fail(BadRequest);
        }
      }
      if body.None? {
        return Fail(BadRequest);
      }
      var _ := repo.UpdateContentMongo(ref.value.contentId, Edit(body.value));
      return Ok(200, ());
    }

    /** Delete: only the owner, whatever their role, and only a DRAFT. Only
        the reference row goes; the document and history stay. */
    method Delete(caller: Caller, id: string) returns (res: Response<()>)
      requires repo.Valid()
      modifies repo`refs
      ensures repo.Valid()
      ensures old(repo.FindRefByID(id)).None? ==> res == Fail(NotFound)
      ensures (old(repo.FindRefByID(id)).Some? && old(repo.FindRefByID(id)).value.studentId != caller.userId)
                ==> res == Fail(Forbidden)
      ensures old(repo.FindRefByID(id)).Some? && old(repo.FindRefByID(id)).value.studentId == caller.userId ==>
                res == if old(repo.FindRefByID(id)).value.status == Draft then Ok(200, ()) else Fail(BadRequest)
      ensures repo.refs == if res.Ok? then DeleteWhere(old(repo.refs), RefId, id) else old(repo.refs)
      ensures repo.contents == old(repo.contents) && repo.histories == old(repo.histories)
    {
      var ref := repo.FindRefByID(id);
      if ref.None? {
        return Fail(NotFound);
      }
      if ref.value.studentId != caller.userId {
        return Fail(Forbidden);
      }
      if ref.value.status != Draft {
        return Fail(BadRequest);
      }
      var _ := repo.DeleteRef(id);
      return Ok(200, ());
    }

    /** Submit: the owner moves the reference to PENDING from any status,
        clearing the note, and a history row records the move. The writes'
        outcomes are not checked. */
    method Submit(caller: Caller, id: string, historyId: string) returns (res: Response<()>)
      requires repo.Valid() && historyId !in repo.HistoryIds()
      modifies repo`refs, repo`histories
      ensures repo.Valid()
      ensures old(repo.FindRefByID(id)).None? ==> res == Fail(NotFound)
      ensures old(repo.FindRefByID(id)).Some? ==>
                res == if old(repo.FindRefByID(id)).value.studentId == caller.userId then Ok(200, ()) else Fail(Forbidden)
      ensures repo.refs == if res.Ok? then UpdateWhere(old(repo.refs), RefId, id, Change(SetStatus(Pending, None, repo.clock)))
                           else old(repo.refs)
      ensures repo.histories == if res.Ok? && old(repo.FindRefByID(id)).Some? && HistoryTable !in repo.down
                                then old(repo.histories) + [HistoryEntry(historyId, id, caller.userId,
                                                                         StatusName(old(repo.FindRefByID(id)).value.status),
                                                                         "PENDING", "Submitted", repo.clock)]
                                else old(repo.histories)
    {
      var ref := repo.FindRefByID(id);
      if ref.None? {
        return Fail(NotFound);
      }
      if ref.value.studentId != caller.userId {
        return Fail(Forbidden);
      }
      var _ := repo.UpdateStatus(id, Pending, None);
      var _ := repo.AddHistory(HistoryEntry("", id, caller.userId, StatusName(ref.value.status), "PENDING", "Submitted", 0), historyId);
      return Ok(200, ());
    }

    /** Verify: the student's advisor, or an administrator, decides. A body
        status of exactly "VERIFIED" verifies; any other rejects with the
        notes. The history row records the body's status verbatim. When the
        reference cannot be read after the checks (an administrator naming
        an unknown id), the history row cannot be built and the request
        fails with 500, after the status write has matched nothing. */
    method Verify(caller: Caller, id: string, body: Option<VerifyForm>, historyId: string) returns (res: Response<()>)
      requires repo.Valid() && historyId !in repo.HistoryIds()
      modifies repo`refs, repo`histories
      ensures repo.Valid()
      ensures !IsAdmin(caller) && old(repo.IsAdvisorOfRef(id, caller.userId)) != Some(true) ==> res == Fail(Forbidden)
      ensures (IsAdmin(caller) || old(repo.IsAdvisorOfRef(id, caller.userId)) == Some(true)) ==>
                res == if body.None? || body.value.status == "" then Fail(BadRequest)
                       else if old(repo.FindRefByID(id)).None? then Fail(ServerError)
                       else Ok(200, ())
      ensures repo.refs == if res == Fail(Forbidden) || res == Fail(BadRequest) || ReferenceTable in repo.down then old(repo.refs)
                           else if body.value.status == "VERIFIED"
                           then UpdateWhere(old(repo.refs), RefId, id, Change(SetVerified(caller.userId, repo.clock)))
                           else UpdateWhere(old(repo.refs), RefId, id, Change(SetStatus(Rejected, Some(body.value.notes), repo.clock)))
      ensures old(repo.FindRefByID(id)).None? ==> repo.refs == old(repo.refs)
      ensures repo.histories == if res.Ok? && old(repo.FindRefByID(id)).Some? && HistoryTable !in repo.down
                                then old(repo.histories) + [HistoryEntry(historyId, id, caller.userId,
                                                                         StatusName(old(repo.FindRefByID(id)).value.status),
                                                                         body.value.status, body.value.notes, repo.clock)]
                                else old(repo.histories)
    {
      var isAdvisor := repo.IsAdvisorOfRef(id, caller.userId) == Some(true);
      if IsAdmin(caller) {
        isAdvisor := true;
      }
      if !isAdvisor {
        return Fail(Forbidden);
      }
      if body.None? || body.value.status == "" {
        return Fail(BadRequest);
      }
      var req := body.value;
      var ref := repo.FindRefByID(id);
      if ref.None? && ReferenceTable !in repo.down {
        UpdateWhereAbsent(repo.refs, RefId, id, Change(SetVerified(caller.userId, repo.clock)));
        UpdateWhereAbsent(repo.refs, RefId, id, Change(SetStatus(Rejected, Some(req.notes), repo.clock)));
      }
      if req.status == "VERIFIED" {
        var _ := repo.UpdateVerified(id, caller.userId);
      } else {
        var _ := repo.UpdateStatus(id, Rejected, Some(req.notes));
      }
      if ref.None? {
        return Fail(ServerError);
      }
      var _ := repo.AddHistory(HistoryEntry("", id, caller.userId, StatusName(ref.value.status), req.status, req.notes, 0), historyId);
      return Ok(200, ());
    }

    /** Reject: the same handler as Verify. */
    method Reject(caller: Caller, id: string, body: Option<VerifyForm>, historyId: string) returns (res: Response<()>)
      requires repo.Valid() && historyId !in repo.HistoryIds()
      modifies repo`refs, repo`histories
      ensures repo.Valid()
      ensures !IsAdmin(caller) && old(repo.IsAdvisorOfRef(id, caller.userId)) != Some(true) ==> res == Fail(Forbidden)
      ensures (IsAdmin(caller) || old(repo.IsAdvisorOfRef(id, caller.userId)) == Some(true)) ==>
                res == if body.None? || body.value.status == "" then Fail(BadRequest)
                       else if old(repo.FindRefByID(id)).None? then Fail(ServerError)
                       else Ok(200, ())
      ensures repo.refs == if res == Fail(Forbidden) || res == Fail(BadRequest) || ReferenceTable in repo.down then old(repo.refs)
                           else if body.value.status == "VERIFIED"
                           then UpdateWhere(old(repo.refs), RefId, id, Change(SetVerified(caller.userId, repo.clock)))
                           else UpdateWhere(old(repo.refs), RefId, id, Change(SetStatus(Rejected, Some(body.value.notes), repo.clock)))
      ensures old(repo.FindRefByID(id)).None? ==> repo.refs == old(repo.refs)
      ensures repo.histories == if res.Ok? && old(repo.FindRefByID(id)).Some? && HistoryTable !in repo.down
                                then old(repo.histories) + [HistoryEntry(historyId, id, caller.userId,
                                                                         StatusName(old(repo.FindRefByID(id)).value.status),
                                                                         body.value.status, body.value.notes, repo.clock)]
                                else old(repo.histories)
    {
      res := Verify(caller, id, body, historyId);
    }

    /** GetHistory: the reference's history, newest first, for any caller;
        a failed query answers an empty list. */
    method GetHistory(id: string) returns (res: Response<seq<HistoryEntry>>)
      requires repo.Valid()
      ensures res.Ok? && res.code == 200
      ensures res.body == if HistoryTable in repo.down then [] else NewestFirst(repo.histories, HistoryFor(id))
      ensures NewestToOldest(res.body, HistoryCreatedAt)
    {
      var _, list := repo.GetHistory(id);
      return Ok(200, list);
    }

    /** UploadAttachment: save one more file and append it to the
        document's attachments. Any extension is accepted, kept as given. */
    method UploadAttachment(caller: Caller, id: string, file: Option<Upload>) returns (res: Response<Attachment>)
      requires repo.Valid()
      modifies repo`contents
      ensures repo.Valid()
      ensures old(repo.FindRefByID(id)).None? ==> res == Fail(NotFound)
      ensures old(repo.FindRefByID(id)).Some? && !MayAttach(caller, old(repo.FindRefByID(id))) ==> res == Fail(Forbidden)
      ensures MayAttach(caller, old(repo.FindRefByID(id))) ==>
                res == if file.None? then Fail(BadRequest)
                       else if !file.value.saves || ContentCollection in repo.down then Fail(ServerError)
                       else Ok(200, Uploaded(id, file.value, repo.clock))
      ensures repo.contents == if res.Ok? && old(repo.FindRefByID(id)).Some?
                                  && FilterId(old(repo.FindRefByID(id)).value.contentId) in old(repo.contents)
                               then old(repo.contents)[FilterId(old(repo.FindRefByID(id)).value.contentId) :=
                                      WithAttachment(old(repo.contents)[FilterId(old(repo.FindRefByID(id)).value.contentId)],
                                                     res.body, repo.clock)]
                               else old(repo.contents)
    {
      var ref := repo.FindRefByID(id);
      if ref.None? {
        return Fail(NotFound);
      }
      if IsStudent(caller) && ref.value.studentId != caller.userId {
        return Fail(Forbidden);
      }
      if file.None? {
        return Fail(BadRequest);
      }
      if !file.value.saves {
        return Fail(ServerError);
      }
      var att := Uploaded(id, file.value, repo.clock);
      var ok := repo.AddAttachmentMongo(ref.value.contentId, att);
      if !ok {
        return Fail(ServerError);
      }
      return Ok(200, att);
    }
  }
}
