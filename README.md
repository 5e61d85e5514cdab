# Student achievement reporting (pelaporan_prestasi): a Dafny model

The service lets students report achievements and lets their academic
advisors or administrators verify them. An achievement is split across two
stores:

- a *reference* row in the relational store holds the workflow state:
  owner, status DRAFT / PENDING / VERIFIED / REJECTED, rejection note and
  verifier;
- a *content* document in the document store holds title, description,
  type, points, tags, details and file attachments;
- every status change appends a row to the *history* table.

Around this workflow sit a users table with soft delete and role-based
handlers over users, students (mahasiswa), lecturers (dosen) and reports.

The model covers the achievement and user repositories, the achievement,
user, student, lecturer and report handlers, and the response projection.

- **Stores.** `AchievementRepo.AchievementRepository` is a class whose
  fields are the reference rows (in insertion order), the documents keyed
  by ObjectID, the history rows, the stores' clock and the set of stores
  that cannot be reached. `UserRepo.UserRepository` is the users table.
  `AdvisorDirectory.Directory` is the advisor relation (student row →
  lecturer id → lecturer's user id) that the joins read.
- **Tables.** `Tables` defines the table operations once: lookup by key,
  `UPDATE … WHERE`, `DELETE … WHERE`, selection newest-created first, and
  order-preserving filter and concatenating map. It proves their
  properties once, for any row type.
- **Handlers.** Each handler takes the caller's `(user id, role id)` and
  answers a `Response`: `Ok(code, body)` or `Fail(Forbidden | BadRequest |
  NotFound | ServerError)`. Handlers that write are methods whose
  contracts give the answer and the whole new state of the store.
- **Inputs.** Generated ids (ObjectIDs, row ids, upload uuids), the
  bcrypt hash and whether saving an uploaded file succeeds are parameters.
  `time.Now()` and `NOW()` are the repository's clock, which only moves
  forward. The rows of the read-only student, lecturer and report queries
  are parameters of the handlers that use them.

Behaviour the model keeps as the code has it:

- Submit moves a reference to PENDING from any status, VERIFIED included.
- Verify and Reject are one handler. A body status other than exactly
  "VERIFIED" rejects, and the history row records the body's status
  verbatim.
- An administrator who verifies an unknown id gets 500. The handler runs a
  status update that matches nothing and then dereferences the missing
  reference.
- Create does not roll back: when the reference insert fails after the
  document insert, the document stays.
- UploadAttachment accepts any extension and keeps it as given. Create
  accepts only .pdf, .jpg, .jpeg and .png, compared after case folding.
- Update and Submit ignore the outcome of their writes. GetHistory answers
  an empty list when its query fails. GetStudentReport reads a failed
  reference query as no references.
- UpdateUser writes whatever role id, name and email the body carries; a
  missing field reads as "". A non-admin's non-empty role id is replaced
  by the caller's own role, but an empty one is written as it is.

## Model

| member | source | states |
|---|---|---|
| Common.Ext | app/service/achievement_service.go:143 | the extension is "" or starts with '.', is a suffix of the path and holds no further '.' or '/' (the path library's extension function) |
| Common.ExtOfSuffix | app/service/achievement_service.go:143 | a path ending in '.' plus a run free of '.' and '/' has that suffix as its extension |
| Common.Lower | app/service/achievement_service.go:143 | case folding keeps the length and leaves no upper-case ASCII letter |
| Tables.Lookup | app/repository/achievement_repository.go:82-88 | a single-row query finds a row with the key, and finds none exactly when no row has it |
| Tables.LookupAt | app/repository/achievement_repository.go:82-88 | with unique keys, looking up a row's key finds that very row |
| Tables.UpdateWhereLookup | app/repository/achievement_repository.go:105-115 | after `UPDATE … WHERE id = k`, the row with key k is the updated row and every other key finds what it found before |
| Tables.UpdateWhereAbsent | app/service/achievement_service.go:354-359 | an update whose key names no row leaves the table as it was |
| Tables.UpdateWhereKeepsOrder | app/repository/achievement_repository.go:105-115 | an update that keeps creation times keeps the keys unique and the rows in creation order |
| Tables.DeleteWhere | app/repository/achievement_repository.go:117-120 | a delete removes exactly the rows with the key and keeps the others in order |
| Tables.DeleteWhereKeepsOrder | app/repository/achievement_repository.go:117-120 | a delete keeps the keys unique and the rows in creation order |
| Tables.DeleteWhereLookup | app/repository/achievement_repository.go:117-120 | after the delete the key finds nothing and every other key finds what it found before |
| Tables.NewestFirst | app/repository/achievement_repository.go:90-103 | a selection holds exactly the matching rows |
| Tables.NewestFirstIsNewestToOldest | app/repository/achievement_repository.go:131 | rows inserted in creation order are selected newest-created first (ORDER BY created_at DESC) |
| Tables.ConcatMapMembers | app/service/achievement_service.go:70-76 | a result of the append loop is produced exactly when some row yields it |
| Tables.ConcatMapAppend | app/service/achievement_service.go:70-76 | the append loop keeps the order of the rows |
| Tables.ConcatMapOneEach | app/service/achievement_service.go:70-76 | when each row yields one result, the i-th result is the i-th row's |
| Tables.FilterMembers | app/service/mahasiswa_service.go:39-47 | a filter loop keeps exactly the rows that pass |
| Tables.FilterAppend | app/service/mahasiswa_service.go:39-47 | a filter loop keeps the rows' order |
| Tables.FilterAll | app/service/dosen_service.go:32-38 | when every row passes, the filter is the whole listing |
| Tables.FilterNone | app/service/dosen_service.go:32-38 | when no row passes, the filter is the empty list |
| AchievementModels.ParseObjectId | app/repository/achievement_repository.go:42-43 | parsing accepts exactly 24 hex digits, and answers them in lower case |
| AchievementModels.ParseObjectIdRoundTrip | app/repository/achievement_repository.go:38-43 | the hex form of a stored id parses back to that id |
| AchievementModels.FilterId | app/repository/achievement_repository.go:50 | a write filters on the parsed id, or on the nil id when the parse fails |
| AchievementModels.AdvisorUserOf | app/repository/achievement_repository.go:146-155 | a student has an advisor user exactly when their row names a lecturer that exists |
| ReferenceRows.Apply | app/repository/achievement_repository.go:105-115 | UpdateStatus writes status and note and clears nothing else; UpdateVerified writes VERIFIED, verifier and time and keeps the note; owner, content id and creation time never change |
| ReferenceRows.ListingContents | app/repository/achievement_repository.go:162-173 | a list query holds exactly the matching rows, read without note or verifier |
| ReferenceRows.ListingOrder | app/repository/achievement_repository.go:90-103 | a list query lists the matching rows newest-created first |
| AdvisorDirectory.WithAdvisor | app/repository/mahasiswa_repository.go:77-80 | the student row with the id gets the new advisor; no other row and no lecturer changes |
| AdvisorDirectory.WithAdvisorAdvisor | app/repository/mahasiswa_repository.go:77-80 | after the change the student's advisor user is the new lecturer's user; other students keep theirs |
| AdvisorDirectory.Directory.constructor | app/repository/mahasiswa_repository.go:12-14 | a reachable advisor relation over the given roster |
| AdvisorDirectory.Directory.UpdateAdvisor | app/repository/mahasiswa_repository.go:77-80 | succeeds exactly when the store is reachable, and then sets the advisor as WithAdvisor does; an unknown student id is not an error |
| UserRepo.ApplyUser | app/repository/user_repository.go:112-140 | Update writes only name, role and email; UpdatePassword only the hash; UpdateRole only the role; Delete only clears the active flag; id, username and creation time never change |
| UserRepo.WithKnownRole | app/repository/user_repository.go:24-27 | the inner join with roles keeps exactly the users whose role exists |
| UserRepo.ListRows | app/repository/user_repository.go:67-94 | FindAll lists one row per user, none with its hash |
| UserRepo.UserRepository.constructor | app/repository/user_repository.go:16-18 | an empty, reachable users table |
| UserRepo.UserRepository.FindByUsername | app/repository/user_repository.go:21-43 | finds a user of that name whose role exists, hash and active flag included, soft-deleted or not; "not found" exactly when none has a known role; a store error when unreachable |
| UserRepo.UserRepository.FindByID | app/repository/user_repository.go:46-65 | the same for an id, read without hash or active flag |
| UserRepo.UserRepository.FindAll | app/repository/user_repository.go:67-94 | every user newest first without hash; fails when unreachable or when any user's role does not exist (the null role name cannot be read) |
| UserRepo.UserRepository.Create | app/repository/user_repository.go:97-109 | appends the user as active with the generated id and the store's time, and writes the id back |
| UserRepo.UserRepository.Change | app/repository/user_repository.go:112-140 | one UPDATE statement: applies the change to the row with the id; an unknown id is not an error |
| UserRepo.UserRepository.Update | app/repository/user_repository.go:112-120 | overwrites name, role id and email of the row with the id |
| UserRepo.UserRepository.UpdatePassword | app/repository/user_repository.go:123-127 | overwrites only the hash |
| UserRepo.UserRepository.UpdateRole | app/repository/user_repository.go:129-133 | overwrites only the role id |
| UserRepo.UserRepository.Delete | app/repository/user_repository.go:136-140 | the soft delete: only the active flag changes |
| UserRepo.ChangeEffect | app/repository/user_repository.go:112-140 | after an update the row with the id is the changed row, every other id finds what it found before, and no row appears or disappears |
| UserRepo.SoftDeleteKeepsRow | app/repository/user_repository.go:136-140 | after the soft delete the user is still found, inactive, with every other column as before |
| AchievementRepo.Stamped | app/repository/achievement_repository.go:28-35 | absent attachments, details and tags become empty, both timestamps are set, every other field is kept |
| AchievementRepo.Overwritten | app/repository/achievement_repository.go:49-62 | title, description, type, points, tags and details are overwritten and updatedAt set; id, owner, attachments and createdAt are kept |
| AchievementRepo.WithAttachment | app/repository/achievement_repository.go:65-73 | exactly one attachment is appended at the end and the earlier ones are kept in order |
| AchievementRepo.ContentAt | app/repository/achievement_repository.go:41-47 | a document is found exactly when the store is up, the id parses and names a stored document |
| AchievementRepo.InsertedContentFound | app/repository/achievement_repository.go:28-47 | a document inserted under a fresh ObjectID is found again by that id's hex form |
| AchievementRepo.UnparsableIdMatchesNothing | app/repository/achievement_repository.go:49-73 | the nil id the failed parse produces names no stored document |
| AchievementRepo.AchievementRepository.constructor | app/repository/achievement_repository.go:21-24 | empty, reachable stores |
| AchievementRepo.AchievementRepository.InsertMongo | app/repository/achievement_repository.go:28-39 | stores the stamped document under the generated ObjectID and answers its hex form; nothing stored and "" when the store is down |
| AchievementRepo.AchievementRepository.FindContent | app/repository/achievement_repository.go:41-47 | the stored document of the parsed id, or an error when down, unparsable or missing |
| AchievementRepo.AchievementRepository.UpdateContentMongo | app/repository/achievement_repository.go:49-62 | overwrites the editable fields of the document with the parsed id; a missing or unparsable id changes nothing and is not an error |
| AchievementRepo.AchievementRepository.AddAttachmentMongo | app/repository/achievement_repository.go:65-73 | appends the attachment to the document with the parsed id; nothing else changes |
| AchievementRepo.AchievementRepository.InsertPostgres | app/repository/achievement_repository.go:77-80 | appends a DRAFT row whatever status the argument carries, writes the generated id back, and fails when the owner is not a user |
| AchievementRepo.AchievementRepository.FindRefByID | app/repository/achievement_repository.go:82-88 | the row with the id, read with its note, or an error when down or missing |
| AchievementRepo.AchievementRepository.FetchRefs | app/repository/achievement_repository.go:162-173 | the scan loop collects exactly the list query's rows newest first |
| AchievementRepo.AchievementRepository.FindRefsByStudentID | app/repository/achievement_repository.go:90-93 | the student's rows, newest first |
| AchievementRepo.AchievementRepository.FindRefsByAdvisorID | app/repository/achievement_repository.go:95-98 | the rows of students whose advisor_id column equals the argument, compared as a lecturer id |
| AchievementRepo.AchievementRepository.FindAllRefs | app/repository/achievement_repository.go:100-103 | every row, newest first |
| AchievementRepo.AchievementRepository.UpdateStatus | app/repository/achievement_repository.go:105-109 | sets status and note (a nil note clears it) of the row with the id |
| AchievementRepo.AchievementRepository.UpdateVerified | app/repository/achievement_repository.go:111-115 | sets VERIFIED, verifier and time, keeping the note |
| AchievementRepo.AchievementRepository.DeleteRef | app/repository/achievement_repository.go:117-120 | removes only the reference row; documents and history stay |
| AchievementRepo.AchievementRepository.AddHistory | app/repository/achievement_repository.go:124-128 | appends the entry with the generated id and the store's time |
| AchievementRepo.AchievementRepository.GetHistory | app/repository/achievement_repository.go:130-142 | the achievement's history rows, newest-created first |
| AchievementRepo.AchievementRepository.IsAdvisorOfRef | app/repository/achievement_repository.go:144-160 | answers whenever the store is up, and then whether a reference with the id has a student whose advisor's user is the caller |
| AchievementRepo.AchievementRepository.IsAdvisorOfRefFindsRef | app/repository/achievement_repository.go:144-160 | the advisor check holds exactly when FindRefByID finds the reference and its student's advisor user is the caller |
| AchievementDto.ToAchievementResponse | app/models/dto/achievement_dto.go:15-22 | ref id, status and note are the reference's, the content is the document unchanged |
| AchievementDto.ResponseExposes | app/models/dto/achievement_dto.go:8-13 | two responses are equal exactly when id, status, note and document are, so verifier and verification time never show |
| AchievementDto.Joined | app/service/achievement_service.go:72-75 | a reference yields its response exactly when its document is found |
| AchievementDto.ResponsesMembers | app/service/achievement_service.go:70-76 | a listed response is exactly a reference joined with its found document |
| AchievementDto.ResponsesAppend | app/service/achievement_service.go:70-76 | the listing keeps the references' order |
| AchievementDto.ResponsesComplete | app/service/achievement_service.go:70-76 | when every document is found, nothing is dropped and the i-th response is the i-th reference's |
| AchievementDto.StudentResponsesOwned | app/service/mahasiswa_service.go:108-120 | a student's listing shows only that student's references, with their status and no note |
| AchievementDto.CollectResponses | app/service/achievement_service.go:70-76 | the loop produces exactly the joined listing |
| AchievementHandlers.AcceptedFileNames | app/service/achievement_service.go:141-147 | the extension check accepts exactly the names that end, in any letter case, in .pdf, .jpg, .jpeg or .png |
| AchievementHandlers.Evidence | app/service/achievement_service.go:138-169 | no attachment without a file; otherwise one, named as uploaded, typed by the folded extension, stored under the owner's id |
| AchievementHandlers.NewContent | app/service/achievement_service.go:173-182 | the stored document is the caller's, with the form's fields, empty details and at most one attachment |
| AchievementHandlers.ListQueryAsWritten | app/service/achievement_service.go:54-63 | as written: a student queries by their own id, a lecturer by the advisor_id column compared with their user id, an admin everything, any other role is refused |
| AchievementHandlers.LecturerListingAsWrittenHoldsNoAdvisee | app/service/achievement_service.go:56-57 | as written, when a lecturer's user id is not also a lecturer id, their listing holds no reference of a student who has an advisor |
| AchievementHandlers.ListQuery | app/service/achievement_service.go:54-63 | every role but student, lecturer and admin is refused |
| AchievementHandlers.ListQueryScope | app/service/achievement_service.go:54-63 | a student lists their own references, a lecturer exactly their advisees' (those IsAdvisorOfRef admits), an admin all |
| AchievementHandlers.LecturerListingAsWrittenMissesAdvisee | app/service/achievement_service.go:56-57 | as written, a lecturer's listing misses a reference of a student they advise |
| AchievementHandlers.Uploaded | app/service/achievement_service.go:421-433 | the new attachment is named as uploaded, typed by the unfolded extension, stored under the reference id |
| AchievementHandlers.AchievementService.constructor | app/service/achievement_service.go:22-24 | the handlers over one repository |
| AchievementHandlers.AchievementService.GetList | app/service/achievement_service.go:47-78 | 403 for other roles, 500 when the query fails, else the references of the corrected query newest first joined with their documents: a student's own, a lecturer's advisees' (see Findings), an admin's all |
| AchievementHandlers.AchievementService.GetDetail | app/service/achievement_service.go:88-108 | 404 exactly when the reference is not found, 403 exactly for another student's, 500 exactly when the document is missing, else the joined response |
| AchievementHandlers.AchievementService.StoreNew | app/service/achievement_service.go:173-220 | the document is stored even when the reference insert then fails; success exactly when both inserts succeed; the DRAFT reference and NONE→DRAFT history row are then added, and a failed history write does not fail the request |
| AchievementHandlers.AchievementService.Create | app/service/achievement_service.go:124-221 | 403 for non-students and 400 for a bad form or a disallowed extension, both with no write; 500 when the file cannot be saved; else StoreNew's writes and answer |
| AchievementHandlers.AchievementService.Update | app/service/achievement_service.go:231-276 | 404, 403 for another student's, 400 for a student's non-DRAFT/REJECTED reference or a bad body, other roles unchecked; on success the document's editable fields are overwritten |
| AchievementHandlers.AchievementService.Delete | app/service/achievement_service.go:285-304 | only the owner, whatever their role, and only a DRAFT; otherwise 404/403/400 with no change; documents and history stay |
| AchievementHandlers.AchievementService.Submit | app/service/achievement_service.go:313-328 | the owner moves the reference to PENDING from any status with the note cleared, and a previous→PENDING history row is added |
| AchievementHandlers.AchievementService.Verify | app/service/achievement_service.go:338-365 | only the advisor or an admin; "VERIFIED" verifies with the caller as verifier, anything else rejects with the notes; history records the body status verbatim; 500 for an unknown id |
| AchievementHandlers.AchievementService.Reject | app/service/achievement_service.go:375-378 | the same answer and writes as Verify |
| AchievementHandlers.AchievementService.GetHistory | app/service/achievement_service.go:387-391 | 200 for anyone with the history newest first, or an empty list when the query fails |
| AchievementHandlers.AchievementService.UploadAttachment | app/service/achievement_service.go:403-441 | 404, 403 for another student's, 400 without a file, 500 when saving or the store fails; else the attachment is appended and answered |
| UserHandlers.RoleToWrite | app/service/user_service.go:172-175 | an admin's role id is written as given; a non-admin's non-empty role id becomes exactly their own role, and an empty one stays "" |
| UserHandlers.Shown | app/models/postgres/user.go:9 | a response never carries the hash |
| UserHandlers.UserService.constructor | app/service/user_service.go:23-25 | the handlers over one users table |
| UserHandlers.UserService.GetAllUsers | app/service/user_service.go:57-68 | 403 for non-admins; else every user, soft-deleted included, without hash, or 500 |
| UserHandlers.UserService.GetUserByID | app/service/user_service.go:82-103 | 403 exactly when a non-admin asks for another id, 404 exactly when the lookup fails, else the user with an empty hash |
| UserHandlers.UserService.CreateUser | app/service/user_service.go:115-141 | 403 for non-admins and 400 for a bad body, both with no write; else the active user is added, or 500 |
| UserHandlers.UserService.UpdateUser | app/service/user_service.go:154-189 | a non-admin edits only themself; their non-empty role id leaves the stored role unchanged when it is the caller's role, while an empty role id writes "" for anyone; hash and active flag stay; no other user changes |
| UserHandlers.UserService.UpdateRole | app/service/user_service.go:203-225 | admins only, 400 without a role id, else only the role changes |
| UserHandlers.UserService.DeleteUser | app/service/user_service.go:237-247 | admins only; the soft delete keeps every user, the target now inactive |
| StudentHandlers.GetAll | app/service/mahasiswa_service.go:28-53 | 500 when the listing fails, else the rows the caller is shown in the listing's order, [] when none |
| StudentHandlers.ListingVisibility | app/service/mahasiswa_service.go:38-47 | a row is listed exactly when the caller is admin, its advisor's user (lecturer) or its own user (student) |
| StudentHandlers.AdminListsEveryStudent | app/service/mahasiswa_service.go:40-41 | an admin is shown the whole listing in order |
| StudentHandlers.OtherRolesListNoStudent | app/service/mahasiswa_service.go:39-51 | any other role is shown the empty list |
| StudentHandlers.ListedStudentsViewable | app/service/mahasiswa_service.go:38-79 | every row the listing shows a caller is one whose detail they may read |
| StudentHandlers.GetDetail | app/service/mahasiswa_service.go:61-80 | 404 exactly for an unknown id, 403 exactly unless admin, owner or advisor user |
| StudentHandlers.NoAdvisorNoAdvisorAccess | app/service/mahasiswa_service.go:72-78 | a student without advisor is readable only by admin and themself |
| StudentHandlers.StudentService.constructor | app/service/mahasiswa_service.go:19-21 | the handlers over the achievement store and the advisor relation |
| StudentHandlers.StudentService.GetAchievements | app/service/mahasiswa_service.go:92-122 | GetDetail's checks, 500 when the query fails, else the student's references newest first with their documents, only the student's |
| StudentHandlers.StudentService.UpdateAdvisor | app/service/mahasiswa_service.go:135-153 | admins only, 400 without an advisor id, both with no write; else the advisor is set, or 500 |
| LecturerHandlers.GetAll | app/service/dosen_service.go:21-44 | 500 when the listing fails, else the rows the caller is shown in the listing's order, [] when none |
| LecturerHandlers.AdminListsEveryLecturer | app/service/dosen_service.go:33-34 | an admin sees every lecturer in order |
| LecturerHandlers.LecturerListsOwnRow | app/service/dosen_service.go:35-36 | a lecturer sees exactly their own rows |
| LecturerHandlers.OtherRolesListNoLecturer | app/service/dosen_service.go:31-42 | any other role sees the empty list |
| LecturerHandlers.GetAdvisees | app/service/dosen_service.go:52-73 | 404 exactly for an unknown lecturer, 403 exactly for another lecturer, admins and students unchecked, 500 when the advisee query fails |
| ReportHandlers.GetGlobalStats | app/service/report_service.go:24-42 | admin gets "Global", student "Personal" with their own counts, lecturer "Dosen Wali" with a fixed message, other roles no answer |
| ReportHandlers.PersonalStatsAreOwn | app/service/report_service.go:33-36 | personal counts are always the caller's own |
| ReportHandlers.ReportService.constructor | app/service/report_service.go:15-17 | the handlers over the achievement store |
| ReportHandlers.ReportService.GetStudentReport | app/service/report_service.go:50-84 | 404 for an unknown student, 403 only for another student, else the record with the student's references newest first joined with their documents, [] when the query fails |

## Left out

- Authentication (JWT signing and checking, bcrypt hashing and comparing) is not part of this model. The caller's user id and role id are trusted inputs, and the hash is a parameter.
- Disk writes, directory creation and `filepath.Join` cleaning are not modelled. A saved path is `uploads/<owner>_<uuid><ext>`, and whether saving succeeds is a parameter.
- `uuid.New`, ObjectID generation and row-id generation are fresh-id parameters. `time.Now()` and `NOW()` are one monotone clock.
- Connection setup, routing and wiring are not part of this model.
- Store failures are modelled as unreachable stores (the `down` set and `offline` flags). Other driver errors are not modelled.
- The SQL of the student, lecturer and report repositories is not modelled: their joins, COALESCE defaults, ORDER BY and GROUP BY. The handlers take those queries' rows as inputs. The advisor relation that the achievement joins read is modelled by `Directory`.
- The schema is not modelled: UUID column types, and foreign keys other than reference owner → users. A role id or advisor id the schema would refuse succeeds in the model.
- The checks on request bodies are partly modelled. A body that cannot be read, or that the email-format rule of CreateUser rejects, is an absent body (None). Required-field and minimum-length rules are modelled.
- JSON encoding is reduced to status codes and bodies: messages, `null` versus `[]`, and the floating-point detail values. `Shown` models the hash that is never serialised.
- Concurrency is out of scope: each repository call is one atomic step.
- Case folding is ASCII-only. The extension check involves only ASCII characters.
- AchievementHandlers.AchievementService.GetList: the lecturer branch runs the corrected query (`ListQuery`, by the advisor's user id), not the source's `FindRefsByAdvisorID` with the user id. The as-written query is `ListQueryAsWritten`, and the Findings section shows what it misses.
- The advisor relation (`AchievementModels.Roster`) keys student rows by user id, so the model assumes at most one mahasiswa row per user. The joins of the source do not rely on that.
- UserRepo.UserRepository.FindByUsername: when several users share a username, the model answers the first in table order, while the store's choice is unspecified.
- AchievementHandlers.AchievementService.Update: the model answers 200 when the document store is down. That matches the source, which ignores the write's error. The contract does not state the document's new updatedAt apart from the overwrite.

## Findings

| source | as written | input that shows it | evidently intended | confidence | as-written member | corrected member |
|---|---|---|---|---|---|---|
| app/service/achievement_service.go:56-57 | GetList passes a lecturer's user id to FindRefsByAdvisorID, which compares it with `mahasiswa.advisor_id`, a lecturer id | lecturer row "lecturer-row" with user "lecturer-user" advising student "student-user": the listing as written misses that student's references | list the references of the lecturer's advisees through the lecturer's user id, as the verification check IsAdvisorOfRef does | not executed | AchievementHandlers.LecturerListingAsWrittenMissesAdvisee | AchievementHandlers.ListQueryScope |
