/** The achievement repository: the content documents in the document
    store, and the reference and history rows in the relational store, with
    the exact effect of every insert, update, delete and query on them. */
module AchievementRepo {
  import opened Common
  import opened Tables
  import opened AchievementModels
  import opened ReferenceRows
  import opened UserRepo
  import opened AdvisorDirectory

  /** The parts of the two stores that can fail independently. */
  datatype Store = ReferenceTable | ContentCollection | HistoryTable

  function OrEmpty<T>(s: Option<seq<T>>): seq<T>
  {
    if s.Some? then s.value else []
  }

  /** The document InsertMongo stores: null collections become empty ones
      and both timestamps are set; everything else is the caller's. */
  function Stamped(data: Content, now: Time): (c: Content)
    ensures c.attachments == Some(OrEmpty(data.attachments)) && c.tags == Some(OrEmpty(data.tags))
    ensures c.details == Some(if data.details.Some? then data.details.value else map[])
    ensures c.createdAt == now && c.updatedAt == now
    ensures c.id == data.id && c.studentId == data.studentId && c.title == data.title
    ensures c.description == data.description && c.achievementType == data.achievementType
    ensures c.points == data.points && c.deleted == data.deleted
  {
    data.(attachments := Some(OrEmpty(data.attachments)),
          details := Some(if data.details.Some? then data.details.value else map[]),
          tags := Some(OrEmpty(data.tags)),
          createdAt := now, updatedAt := now)
  }

  /** The document after UpdateContentMongo's $set: the editable fields come
      from `data` (a null tags or details included), the update time is set,
      and owner, attachments, creation time and id stay. */
  function Overwritten(c: Content, data: Content, now: Time): (c': Content)
    ensures c'.title == data.title && c'.description == data.description
    ensures c'.achievementType == data.achievementType && c'.points == data.points
    ensures c'.tags == data.tags && c'.details == data.details && c'.updatedAt == now
    ensures c'.id == c.id && c'.studentId == c.studentId && c'.attachments == c.attachments
    ensures c'.createdAt == c.createdAt && c'.deleted == c.deleted
  {
    c.(title := data.title, description := data.description, achievementType := data.achievementType,
       points := data.points, tags := data.tags, details := data.details, updatedAt := now)
  }

  /** The document after AddAttachmentMongo's $push: one more attachment at
      the end, the earlier ones kept in order, the update time set. */
  function WithAttachment(c: Content, att: Attachment, now: Time): (c': Content)
    requires c.attachments.Some?
    ensures c'.attachments.Some? && |c'.attachments.value| == |c.attachments.value| + 1
    ensures c'.attachments.value[..|c.attachments.value|] == c.attachments.value
    ensures c'.attachments.value[|c.attachments.value|] == att
    ensures c'.updatedAt == now
    ensures c' == c.(attachments := c'.attachments, updatedAt := now)
  {
    c.(attachments := Some(c.attachments.value + [att]), updatedAt := now)
  }

  /** FindContentByMongoID over the collection: an id that does not parse,
      an unreachable store and a missing document are all errors (None). */
  function ContentAt(contents: map<string, Content>, up: bool, hexId: string): (r: Option<Content>)
    ensures r.Some? <==> up && ParseObjectId(hexId).Some? && ParseObjectId(hexId).value in contents
    ensures r.Some? ==> r.value == contents[ParseObjectId(hexId).value]
  {
    if !up then None
    else match ParseObjectId(hexId)
      case None => None
      case Some(k) => if k in contents then Some(contents[k]) else None
  }

  /** Documents are keyed by the canonical hex form of their ObjectID, which
      is never the nil one, and always hold an attachments array. */
  ghost predicate ContentsWellFormed(contents: map<string, Content>)
  {
    forall k :: k in contents ==>
      IsObjectIdHex(k) && k != NilObjectId && contents[k].id == k && contents[k].attachments.Some?
  }

  /** A document stored under a generated ObjectID is found again by the
      hex id that the insert returned. */
  lemma InsertedContentFound(contents: map<string, Content>, oid: string, c: Content)
    requires IsObjectIdHex(oid)
    ensures ContentAt(contents[oid := c], true, oid) == Some(c)
  {
    ParseObjectIdRoundTrip(oid);
  }

  /** A write addressed by an id that does not parse filters on the nil
      ObjectID, which names no document, so it matches nothing. */
  lemma UnparsableIdMatchesNothing(contents: map<string, Content>, hexId: string)
    requires ContentsWellFormed(contents) && ParseObjectId(hexId).None?
    ensures FilterId(hexId) !in contents
  {
  }

  /** The reference table, the content collection and the history table,
      with the user table that references point at and the advisor relation
      the joins read. */
  class AchievementRepository {
    var refs: seq<Reference>
    var contents: map<string, Content>
    var histories: seq<HistoryEntry>
    /** The clock of both stores. */
    var clock: Time
    /** The stores currently unreachable. */
    var down: set<Store>
    const users: UserRepository
    const directory: Directory

    ghost predicate Valid()
      reads this
    {
      && UniqueKeys(refs, RefId) && Chronological(refs, RefCreatedAt)
      && (forall r :: r in refs ==> r.createdAt <= clock)
      && UniqueKeys(histories, HistoryId) && Chronological(histories, HistoryCreatedAt)
      && (forall h :: h in histories ==> h.createdAt <= clock)
      && ContentsWellFormed(contents)
    }

    constructor(users: UserRepository, directory: Directory, start: Time)
      ensures Valid() && refs == [] && contents == map[] && histories == [] && clock == start && down == {}
      ensures this.users == users && this.directory == directory
    {
      refs := [];
      contents := map[];
      histories := [];
      clock := start;
      down := {};
      this.users := users;
      this.directory := directory;
    }

    function RefIds(): set<string>
      reads this
    {
      set r | r in refs :: r.id
    }

    function HistoryIds(): set<string>
      reads this
    {
      set h | h in histories :: h.id
    }

    method SetDown(stores: set<Store>)
      modifies this`down
      ensures down == stores
    {
      down := stores;
    }

    method AdvanceClock(t: Time)
      requires Valid() && clock <= t
      modifies this`clock
      ensures Valid() && clock == t
    {
      clock := t;
    }

    /** InsertMongo: normalise and stamp `data` (the caller sees the stamped
        value even when the insert then fails), store it under the generated
        ObjectID `oid` and answer that id's hex form. */
    method InsertMongo(data: Content, oid: string) returns (ok: bool, hexId: string, stamped: Content)
      requires Valid() && data.id == ""
      requires IsObjectIdHex(oid) && oid != NilObjectId && oid !in contents
      modifies this`contents
      ensures Valid()
      ensures stamped == Stamped(data, clock)
      ensures ok == (ContentCollection !in down)
      ensures hexId == if ok then oid else ""
      ensures contents == if ok then old(contents)[oid := stamped.(id := oid)] else old(contents)
    {
      stamped := Stamped(data, clock);
      if ContentCollection in down {
        return false, "", stamped;
      }
      contents := contents[oid := stamped.(id := oid)];
      return true, oid, stamped;
    }

    /** FindContentByMongoID. */
    function FindContent(hexId: string): (r: Option<Content>)
      reads this
      ensures r.Some? ==> ParseObjectId(hexId).Some? && ParseObjectId(hexId).value in contents
                          && r.value == contents[ParseObjectId(hexId).value]
      ensures r.None? <==> ContentCollection in down || ParseObjectId(hexId).None?
                           || ParseObjectId(hexId).value !in contents
    {
      ContentAt(contents, ContentCollection !in down, hexId)
    }

    /** UpdateContentMongo: overwrite the editable fields of the document the
        id names. An unparsable id, or one naming no document, changes
        nothing and is not an error. */
    method UpdateContentMongo(hexId: string, data: Content) returns (ok: bool)
      requires Valid()
      modifies this`contents
      ensures Valid()
      ensures ok == (ContentCollection !in down)
      ensures contents == if ok && FilterId(hexId) in old(contents)
                          then old(contents)[FilterId(hexId) := Overwritten(old(contents)[FilterId(hexId)], data, clock)]
                          else old(contents)
    {
      if ContentCollection in down {
        return false;
      }
      var k := FilterId(hexId);
      if k in contents {
        contents := contents[k := Overwritten(contents[k], data, clock)];
      }
      return true;
    }

    /** AddAttachmentMongo: append one attachment to the document the id
        names; a document that is not there is not an error. */
    method AddAttachmentMongo(hexId: string, att: Attachment) returns (ok: bool)
      requires Valid()
      modifies this`contents
      ensures Valid()
      ensures ok == (ContentCollection !in down)
      ensures contents == if ok && FilterId(hexId) in old(contents)
                          then old(contents)[FilterId(hexId) := WithAttachment(old(contents)[FilterId(hexId)], att, clock)]
                          else old(contents)
    {
      if ContentCollection in down {
        return false;
      }
      var k := FilterId(hexId);
      if k in contents {
        contents := contents[k := WithAttachment(contents[k], att, clock)];
      }
      return true;
    }

    /** InsertPostgres: insert a row for `ref`'s student and content with
        status DRAFT, whatever status `ref` carries, and write the generated
        id back. The student must be a user (foreign key). */
    method InsertPostgres(ref: Reference, freshId: string) returns (ok: bool, written: Reference)
      requires Valid() && freshId !in RefIds()
      modifies this`refs
      ensures Valid()
      ensures ok == (ReferenceTable !in down && ref.studentId in users.Ids())
      ensures written == if ok then ref.(id := freshId) else ref
      ensures refs == if ok then old(refs) + [Reference(freshId, ref.studentId, ref.contentId, Draft,
                                                        None, None, None, clock, clock)]
                      else old(refs)
    {
      if ReferenceTable in down || ref.studentId !in users.Ids() {
        return false, ref;
      }
      assert forall r :: r in refs ==> r.id != freshId;
      refs := refs + [Reference(freshId, ref.studentId, ref.contentId, Draft, None, None, None, clock, clock)];
      return true, ref.(id := freshId);
    }

    /** FindRefByID: the row with that id, read with its rejection note; an
        unreachable store and a missing row are both errors (None). */
    function FindRefByID(id: string): (r: Option<Reference>)
      reads this
      ensures r.Some? ==> exists x :: x in refs && x.id == id && r.value == Scanned(x)
      ensures r.None? <==> ReferenceTable in down || forall x :: x in refs ==> x.id != id
    {
      if ReferenceTable in down then None
      else match Lookup(refs, RefId, id)
        case Some(x) => Some(Scanned(x))
        case None => None
    }

    /** fetchRefs: run a list query and collect its rows, newest first. */
    method FetchRefs(q: RefQuery) returns (ok: bool, list: seq<Reference>)
      ensures ok == (ReferenceTable !in down)
      ensures list == if ok then Listing(refs, q, directory.roster) else []
    {
      if ReferenceTable in down {
        return false, [];
      }
      list := [];
      var i := |refs|;
      while i > 0
        invariant 0 <= i <= |refs|
        invariant list == ListedRows(NewestFirst(refs[i..], Keep(q, directory.roster)))
      {
        i := i - 1;
        assert refs[i..][1..] == refs[i + 1..];
        if Matches(q, directory.roster, refs[i]) {
          list := list + [Listed(refs[i])];
        }
      }
      assert refs[0..] == refs;
      return true, list;
    }

    /** FindRefsByStudentID: the references the student owns. */
    method FindRefsByStudentID(studentId: string) returns (ok: bool, list: seq<Reference>)
      ensures ok == (ReferenceTable !in down)
      ensures list == if ok then Listing(refs, ByStudent(studentId), directory.roster) else []
    {
      ok, list := FetchRefs(ByStudent(studentId));
    }

    /** FindRefsByAdvisorID: the references of the students whose advisor_id
        column equals `advisorId`, which is compared as a lecturer id. */
    method FindRefsByAdvisorID(advisorId: string) returns (ok: bool, list: seq<Reference>)
      ensures ok == (ReferenceTable !in down)
      ensures list == if ok then Listing(refs, ByAdvisor(advisorId), directory.roster) else []
    {
      ok, list := FetchRefs(ByAdvisor(advisorId));
    }

    /** FindAllRefs: every reference. */
    method FindAllRefs() returns (ok: bool, list: seq<Reference>)
      ensures ok == (ReferenceTable !in down)
      ensures list == if ok then Listing(refs, Everything, directory.roster) else []
    {
      ok, list := FetchRefs(Everything);
    }

    /** UpdateStatus: set status and rejection note of the row with that id. */
    method UpdateStatus(id: string, status: Status, note: Option<string>) returns (ok: bool)
      requires Valid()
      modifies this`refs
      ensures Valid()
      ensures ok == (ReferenceTable !in down)
      ensures refs == if ok then UpdateWhere(old(refs), RefId, id, Change(SetStatus(status, note, clock))) else old(refs)
    {
      if ReferenceTable in down {
        return false;
      }
      UpdateWhereKeepsOrder(refs, RefId, RefCreatedAt, id, Change(SetStatus(status, note, clock)));
      refs := UpdateWhere(refs, RefId, id, Change(SetStatus(status, note, clock)));
      return true;
    }

    /** UpdateVerified: mark the row with that id verified by `verifier`. */
    method UpdateVerified(id: string, verifier: string) returns (ok: bool)
      requires Valid()
      modifies this`refs
      ensures Valid()
      ensures ok == (ReferenceTable !in down)
      ensures refs == if ok then UpdateWhere(old(refs), RefId, id, Change(SetVerified(verifier, clock))) else old(refs)
    {
      if ReferenceTable in down {
        return false;
      }
      UpdateWhereKeepsOrder(refs, RefId, RefCreatedAt, id, Change(SetVerified(verifier, clock)));
      refs := UpdateWhere(refs, RefId, id, Change(SetVerified(verifier, clock)));
      return true;
    }

    /** DeleteRef: remove the reference row only; its content document and
        its history rows stay. */
    method DeleteRef(id: string) returns (ok: bool)
      requires Valid()
      modifies this`refs
      ensures Valid()
      ensures ok == (ReferenceTable !in down)
      ensures refs == if ok then DeleteWhere(old(refs), RefId, id) else old(refs)
      ensures contents == old(contents) && histories == old(histories)
    {
      if ReferenceTable in down {
        return false;
      }
      DeleteWhereKeepsOrder(refs, RefId, RefCreatedAt, id);
      refs := DeleteWhere(refs, RefId, id);
      return true;
    }

    /** AddHistory: append a history row with a generated id, stamped now. */
    method AddHistory(h: HistoryEntry, freshId: string) returns (ok: bool)
      requires Valid() && freshId !in HistoryIds()
      modifies this`histories
      ensures Valid()
      ensures ok == (HistoryTable !in down)
      ensures histories == if ok then old(histories) + [h.(id := freshId, createdAt := clock)] else old(histories)
    {
      if HistoryTable in down {
        return false;
      }
      assert forall x :: x in histories ==> x.id != freshId;
      histories := histories + [h.(id := freshId, createdAt := clock)];
      return true;
    }

    /** GetHistory: the history rows of one achievement, newest first. */
    method GetHistory(achievementId: string) returns (ok: bool, list: seq<HistoryEntry>)
      requires Valid()
      ensures ok == (HistoryTable !in down)
      ensures list == if ok then NewestFirst(histories, HistoryFor(achievementId)) else []
      ensures ok ==> forall h :: h in list <==> h in histories && h.achievementId == achievementId
      ensures NewestToOldest(list, HistoryCreatedAt)
    {
      if HistoryTable in down {
        return false, [];
      }
      list := [];
      var i := |histories|;
      while i > 0
        invariant 0 <= i <= |histories|
        invariant list == NewestFirst(histories[i..], HistoryFor(achievementId))
      {
        i := i - 1;
        assert histories[i..][1..] == histories[i + 1..];
        if histories[i].achievementId == achievementId {
          list := list + [histories[i]];
        }
      }
      assert histories[0..] == histories;
      NewestFirstIsNewestToOldest(histories, HistoryFor(achievementId), HistoryCreatedAt);
      return true, list;
    }

    /** IsAdvisorOfRef: whether the reference exists and its student's
        advisor lecturer has user id `advisorUserId`; None when the store
        cannot be reached. */
    function IsAdvisorOfRef(refId: string, advisorUserId: string): (r: Option<bool>)
      reads this, directory
      ensures r.Some? <==> ReferenceTable !in down
    {
      if ReferenceTable in down then None
      else Some(exists x :: x in refs && x.id == refId && AdvisorUserOf(directory.roster, x.studentId) == Some(advisorUserId))
    }

    /** The advisor check agrees with the single-row lookup: it holds exactly
        when the reference is found and its student's advisor user is the
        caller. */
    lemma IsAdvisorOfRefFindsRef(refId: string, u: string)
      requires Valid()
      ensures IsAdvisorOfRef(refId, u) == Some(true) <==>
                FindRefByID(refId).Some? && AdvisorUserOf(directory.roster, FindRefByID(refId).value.studentId) == Some(u)
    {
      if IsAdvisorOfRef(refId, u) == Some(true) {
        var x :| x in refs && x.id == refId && AdvisorUserOf(directory.roster, x.studentId) == Some(u);
        var i :| 0 <= i < |refs| && refs[i] == x;
        LookupAt(refs, RefId, i);
      }
    }
  }
}
