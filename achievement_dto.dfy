/** The achievement as the handlers answer it: the workflow fields of the
    reference joined with its content document, and the listing that joins
    a sequence of references with their documents. */
module AchievementDto {
  import opened Common
  import opened AchievementModels
  import opened Tables
  import opened ReferenceRows
  import opened AchievementRepo

  /** The response shape: no verifier, no verification time. */
  datatype AchievementResponse = AchievementResponse(
    refId: string,
    status: Status,
    rejectionNote: Option<string>,
    content: Content)

  /** ToAchievementResponse. */
  function ToAchievementResponse(ref: Reference, data: Content): (r: AchievementResponse)
    ensures r.refId == ref.id && r.status == ref.status
    ensures r.rejectionNote == ref.rejectionNote && r.content == data
  {
    AchievementResponse(ref.id, ref.status, ref.rejectionNote, data)
  }

  /** The response exposes exactly id, status, note and content: two
      responses agree precisely when those do, so who verified a reference,
      when, and its timestamps never show. */
  lemma ResponseExposes(a: Reference, c: Content, b: Reference, d: Content)
    ensures ToAchievementResponse(a, c) == ToAchievementResponse(b, d) <==>
              a.id == b.id && a.status == b.status && a.rejectionNote == b.rejectionNote && c == d
  {
  }

  /** The response for one reference: none when its document cannot be read. */
  function Joined(ref: Reference, contents: map<string, Content>, up: bool): (r: seq<AchievementResponse>)
    ensures |r| <= 1
    ensures r != [] <==> ContentAt(contents, up, ref.contentId).Some?
    ensures r != [] ==> r[0] == ToAchievementResponse(ref, ContentAt(contents, up, ref.contentId).value)
  {
    match ContentAt(contents, up, ref.contentId)
    case Some(c) => [ToAchievementResponse(ref, c)]
    case None => []
  }

  function JoinWith(contents: map<string, Content>, up: bool): Reference -> seq<AchievementResponse>
  {
    (ref: Reference) => Joined(ref, contents, up)
  }

  /** The responses for `refs`, in their order, each joined with its
      document from the collection; a reference whose document cannot be
      read is left out. */
  function Responses(refs: seq<Reference>, contents: map<string, Content>, up: bool): seq<AchievementResponse>
  {
    ConcatMap(refs, JoinWith(contents, up))
  }

  /** A response is listed exactly when it joins one of the references with
      its document. */
  lemma ResponsesMembers(refs: seq<Reference>, contents: map<string, Content>, up: bool)
    ensures forall x :: x in Responses(refs, contents, up) <==>
              exists ref :: ref in refs && ContentAt(contents, up, ref.contentId).Some?
                            && x == ToAchievementResponse(ref, ContentAt(contents, up, ref.contentId).value)
  {
    ConcatMapMembers(refs, JoinWith(contents, up));
    forall x ensures x in Responses(refs, contents, up) ==>
                       exists ref :: ref in refs && ContentAt(contents, up, ref.contentId).Some?
                                     && x == ToAchievementResponse(ref, ContentAt(contents, up, ref.contentId).value)
    {
      if x in Responses(refs, contents, up) {
        var ref :| ref in refs && x in JoinWith(contents, up)(ref);
      }
    }
    forall ref | ref in refs && ContentAt(contents, up, ref.contentId).Some?
      ensures ToAchievementResponse(ref, ContentAt(contents, up, ref.contentId).value) in Responses(refs, contents, up)
    {
      assert ToAchievementResponse(ref, ContentAt(contents, up, ref.contentId).value) in JoinWith(contents, up)(ref);
    }
  }

  /** The listing keeps the order of the references: listing two runs of
      references one after the other is listing their concatenation. */
  lemma ResponsesAppend(a: seq<Reference>, b: seq<Reference>, contents: map<string, Content>, up: bool)
    ensures Responses(a + b, contents, up) == Responses(a, contents, up) + Responses(b, contents, up)
  {
    ConcatMapAppend(a, b, JoinWith(contents, up));
  }

  /** When every document can be read, nothing is dropped: the i-th
      response is the i-th reference's. */
  lemma ResponsesComplete(refs: seq<Reference>, contents: map<string, Content>, up: bool)
    requires forall ref :: ref in refs ==> ContentAt(contents, up, ref.contentId).Some?
    ensures |Responses(refs, contents, up)| == |refs|
    ensures forall i :: 0 <= i < |refs| ==>
              Responses(refs, contents, up)[i]
              == ToAchievementResponse(refs[i], ContentAt(contents, up, refs[i].contentId).value)
  {
    ConcatMapOneEach(refs, JoinWith(contents, up));
  }

  /** A student's listing shows only that student's references, each with
      the status it has in the table and with no rejection note, since the
      list query does not read the note. */
  lemma StudentResponsesOwned(refs: seq<Reference>, studentId: string, roster: Roster,
                              contents: map<string, Content>, up: bool)
    ensures forall x :: x in Responses(Listing(refs, ByStudent(studentId), roster), contents, up) ==>
              && x.rejectionNote.None?
              && exists r :: r in refs && r.studentId == studentId && r.id == x.refId && r.status == x.status
  {
    var listing := Listing(refs, ByStudent(studentId), roster);
    ResponsesMembers(listing, contents, up);
    ListingContents(refs, ByStudent(studentId), roster);
    forall x | x in Responses(listing, contents, up)
      ensures x.rejectionNote.None?
      ensures exists r :: r in refs && r.studentId == studentId && r.id == x.refId && r.status == x.status
    {
      var ref :| ref in listing && ContentAt(contents, up, ref.contentId).Some?
                 && x == ToAchievementResponse(ref, ContentAt(contents, up, ref.contentId).value);
      var r :| r in refs && Matches(ByStudent(studentId), roster, r) && ref == Listed(r);
    }
  }

  /** The loop the listing handlers share: look each reference's document
      up, and keep the reference with its document when it is found. */
  method CollectResponses(repo: AchievementRepository, refs: seq<Reference>) returns (results: seq<AchievementResponse>)
    ensures results == Responses(refs, repo.contents, ContentCollection !in repo.down)
  {
    results := [];
    var i := 0;
    while i < |refs|
      invariant 0 <= i <= |refs|
      invariant results == Responses(refs[..i], repo.contents, ContentCollection !in repo.down)
    {
      assert refs[..i + 1][..i] == refs[..i];
      var content := repo.FindContent(refs[i].contentId);
      if content.Some? {
        results := results + [ToAchievementResponse(refs[i], content.value)];
      }
      i := i + 1;
    }
    assert refs[..|refs|] == refs;
  }
}
