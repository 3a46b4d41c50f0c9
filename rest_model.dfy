/** The upload format of the review service and its conversion into the reviewer's review
    graph (pkg/rest/model.go). */
module RestModel {
  import opened Common
  import Db = DbModel
  import opened ReviewerModel

  /** `ReviewDraft.Review`: the header of an uploaded review. */
  datatype DraftHeader = DraftHeader(
    externalId: string, title: string, description: string, commitHash: string,
    sourceBranch: string, targetBranch: string, author: string, createdAt: Db.Time,
    durationMs: int, modelInfo: Db.ModelInfo)

  /** One entry of `ReviewDraft.Files`. */
  datatype DraftFile = DraftFile(reviewType: string, summary: string, isAccepted: bool)

  /** One entry of `ReviewDraft.Issues`: flat, tied to a file by `fileType`. */
  datatype DraftIssue = DraftIssue(
    localId: string, severity: string, title: string, description: string, content: string,
    file: string, lines: string, issueType: string, fileType: string)

  datatype ReviewDraft = ReviewDraft(review: DraftHeader, files: seq<DraftFile>, issues: seq<DraftIssue>)

  /** The three errors `Validate` reports, each carrying the rejected value. */
  datatype DraftError = InvalidReviewType(value: string) | InvalidFileType(value: string) | InvalidSeverity(value: string)

  // ---------------------------------------------------------------------------------
  // Validate.

  /** The first file whose review type is unknown. */
  function FirstBadFile(files: seq<DraftFile>): Option<DraftError>
  {
    if |files| == 0 then None
    else if !IsValidReviewType(files[0].reviewType) then Some(InvalidReviewType(files[0].reviewType))
    else FirstBadFile(files[1..])
  }

  /** The first issue with an unknown file type or severity; the file type is checked first. */
  function FirstBadIssue(issues: seq<DraftIssue>): Option<DraftError>
  {
    if |issues| == 0 then None
    else if !IsValidReviewType(issues[0].fileType) then Some(InvalidFileType(issues[0].fileType))
    else if !IsValidSeverity(issues[0].severity) then Some(InvalidSeverity(issues[0].severity))
    else FirstBadIssue(issues[1..])
  }

  /** `ReviewDraft.Validate`: every file first, then every issue. */
  function Validate(rd: ReviewDraft): Option<DraftError>
  {
    var f := FirstBadFile(rd.files);
    if f.Some? then f else FirstBadIssue(rd.issues)
  }

  predicate IssueValid(d: DraftIssue)
  {
    IsValidReviewType(d.fileType) && IsValidSeverity(d.severity)
  }

  /** Every review type, file type and severity of the draft is a known one. */
  predicate DraftValid(rd: ReviewDraft)
  {
    (forall k :: 0 <= k < |rd.files| ==> IsValidReviewType(rd.files[k].reviewType)) &&
    (forall k :: 0 <= k < |rd.issues| ==> IssueValid(rd.issues[k]))
  }

  lemma {:induction false} FirstBadFileAt(files: seq<DraftFile>, k: nat)
    requires k <= |files|
    requires forall m :: 0 <= m < k ==> IsValidReviewType(files[m].reviewType)
    ensures k < |files| && !IsValidReviewType(files[k].reviewType) ==>
      FirstBadFile(files) == Some(InvalidReviewType(files[k].reviewType))
    ensures k == |files| ==> FirstBadFile(files).None?
  {
    if k > 0 {
      FirstBadFileAt(files[1..], k - 1);
    }
  }

  lemma {:induction false} FirstBadIssueAt(issues: seq<DraftIssue>, k: nat)
    requires k <= |issues|
    requires forall m :: 0 <= m < k ==> IssueValid(issues[m])
    ensures k < |issues| && !IssueValid(issues[k]) ==>
      FirstBadIssue(issues) ==
        if !IsValidReviewType(issues[k].fileType) then Some(InvalidFileType(issues[k].fileType))
        else Some(InvalidSeverity(issues[k].severity))
    ensures k == |issues| ==> FirstBadIssue(issues).None?
  {
    if k > 0 {
      FirstBadIssueAt(issues[1..], k - 1);
    }
  }

  /** `Validate` accepts exactly the drafts whose every type and severity is known. */
  lemma {:induction false} ValidateAccepts(rd: ReviewDraft)
    ensures Validate(rd).None? <==> DraftValid(rd)
  {
    if DraftValid(rd) {
      FirstBadFileAt(rd.files, |rd.files|);
      FirstBadIssueAt(rd.issues, |rd.issues|);
    } else if exists k :: 0 <= k < |rd.files| && !IsValidReviewType(rd.files[k].reviewType) {
      var k := FirstFileIndex(rd.files);
      FirstBadFileAt(rd.files, k);
    } else {
      FirstBadFileAt(rd.files, |rd.files|);
      var k := FirstIssueIndex(rd.issues);
      FirstBadIssueAt(rd.issues, k);
    }
  }

  /** `Validate` reports the first bad file before looking at any issue. */
  lemma {:induction false} ValidateFileFirst(rd: ReviewDraft, k: nat)
    requires k < |rd.files| && !IsValidReviewType(rd.files[k].reviewType)
    requires forall m :: 0 <= m < k ==> IsValidReviewType(rd.files[m].reviewType)
    ensures Validate(rd) == Some(InvalidReviewType(rd.files[k].reviewType))
  {
    FirstBadFileAt(rd.files, k);
  }

  /** With every file valid, `Validate` reports the first bad issue, its file type before
      its severity. */
  lemma {:induction false} ValidateIssueOrder(rd: ReviewDraft, k: nat)
    requires forall m :: 0 <= m < |rd.files| ==> IsValidReviewType(rd.files[m].reviewType)
    requires k < |rd.issues| && !IssueValid(rd.issues[k])
    requires forall m :: 0 <= m < k ==> IssueValid(rd.issues[m])
    ensures Validate(rd) ==
      if !IsValidReviewType(rd.issues[k].fileType) then Some(InvalidFileType(rd.issues[k].fileType))
      else Some(InvalidSeverity(rd.issues[k].severity))
  {
    FirstBadFileAt(rd.files, |rd.files|);
    FirstBadIssueAt(rd.issues, k);
  }

  lemma {:induction false} FirstFileIndex(files: seq<DraftFile>) returns (k: nat)
    requires exists k :: 0 <= k < |files| && !IsValidReviewType(files[k].reviewType)
    ensures k < |files| && !IsValidReviewType(files[k].reviewType)
    ensures forall m :: 0 <= m < k ==> IsValidReviewType(files[m].reviewType)
  {
    k := 0;
    while IsValidReviewType(files[k].reviewType)
      invariant k < |files|
      invariant forall m :: 0 <= m < k ==> IsValidReviewType(files[m].reviewType)
      invariant exists j :: k <= j < |files| && !IsValidReviewType(files[j].reviewType)
      decreases |files| - k
    {
      k := k + 1;
    }
  }

  lemma {:induction false} FirstIssueIndex(issues: seq<DraftIssue>) returns (k: nat)
    requires exists k :: 0 <= k < |issues| && !IssueValid(issues[k])
    ensures k < |issues| && !IssueValid(issues[k])
    ensures forall m :: 0 <= m < k ==> IssueValid(issues[m])
  {
    k := 0;
    while IssueValid(issues[k])
      invariant k < |issues|
      invariant forall m :: 0 <= m < k ==> IssueValid(issues[m])
      invariant exists j :: k <= j < |issues| && !IssueValid(issues[j])
      decreases |issues| - k
    {
      k := k + 1;
    }
  }

  // ---------------------------------------------------------------------------------
  // ToModel.

  /** `ptrString`: the empty string is absent, any other string is kept. */
  function PtrString(s: string): (p: Option<string>)
    ensures p.None? <==> s == ""
    ensures p.Some? ==> p.value == s
  {
    if s == "" then None else Some(s)
  }

  /** The review row of the draft header: ids, status, light and stats are left zero. */
  function HeaderRow(h: DraftHeader): Db.ReviewRow
  {
    Db.ReviewRow(0, 0, 0, h.externalId, h.title, h.description, "", h.commitHash, h.sourceBranch,
                 h.targetBranch, h.author, h.createdAt, h.durationMs, h.modelInfo, 0)
  }

  function ConvertIssue(d: DraftIssue): Issue
  {
    Issue(Db.IssueRow(0, 0, 0, PtrString(d.localId), d.issueType, d.title, d.severity, d.description,
                      d.content, d.file, d.lines, None, None, None, 0, 0), None, None)
  }

  /** The converted draft issues whose file type is `ft`, in draft order. */
  function IssuesOfType(issues: seq<DraftIssue>, ft: string): seq<Issue>
  {
    if |issues| == 0 then []
    else
      var n := |issues| - 1;
      IssuesOfType(issues[..n], ft) + (if issues[n].fileType == ft then [ConvertIssue(issues[n])] else [])
  }

  function ConvertFile(f: DraftFile, issues: seq<DraftIssue>): ReviewFile
  {
    ReviewFile(Db.ReviewFileRow(0, 0, f.reviewType, "", f.summary, "", f.isAccepted, ZeroStats, 0, 0),
               IssuesOfType(issues, f.reviewType))
  }

  /** What `ToModel` builds: the header, and one file per draft file carrying the issues of
      its type. */
  function ModelOf(rd: ReviewDraft): Review
  {
    Review(HeaderRow(rd.review), seq(|rd.files|, k requires 0 <= k < |rd.files| => ConvertFile(rd.files[k], rd.issues)), None)
  }

  /** A map lookup in which an absent key yields the empty (nil) list. */
  function Lookup(m: map<string, seq<Issue>>, k: string): seq<Issue>
  {
    if k in m then m[k] else []
  }

  /** The `issuesByType` map of `ToModel`: each converted issue appended to the list of
      its file type. */
  method GroupByType(issues: seq<DraftIssue>) returns (byType: map<string, seq<Issue>>)
    ensures forall ft :: Lookup(byType, ft) == IssuesOfType(issues, ft)
  {
    byType := map[];
    var i := 0;
    while i < |issues|
      invariant 0 <= i <= |issues|
      invariant forall ft :: Lookup(byType, ft) == IssuesOfType(issues[..i], ft)
    {
      var iss := issues[i];
      ghost var before := byType;
      byType := byType[iss.fileType := Lookup(byType, iss.fileType) + [ConvertIssue(iss)]];
      forall ft ensures Lookup(byType, ft) == IssuesOfType(issues[..i + 1], ft) {
        IssuesOfTypeStep(issues, i, ft);
        assert Lookup(byType, ft) == Lookup(before, ft) + (if iss.fileType == ft then [ConvertIssue(iss)] else []);
      }
      i := i + 1;
    }
    assert issues[..i] == issues;
  }

  lemma {:induction false} IssuesOfTypeStep(issues: seq<DraftIssue>, i: nat, ft: string)
    requires i < |issues|
    ensures IssuesOfType(issues[..i + 1], ft) ==
      IssuesOfType(issues[..i], ft) + (if issues[i].fileType == ft then [ConvertIssue(issues[i])] else [])
  {
    assert issues[..i + 1][..i] == issues[..i];
  }

  /** `ReviewDraft.ToModel`: groups the issues by file type in a map, then fills a slice
      of one file per draft file. */
  method ToModel(rd: ReviewDraft) returns (rv: Review)
    ensures rv == ModelOf(rd)
  {
    var byType := GroupByType(rd.issues);
    var files := new ReviewFile[|rd.files|];
    var j := 0;
    while j < files.Length
      invariant 0 <= j <= files.Length == |rd.files|
      invariant forall k :: 0 <= k < j ==> files[k] == ConvertFile(rd.files[k], rd.issues)
    {
      var f := rd.files[j];
      files[j] := ReviewFile(Db.ReviewFileRow(0, 0, f.reviewType, "", f.summary, "", f.isAccepted, ZeroStats, 0, 0),
                             Lookup(byType, f.reviewType));
      j := j + 1;
    }
    rv := Review(HeaderRow(rd.review), files[..], None);
  }

  /** One file per draft file, in draft order, with type, summary and acceptance copied and
      everything `prepareReview` fills in left zero; the header is copied unchanged. */
  lemma {:induction false} ModelFiles(rd: ReviewDraft)
    ensures var rv := ModelOf(rd);
      |rv.files| == |rd.files| &&
      (forall k :: 0 <= k < |rd.files| ==>
        rv.files[k].row.reviewType == rd.files[k].reviewType &&
        rv.files[k].row.summary == rd.files[k].summary &&
        rv.files[k].row.isAccepted == rd.files[k].isAccepted &&
        rv.files[k].row.id == 0 && rv.files[k].row.statusId == 0 &&
        rv.files[k].row.issueStats == ZeroStats && rv.files[k].row.trafficLight == "") &&
      rv.row.title == rd.review.title && rv.row.externalId == rd.review.externalId &&
      rv.row.sourceBranch == rd.review.sourceBranch && rv.row.targetBranch == rd.review.targetBranch &&
      rv.row.author == rd.review.author && rv.row.createdAt == rd.review.createdAt &&
      rv.row.durationMs == rd.review.durationMs && rv.row.modelInfo == rd.review.modelInfo &&
      rv.row.id == 0 && rv.row.statusId == 0 && rv.row.trafficLight == "" && rv.lastVersionReviewId.None?
  {
  }

  /** A file's issues keep draft order: the issues of a prefix of the draft come first,
      and there is one per draft issue of the type. */
  lemma {:induction false} IssuesOfTypeOrder(issues: seq<DraftIssue>, ft: string)
    ensures |IssuesOfType(issues, ft)| == CountOfType(issues, ft)
    ensures forall n :: 0 <= n <= |issues| ==> IssuesOfType(issues[..n], ft) <= IssuesOfType(issues, ft)
  {
    if |issues| > 0 {
      var m := |issues| - 1;
      IssuesOfTypeOrder(issues[..m], ft);
      var whole := IssuesOfType(issues, ft);
      var init := IssuesOfType(issues[..m], ft);
      assert init <= whole;
      forall n | 0 <= n <= |issues| ensures IssuesOfType(issues[..n], ft) <= whole {
        if n <= m {
          assert issues[..m][..n] == issues[..n];
          var part := IssuesOfType(issues[..n], ft);
          assert part <= init;
          assert part == whole[..|part|];
        } else {
          assert issues[..n] == issues;
        }
      }
    }
  }

  /** Every converted issue in a file's list comes from a draft issue of the file's type,
      and every draft issue of that type is in the list. */
  lemma {:induction false} IssuesOfTypeMembers(issues: seq<DraftIssue>, ft: string)
    ensures forall x :: x in IssuesOfType(issues, ft) <==>
      exists k :: 0 <= k < |issues| && issues[k].fileType == ft && x == ConvertIssue(issues[k])
  {
    if |issues| > 0 {
      var n := |issues| - 1;
      IssuesOfTypeMembers(issues[..n], ft);
      forall x ensures x in IssuesOfType(issues, ft) <==>
        exists k :: 0 <= k < |issues| && issues[k].fileType == ft && x == ConvertIssue(issues[k])
      {
        if exists k :: 0 <= k < |issues| && issues[k].fileType == ft && x == ConvertIssue(issues[k]) {
          var k :| 0 <= k < |issues| && issues[k].fileType == ft && x == ConvertIssue(issues[k]);
          if k < n {
            assert issues[..n][k] == issues[k];
          }
        }
        if x in IssuesOfType(issues[..n], ft) {
          var k :| 0 <= k < n && issues[..n][k].fileType == ft && x == ConvertIssue(issues[..n][k]);
          assert issues[k] == issues[..n][k];
        }
      }
    }
  }

  /** Number of draft issues of type `ft`. */
  function CountOfType(issues: seq<DraftIssue>, ft: string): nat
  {
    if |issues| == 0 then 0
    else CountOfType(issues[..|issues| - 1], ft) + (if issues[|issues| - 1].fileType == ft then 1 else 0)
  }

  /** The file types of the draft files, in order. */
  function FileTypes(files: seq<DraftFile>): seq<string>
  {
    if |files| == 0 then [] else FileTypes(files[..|files| - 1]) + [files[|files| - 1].reviewType]
  }

  /** Number of draft issues whose file type names one of `types`. */
  function CountNamed(issues: seq<DraftIssue>, types: seq<string>): nat
  {
    if |issues| == 0 then 0
    else CountNamed(issues[..|issues| - 1], types) + (if issues[|issues| - 1].fileType in types then 1 else 0)
  }

  /** Total number of issues over the files. */
  function IssueTotal(files: seq<ReviewFile>): nat
  {
    if |files| == 0 then 0 else IssueTotal(files[..|files| - 1]) + |files[|files| - 1].issues|
  }

  predicate DistinctTypes(files: seq<DraftFile>)
  {
    forall i, j :: 0 <= i < j < |files| ==> files[i].reviewType != files[j].reviewType
  }

  lemma {:induction false} FileTypesMembers(files: seq<DraftFile>)
    ensures forall ft :: ft in FileTypes(files) <==> exists k :: 0 <= k < |files| && files[k].reviewType == ft
  {
    if |files| > 0 {
      var n := |files| - 1;
      FileTypesMembers(files[..n]);
      assert FileTypes(files) == FileTypes(files[..n]) + [files[n].reviewType];
      forall ft | ft in FileTypes(files) && ft != files[n].reviewType
        ensures exists k :: 0 <= k < |files| && files[k].reviewType == ft
      {
        assert ft in FileTypes(files[..n]);
        var k :| 0 <= k < |files[..n]| && files[..n][k].reviewType == ft;
        assert files[k] == files[..n][k];
      }
      forall ft | exists k :: 0 <= k < |files| && files[k].reviewType == ft
        ensures ft in FileTypes(files)
      {
        var k :| 0 <= k < |files| && files[k].reviewType == ft;
        if k < n {
          assert files[..n][k] == files[k];
        }
      }
    }
  }

  /** Adding a type not yet named adds exactly the issues of that type. */
  lemma {:induction false} CountNamedAdd(issues: seq<DraftIssue>, types: seq<string>, ft: string)
    requires ft !in types
    ensures CountNamed(issues, types + [ft]) == CountNamed(issues, types) + CountOfType(issues, ft)
  {
    if |issues| > 0 {
      CountNamedAdd(issues[..|issues| - 1], types, ft);
    }
  }

  /** With distinct file types, the files together hold exactly the draft issues whose
      file type names some file: the issues of other types are dropped. */
  lemma {:induction false} ModelIssueTotal(rd: ReviewDraft)
    requires DistinctTypes(rd.files)
    ensures IssueTotal(ModelOf(rd).files) == CountNamed(rd.issues, FileTypes(rd.files))
    decreases |rd.files|
  {
    var n := |rd.files|;
    if n == 0 {
      CountNamedNone(rd.issues);
    } else {
      var prefix := rd.(files := rd.files[..n - 1]);
      assert DistinctTypes(prefix.files);
      ModelIssueTotal(prefix);
      assert ModelOf(rd).files[..n - 1] == ModelOf(prefix).files;
      FileTypesMembers(prefix.files);
      assert rd.files[n - 1].reviewType !in FileTypes(prefix.files);
      CountNamedAdd(rd.issues, FileTypes(prefix.files), rd.files[n - 1].reviewType);
      IssuesOfTypeOrder(rd.issues, rd.files[n - 1].reviewType);
    }
  }

  lemma {:induction false} CountNamedNone(issues: seq<DraftIssue>)
    ensures CountNamed(issues, []) == 0
  {
    if |issues| > 0 {
      CountNamedNone(issues[..|issues| - 1]);
    }
  }

  /** A draft issue whose file type names no file is in no file's list. */
  lemma {:induction false} DroppedIssue(rd: ReviewDraft, k: nat)
    requires k < |rd.issues|
    requires forall m :: 0 <= m < |rd.files| ==> rd.files[m].reviewType != rd.issues[k].fileType
    ensures forall m, x :: 0 <= m < |rd.files| && x in ModelOf(rd).files[m].issues ==>
      exists j :: 0 <= j < |rd.issues| && rd.issues[j].fileType == rd.files[m].reviewType && x == ConvertIssue(rd.issues[j]) && j != k
  {
    forall m | 0 <= m < |rd.files| {
      IssuesOfTypeMembers(rd.issues, rd.files[m].reviewType);
    }
  }

  /** After a successful `Validate`, every file's statistics count all of its issues: no
      issue carries an unknown severity. */
  lemma {:induction false} ValidModelStats(rd: ReviewDraft)
    requires Validate(rd).None?
    ensures forall m :: 0 <= m < |ModelOf(rd).files| ==>
      Tally(ModelOf(rd).files[m].issues).total == |ModelOf(rd).files[m].issues|
  {
    ValidateAccepts(rd);
    forall m | 0 <= m < |ModelOf(rd).files|
      ensures Tally(ModelOf(rd).files[m].issues).total == |ModelOf(rd).files[m].issues|
    {
      var issues := ModelOf(rd).files[m].issues;
      IssuesOfTypeMembers(rd.issues, rd.files[m].reviewType);
      forall i | 0 <= i < |issues| ensures IsValidSeverity(issues[i].row.severity) {
        assert issues[i] in issues;
      }
      TallyTotalAllKnown(issues);
    }
  }

  /** An empty local id becomes absent; any other is kept verbatim. */
  lemma {:induction false} LocalIdKept(d: DraftIssue)
    ensures ConvertIssue(d).row.localId == if d.localId == "" then None else Some(d.localId)
  {
  }
}
