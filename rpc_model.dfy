/** The JSON-RPC view of reviews, files, issues and projects, and the translation of the
    RPC filters into the reviewer's searches (pkg/rpc/model.go). */
module RpcModel {
  import opened Common
  import Db = DbModel
  import opened ReviewerModel
  import opened Sorting

  datatype RpcIssueStats = RpcIssueStats(critical: int, high: int, medium: int, low: int, total: int)

  datatype RpcModelInfo = RpcModelInfo(model: string, inputTokens: int, outputTokens: int, costUsd: real)

  datatype LastReview = LastReview(createdAt: Db.Time, author: string, trafficLight: string)

  datatype RpcProject = RpcProject(
    id: int, title: string, vcsUrl: string, language: string, createdAt: Db.Time,
    reviewCount: int, lastReview: Option<LastReview>)

  datatype ReviewFileSummary = ReviewFileSummary(reviewType: string, trafficLight: string, issueStats: RpcIssueStats)

  datatype ReviewSummary = ReviewSummary(
    id: int, title: string, externalId: string, trafficLight: string, author: string,
    sourceBranch: string, targetBranch: string, createdAt: Db.Time,
    reviewFiles: seq<ReviewFileSummary>, lastVersionReviewId: Option<int>)

  datatype RpcReviewFile = RpcReviewFile(
    id: int, reviewType: string, trafficLight: string, summary: string, issueStats: RpcIssueStats, content: string)

  datatype RpcReview = RpcReview(
    id: int, projectId: int, title: string, description: string, externalId: string,
    trafficLight: string, commitHash: string, sourceBranch: string, targetBranch: string,
    author: string, createdAt: Db.Time, durationMs: int, modelInfo: RpcModelInfo,
    reviewFiles: seq<RpcReviewFile>, lastVersionReviewId: Option<int>)

  datatype RpcIssue = RpcIssue(
    id: int, reviewId: int, title: string, severity: string, description: string, content: string,
    file: string, lines: string, issueType: string, reviewType: string, commitHash: string,
    isFalsePositive: Option<bool>, comment: Option<string>)

  datatype ReviewFilters = ReviewFilters(author: Option<string>, trafficLight: Option<string>)

  datatype IssueFilters = IssueFilters(
    severity: Option<string>, issueType: Option<string>, reviewType: Option<string>, isFalsePositive: Option<bool>)

  // ---------------------------------------------------------------------------------
  // Converters.

  /** `newIssueStats`: the five counters, unchanged. */
  function NewIssueStats(s: Db.IssueStats): RpcIssueStats
  {
    RpcIssueStats(s.critical, s.high, s.medium, s.low, s.total)
  }

  /** The counters read back from the RPC record. */
  function StatsOf(s: RpcIssueStats): Db.IssueStats
  {
    Db.IssueStats(s.critical, s.high, s.medium, s.low, s.total)
  }

  /** `newIssueStats` loses nothing: reading the counters back gives the stored record. */
  lemma {:induction false} IssueStatsRoundTrip(s: Db.IssueStats, r: RpcIssueStats)
    ensures StatsOf(NewIssueStats(s)) == s
    ensures NewIssueStats(StatsOf(r)) == r
  {
  }

  function NewModelInfo(m: Db.ModelInfo): RpcModelInfo
  {
    RpcModelInfo(m.model, m.inputTokens, m.outputTokens, m.costUsd)
  }

  /** `newProject`: absent in, absent out; otherwise the identity fields, no reviews
      counted and no last review. */
  function NewProject(p: Option<Project>): (r: Option<RpcProject>)
    ensures r.None? <==> p.None?
    ensures r.Some? ==>
      r.value.id == p.value.row.id && r.value.title == p.value.row.title &&
      r.value.vcsUrl == p.value.row.vcsUrl && r.value.language == p.value.row.language &&
      r.value.createdAt == p.value.row.createdAt &&
      r.value.reviewCount == 0 && r.value.lastReview.None?
  {
    if p.None? then None
    else
      var row := p.value.row;
      Some(RpcProject(row.id, row.title, row.vcsUrl, row.language, row.createdAt, 0, None))
  }

  function FileSummaryOf(rf: ReviewFile): ReviewFileSummary
  {
    ReviewFileSummary(rf.row.reviewType, rf.row.trafficLight, NewIssueStats(rf.row.issueStats))
  }

  /** The summary `newReviewSummary` builds for a present review. */
  function SummaryOf(rv: Review): ReviewSummary
  {
    ReviewSummary(rv.row.id, rv.row.title, rv.row.externalId, rv.row.trafficLight, rv.row.author,
                  rv.row.sourceBranch, rv.row.targetBranch, rv.row.createdAt,
                  MapSeq(rv.files, FileSummaryOf), rv.lastVersionReviewId)
  }

  /** `newReviewSummary`: fills a slice of one file summary per file, in file order. */
  method NewReviewSummary(rv: Option<Review>) returns (rs: Option<ReviewSummary>)
    ensures rs.None? <==> rv.None?
    ensures rv.Some? ==> rs == Some(SummaryOf(rv.value))
  {
    if rv.None? {
      return None;
    }
    var r := rv.value;
    var files := new ReviewFileSummary[|r.files|];
    var i := 0;
    while i < files.Length
      invariant 0 <= i <= files.Length == |r.files|
      invariant forall k :: 0 <= k < i ==> files[k] == FileSummaryOf(r.files[k])
    {
      var f := r.files[i];
      files[i] := ReviewFileSummary(f.row.reviewType, f.row.trafficLight, NewIssueStats(f.row.issueStats));
      i := i + 1;
    }
    assert files[..] == MapSeq(r.files, FileSummaryOf);
    rs := Some(ReviewSummary(r.row.id, r.row.title, r.row.externalId, r.row.trafficLight, r.row.author,
                             r.row.sourceBranch, r.row.targetBranch, r.row.createdAt, files[..], r.lastVersionReviewId));
  }

  /** One summary entry per file, carrying that file's type, light and statistics; the
      last version passes through. */
  lemma {:induction false} SummaryFiles(rv: Review)
    ensures var s := SummaryOf(rv);
      |s.reviewFiles| == |rv.files| &&
      (forall i :: 0 <= i < |rv.files| ==>
        s.reviewFiles[i].reviewType == rv.files[i].row.reviewType &&
        s.reviewFiles[i].trafficLight == rv.files[i].row.trafficLight &&
        StatsOf(s.reviewFiles[i].issueStats) == rv.files[i].row.issueStats) &&
      s.lastVersionReviewId == rv.lastVersionReviewId && s.id == rv.row.id
  {
  }

  function NewReviewFile(rf: ReviewFile): RpcReviewFile
  {
    RpcReviewFile(rf.row.id, rf.row.reviewType, rf.row.trafficLight, rf.row.summary, NewIssueStats(rf.row.issueStats), rf.row.content)
  }

  /** Every column of the stored review reaches the RPC record unchanged. */
  predicate ReviewFieldsCopied(r: RpcReview, row: Db.ReviewRow)
  {
    r.id == row.id && r.projectId == row.projectId && r.title == row.title &&
    r.description == row.description && r.externalId == row.externalId &&
    r.trafficLight == row.trafficLight && r.commitHash == row.commitHash &&
    r.sourceBranch == row.sourceBranch && r.targetBranch == row.targetBranch &&
    r.author == row.author && r.createdAt == row.createdAt && r.durationMs == row.durationMs &&
    r.modelInfo.model == row.modelInfo.model && r.modelInfo.inputTokens == row.modelInfo.inputTokens &&
    r.modelInfo.outputTokens == row.modelInfo.outputTokens && r.modelInfo.costUsd == row.modelInfo.costUsd
  }

  /** Every column of the stored file reaches the RPC record; the counters read back equal. */
  predicate FileFieldsCopied(r: RpcReviewFile, row: Db.ReviewFileRow)
  {
    r.id == row.id && r.reviewType == row.reviewType && r.trafficLight == row.trafficLight &&
    r.summary == row.summary && r.content == row.content && StatsOf(r.issueStats) == row.issueStats
  }

  /** `newReview`: absent in, absent out; the files in order, the last version unchanged. */
  function NewReview(rv: Option<Review>): (r: Option<RpcReview>)
    ensures r.None? <==> rv.None?
    ensures r.Some? ==>
      ReviewFieldsCopied(r.value, rv.value.row) &&
      r.value.lastVersionReviewId == rv.value.lastVersionReviewId &&
      |r.value.reviewFiles| == |rv.value.files| &&
      forall i :: 0 <= i < |rv.value.files| ==> FileFieldsCopied(r.value.reviewFiles[i], rv.value.files[i].row)
  {
    if rv.None? then None
    else
      var v := rv.value;
      Some(RpcReview(v.row.id, v.row.projectId, v.row.title, v.row.description, v.row.externalId,
                     v.row.trafficLight, v.row.commitHash, v.row.sourceBranch, v.row.targetBranch,
                     v.row.author, v.row.createdAt, v.row.durationMs, NewModelInfo(v.row.modelInfo),
                     MapSeq(v.files, NewReviewFile), v.lastVersionReviewId))
  }

  /** `newIssue`: the review type is read from the joined file without a nil check, so the
      file must be loaded; the commit hash comes from the joined review when there is one. */
  function NewIssue(i: Option<Issue>): (r: Option<RpcIssue>)
    requires i.Some? ==> i.value.reviewFile.Some?
    ensures r.None? <==> i.None?
    ensures r.Some? ==>
      r.value.id == i.value.row.id && r.value.reviewId == i.value.row.reviewId &&
      r.value.reviewType == i.value.reviewFile.value.reviewType &&
      r.value.commitHash == (if i.value.review.Some? then i.value.review.value.commitHash else "") &&
      r.value.isFalsePositive == i.value.row.isFalsePositive && r.value.comment == i.value.row.comment
  {
    if i.None? then None
    else
      var v := i.value;
      var issue := RpcIssue(v.row.id, v.row.reviewId, v.row.title, v.row.severity, v.row.description,
                            v.row.content, v.row.file, v.row.lines, v.row.issueType,
                            v.reviewFile.value.reviewType, "", v.row.isFalsePositive, v.row.comment);
      Some(if v.review.Some? then issue.(commitHash := v.review.value.commitHash) else issue)
  }

  // ---------------------------------------------------------------------------------
  // Filters.

  /** `ReviewFilters.ToDomain`: the project and the cursor always; author and light only
      from present filters. */
  function ReviewFiltersToDomain(f: Option<ReviewFilters>, projectId: int, fromReviewId: Option<int>): (s: ReviewSearch)
    ensures s.projectId == projectId && s.fromReviewId == fromReviewId
    ensures f.None? ==> s.author.None? && s.trafficLight.None?
    ensures f.Some? ==> s.author == f.value.author && s.trafficLight == f.value.trafficLight
  {
    var s := ReviewSearch(projectId, None, None, fromReviewId);
    if f.None? then s else s.(author := f.value.author, trafficLight := f.value.trafficLight)
  }

  function CopyIssueFilters(s: IssueSearch, f: Option<IssueFilters>): IssueSearch
  {
    if f.None? then s
    else s.(severity := f.value.severity, issueType := f.value.issueType,
            reviewType := f.value.reviewType, isFalsePositive := f.value.isFalsePositive)
  }

  /** `IssueFilters.ToDomain`: scoped to a review, with no project. */
  function IssueFiltersToDomain(f: Option<IssueFilters>, reviewId: int): (s: IssueSearch)
    ensures s.reviewId == reviewId && s.projectId.None? && s.fromIssueId.None?
  {
    CopyIssueFilters(IssueSearch(reviewId, None, None, None, None, None, None), f)
  }

  /** `IssueFilters.ToDomainByProject`: scoped to a project; the review id stays 0. */
  function IssueFiltersToDomainByProject(f: Option<IssueFilters>, projectId: int): (s: IssueSearch)
    ensures s.reviewId == 0 && s.projectId == Some(projectId) && s.fromIssueId.None?
  {
    CopyIssueFilters(IssueSearch(0, Some(projectId), None, None, None, None, None), f)
  }

  /** The filters reach the storage search unchanged; a review-scoped search filters by the
      review (unless its id is 0) and not by project, a project-scoped one filters by the
      project and not by review. */
  lemma {:induction false} IssueFiltersReachStorage(f: Option<IssueFilters>, reviewId: int, projectId: int)
    ensures var d := IssueSearchToDB(Some(IssueFiltersToDomain(f, reviewId))).value;
      d.reviewProjectId.None? && (d.reviewId.None? <==> reviewId == 0) && d.idGt.None? &&
      (f.Some? ==> d.severity == f.value.severity && d.issueType == f.value.issueType &&
                   d.reviewFileReviewType == f.value.reviewType && d.isFalsePositive == f.value.isFalsePositive)
    ensures var d := IssueSearchToDB(Some(IssueFiltersToDomainByProject(f, projectId))).value;
      d.reviewId.None? && d.reviewProjectId == Some(projectId) && d.idGt.None? &&
      (f.Some? ==> d.severity == f.value.severity && d.issueType == f.value.issueType &&
                   d.reviewFileReviewType == f.value.reviewType && d.isFalsePositive == f.value.isFalsePositive)
    ensures f.None? ==>
      var d := IssueSearchToDB(Some(IssueFiltersToDomainByProject(f, projectId))).value;
      d.severity.None? && d.issueType.None? && d.reviewFileReviewType.None? && d.isFalsePositive.None?
  {
  }

  /** A review search built from RPC filters selects the project's rows below the cursor
      that match the present filters. */
  lemma {:induction false} ReviewFiltersSelect(f: Option<ReviewFilters>, projectId: int, fromReviewId: Option<int>, r: Db.ReviewRow)
    ensures Db.ReviewMatches(r, ReviewSearchToDB(Some(ReviewFiltersToDomain(f, projectId, fromReviewId))).value) <==>
      r.projectId == projectId &&
      (fromReviewId.None? || r.id < fromReviewId.value) &&
      (f.None? || ((f.value.author.None? || r.author == f.value.author.value) &&
                   (f.value.trafficLight.None? || r.trafficLight == f.value.trafficLight.value)))
  {
    ReviewSearchToDBSelects(ReviewFiltersToDomain(f, projectId, fromReviewId), r);
  }

  // ---------------------------------------------------------------------------------
  // The generated list converters.

  /** `newReviewSummaries`: one summary per review, in order. */
  method NewReviewSummaries(reviews: seq<Review>) returns (out: seq<ReviewSummary>)
    ensures |out| == |reviews|
    ensures forall i :: 0 <= i < |reviews| ==> out[i] == SummaryOf(reviews[i])
  {
    out := [];
    for i := 0 to |reviews|
      invariant |out| == i
      invariant forall k :: 0 <= k < i ==> out[k] == SummaryOf(reviews[k])
    {
      var s := NewReviewSummary(Some(reviews[i]));
      out := out + [s.value];
    }
  }

  /** `newIssues`: one RPC issue per issue, in order; every issue needs its file. */
  method NewIssues(issues: seq<Issue>) returns (out: seq<RpcIssue>)
    requires forall i :: 0 <= i < |issues| ==> issues[i].reviewFile.Some?
    ensures |out| == |issues|
    ensures forall i :: 0 <= i < |issues| ==> Some(out[i]) == NewIssue(Some(issues[i]))
  {
    out := [];
    for i := 0 to |issues|
      invariant |out| == i
      invariant forall k :: 0 <= k < i ==> Some(out[k]) == NewIssue(Some(issues[k]))
    {
      out := out + [NewIssue(Some(issues[i])).value];
    }
  }
}
