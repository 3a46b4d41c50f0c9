/** The JSON-RPC review service (pkg/rpc/review.go): the guards that answer 404 and 400
    before any query or write, the page sizes, and the merge of project statistics into
    the project list. */
module RpcService {
  import opened Common
  import Db = DbModel
  import R = Repository
  import Q = Queries
  import opened ReviewerModel
  import M = Manager
  import opened RpcModel
  import Strings

  /** The service's errors: 404, 400 and a wrapped storage error (500). */
  datatype RpcError = NotFound | BadRequest | Internal(cause: Db.DbError)

  /** Page sizes of `Get`, `Issues` and `IssuesByProject`. */
  const ReviewPageSize: nat := 50
  const IssuePageSize: nat := 500
  const ProjectIssuePageSize: nat := 50

  /** Longest comment `SetComment` accepts, in UTF-8 bytes. */
  const MaxCommentBytes: nat := 255

  /** The project directory's lookup by id (`ProjectManager.GetByID`). */
  function FindProject(projects: seq<Project>, id: int): (p: Option<Project>)
    ensures p.Some? ==> p.value in projects && p.value.row.id == id
    ensures p.None? <==> forall k :: 0 <= k < |projects| ==> projects[k].row.id != id
  {
    if |projects| == 0 then None
    else if projects[0].row.id == id then Some(projects[0])
    else FindProject(projects[1..], id)
  }

  /** The schema's foreign key as far as the RPC layer needs it: every enabled issue
      points at a stored review file. */
  ghost predicate FilesLinked(issues: seq<Db.IssueRow>, files: seq<Db.ReviewFileRow>)
  {
    forall k :: 0 <= k < |issues| && issues[k].statusId == Db.StatusEnabled ==>
      R.FindReviewFile(files, issues[k].reviewFileId).Some?
  }

  ghost predicate IssueExists(issues: seq<Db.IssueRow>, id: int)
  {
    exists k :: 0 <= k < |issues| && issues[k].id == id && issues[k].statusId == Db.StatusEnabled
  }

  ghost predicate ReviewExists(reviews: seq<Db.ReviewRow>, id: int)
  {
    exists k :: 0 <= k < |reviews| && reviews[k].id == id && reviews[k].statusId == Db.StatusEnabled
  }

  ghost predicate HasReviews(reviews: seq<Db.ReviewRow>, projectId: int)
  {
    exists k :: 0 <= k < |reviews| && reviews[k].statusId == Db.StatusEnabled && reviews[k].projectId == projectId
  }

  /** One project's entry after the merge: the statistics, when the project has any. */
  function WithStats(p: RpcProject, stats: map<int, ProjectStats>): RpcProject
  {
    if p.id in stats then
      var st := stats[p.id];
      p.(reviewCount := st.reviewCount, lastReview := Some(LastReview(st.createdAt, st.author, st.trafficLight)))
    else p
  }

  /** The loop of `Projects`: each entry whose id has statistics takes them, in place. */
  method MergeStats(result: array<RpcProject>, stats: map<int, ProjectStats>)
    modifies result
    ensures forall i :: 0 <= i < result.Length ==> result[i] == WithStats(old(result[i]), stats)
  {
    for i := 0 to result.Length
      invariant forall k :: 0 <= k < i ==> result[k] == WithStats(old(result[k]), stats)
      invariant forall k :: i <= k < result.Length ==> result[k] == old(result[k])
    {
      var id := result[i].id;
      if id in stats {
        var st := stats[id];
        result[i] := result[i].(reviewCount := st.reviewCount, lastReview := Some(LastReview(st.createdAt, st.author, st.trafficLight)));
      }
    }
  }

  /** A stored review's files, each loaded with its issues, as `GetReview` returns them. */
  function LoadedFiles(t: R.Tables, id: int): (fs: seq<ReviewFile>)
    ensures |fs| == |Q.FilesOfReview(t, id)|
  {
    var files := Q.FilesOfReview(t, id);
    seq(|files|, i requires 0 <= i < |files| => files[i].(issues := Q.IssuesOfFile(t, id, files[i].row.id)))
  }

  /** The RPC issue for a stored issue row, with its file and review joined; nothing when
      its file is missing. */
  function RpcIssueOf(t: R.Tables, row: Db.IssueRow): Option<RpcIssue>
  {
    var file := R.FindReviewFile(t.files, row.reviewFileId);
    if file.None? then None
    else RpcModel.NewIssue(Some(Issue(row, file, R.FindReview(t.reviews, row.reviewId))))
  }

  /** What an RPC filter set asks of a joined issue. */
  predicate FiltersPass(j: Db.JoinedIssue, f: Option<IssueFilters>)
  {
    f.None? ||
    ((f.value.severity.None? || j.row.severity == f.value.severity.value) &&
     (f.value.issueType.None? || j.row.issueType == f.value.issueType.value) &&
     (f.value.reviewType.None? || (j.reviewFile.Some? && j.reviewFile.value.reviewType == f.value.reviewType.value)) &&
     (f.value.isFalsePositive.None? || j.row.isFalsePositive == f.value.isFalsePositive))
  }

  /** An RPC issue is the conversion of an enabled stored row that passes `keep`. */
  ghost predicate ListedIssue(t: R.Tables, ri: RpcIssue, keep: Db.JoinedIssue -> bool)
  {
    exists k :: 0 <= k < |t.issues| && t.issues[k].statusId == Db.StatusEnabled &&
      keep(R.JoinIssue(t, t.issues[k])) && RpcIssueOf(t, t.issues[k]) == Some(ri)
  }

  /** The search `IssuesByProject` runs: the project's filters and the cursor. */
  function ProjectIssueSearch(projectId: int, filters: Option<IssueFilters>, fromIssueId: Option<int>): IssueSearch
  {
    IssueFiltersToDomainByProject(filters, projectId).(fromIssueId := fromIssueId)
  }

  /** What `IssuesByProject` asks of a joined issue: a review of the project, the filters,
      and an id above the cursor. */
  function InProjectPage(projectId: int, filters: Option<IssueFilters>, fromIssueId: Option<int>): Db.JoinedIssue -> bool
  {
    (j: Db.JoinedIssue) => j.review.Some? && j.review.value.projectId == projectId && FiltersPass(j, filters) &&
                           (fromIssueId.None? || j.row.id > fromIssueId.value)
  }

  /** The last occurrence of its id in a page of summaries. */
  predicate LastSummaryWithId(rs: seq<ReviewSummary>, k: nat)
    requires k < |rs|
  {
    forall m :: k < m < |rs| ==> rs[m].id != rs[k].id
  }

  /** A summary built from the enabled stored review with its id, which the search selects,
      with that review's files. */
  ghost predicate ListedSummary(t: R.Tables, s: ReviewSummary, search: ReviewSearch)
  {
    var r := R.FindReview(t.reviews, s.id);
    r.Some? && r.value.statusId == Db.StatusEnabled &&
    Db.ReviewMatches(r.value, ReviewSearchToDB(Some(search)).value) &&
    s == SummaryOf(Review(r.value, Q.FilesOfReview(t, s.id), s.lastVersionReviewId))
  }

  class ReviewService {
    const rm: M.ReviewManager
    /** The enabled projects, in the project manager's list order. */
    const projects: seq<Project>

    ghost predicate Valid()
      reads this, rm, rm.db
    {
      rm.Valid() && FilesLinked(rm.db.issues, rm.db.files)
    }

    /** `NewReviewService`. */
    constructor (manager: M.ReviewManager, directory: seq<Project>)
      requires manager.Valid() && FilesLinked(manager.db.issues, manager.db.files)
      ensures Valid()
      ensures rm == manager && projects == directory
    {
      rm := manager;
      projects := directory;
    }

    /** `checkProject`: 404 for an unknown project. */
    method CheckProject(projectId: int) returns (err: Option<RpcError>)
      ensures err.None? <==> FindProject(projects, projectId).Some?
      ensures err.Some? ==> err.value == NotFound
    {
      if FindProject(projects, projectId).None? {
        return Some(NotFound);
      }
      return None;
    }

    /** `checkIssue`: 404 exactly for an issue that is not enabled in the store. The 500
        for a failed lookup cannot happen: with unique ids the lookup never finds two rows. */
    method CheckIssue(issueId: int) returns (err: Option<RpcError>)
      requires Valid()
      ensures err.None? <==> IssueExists(rm.db.issues, issueId)
      ensures err.Some? ==> err.value == NotFound
    {
      R.IssueByIDFinds(rm.repo, rm.db.Snapshot(), issueId);
      var issue, e := rm.IssueByID(issueId);
      if e.Some? {
        assert false;
        return Some(Internal(Db.ErrMultiRows));
      }
      if issue.None? {
        return Some(NotFound);
      }
      return None;
    }

    /** `Projects`: every listed project in list order; a project with enabled reviews
        carries their count and its latest review, the others no count and no review. */
    method Projects() returns (result: seq<RpcProject>)
      requires Valid()
      ensures |result| == |projects|
      ensures forall i :: 0 <= i < |projects| ==>
        var p := projects[i].row;
        result[i].id == p.id && result[i].title == p.title && result[i].vcsUrl == p.vcsUrl &&
        result[i].language == p.language && result[i].createdAt == p.createdAt
      ensures forall i :: 0 <= i < |projects| ==>
        var st := Q.StatOf(rm.db.Snapshot(), projects[i].row.id);
        if HasReviews(rm.db.reviews, projects[i].row.id)
        then result[i].reviewCount == st.reviewCount &&
             result[i].lastReview == Some(LastReview(st.createdAt, st.author, st.trafficLight))
        else result[i].reviewCount == 0 && result[i].lastReview.None?
    {
      var stats := rm.ProjectsStats();
      var ps := projects;
      var arr := new RpcProject[|ps|](i requires 0 <= i < |ps| => RpcModel.NewProject(Some(ps[i])).value);
      MergeStats(arr, stats);
      result := arr[..];
    }

    /** `ProjectByID`: 404 for an unknown project. */
    method ProjectByID(projectId: int) returns (p: Option<RpcProject>, err: Option<RpcError>)
      ensures err.Some? <==> FindProject(projects, projectId).None?
      ensures err.Some? ==> err.value == NotFound && p.None?
      ensures err.None? ==> p == RpcModel.NewProject(FindProject(projects, projectId)) && p.Some?
    {
      var found := FindProject(projects, projectId);
      if found.None? {
        return None, Some(NotFound);
      }
      return RpcModel.NewProject(found), None;
    }

    /** `Get`: 404 for an unknown project before any query; otherwise a page of at most 50
        summaries of the project's enabled reviews that pass the filters and lie below the
        cursor, newest first, each with the newest version of its group when there is
        one. */
    method Get(projectId: int, filters: Option<ReviewFilters>, fromReviewId: Option<int>)
      returns (rs: seq<ReviewSummary>, err: Option<RpcError>)
      requires Valid()
      ensures err.Some? <==> FindProject(projects, projectId).None?
      ensures err.Some? ==> err.value == NotFound && rs == []
      ensures |rs| <= ReviewPageSize
      ensures forall i :: 0 <= i < |rs| ==>
        ListedSummary(rm.db.Snapshot(), rs[i], ReviewFiltersToDomain(filters, projectId, fromReviewId))
      ensures forall i, j :: 0 <= i < j < |rs| ==> rs[i].createdAt >= rs[j].createdAt
      ensures forall i :: 0 <= i < |rs| ==>
        rs[i].lastVersionReviewId == if LastSummaryWithId(rs, i) then Q.Resolve(rm.db.Snapshot(), rs[i].id) else None
      ensures err.None? ==>
        var rows := R.ReviewsByFilters(rm.repo, rm.db.Snapshot(), ReviewSearchToDB(Some(ReviewFiltersToDomain(filters, projectId, fromReviewId))),
                                       R.NewPager(ReviewPageSize), R.SortOf(rm.repo, R.ReviewTable));
        |rs| == |rows| && forall i :: 0 <= i < |rs| ==> rs[i].id == rows[i].id
    {
      err := CheckProject(projectId);
      if err.Some? {
        return [], err;
      }
      rs := Summaries(ReviewFiltersToDomain(filters, projectId, fromReviewId));
    }

    /** The page `Get` returns once the project is known: the listed reviews with their
        newest versions filled in, as summaries. */
    method Summaries(search: ReviewSearch) returns (rs: seq<ReviewSummary>)
      requires Valid()
      ensures |rs| <= ReviewPageSize
      ensures forall i :: 0 <= i < |rs| ==> ListedSummary(rm.db.Snapshot(), rs[i], search)
      ensures forall i, j :: 0 <= i < j < |rs| ==> rs[i].createdAt >= rs[j].createdAt
      ensures forall i :: 0 <= i < |rs| ==>
        rs[i].lastVersionReviewId == if LastSummaryWithId(rs, i) then Q.Resolve(rm.db.Snapshot(), rs[i].id) else None
      ensures var rows := R.ReviewsByFilters(rm.repo, rm.db.Snapshot(), ReviewSearchToDB(Some(search)),
                                             R.NewPager(ReviewPageSize), R.SortOf(rm.repo, R.ReviewTable));
        |rs| == |rows| && forall i :: 0 <= i < |rs| ==> rs[i].id == rows[i].id
    {
      var t := rm.db.Snapshot();
      var listed := rm.ListReviews(Some(search), ReviewPageSize);
      var arr := new Review[|listed|](i requires 0 <= i < |listed| => listed[i]);
      assert arr[..] == listed;
      rm.FillLastVersions(arr);
      var filled := arr[..];
      rs := NewReviewSummaries(filled);
      SummariesListed(t, listed, filled, rs, search);
      SummariesLastVersion(t, listed, filled, rs);
    }

    /** `Count`: 404 for an unknown project; otherwise the number of the project's enabled
        reviews that pass the filters, with no cursor. */
    method Count(projectId: int, filters: Option<ReviewFilters>) returns (n: nat, err: Option<RpcError>)
      requires Valid()
      ensures err.Some? <==> FindProject(projects, projectId).None?
      ensures err.Some? ==> err.value == NotFound && n == 0
      ensures err.None? ==>
        n == |R.ReviewsByFilters(rm.repo, rm.db.Snapshot(), ReviewSearchToDB(Some(ReviewFiltersToDomain(filters, projectId, None))),
                                 R.PagerNoLimit, R.SortOf(rm.repo, R.ReviewTable))|
    {
      err := CheckProject(projectId);
      if err.Some? {
        return 0, err;
      }
      n := rm.CountReviews(Some(ReviewFiltersToDomain(filters, projectId, None)));
    }

    /** `GetByID`: 404 exactly when no enabled review has the id; otherwise the stored
        review with its files and their issues, and its newest version when it has one. */
    method GetByID(reviewId: int) returns (r: Option<RpcReview>, err: Option<RpcError>)
      requires Valid()
      ensures err.Some? <==> !ReviewExists(rm.db.reviews, reviewId)
      ensures err.Some? ==> err.value == NotFound && r.None?
      ensures err.None? ==>
        var row := R.FindReview(rm.db.reviews, reviewId);
        row.Some? &&
        r == RpcModel.NewReview(Some(Review(row.value, LoadedFiles(rm.db.Snapshot(), reviewId), Q.Resolve(rm.db.Snapshot(), reviewId))))
    {
      var t := rm.db.Snapshot();
      R.ReviewByIDFinds(rm.repo, t, reviewId);
      var rv, e := rm.GetReview(reviewId);
      if e.Some? {
        assert false;
        return None, Some(Internal(Db.ErrMultiRows));
      }
      if rv.None? {
        return None, Some(NotFound);
      }
      var arr := new Review[1](i requires 0 <= i < 1 => rv.value);
      rm.FillLastVersions(arr);
      var k :| 0 <= k < |t.reviews| && t.reviews[k] == rv.value.row;
      Q.FindUnique(t.reviews, k);
      assert rv.value.files == LoadedFiles(t, reviewId);
      r, err := RpcModel.NewReview(Some(arr[0])), None;
    }

    /** `Issues`: at most 500 of the review's enabled issues that pass the filters, each
        with its file's type and its review's commit hash. */
    method Issues(reviewId: int, filters: Option<IssueFilters>) returns (out: seq<RpcIssue>)
      requires Valid()
      ensures |out| <= IssuePageSize
      ensures forall i :: 0 <= i < |out| ==>
        ListedIssue(rm.db.Snapshot(), out[i],
                    (j: Db.JoinedIssue) => (reviewId == 0 || j.row.reviewId == reviewId) && FiltersPass(j, filters))
      ensures var rows := R.IssuesByFilters(rm.repo, rm.db.Snapshot(), IssueSearchToDB(Some(IssueFiltersToDomain(filters, reviewId))),
                                            R.NewPager(IssuePageSize), true, []);
        |out| == |rows| && forall i :: 0 <= i < |out| ==> RpcIssueOf(rm.db.Snapshot(), rows[i].row) == Some(out[i])
    {
      var t := rm.db.Snapshot();
      var search := IssueFiltersToDomain(filters, reviewId);
      var issues := rm.ListIssues(Some(search), IssuePageSize);
      out := Convert(t, issues);
      forall i | 0 <= i < |out|
        ensures ListedIssue(t, out[i], (j: Db.JoinedIssue) => (reviewId == 0 || j.row.reviewId == reviewId) && FiltersPass(j, filters))
      {
        assert issues[i].row in t.issues;
        var k :| 0 <= k < |t.issues| && t.issues[k] == issues[i].row;
        IssueSearchToDBSelects(search, R.JoinIssue(t, t.issues[k]));
      }
    }

    /** `CountIssues`: the number of the review's enabled issues that pass the filters. */
    method CountIssues(reviewId: int, filters: Option<IssueFilters>) returns (n: nat)
      requires Valid()
      ensures n == |R.IssuesByFilters(rm.repo, rm.db.Snapshot(), IssueSearchToDB(Some(IssueFiltersToDomain(filters, reviewId))),
                                      R.PagerNoLimit, true, [])|
    {
      n := rm.CountIssues(Some(IssueFiltersToDomain(filters, reviewId)));
    }

    /** `IssuesByProject`: 404 for an unknown project before any query; otherwise at most
        50 enabled issues of the project's reviews that pass the filters, with ids above
        the cursor and strictly ascending: the first page of that selection. */
    method IssuesByProject(projectId: int, filters: Option<IssueFilters>, fromIssueId: Option<int>)
      returns (out: seq<RpcIssue>, err: Option<RpcError>)
      requires Valid()
      ensures err.Some? <==> FindProject(projects, projectId).None?
      ensures err.Some? ==> err.value == NotFound && out == []
      ensures |out| <= ProjectIssuePageSize
      ensures forall i :: 0 <= i < |out| ==>
        ListedIssue(rm.db.Snapshot(), out[i], InProjectPage(projectId, filters, fromIssueId))
      ensures forall i, j :: 0 <= i < j < |out| ==> out[i].id < out[j].id
      ensures err.None? ==>
        var rows := R.IssuesByFilters(rm.repo, rm.db.Snapshot(), IssueSearchToDB(Some(ProjectIssueSearch(projectId, filters, fromIssueId))),
                                      R.NewPager(ProjectIssuePageSize), true, [R.IdAsc]);
        |out| == |rows| && forall i :: 0 <= i < |out| ==> RpcIssueOf(rm.db.Snapshot(), rows[i].row) == Some(out[i])
    {
      err := CheckProject(projectId);
      if err.Some? {
        return [], err;
      }
      out := ProjectIssues(projectId, filters, fromIssueId);
    }

    /** The page `IssuesByProject` returns once the project is known. */
    method ProjectIssues(projectId: int, filters: Option<IssueFilters>, fromIssueId: Option<int>) returns (out: seq<RpcIssue>)
      requires Valid()
      ensures |out| <= ProjectIssuePageSize
      ensures forall i :: 0 <= i < |out| ==>
        ListedIssue(rm.db.Snapshot(), out[i], InProjectPage(projectId, filters, fromIssueId))
      ensures forall i, j :: 0 <= i < j < |out| ==> out[i].id < out[j].id
      ensures var rows := R.IssuesByFilters(rm.repo, rm.db.Snapshot(), IssueSearchToDB(Some(ProjectIssueSearch(projectId, filters, fromIssueId))),
                                            R.NewPager(ProjectIssuePageSize), true, [R.IdAsc]);
        |out| == |rows| && forall i :: 0 <= i < |out| ==> RpcIssueOf(rm.db.Snapshot(), rows[i].row) == Some(out[i])
    {
      var t := rm.db.Snapshot();
      var search := ProjectIssueSearch(projectId, filters, fromIssueId);
      var issues := rm.ListIssuesByProject(Some(search), ProjectIssuePageSize);
      out := Convert(t, issues);
      ProjectIssuesListed(t, issues, out, projectId, filters, fromIssueId);
    }

    /** `CountIssuesByProject`: 404 for an unknown project; otherwise the number of the
        project's enabled issues that pass the filters. */
    method CountIssuesByProject(projectId: int, filters: Option<IssueFilters>) returns (n: nat, err: Option<RpcError>)
      requires Valid()
      ensures err.Some? <==> FindProject(projects, projectId).None?
      ensures err.Some? ==> err.value == NotFound && n == 0
      ensures err.None? ==>
        n == |R.IssuesByFilters(rm.repo, rm.db.Snapshot(), IssueSearchToDB(Some(IssueFiltersToDomainByProject(filters, projectId))),
                                R.PagerNoLimit, true, [])|
    {
      err := CheckProject(projectId);
      if err.Some? {
        return 0, err;
      }
      n := rm.CountIssues(Some(IssueFiltersToDomainByProject(filters, projectId)));
    }

    /** `Feedback`: 404 and no write exactly for an issue that is not enabled; otherwise
        the flag and its processing time are written. */
    method Feedback(issueId: int, isFalsePositive: Option<bool>, now: Db.Time) returns (ok: bool, err: Option<RpcError>)
      requires Valid()
      modifies rm.db
      ensures Valid()
      ensures err.None? <==> IssueExists(old(rm.db.issues), issueId)
      ensures err.Some? ==> !ok && unchanged(rm.db) && err.value == NotFound
      ensures err.None? ==>
        ok &&
        rm.db.reviews == old(rm.db.reviews) && rm.db.files == old(rm.db.files) &&
        |rm.db.issues| == |old(rm.db.issues)| &&
        forall k :: 0 <= k < |rm.db.issues| ==>
          rm.db.issues[k] == if old(rm.db.issues)[k].id == issueId
            then old(rm.db.issues)[k].(isFalsePositive := isFalsePositive, processedAt := M.FeedbackRow(issueId, isFalsePositive, now).processedAt)
            else old(rm.db.issues)[k]
    {
      err := CheckIssue(issueId);
      if err.Some? {
        return false, err;
      }
      ok := rm.SetFeedback(issueId, isFalsePositive, now);
      LinkKept(old(rm.db.issues), rm.db.issues, rm.db.files);
    }

    /** `SetComment`: a comment over 255 UTF-8 bytes is a 400 before any lookup; an issue
        that is not enabled is a 404; neither writes. Otherwise, and only then, the comment
        is written (`None` clears it). */
    method SetComment(issueId: int, comment: Option<string>) returns (ok: bool, err: Option<RpcError>)
      requires Valid()
      modifies rm.db
      ensures Valid()
      ensures comment.Some? && Strings.Utf8Len(comment.value) > MaxCommentBytes ==> err == Some(BadRequest)
      ensures err == Some(BadRequest) ==> comment.Some? && Strings.Utf8Len(comment.value) > MaxCommentBytes
      ensures err.None? <==>
        (comment.None? || Strings.Utf8Len(comment.value) <= MaxCommentBytes) && IssueExists(old(rm.db.issues), issueId)
      ensures err.Some? ==> !ok && unchanged(rm.db)
      ensures err.Some? ==> err.value == BadRequest || err.value == NotFound
      ensures err.None? ==>
        ok &&
        rm.db.reviews == old(rm.db.reviews) && rm.db.files == old(rm.db.files) &&
        |rm.db.issues| == |old(rm.db.issues)| &&
        forall k :: 0 <= k < |rm.db.issues| ==>
          rm.db.issues[k] == if old(rm.db.issues)[k].id == issueId then old(rm.db.issues)[k].(comment := comment) else old(rm.db.issues)[k]
    {
      if comment.Some? && Strings.Utf8Len(comment.value) > MaxCommentBytes {
        return false, Some(BadRequest);
      }
      err := CheckIssue(issueId);
      if err.Some? {
        return false, err;
      }
      ok := rm.SetComment(issueId, comment);
      LinkKept(old(rm.db.issues), rm.db.issues, rm.db.files);
    }
  }

  /** The summaries of a listed page are built from stored, selected reviews. */
  lemma {:induction false} SummariesListed(t: R.Tables, listed: seq<Review>, reviews: seq<Review>, rs: seq<ReviewSummary>, search: ReviewSearch)
    requires R.UniqueReviewIds(t.reviews)
    requires |reviews| == |listed| == |rs|
    requires forall i :: 0 <= i < |listed| ==>
      listed[i].row in t.reviews && listed[i].row.statusId == Db.StatusEnabled &&
      Db.ReviewMatches(listed[i].row, ReviewSearchToDB(Some(search)).value) &&
      listed[i].files == Q.FilesOfReview(t, listed[i].row.id)
    requires forall i :: 0 <= i < |listed| ==> reviews[i].row == listed[i].row && reviews[i].files == listed[i].files
    requires forall i :: 0 <= i < |rs| ==> rs[i] == SummaryOf(reviews[i])
    ensures forall i :: 0 <= i < |rs| ==> ListedSummary(t, rs[i], search)
  {
    forall i | 0 <= i < |rs| ensures ListedSummary(t, rs[i], search) {
      var k :| 0 <= k < |t.reviews| && t.reviews[k] == listed[i].row;
      Q.FindUnique(t.reviews, k);
    }
  }

  /** After `FillLastVersions` on a freshly listed page, the last occurrence of each id
      carries its newest version, when there is one, and every other entry carries none. */
  lemma {:induction false} SummariesLastVersion(t: R.Tables, listed: seq<Review>, reviews: seq<Review>, rs: seq<ReviewSummary>)
    requires |reviews| == |listed| == |rs|
    requires forall i :: 0 <= i < |listed| ==> listed[i].lastVersionReviewId.None?
    requires forall i :: 0 <= i < |listed| ==>
      reviews[i].row == listed[i].row &&
      reviews[i].lastVersionReviewId ==
        if Q.LastWithId(listed, i) && Q.Resolve(t, reviews[i].row.id).Some?
        then Q.Resolve(t, reviews[i].row.id)
        else listed[i].lastVersionReviewId
    requires forall i :: 0 <= i < |rs| ==> rs[i] == SummaryOf(reviews[i])
    ensures forall i :: 0 <= i < |rs| ==>
      rs[i].lastVersionReviewId == if LastSummaryWithId(rs, i) then Q.Resolve(t, rs[i].id) else None
    ensures forall i :: 0 <= i < |rs| ==> rs[i].createdAt == listed[i].row.createdAt && rs[i].id == listed[i].row.id
  {
    assert forall m :: 0 <= m < |rs| ==> rs[m].id == listed[m].row.id;
    forall i | 0 <= i < |rs|
      ensures rs[i].lastVersionReviewId == if LastSummaryWithId(rs, i) then Q.Resolve(t, rs[i].id) else None
    {
      assert LastSummaryWithId(rs, i) <==> Q.LastWithId(listed, i);
    }
  }

  /** `newIssues` over the listed issues of a snapshot. */
  method Convert(ghost t: R.Tables, issues: seq<Issue>) returns (out: seq<RpcIssue>)
    requires FilesLinked(t.issues, t.files)
    requires forall k :: 0 <= k < |issues| ==>
      issues[k].row in t.issues && issues[k].row.statusId == Db.StatusEnabled &&
      issues[k].reviewFile == R.FindReviewFile(t.files, issues[k].row.reviewFileId) &&
      issues[k].review == R.FindReview(t.reviews, issues[k].row.reviewId)
    ensures |out| == |issues|
    ensures forall k :: 0 <= k < |issues| ==> RpcIssueOf(t, issues[k].row) == Some(out[k])
  {
    forall k | 0 <= k < |issues| ensures issues[k].reviewFile.Some? {
      var m :| 0 <= m < |t.issues| && t.issues[m] == issues[k].row;
    }
    out := NewIssues(issues);
  }

  /** The converted page of `IssuesByProject` lists enabled stored issues that its search
      selects. */
  lemma {:induction false} ProjectIssuesListed(t: R.Tables, issues: seq<Issue>, out: seq<RpcIssue>,
                                               projectId: int, filters: Option<IssueFilters>, fromIssueId: Option<int>)
    requires |out| == |issues|
    requires forall k :: 0 <= k < |issues| ==> RpcIssueOf(t, issues[k].row) == Some(out[k])
    requires forall k :: 0 <= k < |issues| ==>
      issues[k].row in t.issues && issues[k].row.statusId == Db.StatusEnabled &&
      Db.IssueMatches(Db.JoinedIssue(issues[k].row, issues[k].reviewFile, issues[k].review),
                      IssueSearchToDB(Some(ProjectIssueSearch(projectId, filters, fromIssueId))).value)
    requires forall k :: 0 <= k < |issues| ==>
      issues[k].reviewFile == R.FindReviewFile(t.files, issues[k].row.reviewFileId) &&
      issues[k].review == R.FindReview(t.reviews, issues[k].row.reviewId)
    ensures forall i :: 0 <= i < |out| ==> ListedIssue(t, out[i], InProjectPage(projectId, filters, fromIssueId))
  {
    var search := ProjectIssueSearch(projectId, filters, fromIssueId);
    forall i | 0 <= i < |out| ensures ListedIssue(t, out[i], InProjectPage(projectId, filters, fromIssueId)) {
      var k :| 0 <= k < |t.issues| && t.issues[k] == issues[i].row;
      IssueSearchToDBSelects(search, R.JoinIssue(t, t.issues[k]));
    }
  }

  /** An update that keeps every issue's status and file keeps the issues linked. */
  lemma {:induction false} LinkKept(before: seq<Db.IssueRow>, after: seq<Db.IssueRow>, files: seq<Db.ReviewFileRow>)
    requires FilesLinked(before, files)
    requires |after| == |before|
    requires forall k :: 0 <= k < |after| ==>
      after[k].statusId == before[k].statusId && after[k].reviewFileId == before[k].reviewFileId
    ensures FilesLinked(after, files)
  {
  }
}
