/** What the read paths of the review manager (pkg/reviewer/manager.go) compute, as
    functions of a snapshot of the tables: the files and issues attached to a review, the
    version chaining of `FillLastVersions` and the per-project aggregate of
    `ProjectsStats`, which the Go code obtains with hand-written SQL. */
module Queries {
  import opened Common
  import opened Sorting
  import Db = DbModel
  import opened ReviewerModel
  import R = Repository
  import opened Collection

  /** The repository of a review manager: every table sees enabled rows only, and the
      default order is newest first. */
  predicate EnabledOnly(rr: R.ReviewRepo)
  {
    EnabledTable(rr, R.IssueTable) && EnabledTable(rr, R.ReviewFileTable) && EnabledTable(rr, R.ReviewTable)
  }

  /** The table hides deleted and disabled rows and lists newest first. */
  predicate EnabledTable(rr: R.ReviewRepo, t: R.TableName)
  {
    R.FiltersOf(rr, t) == [R.StatusFilter, R.StatusEnabledFilter] && R.SortOf(rr, t) == [R.CreatedAtDesc]
  }

  /** Through such a repository a row is visible exactly when it is enabled. */
  lemma {:induction false} EnabledOnlyVisible(rr: R.ReviewRepo, t: R.TableName, statusId: int)
    requires EnabledOnly(rr)
    ensures R.PassesAll(R.FiltersOf(rr, t), statusId) <==> statusId == Db.StatusEnabled
  {
    var fs := R.FiltersOf(rr, t);
    assert EnabledTable(rr, t) by {
      assert t == R.IssueTable || t == R.ReviewFileTable || t == R.ReviewTable;
    }
    if statusId == Db.StatusEnabled {
      assert R.FilterHolds(fs[0], statusId) && R.FilterHolds(fs[1], statusId);
    } else {
      assert !R.FilterHolds(fs[1], statusId);
    }
  }

  /** A filter keeps nothing exactly when no element satisfies the condition. */
  lemma {:induction false} FilterEmpty<T>(s: seq<T>, p: T -> bool)
    ensures |Sorting.Filter(s, p)| == 0 <==> forall k :: 0 <= k < |s| ==> !p(s[k])
  {
    if |s| > 0 {
      FilterEmpty(s[1..], p);
      assert forall k :: 1 <= k < |s| ==> s[k] == s[1..][k - 1];
    }
  }

  // ---------------------------------------------------------------------------------
  // Single-row fetches through an enabled-only repository.

  /** `OneReview`: absent exactly when no enabled row matches; a row found is an enabled
      stored row that matches; the only error is more than one match. */
  lemma {:induction false} OneReviewFound(rr: R.ReviewRepo, t: R.Tables, search: Db.ReviewSearch)
    requires EnabledOnly(rr)
    ensures var r := R.OneReview(rr, t, Some(search));
      (r == Ok(None) <==>
        forall k :: 0 <= k < |t.reviews| ==> !(t.reviews[k].statusId == Db.StatusEnabled && Db.ReviewMatches(t.reviews[k], search))) &&
      (r.Ok? && r.value.Some? ==>
        r.value.value in t.reviews && r.value.value.statusId == Db.StatusEnabled && Db.ReviewMatches(r.value.value, search)) &&
      (r.Err? ==> r.error == Db.ErrMultiRows)
  {
    var p := (x: Db.ReviewRow) => R.ReviewSelected(rr, Some(search), x);
    FilterEmpty(t.reviews, p);
    forall x: Db.ReviewRow ensures p(x) <==> x.statusId == Db.StatusEnabled && Db.ReviewMatches(x, search) {
      EnabledOnlyVisible(rr, R.ReviewTable, x.statusId);
    }
  }

  lemma {:induction false} OneReviewFileFound(rr: R.ReviewRepo, t: R.Tables, search: Db.ReviewFileSearch)
    requires EnabledOnly(rr)
    ensures var r := R.OneReviewFile(rr, t, Some(search));
      (r == Ok(None) <==>
        forall k :: 0 <= k < |t.files| ==> !(t.files[k].statusId == Db.StatusEnabled && Db.ReviewFileMatches(t.files[k], search))) &&
      (r.Ok? && r.value.Some? ==>
        r.value.value in t.files && r.value.value.statusId == Db.StatusEnabled && Db.ReviewFileMatches(r.value.value, search)) &&
      (r.Err? ==> r.error == Db.ErrMultiRows)
  {
    var p := (x: Db.ReviewFileRow) => R.ReviewFileSelected(rr, Some(search), x);
    FilterEmpty(t.files, p);
    forall x: Db.ReviewFileRow ensures p(x) <==> x.statusId == Db.StatusEnabled && Db.ReviewFileMatches(x, search) {
      EnabledOnlyVisible(rr, R.ReviewFileTable, x.statusId);
    }
  }

  /** `IssueByID`: absent exactly when no enabled issue has the id; a found issue is that
      stored row, returned without its joins. */
  lemma {:induction false} IssueByIDFound(rr: R.ReviewRepo, t: R.Tables, id: int)
    requires EnabledOnly(rr)
    ensures var r := R.IssueByID(rr, t, id);
      (r == Ok(None) <==> forall k :: 0 <= k < |t.issues| ==> !(t.issues[k].statusId == Db.StatusEnabled && t.issues[k].id == id)) &&
      (r.Ok? && r.value.Some? ==>
        r.value.value.row in t.issues && r.value.value.row.statusId == Db.StatusEnabled && r.value.value.row.id == id &&
        r.value.value.reviewFile.None? && r.value.value.review.None?) &&
      (r.Err? ==> r.error == Db.ErrMultiRows)
  {
    var search := Some(Db.IssueSearch(Some(id), None, None, None, None, None, None, None));
    var p := (j: Db.JoinedIssue) => R.IssueSelected(rr, search, j);
    var all := R.JoinAll(t, t.issues);
    FilterEmpty(all, p);
    forall j: Db.JoinedIssue ensures p(j) <==> j.row.statusId == Db.StatusEnabled && j.row.id == id {
      EnabledOnlyVisible(rr, R.IssueTable, j.row.statusId);
    }
    R.JoinAllRows(t, t.issues);
    if forall k :: 0 <= k < |t.issues| ==> !(t.issues[k].statusId == Db.StatusEnabled && t.issues[k].id == id) {
      forall k | 0 <= k < |all| ensures !p(all[k]) {
        assert all[k].row == t.issues[k];
      }
    } else {
      var k :| 0 <= k < |t.issues| && t.issues[k].statusId == Db.StatusEnabled && t.issues[k].id == id;
      assert p(all[k]);
    }
  }

  // ---------------------------------------------------------------------------------
  // Files and issues of a review.

  /** `NewReviewFile` of a fetched row: no issues attached yet. */
  function WrapFile(f: Db.ReviewFileRow): (rf: ReviewFile)
    ensures Some(rf) == NewReviewFile(Some(f))
  {
    ReviewFile(f, [])
  }

  /** `NewIssue` of a fetched issue with its joined rows. */
  function WrapIssue(j: Db.JoinedIssue): (i: Issue)
    ensures Some(i) == NewIssue(Some(j))
  {
    Issue(j.row, j.reviewFile, j.review)
  }

  function JoinWith(t: R.Tables): Db.IssueRow -> Db.JoinedIssue
  {
    (row: Db.IssueRow) => R.JoinIssue(t, row)
  }

  /** An enabled file of review `id`. */
  function FileOfReview(id: int): Db.ReviewFileRow -> bool
  {
    (f: Db.ReviewFileRow) => f.statusId == Db.StatusEnabled && f.reviewId == id
  }

  /** An enabled issue of review `rid` that belongs to file `fid`. */
  function IssueOfFile(rid: int, fid: int): Db.IssueRow -> bool
  {
    (i: Db.IssueRow) => i.statusId == Db.StatusEnabled && i.reviewId == rid && i.reviewFileId == fid
  }

  /** The files a loaded review carries: its enabled files in table order. */
  function FilesOfReview(t: R.Tables, id: int): seq<ReviewFile>
  {
    MapSeq(Sorting.Filter(t.files, FileOfReview(id)), WrapFile)
  }

  /** The issues a loaded file carries: the enabled issues of the review that point at
      the file, in table order, with their file and review joined. */
  function IssuesOfFile(t: R.Tables, rid: int, fid: int): seq<Issue>
  {
    MapSeq(MapSeq(Sorting.Filter(t.issues, IssueOfFile(rid, fid)), JoinWith(t)), WrapIssue)
  }

  /** The review-file search of `ListReviews`: files of any of the listed reviews. */
  function FilesOfReviewsSearch(ids: seq<int>): Db.ReviewFileSearch
  {
    Db.ReviewFileSearch(None, None, Some(ids), None)
  }

  function FilesOfReviewSearch(id: int): Db.ReviewFileSearch
  {
    Db.ReviewFileSearch(None, Some(id), None, None)
  }

  function IssuesOfReviewSearch(id: int): Db.IssueSearch
  {
    Db.IssueSearch(None, Some(id), None, None, None, None, None, None)
  }

  lemma {:induction false} JoinAllIsMap(t: R.Tables, rows: seq<Db.IssueRow>)
    ensures R.JoinAll(t, rows) == MapSeq(rows, JoinWith(t))
  {
  }

  /** Grouping the files of several reviews by review id gives each listed review exactly
      its own enabled files, in table order. */
  lemma {:induction false} ListedFilesGroup(rr: R.ReviewRepo, t: R.Tables, ids: seq<int>, id: int)
    requires EnabledOnly(rr) && id in ids
    ensures Sorting.Filter(MapSeq(R.ReviewFilesByFilters(rr, t, Some(FilesOfReviewsSearch(ids)), R.PagerNoLimit, []), WrapFile),
                           KeyIs(FileReviewId, id))
            == FilesOfReview(t, id)
  {
    var sel := (f: Db.ReviewFileRow) => R.ReviewFileSelected(rr, Some(FilesOfReviewsSearch(ids)), f);
    var rows := R.ReviewFilesByFilters(rr, t, Some(FilesOfReviewsSearch(ids)), R.PagerNoLimit, []);
    assert rows == Sorting.Filter(t.files, sel);
    var byId := (f: Db.ReviewFileRow) => f.reviewId == id;
    forall f: Db.ReviewFileRow ensures byId(f) == KeyIs(FileReviewId, id)(WrapFile(f)) {
      assert KeyIs(FileReviewId, id)(WrapFile(f)) == (FileReviewId(WrapFile(f)) == id);
    }
    FilterMapSeq(rows, WrapFile, KeyIs(FileReviewId, id), byId);
    forall f: Db.ReviewFileRow ensures FileOfReview(id)(f) == (sel(f) && byId(f)) {
      EnabledOnlyVisible(rr, R.ReviewFileTable, f.statusId);
    }
    FilterFilter(t.files, sel, byId, FileOfReview(id));
  }

  /** The files `GetReview` loads: the enabled files of the review, in table order. */
  lemma {:induction false} ReviewFilesLoaded(rr: R.ReviewRepo, t: R.Tables, id: int)
    requires EnabledOnly(rr)
    ensures MapSeq(R.ReviewFilesByFilters(rr, t, Some(FilesOfReviewSearch(id)), R.PagerNoLimit, []), WrapFile)
            == FilesOfReview(t, id)
  {
    var sel := (f: Db.ReviewFileRow) => R.ReviewFileSelected(rr, Some(FilesOfReviewSearch(id)), f);
    forall f: Db.ReviewFileRow ensures sel(f) == FileOfReview(id)(f) {
      EnabledOnlyVisible(rr, R.ReviewFileTable, f.statusId);
    }
    FilterSame(t.files, sel, FileOfReview(id));
  }

  lemma {:induction false} FilterSame<T>(s: seq<T>, p: T -> bool, q: T -> bool)
    requires forall x :: p(x) == q(x)
    ensures Sorting.Filter(s, p) == Sorting.Filter(s, q)
  {
    if |s| > 0 {
      FilterSame(s[1..], p, q);
    }
  }

  /** Grouping the issues of a review by file id gives each file exactly its own enabled
      issues, in table order, with their joins. */
  lemma {:induction false} ReviewIssuesGroup(rr: R.ReviewRepo, t: R.Tables, rid: int, fid: int)
    requires EnabledOnly(rr)
    ensures Sorting.Filter(MapSeq(R.IssuesByFilters(rr, t, Some(IssuesOfReviewSearch(rid)), R.PagerNoLimit, true, []), WrapIssue),
                           KeyIs(IssueFileId, fid))
            == IssuesOfFile(t, rid, fid)
  {
    var sel := (j: Db.JoinedIssue) => R.IssueSelected(rr, Some(IssuesOfReviewSearch(rid)), j);
    var js := R.IssuesByFilters(rr, t, Some(IssuesOfReviewSearch(rid)), R.PagerNoLimit, true, []);
    assert js == Sorting.Filter(R.JoinAll(t, t.issues), sel);
    var byFile := (j: Db.JoinedIssue) => j.row.reviewFileId == fid;
    forall j: Db.JoinedIssue ensures byFile(j) == KeyIs(IssueFileId, fid)(WrapIssue(j)) {
      assert KeyIs(IssueFileId, fid)(WrapIssue(j)) == (IssueFileId(WrapIssue(j)) == fid);
    }
    FilterMapSeq(js, WrapIssue, KeyIs(IssueFileId, fid), byFile);
    var both := (j: Db.JoinedIssue) => IssueOfFile(rid, fid)(j.row);
    SelectedIssuesOfFile(rr, t, rid, fid, sel, byFile, both);
  }

  lemma {:induction false} SelectedIssuesOfFile(rr: R.ReviewRepo, t: R.Tables, rid: int, fid: int,
                             sel: Db.JoinedIssue -> bool, byFile: Db.JoinedIssue -> bool, both: Db.JoinedIssue -> bool)
    requires EnabledOnly(rr)
    requires forall j :: sel(j) == R.IssueSelected(rr, Some(IssuesOfReviewSearch(rid)), j)
    requires forall j :: byFile(j) == (j.row.reviewFileId == fid)
    requires forall j :: both(j) == IssueOfFile(rid, fid)(j.row)
    ensures Sorting.Filter(Sorting.Filter(R.JoinAll(t, t.issues), sel), byFile)
            == MapSeq(Sorting.Filter(t.issues, IssueOfFile(rid, fid)), JoinWith(t))
  {
    forall j: Db.JoinedIssue ensures both(j) == (sel(j) && byFile(j)) {
      EnabledOnlyVisible(rr, R.IssueTable, j.row.statusId);
    }
    FilterFilter(R.JoinAll(t, t.issues), sel, byFile, both);
    JoinAllIsMap(t, t.issues);
    forall row: Db.IssueRow ensures IssueOfFile(rid, fid)(row) == both(JoinWith(t)(row)) {
    }
    FilterMapSeq(t.issues, JoinWith(t), both, IssueOfFile(rid, fid));
  }

  // ---------------------------------------------------------------------------------
  // FillLastVersions.

  /** An enabled review of the version group (project, external id); an empty external id
      belongs to no group. */
  predicate InGroup(r: Db.ReviewRow, projectId: int, externalId: string)
  {
    r.statusId == Db.StatusEnabled && r.externalId != "" && r.projectId == projectId && r.externalId == externalId
  }

  /** The largest id in a version group, if the group has a member: what
      `DISTINCT ON ("projectId", "externalId") ... ORDER BY "reviewId" DESC` keeps. */
  function MaxId(rows: seq<Db.ReviewRow>, projectId: int, externalId: string): (m: Option<int>)
    ensures m.None? <==> forall k :: 0 <= k < |rows| ==> !InGroup(rows[k], projectId, externalId)
    ensures m.Some? ==> exists k :: 0 <= k < |rows| && InGroup(rows[k], projectId, externalId) && rows[k].id == m.value
    ensures m.Some? ==> forall k :: 0 <= k < |rows| && InGroup(rows[k], projectId, externalId) ==> rows[k].id <= m.value
  {
    if |rows| == 0 then None
    else
      var rest := MaxId(rows[1..], projectId, externalId);
      assert forall k :: 1 <= k < |rows| ==> rows[k] == rows[1..][k - 1];
      if !InGroup(rows[0], projectId, externalId) then rest
      else if rest.Some? && rest.value > rows[0].id then rest
      else Some(rows[0].id)
  }

  /** The last version of stored review `id`: the largest enabled id of its group, unless
      that is the review itself. The stored row may itself be disabled. */
  function Resolve(t: R.Tables, id: int): Option<int>
  {
    var r := R.FindReview(t.reviews, id);
    if r.None? || r.value.externalId == "" then None
    else
      var m := MaxId(t.reviews, r.value.projectId, r.value.externalId);
      if m.Some? && m.value != id then m else None
  }

  /** One row of the `FillLastVersions` query. */
  datatype LastVersion = LastVersion(reviewId: int, lastVersionReviewId: int)

  /** The stored reviews the query reports: listed, with an external id, and not the
      latest of their group. */
  function HasNewerVersion(t: R.Tables, ids: set<int>): Db.ReviewRow -> bool
  {
    (r: Db.ReviewRow) => r.id in ids && r.externalId != "" &&
      var m := MaxId(t.reviews, r.projectId, r.externalId); m.Some? && m.value != r.id
  }

  /** The result rows of the `FillLastVersions` query, in table order. */
  function LastVersionResults(t: R.Tables, ids: set<int>): (res: seq<LastVersion>)
    ensures |res| <= |t.reviews|
  {
    var rows := Sorting.Filter(t.reviews, HasNewerVersion(t, ids));
    seq(|rows|, k requires 0 <= k < |rows| =>
      LastVersion(rows[k].id, MaxId(t.reviews, rows[k].projectId, rows[k].externalId).value))
  }

  /** With unique ids the lookup finds the one row carrying the id. */
  lemma {:induction false} FindUnique(rows: seq<Db.ReviewRow>, k: nat)
    requires R.UniqueReviewIds(rows) && k < |rows|
    ensures R.FindReview(rows, rows[k].id) == Some(rows[k])
  {
    var r := R.FindReview(rows, rows[k].id);
    var m :| 0 <= m < |rows| && rows[m] == r.value;
    assert m == k;
  }

  /** The query reports a listed review exactly when it has a last version other than
      itself, and then it reports that version. */
  lemma {:induction false} LastVersionResultsResolve(t: R.Tables, ids: set<int>, id: int)
    requires R.UniqueReviewIds(t.reviews)
    ensures (exists k :: 0 <= k < |LastVersionResults(t, ids)| && LastVersionResults(t, ids)[k].reviewId == id)
            <==> id in ids && Resolve(t, id).Some?
    ensures forall k :: 0 <= k < |LastVersionResults(t, ids)| && LastVersionResults(t, ids)[k].reviewId == id ==>
              Some(LastVersionResults(t, ids)[k].lastVersionReviewId) == Resolve(t, id)
  {
    var res := LastVersionResults(t, ids);
    forall k | 0 <= k < |res| && res[k].reviewId == id
      ensures id in ids && Some(res[k].lastVersionReviewId) == Resolve(t, id)
    {
      ReportedResolves(t, ids, k);
    }
    if id in ids && Resolve(t, id).Some? {
      ResolvedReported(t, ids, id);
    }
  }

  lemma {:induction false} ReportedResolves(t: R.Tables, ids: set<int>, k: nat)
    requires R.UniqueReviewIds(t.reviews)
    requires k < |LastVersionResults(t, ids)|
    ensures var v := LastVersionResults(t, ids)[k];
      v.reviewId in ids && Some(v.lastVersionReviewId) == Resolve(t, v.reviewId)
  {
    var rows := Sorting.Filter(t.reviews, HasNewerVersion(t, ids));
    assert HasNewerVersion(t, ids)(rows[k]) && rows[k] in t.reviews;
    var m :| 0 <= m < |t.reviews| && t.reviews[m] == rows[k];
    FindUnique(t.reviews, m);
  }

  lemma {:induction false} ResolvedReported(t: R.Tables, ids: set<int>, id: int)
    requires id in ids && Resolve(t, id).Some?
    ensures exists k :: 0 <= k < |LastVersionResults(t, ids)| && LastVersionResults(t, ids)[k].reviewId == id
  {
    var p := HasNewerVersion(t, ids);
    var rows := Sorting.Filter(t.reviews, p);
    var r := R.FindReview(t.reviews, id).value;
    assert p(r);
    FilterMembers(t.reviews, p, r);
    var k :| 0 <= k < |rows| && rows[k] == r;
    assert LastVersionResults(t, ids)[k].reviewId == id;
  }

  /** A last version is a newer review: for an enabled stored review the reported id
      exceeds its own, and it is the largest enabled id of the group. */
  lemma {:induction false} ResolveIsNewest(t: R.Tables, id: int)
    requires R.UniqueReviewIds(t.reviews)
    ensures Resolve(t, id).Some? ==>
      var r := R.FindReview(t.reviews, id).value;
      var l := Resolve(t, id).value;
      r.externalId != "" && l != id &&
      (exists k :: 0 <= k < |t.reviews| && t.reviews[k].id == l && InGroup(t.reviews[k], r.projectId, r.externalId)) &&
      (forall k :: 0 <= k < |t.reviews| && InGroup(t.reviews[k], r.projectId, r.externalId) ==> t.reviews[k].id <= l) &&
      (r.statusId == Db.StatusEnabled ==> l > id)
  {
    if Resolve(t, id).Some? {
      var r := R.FindReview(t.reviews, id).value;
      var m :| 0 <= m < |t.reviews| && t.reviews[m] == r;
      if r.statusId == Db.StatusEnabled {
        assert InGroup(t.reviews[m], r.projectId, r.externalId);
      }
    }
  }

  /** A review without an external id, or one that is itself the newest of its group, has
      no last version. */
  lemma {:induction false} NoVersionCases(t: R.Tables, k: nat)
    requires R.UniqueReviewIds(t.reviews) && k < |t.reviews|
    ensures t.reviews[k].externalId == "" ==> Resolve(t, t.reviews[k].id).None?
    ensures MaxId(t.reviews, t.reviews[k].projectId, t.reviews[k].externalId) == Some(t.reviews[k].id) ==>
      Resolve(t, t.reviews[k].id).None?
  {
    FindUnique(t.reviews, k);
  }

  /** `k` is the last position of its id: `FillLastVersions` indexes the slice by id, so a
      later duplicate wins. */
  predicate LastWithId(rs: seq<Review>, k: nat)
    requires k < |rs|
  {
    forall m :: k < m < |rs| ==> rs[m].row.id != rs[k].row.id
  }

  // ---------------------------------------------------------------------------------
  // Issues of a project by ascending id.

  /** Ordered by id ascending, a page of issues of a table with unique ids is strictly
      ascending: the order is by id and no id repeats. */
  lemma {:induction false} IdAscStrict(rr: R.ReviewRepo, t: R.Tables, search: Option<Db.IssueSearch>, pager: R.Pager)
    requires R.UniqueIssueIds(t.issues)
    ensures var js := R.IssuesByFilters(rr, t, search, pager, true, [R.IdAsc]);
      forall i, j :: 0 <= i < j < |js| ==> js[i].row.id < js[j].row.id
  {
    var key := R.IssueKey(R.IdAsc);
    var all := R.JoinAll(t, t.issues);
    assert Sorting.DistinctKeys(all, key) by {
      forall i, j | 0 <= i < j < |all| ensures key(all[i]) != key(all[j]) {
        assert all[i].row == t.issues[i] && all[j].row == t.issues[j];
      }
    }
    var selected := R.SelectIssues(rr, t, search);
    Sorting.FilterDistinct(all, (j: Db.JoinedIssue) => R.IssueSelected(rr, search, j), key);
    var sorted := R.ApplySort(selected, [R.IdAsc], R.IssueKey);
    Sorting.PermutationDistinct(selected, sorted, key);
    var js := R.IssuesByFilters(rr, t, search, pager, true, [R.IdAsc]);
    assert js == R.Page(sorted, pager);
    assert Sorting.DistinctKeys(js, key) by {
      forall i, j | 0 <= i < j < |js| ensures key(js[i]) != key(js[j]) {
        assert js[i] == sorted[i] && js[j] == sorted[j];
      }
    }
    Sorting.SortedDistinctStrict(js, key);
    forall i, j | 0 <= i < j < |js| ensures js[i].row.id < js[j].row.id {
      assert key(js[i]) < key(js[j]);
    }
  }

  // ---------------------------------------------------------------------------------
  // ProjectsStats.

  function EnabledInProject(projectId: int): Db.ReviewRow -> bool
  {
    (r: Db.ReviewRow) => r.statusId == Db.StatusEnabled && r.projectId == projectId
  }

  /** The first row with the largest creation time (ties keep table order). */
  function Latest(rows: seq<Db.ReviewRow>): (r: Db.ReviewRow)
    requires |rows| > 0
    ensures r in rows
    ensures forall k :: 0 <= k < |rows| ==> rows[k].createdAt <= r.createdAt
  {
    if |rows| == 1 then rows[0]
    else
      var rest := Latest(rows[1..]);
      assert forall k :: 1 <= k < |rows| ==> rows[k] == rows[1..][k - 1];
      if rest.createdAt > rows[0].createdAt then rest else rows[0]
  }

  /** The `ProjectsStats` row of a project: the number of its enabled reviews and the
      header of the newest one. */
  function StatOf(t: R.Tables, projectId: int): ProjectStats
  {
    var group := Sorting.Filter(t.reviews, EnabledInProject(projectId));
    if |group| == 0 then ProjectStats(projectId, 0, 0, "", "")
    else
      var l := Latest(group);
      ProjectStats(projectId, |group|, l.createdAt, l.author, l.trafficLight)
  }

  /** The projects with an enabled review, each once, in order of first appearance. */
  function ProjectsWithReviews(rows: seq<Db.ReviewRow>): (ps: seq<int>)
    ensures forall p :: p in ps <==> exists k :: 0 <= k < |rows| && rows[k].statusId == Db.StatusEnabled && rows[k].projectId == p
  {
    if |rows| == 0 then []
    else
      var n := |rows| - 1;
      var ps := ProjectsWithReviews(rows[..n]);
      assert forall k :: 0 <= k < n ==> rows[k] == rows[..n][k];
      if rows[n].statusId == Db.StatusEnabled && rows[n].projectId !in ps then ps + [rows[n].projectId] else ps
  }

  /** The result rows of the `ProjectsStats` query. */
  function ProjectStatsRows(t: R.Tables): (rows: seq<ProjectStats>)
    ensures forall k :: 0 <= k < |rows| ==>
      rows[k] == StatOf(t, rows[k].projectId) && rows[k].projectId in ProjectsWithReviews(t.reviews)
    ensures forall p :: p in ProjectsWithReviews(t.reviews) ==> exists k :: 0 <= k < |rows| && rows[k].projectId == p
  {
    var ps := ProjectsWithReviews(t.reviews);
    var rows := seq(|ps|, k requires 0 <= k < |ps| => StatOf(t, ps[k]));
    assert forall k :: 0 <= k < |ps| ==> rows[k].projectId == ps[k];
    rows
  }

  /** The statistics of a project with enabled reviews: the count of those reviews, and
      the creation time, author and light of one of them that no other is newer than. */
  lemma {:induction false} StatOfMeaning(t: R.Tables, projectId: int)
    requires exists k :: 0 <= k < |t.reviews| && t.reviews[k].statusId == Db.StatusEnabled && t.reviews[k].projectId == projectId
    ensures var s := StatOf(t, projectId);
      s.projectId == projectId &&
      s.reviewCount == |Sorting.Filter(t.reviews, EnabledInProject(projectId))| && s.reviewCount >= 1 &&
      (exists k :: 0 <= k < |t.reviews| && EnabledInProject(projectId)(t.reviews[k]) &&
        t.reviews[k].createdAt == s.createdAt && t.reviews[k].author == s.author && t.reviews[k].trafficLight == s.trafficLight) &&
      (forall k :: 0 <= k < |t.reviews| && EnabledInProject(projectId)(t.reviews[k]) ==> t.reviews[k].createdAt <= s.createdAt)
  {
    var p := EnabledInProject(projectId);
    var group := Sorting.Filter(t.reviews, p);
    var k :| 0 <= k < |t.reviews| && t.reviews[k].statusId == Db.StatusEnabled && t.reviews[k].projectId == projectId;
    FilterMembers(t.reviews, p, t.reviews[k]);
    var l := Latest(group);
    assert l in t.reviews && p(l);
    forall m | 0 <= m < |t.reviews| && p(t.reviews[m]) ensures t.reviews[m].createdAt <= l.createdAt {
      FilterMembers(t.reviews, p, t.reviews[m]);
    }
  }
}
