/** The review manager (pkg/reviewer/manager.go): preparing and storing a review graph,
    and the read paths and narrow updates on top of the repository. */
module Manager {
  import opened Common
  import opened Sorting
  import Db = DbModel
  import opened ReviewerModel
  import R = Repository
  import opened Collection
  import Q = Queries

  /** Errors of `CreateReview`, wrapped as the Go code wraps them. */
  datatype CreateError =
    | PrepareFailed(e: Error)
    | AddReviewFailed(dbErr: Db.DbError)
    | AddReviewFileFailed(dbErr: Db.DbError)
    | AddIssueFailed(dbErr: Db.DbError)

  // ---------------------------------------------------------------------------------
  // prepareReview, as a specification.

  predicate HasDuplicateType(files: seq<ReviewFile>)
  {
    exists i, j :: 0 <= i < j < |files| && files[i].row.reviewType == files[j].row.reviewType
  }

  function EnableIssues(issues: seq<Issue>): (r: seq<Issue>)
    ensures |r| == |issues|
  {
    seq(|issues|, j requires 0 <= j < |issues| => issues[j].(row := issues[j].row.(statusId := Db.StatusEnabled)))
  }

  /** A file after preparation: enabled, with the statistics and light of its own issues,
      and every issue enabled. */
  function PrepareFile(f: ReviewFile): ReviewFile
  {
    var stats := Tally(f.issues);
    ReviewFile(f.row.(statusId := Db.StatusEnabled, issueStats := stats, trafficLight := CalcTrafficLight(stats)),
               EnableIssues(f.issues))
  }

  /** The running total of the files' statistics. */
  function TotalStats(files: seq<ReviewFile>): IssueStats
  {
    if |files| == 0 then ZeroStats
    else Add(TotalStats(files[..|files| - 1]), Tally(files[|files| - 1].issues))
  }

  /** All issues of all files, file by file. */
  function AllIssues(files: seq<ReviewFile>): seq<Issue>
  {
    if |files| == 0 then [] else AllIssues(files[..|files| - 1]) + files[|files| - 1].issues
  }

  /** The review after preparation for a project. */
  function Prepared(pr: Project, rv: Review): Review
  {
    Review(
      rv.row.(projectId := pr.row.id, promptId := pr.row.promptId, statusId := Db.StatusEnabled,
              trafficLight := CalcTrafficLight(TotalStats(rv.files))),
      seq(|rv.files|, i requires 0 <= i < |rv.files| => PrepareFile(rv.files[i])),
      rv.lastVersionReviewId)
  }

  /** `prepareReview`: stamps project, prompt and status, rejects a repeated review type,
      and computes each file's statistics and light and the review's light from the sum. */
  method PrepareReview(pr: Project, rv: Review) returns (out: Review, err: Option<Error>)
    ensures err.Some? <==> HasDuplicateType(rv.files)
    ensures err.Some? ==> err.value == ErrDuplicateReviewType
    ensures err.None? ==> out == Prepared(pr, rv)
  {
    var stamped := rv.row.(projectId := pr.row.id, promptId := pr.row.promptId, statusId := Db.StatusEnabled);
    var files := rv.files;
    var seen: set<string> := {};
    var total := ZeroStats;
    var i := 0;
    while i < |files|
      invariant 0 <= i <= |rv.files| == |files|
      invariant seen == TypeSet(rv.files[..i])
      invariant !HasDuplicateType(rv.files[..i])
      invariant forall k :: 0 <= k < i ==> files[k] == PrepareFile(rv.files[k])
      invariant forall k :: i <= k < |rv.files| ==> files[k] == rv.files[k]
      invariant total == TotalStats(rv.files[..i])
    {
      var rt := files[i].row.reviewType;
      if rt in seen {
        DuplicateFound(rv.files, i);
        return rv, Some(ErrDuplicateReviewType);
      }
      NoDuplicateStep(rv.files, i);
      seen := seen + {rt};
      var f, stats := PrepareOneFile(files[i]);
      TotalStep(rv.files, i);
      total := Add(total, stats);
      files := files[i := f];
      i := i + 1;
    }
    assert rv.files[..i] == rv.files;
    out := Review(stamped.(trafficLight := CalcTrafficLight(total)), files, rv.lastVersionReviewId);
    err := None;
  }

  /** One iteration of `prepareReview` over a file: enable it, count its issues, set its
      light, and enable each issue. */
  method PrepareOneFile(file: ReviewFile) returns (f: ReviewFile, stats: IssueStats)
    ensures f == PrepareFile(file) && stats == Tally(file.issues)
  {
    f := file.(row := file.row.(statusId := Db.StatusEnabled));
    stats := CalcIssueStats(f.issues);
    f := f.(row := f.row.(issueStats := stats, trafficLight := CalcTrafficLight(stats)));
    var issues := EnableEach(f.issues);
    f := f.(issues := issues);
  }

  lemma {:induction false} DuplicateFound(files: seq<ReviewFile>, i: nat)
    requires i < |files| && files[i].row.reviewType in TypeSet(files[..i])
    ensures HasDuplicateType(files)
  {
    TypeSetMembers(files[..i], files[i].row.reviewType);
    var k :| 0 <= k < i && files[..i][k].row.reviewType == files[i].row.reviewType;
    assert files[k].row.reviewType == files[i].row.reviewType;
  }

  lemma {:induction false} NoDuplicateStep(files: seq<ReviewFile>, i: nat)
    requires i < |files| && files[i].row.reviewType !in TypeSet(files[..i])
    requires !HasDuplicateType(files[..i])
    ensures !HasDuplicateType(files[..i + 1])
    ensures TypeSet(files[..i + 1]) == TypeSet(files[..i]) + {files[i].row.reviewType}
  {
    assert files[..i + 1][..i] == files[..i];
    TypeSetMembers(files[..i], files[i].row.reviewType);
    var g := files[..i + 1];
    forall a, b | 0 <= a < b < i + 1
      ensures g[a].row.reviewType != g[b].row.reviewType
    {
      assert g[a] == files[..i][a];
      if b < i {
        assert g[b] == files[..i][b];
      }
    }
  }

  /** The review types of a list of files. */
  function TypeSet(files: seq<ReviewFile>): set<string>
  {
    if |files| == 0 then {} else TypeSet(files[..|files| - 1]) + {files[|files| - 1].row.reviewType}
  }

  lemma {:induction false} TypeSetMembers(files: seq<ReviewFile>, t: string)
    ensures t in TypeSet(files) <==> exists k :: 0 <= k < |files| && files[k].row.reviewType == t
  {
    if |files| > 0 {
      var n := |files| - 1;
      TypeSetMembers(files[..n], t);
      if exists k :: 0 <= k < |files| && files[k].row.reviewType == t {
        var k :| 0 <= k < |files| && files[k].row.reviewType == t;
        if k < n {
          assert files[..n][k] == files[k];
        }
      }
    }
  }

  lemma {:induction false} TotalStep(files: seq<ReviewFile>, i: nat)
    requires i < |files|
    ensures TotalStats(files[..i + 1]) == Add(TotalStats(files[..i]), Tally(files[i].issues))
  {
    assert files[..i + 1][..i] == files[..i];
  }

  /** The inner loop of `prepareReview`: every issue of a file becomes enabled. */
  method EnableEach(issues: seq<Issue>) returns (r: seq<Issue>)
    ensures r == EnableIssues(issues)
  {
    r := issues;
    var j := 0;
    while j < |r|
      invariant 0 <= j <= |r| == |issues|
      invariant forall m :: 0 <= m < j ==> r[m] == EnableIssues(issues)[m]
      invariant forall m :: j <= m < |r| ==> r[m] == issues[m]
    {
      r := r[j := r[j].(row := r[j].row.(statusId := Db.StatusEnabled))];
      j := j + 1;
    }
  }

  /** Tallying is blind to the status, so a prepared file's stored statistics are those
      of the issues it carries. */
  lemma {:induction false} EnableIssuesKeepsCounts(issues: seq<Issue>, sev: string)
    ensures CountSeverity(EnableIssues(issues), sev) == CountSeverity(issues, sev)
  {
    if |issues| > 0 {
      var n := |issues| - 1;
      assert EnableIssues(issues)[..n] == EnableIssues(issues[..n]);
      EnableIssuesKeepsCounts(issues[..n], sev);
    }
  }

  lemma {:induction false} PreparedFileStats(f: ReviewFile)
    ensures PrepareFile(f).row.issueStats == Tally(PrepareFile(f).issues)
    ensures PrepareFile(f).row.trafficLight == CalcTrafficLight(Tally(f.issues))
    ensures PrepareFile(f).row.issueStats.total == PrepareFile(f).row.issueStats.critical +
      PrepareFile(f).row.issueStats.high + PrepareFile(f).row.issueStats.medium + PrepareFile(f).row.issueStats.low
  {
    EnableIssuesKeepsCounts(f.issues, SeverityCritical);
    EnableIssuesKeepsCounts(f.issues, SeverityHigh);
    EnableIssuesKeepsCounts(f.issues, SeverityMedium);
    EnableIssuesKeepsCounts(f.issues, SeverityLow);
  }

  /** The summed statistics are the tally of every issue of the review. */
  lemma {:induction false} TotalIsTallyOfAll(files: seq<ReviewFile>)
    ensures TotalStats(files) == Tally(AllIssues(files))
  {
    if |files| > 0 {
      var n := |files| - 1;
      TotalIsTallyOfAll(files[..n]);
      TallyAppend(AllIssues(files[..n]), files[n].issues);
    }
  }

  lemma {:induction false} TotalNonNegative(files: seq<ReviewFile>)
    ensures NonNegative(TotalStats(files))
  {
    if |files| > 0 {
      TotalNonNegative(files[..|files| - 1]);
    }
  }

  /** The review's light is never better than any of its files' lights, and a review
      without files is green. */
  lemma {:induction false} ReviewLightDominatesFiles(files: seq<ReviewFile>, i: nat)
    requires i < |files|
    ensures LightRank(CalcTrafficLight(TotalStats(files))) >= LightRank(CalcTrafficLight(Tally(files[i].issues)))
  {
    var n := |files| - 1;
    TotalNonNegative(files[..n]);
    TotalIsTallyOfAll(files[..n]);
    if i == n {
      LightMonotoneUnderAdd(TotalStats(files[..n]), Tally(files[n].issues));
    } else {
      assert files[..n][i] == files[i];
      ReviewLightDominatesFiles(files[..n], i);
      LightMonotoneUnderAdd(TotalStats(files[..n]), Tally(files[n].issues));
    }
  }

  lemma {:induction false} NoFilesIsGreen(pr: Project, rv: Review)
    requires rv.files == []
    ensures Prepared(pr, rv).row.trafficLight == LightGreen
  {
  }

  // ---------------------------------------------------------------------------------
  // CreateReview, as a specification: the ids the inserts hand out, in insert order.

  function IssueCount(files: seq<ReviewFile>): nat
  {
    if |files| == 0 then 0 else IssueCount(files[..|files| - 1]) + |files[|files| - 1].issues|
  }

  /** Issues of a file after their inserts: review id, file id and consecutive new ids. */
  function SaveIssues(issues: seq<Issue>, rid: int, fid: int, iid: int): (r: seq<Issue>)
    ensures |r| == |issues|
  {
    seq(|issues|, j requires 0 <= j < |issues| =>
      issues[j].(row := issues[j].row.(reviewId := rid, reviewFileId := fid, id := iid + j)))
  }

  function SaveFile(f: ReviewFile, rid: int, fid: int, iid: int): ReviewFile
  {
    ReviewFile(f.row.(reviewId := rid, id := fid), SaveIssues(f.issues, rid, fid, iid))
  }

  /** The review after all inserts succeeded, given the three sequences' next values. */
  function SaveReview(p: Review, rid: int, fid: int, iid: int): Review
  {
    p.(row := p.row.(id := rid),
       files := seq(|p.files|, i requires 0 <= i < |p.files| => SaveFile(p.files[i], rid, fid + i, iid + IssueCount(p.files[..i]))))
  }

  /** The rows an insert stores: the value with `createdAt` from the column default. */
  function StoredIssues(issues: seq<Issue>, now: Db.Time): (r: seq<Db.IssueRow>)
    ensures |r| == |issues|
  {
    seq(|issues|, j requires 0 <= j < |issues| => issues[j].row.(createdAt := now))
  }

  /** Storing one more issue appends its row. */
  lemma {:induction false} StoredIssuesSnoc(issues: seq<Issue>, j: nat, now: Db.Time)
    requires j < |issues|
    ensures StoredIssues(issues[..j + 1], now) == StoredIssues(issues[..j], now) + [issues[j].row.(createdAt := now)]
  {
    assert issues[..j + 1][..j] == issues[..j];
  }

  function StoredFiles(files: seq<ReviewFile>, now: Db.Time): (r: seq<Db.ReviewFileRow>)
    ensures |r| == |files|
  {
    seq(|files|, i requires 0 <= i < |files| => files[i].row.(createdAt := now))
  }

  function StoredIssuesOf(files: seq<ReviewFile>, now: Db.Time): seq<Db.IssueRow>
  {
    if |files| == 0 then [] else StoredIssuesOf(files[..|files| - 1], now) + StoredIssues(files[|files| - 1].issues, now)
  }

  /** Every stored file points at the new review, and every stored issue at the new
      review and at its own file's new id. */
  lemma {:induction false} SavedReviewLinks(p: Review, rid: int, fid: int, iid: int)
    ensures var s := SaveReview(p, rid, fid, iid);
      |s.files| == |p.files| && s.row.id == rid &&
      (forall i :: 0 <= i < |s.files| ==>
        s.files[i].row.reviewId == rid && s.files[i].row.id == fid + i && |s.files[i].issues| == |p.files[i].issues|) &&
      (forall i, j :: 0 <= i < |s.files| && 0 <= j < |s.files[i].issues| ==>
        s.files[i].issues[j].row.reviewId == rid && s.files[i].issues[j].row.reviewFileId == s.files[i].row.id)
  {
    var s := SaveReview(p, rid, fid, iid);
    forall i | 0 <= i < |s.files|
      ensures s.files[i].row.reviewId == rid && s.files[i].row.id == fid + i && |s.files[i].issues| == |p.files[i].issues|
      ensures forall j :: 0 <= j < |s.files[i].issues| ==>
        s.files[i].issues[j].row.reviewId == rid && s.files[i].issues[j].row.reviewFileId == s.files[i].row.id
    {
      SavedFileLinks(p.files[i], rid, fid + i, iid + IssueCount(p.files[..i]));
    }
  }

  /** A stored file points at the review, and each of its issues at the review and at
      the file. */
  lemma {:induction false} SavedFileLinks(f: ReviewFile, rid: int, fid: int, iid: int)
    ensures var sf := SaveFile(f, rid, fid, iid);
      sf.row.reviewId == rid && sf.row.id == fid && |sf.issues| == |f.issues| &&
      forall j :: 0 <= j < |sf.issues| ==> sf.issues[j].row.reviewId == rid && sf.issues[j].row.reviewFileId == fid
  {
  }

  lemma {:induction false} StoredIssuesCount(files: seq<ReviewFile>, now: Db.Time)
    ensures |StoredIssuesOf(files, now)| == IssueCount(files)
  {
    if |files| > 0 {
      StoredIssuesCount(files[..|files| - 1], now);
    }
  }

  /** Saving keeps the number of issues of every file, so the number of issue rows the
      review adds is the number of issues it carried. */
  lemma {:induction false} SaveKeepsIssueCount(p: Review, rid: int, fid: int, iid: int, n: nat)
    requires n <= |p.files|
    ensures IssueCount(SaveReview(p, rid, fid, iid).files[..n]) == IssueCount(p.files[..n])
  {
    if n > 0 {
      var s := SaveReview(p, rid, fid, iid).files;
      assert s[..n][..n - 1] == s[..n - 1];
      assert p.files[..n][..n - 1] == p.files[..n - 1];
      SaveKeepsIssueCount(p, rid, fid, iid, n - 1);
    }
  }

  lemma {:induction false} IssueCountPrefix(files: seq<ReviewFile>, n: nat)
    requires n <= |files|
    ensures IssueCount(files[..n]) <= IssueCount(files)
  {
    if n < |files| {
      var m := |files| - 1;
      assert files[..m][..n] == files[..n];
      IssueCountPrefix(files[..m], n);
    } else {
      assert files[..n] == files;
    }
  }

  /** What one more saved file adds to each of the stored prefixes. */
  lemma {:induction false} SaveStep(p: Review, rid: int, fid: int, iid: int, i: nat, now: Db.Time)
    requires i < |p.files|
    ensures var s := SaveReview(p, rid, fid, iid).files;
      s[i] == SaveFile(p.files[i], rid, fid + i, iid + IssueCount(p.files[..i])) &&
      IssueCount(p.files[..i + 1]) == IssueCount(p.files[..i]) + |p.files[i].issues| &&
      StoredFiles(s[..i + 1], now) == StoredFiles(s[..i], now) + [s[i].row.(createdAt := now)] &&
      StoredIssuesOf(s[..i + 1], now) == StoredIssuesOf(s[..i], now) + StoredIssues(s[i].issues, now)
  {
    var s := SaveReview(p, rid, fid, iid).files;
    IssueCountSnoc(p.files, i);
    StoredFilesSnoc(s, i, now);
    StoredIssuesOfSnoc(s, i, now);
  }

  lemma {:induction false} IssueCountSnoc(files: seq<ReviewFile>, i: nat)
    requires i < |files|
    ensures IssueCount(files[..i + 1]) == IssueCount(files[..i]) + |files[i].issues|
  {
    assert files[..i + 1][..i] == files[..i];
  }

  lemma {:induction false} StoredFilesSnoc(files: seq<ReviewFile>, i: nat, now: Db.Time)
    requires i < |files|
    ensures StoredFiles(files[..i + 1], now) == StoredFiles(files[..i], now) + [files[i].row.(createdAt := now)]
  {
    assert files[..i + 1][..i] == files[..i];
  }

  lemma {:induction false} StoredIssuesOfSnoc(files: seq<ReviewFile>, i: nat, now: Db.Time)
    requires i < |files|
    ensures StoredIssuesOf(files[..i + 1], now) == StoredIssuesOf(files[..i], now) + StoredIssues(files[i].issues, now)
  {
    assert files[..i + 1][..i] == files[..i];
  }

  /** An insert of file `i` or of one of its issues is within the whole transaction. */
  lemma {:induction false} FailedWithin(files: seq<ReviewFile>, i: nat, n: nat)
    requires i < |files|
    requires n < 1 + i + IssueCount(files[..i]) + 1 + |files[i].issues|
    requires IssueCount(files[..i + 1]) == IssueCount(files[..i]) + |files[i].issues|
    ensures n < 1 + |files| + IssueCount(files)
  {
    IssueCountPrefix(files, i + 1);
  }

  /** The stored prefix grows by one file's rows when that file and its issues are
      appended. */
  lemma {:induction false} StoredStep(snap: R.Tables, s: seq<ReviewFile>, i: nat, now: Db.Time,
                                      files0: seq<Db.ReviewFileRow>, issues0: seq<Db.IssueRow>,
                                      files1: seq<Db.ReviewFileRow>, issues1: seq<Db.IssueRow>)
    requires i < |s|
    requires files0 == snap.files + StoredFiles(s[..i], now) && issues0 == snap.issues + StoredIssuesOf(s[..i], now)
    requires files1 == files0 + [s[i].row.(createdAt := now)] && issues1 == issues0 + StoredIssues(s[i].issues, now)
    requires StoredFiles(s[..i + 1], now) == StoredFiles(s[..i], now) + [s[i].row.(createdAt := now)]
    requires StoredIssuesOf(s[..i + 1], now) == StoredIssuesOf(s[..i], now) + StoredIssues(s[i].issues, now)
    ensures files1 == snap.files + StoredFiles(s[..i + 1], now) && issues1 == snap.issues + StoredIssuesOf(s[..i + 1], now)
  {
  }

  lemma {:induction false} TablesValidGrow(t: R.Tables, a: int, b: int, c: int, a': int, b': int, c': int)
    requires R.TablesValid(t, a, b, c)
    requires a <= a' && b <= b' && c <= c'
    ensures R.TablesValid(t, a', b', c')
  {
  }

  class ReviewManager {
    const db: R.Database
    const repo: R.ReviewRepo

    ghost predicate Valid()
      reads this, db
    {
      db.Valid() && Q.EnabledOnly(repo)
    }

    /** `NewReviewManager`: a repository that sees enabled rows only. */
    constructor (store: R.Database)
      requires store.Valid()
      ensures Valid()
      ensures db == store
      ensures repo.conn == R.BaseConn
    {
      db := store;
      var base := R.NewReviewRepo(R.BaseConn);
      var enabled := R.WithEnabledOnly(base);
      repo := enabled;
      assert R.IssueTable in base.filters && R.ReviewFileTable in base.filters && R.ReviewTable in base.filters;
    }

    /** One file and then its issues, in the order `CreateReview` inserts them; insert
        number `ordinal` is the file's, and the issues follow it. */
    method AddFileWithIssues(f: ReviewFile, rid: int, now: Db.Time, ordinal: nat, failAt: Option<nat>)
      returns (saved: ReviewFile, err: Option<CreateError>)
      requires db.Valid()
      modifies db
      ensures db.Valid()
      ensures db.reviews == old(db.reviews) && db.nextReviewId == old(db.nextReviewId)
      ensures db.nextFileId >= old(db.nextFileId) && db.nextIssueId >= old(db.nextIssueId)
      ensures err.None? <==> !(failAt.Some? && ordinal <= failAt.value < ordinal + 1 + |f.issues|)
      ensures err.None? ==>
        saved == SaveFile(f, rid, old(db.nextFileId), old(db.nextIssueId)) &&
        db.files == old(db.files) + [saved.row.(createdAt := now)] &&
        db.issues == old(db.issues) + StoredIssues(saved.issues, now) &&
        db.nextFileId == old(db.nextFileId) + 1 && db.nextIssueId == old(db.nextIssueId) + |f.issues|
    {
      var fid0, iid0 := db.nextFileId, db.nextIssueId;
      var row, e := db.AddReviewFile(f.row.(reviewId := rid), now, failAt == Some(ordinal));
      saved := f.(row := row);
      if e.Some? {
        return saved, Some(AddReviewFileFailed(e.value));
      }
      var target := SaveIssues(f.issues, rid, fid0, iid0);
      var j := 0;
      while j < |f.issues|
        invariant 0 <= j <= |f.issues|
        invariant db.Valid()
        invariant db.reviews == old(db.reviews) && db.nextReviewId == old(db.nextReviewId)
        invariant db.files == old(db.files) + [row.(createdAt := now)] && db.nextFileId == fid0 + 1
        invariant db.issues == old(db.issues) + StoredIssues(target[..j], now) && db.nextIssueId == iid0 + j
        invariant !(failAt.Some? && ordinal <= failAt.value < ordinal + 1 + j)
      {
        var iss := f.issues[j].(row := f.issues[j].row.(reviewId := rid, reviewFileId := row.id));
        var irow, ie := db.AddIssue(iss.row, now, failAt == Some(ordinal + 1 + j));
        if ie.Some? {
          // the issues before the failed one are back-filled, the rest are as given
          return saved.(issues := target[..j] + [iss.(row := irow)] + f.issues[j + 1..]), Some(AddIssueFailed(ie.value));
        }
        assert irow == target[j].row;
        StoredIssuesSnoc(target, j, now);
        j := j + 1;
      }
      assert target[..j] == target;
      saved, err := saved.(issues := target), None;
    }

    /** `CreateReview`: prepares the review, then, in one transaction, inserts the review,
        each file and each file's issues, back-filling the new ids. On any failed insert
        the transaction is rolled back and the partly filled review is returned with the
        error; a preparation error returns nothing before any insert. */
    method CreateReview(pr: Project, rv: Review, now: Db.Time, failAt: Option<nat>)
      returns (res: Option<Review>, err: Option<CreateError>)
      requires Valid()
      modifies db
      ensures Valid()
      ensures HasDuplicateType(rv.files) ==>
        res.None? && err == Some(PrepareFailed(ErrDuplicateReviewType)) && unchanged(db)
      ensures !HasDuplicateType(rv.files) ==> res.Some?
      ensures err.Some? ==> db.Snapshot() == old(db.Snapshot())
      ensures !HasDuplicateType(rv.files) ==>
        (err.None? <==> !(failAt.Some? && failAt.value < 1 + |rv.files| + IssueCount(rv.files)))
      ensures err.None? ==>
        var s := SaveReview(Prepared(pr, rv), old(db.nextReviewId), old(db.nextFileId), old(db.nextIssueId));
        res == Some(s) &&
        db.reviews == old(db.reviews) + [s.row.(createdAt := now)] &&
        db.files == old(db.files) + StoredFiles(s.files, now) &&
        db.issues == old(db.issues) + StoredIssuesOf(s.files, now)
    {
      var p, perr := PrepareReview(pr, rv);
      if perr.Some? {
        return None, Some(PrepareFailed(perr.value));
      }
      PreparedIssueCount(pr, rv, |rv.files|);
      assert rv.files[..|rv.files|] == rv.files && p.files[..|p.files|] == p.files;
      var out;
      out, err := SavePrepared(p, now, failAt);
      res := Some(out);
    }

    /** The transaction of `CreateReview` over the prepared review `p`. */
    method SavePrepared(p: Review, now: Db.Time, failAt: Option<nat>) returns (out: Review, err: Option<CreateError>)
      requires db.Valid()
      modifies db
      ensures db.Valid()
      ensures err.Some? ==> db.Snapshot() == old(db.Snapshot())
      ensures err.None? <==> !(failAt.Some? && failAt.value < 1 + |p.files| + IssueCount(p.files))
      ensures err.None? ==>
        var s := SaveReview(p, old(db.nextReviewId), old(db.nextFileId), old(db.nextIssueId));
        out == s &&
        db.reviews == old(db.reviews) + [s.row.(createdAt := now)] &&
        db.files == old(db.files) + StoredFiles(s.files, now) &&
        db.issues == old(db.issues) + StoredIssuesOf(s.files, now)
    {
      var snap := db.Snapshot();
      var rid0, fid0, iid0 := db.nextReviewId, db.nextFileId, db.nextIssueId;
      var row, e := db.AddReview(p.row, now, failAt == Some(0));
      out := p.(row := row);
      if e.Some? {
        db.Rollback(snap);
        return out, Some(AddReviewFailed(e.value));
      }
      TablesValidGrow(snap, rid0, fid0, iid0, rid0 + 1, fid0, iid0);
      var files;
      files, err := SaveFiles(p, rid0, fid0, iid0, snap, row.(createdAt := now), now, failAt);
      out := out.(files := files);
    }

    /** The file loop of `CreateReview`'s transaction, after the review row: inserts each
        file and its issues, back-filling the ids, and rolls back to `snap` on the first
        failed insert. */
    method SaveFiles(p: Review, rid0: int, fid0: int, iid0: int, snap: R.Tables,
                     review: Db.ReviewRow, now: Db.Time, failAt: Option<nat>)
      returns (files: seq<ReviewFile>, err: Option<CreateError>)
      requires db.Valid()
      requires R.TablesValid(snap, rid0 + 1, fid0, iid0)
      requires db.nextReviewId == rid0 + 1 && db.nextFileId == fid0 && db.nextIssueId == iid0
      requires db.reviews == snap.reviews + [review] && db.files == snap.files && db.issues == snap.issues
      requires !(failAt.Some? && failAt.value < 1)
      modifies db
      ensures db.Valid()
      ensures err.Some? ==> db.Snapshot() == snap
      ensures err.None? <==> !(failAt.Some? && failAt.value < 1 + |p.files| + IssueCount(p.files))
      ensures err.None? ==>
        files == SaveReview(p, rid0, fid0, iid0).files &&
        StoredUpTo(snap, review, SaveReview(p, rid0, fid0, iid0).files, now)
    {
      var target := SaveReview(p, rid0, fid0, iid0);
      assert target.files[..0] == [] && p.files[..0] == [];
      var i := 0;
      while i < |p.files|
        invariant 0 <= i <= |p.files|
        invariant db.Valid()
        invariant db.nextReviewId == rid0 + 1 && db.nextFileId == fid0 + i && db.nextIssueId == iid0 + IssueCount(p.files[..i])
        invariant StoredUpTo(snap, review, target.files[..i], now)
        invariant !(failAt.Some? && failAt.value < 1 + i + IssueCount(p.files[..i]))
      {
        var f, fe := AddFileAt(p, i, rid0, fid0, iid0, snap, review, now, failAt);
        if fe.Some? {
          TablesValidGrow(snap, rid0 + 1, fid0, iid0, db.nextReviewId, db.nextFileId, db.nextIssueId);
          FailedWithin(p.files, i, failAt.value);
          db.Rollback(snap);
          // the files before the failed one are back-filled, the rest are as prepared
          return target.files[..i] + [f] + p.files[i + 1..], fe;
        }
        i := i + 1;
      }
      assert target.files[..i] == target.files;
      assert p.files[..i] == p.files;
      files, err := target.files, None;
    }

    /** The tables hold the snapshot plus the review row and the rows of `files`. */
    ghost predicate StoredUpTo(snap: R.Tables, review: Db.ReviewRow, files: seq<ReviewFile>, now: Db.Time)
      reads db
    {
      db.reviews == snap.reviews + [review] &&
      db.files == snap.files + StoredFiles(files, now) &&
      db.issues == snap.issues + StoredIssuesOf(files, now)
    }

    /** One iteration of `CreateReview`'s file loop: file `i` of the prepared review and its
        issues, inserts number `1 + i + IssueCount(p.files[..i])` onwards. */
    method AddFileAt(p: Review, i: nat, rid0: int, fid0: int, iid0: int, ghost snap: R.Tables,
                     review: Db.ReviewRow, now: Db.Time, failAt: Option<nat>)
      returns (f: ReviewFile, err: Option<CreateError>)
      requires db.Valid() && i < |p.files|
      requires db.nextFileId == fid0 + i && db.nextIssueId == iid0 + IssueCount(p.files[..i])
      requires StoredUpTo(snap, review, SaveReview(p, rid0, fid0, iid0).files[..i], now)
      modifies db
      ensures db.Valid()
      ensures db.nextReviewId == old(db.nextReviewId)
      ensures db.nextFileId >= old(db.nextFileId) && db.nextIssueId >= old(db.nextIssueId)
      ensures var ord := 1 + i + IssueCount(p.files[..i]);
        err.None? <==> !(failAt.Some? && ord <= failAt.value < ord + 1 + |p.files[i].issues|)
      ensures IssueCount(p.files[..i + 1]) == IssueCount(p.files[..i]) + |p.files[i].issues|
      ensures err.None? ==>
        f == SaveReview(p, rid0, fid0, iid0).files[i] &&
        db.nextFileId == fid0 + i + 1 && db.nextIssueId == iid0 + IssueCount(p.files[..i + 1]) &&
        StoredUpTo(snap, review, SaveReview(p, rid0, fid0, iid0).files[..i + 1], now)
    {
      SaveStep(p, rid0, fid0, iid0, i, now);
      ghost var s := SaveReview(p, rid0, fid0, iid0).files;
      ghost var files0, issues0 := db.files, db.issues;
      f, err := AddFileWithIssues(p.files[i], rid0, now, 1 + i + IssueCount(p.files[..i]), failAt);
      if err.None? {
        assert f == s[i];
        StoredStep(snap, s, i, now, files0, issues0, db.files, db.issues);
      }
    }

    // -------------------------------------------------------------------------------
    // Reads. None of them changes the store; `t` below is the store's snapshot.

    /** `ReviewFileByKey`: an invalid review type is rejected before any query; a review
        that is not an enabled review of the project gives nothing; otherwise the enabled
        file of that review with that type. */
    method ReviewFileByKey(reviewId: int, reviewType: string, projectId: int)
      returns (rf: Option<ReviewFile>, err: Option<ManagerError>)
      requires Q.EnabledOnly(repo)
      ensures !IsValidReviewType(reviewType) ==> rf.None? && err == Some(BadInput(ErrInvalidReviewType))
      ensures err.Some? ==> rf.None? && (err.value == BadInput(ErrInvalidReviewType) || err.value == Storage(Db.ErrMultiRows))
      ensures IsValidReviewType(reviewType) && err.None? ==>
        (rf.Some? <==> ReviewInProject(db.Snapshot(), reviewId, projectId) && FileWithType(db.Snapshot(), reviewId, reviewType))
      ensures rf.Some? ==>
        rf.value.issues == [] && rf.value.row in db.files && rf.value.row.statusId == Db.StatusEnabled &&
        rf.value.row.reviewId == reviewId && rf.value.row.reviewType == reviewType
    {
      if !IsValidReviewType(reviewType) {
        return None, Some(BadInput(ErrInvalidReviewType));
      }
      var t := db.Snapshot();
      var rsearch := Db.ReviewSearch(Some(reviewId), Some(projectId), None, None, None);
      Q.OneReviewFound(repo, t, rsearch);
      var rv := R.OneReview(repo, t, Some(rsearch));
      if rv.Err? {
        return None, Some(Storage(rv.error));
      }
      if rv.value.None? {
        assert !ReviewInProject(t, reviewId, projectId) by {
          forall k | 0 <= k < |t.reviews| && t.reviews[k].statusId == Db.StatusEnabled
            ensures !(t.reviews[k].id == reviewId && t.reviews[k].projectId == projectId)
          {
            assert !Db.ReviewMatches(t.reviews[k], rsearch);
          }
        }
        return None, None;
      }
      var fsearch := Db.ReviewFileSearch(None, Some(reviewId), None, Some(reviewType));
      Q.OneReviewFileFound(repo, t, fsearch);
      var f := R.OneReviewFile(repo, t, Some(fsearch));
      if f.Err? {
        return None, Some(Storage(f.error));
      }
      rf := NewReviewFile(f.value);
      err := None;
      assert ReviewInProject(t, reviewId, projectId) by {
        var k :| 0 <= k < |t.reviews| && t.reviews[k] == rv.value.value;
      }
      if f.value.None? {
        assert !FileWithType(t, reviewId, reviewType) by {
          forall k | 0 <= k < |t.files| && t.files[k].statusId == Db.StatusEnabled
            ensures !(t.files[k].reviewId == reviewId && t.files[k].reviewType == reviewType)
          {
            assert !Db.ReviewFileMatches(t.files[k], fsearch);
          }
        }
      } else {
        var k :| 0 <= k < |t.files| && t.files[k] == f.value.value;
      }
    }

    /** `ListReviews`: at most `count` enabled reviews matching the search, newest first,
        each with its enabled files (without issues). */
    method ListReviews(search: Option<ReviewSearch>, count: nat) returns (rs: seq<Review>)
      requires Q.EnabledOnly(repo)
      ensures |rs| <= count
      ensures forall i :: 0 <= i < |rs| ==>
        rs[i].row in db.reviews && rs[i].row.statusId == Db.StatusEnabled &&
        (search.Some? ==> Db.ReviewMatches(rs[i].row, ReviewSearchToDB(search).value))
      ensures forall i, j :: 0 <= i < j < |rs| ==> rs[i].row.createdAt >= rs[j].row.createdAt
      ensures forall i :: 0 <= i < |rs| ==>
        rs[i].files == Q.FilesOfReview(db.Snapshot(), rs[i].row.id) && rs[i].lastVersionReviewId.None?
      ensures var rows := R.ReviewsByFilters(repo, db.Snapshot(), ReviewSearchToDB(search), R.NewPager(count), R.SortOf(repo, R.ReviewTable));
        |rs| == |rows| && forall i :: 0 <= i < |rs| ==> rs[i].row == rows[i]
    {
      var t := db.Snapshot();
      var rows := R.ReviewsByFilters(repo, t, ReviewSearchToDB(search), R.NewPager(count), R.SortOf(repo, R.ReviewTable));
      ListedReviewsShape(repo, t, ReviewSearchToDB(search), count);
      var listed := MapP(rows, ReviewOf);
      if |listed| == 0 {
        return listed;
      }
      rs := LoadListedFiles(listed);
    }

    /** The second half of `ListReviews`: one query for the files of all listed reviews,
        grouped by review and attached to each. */
    method LoadListedFiles(listed: seq<Review>) returns (rs: seq<Review>)
      requires Q.EnabledOnly(repo)
      ensures |rs| == |listed|
      ensures forall k :: 0 <= k < |rs| ==> rs[k] == listed[k].(files := Q.FilesOfReview(db.Snapshot(), listed[k].row.id))
    {
      var t := db.Snapshot();
      var ids := Map(listed, ReviewId);
      var fileRows := R.ReviewFilesByFilters(repo, t, Some(Q.FilesOfReviewsSearch(ids)), R.PagerNoLimit, []);
      var files := MapP(fileRows, ReviewFileOf);
      assert files == MapSeq(fileRows, Q.WrapFile);
      var byReview := GroupByReviewID(files);
      rs := AttachFiles(listed, byReview);
      forall k | 0 <= k < |rs| ensures rs[k].files == Q.FilesOfReview(t, listed[k].row.id) {
        assert ids[k] == listed[k].row.id;
        Q.ListedFilesGroup(repo, t, ids, listed[k].row.id);
      }
    }

    /** `CountReviews`: the number of rows the unpaged list query returns. */
    method CountReviews(search: Option<ReviewSearch>) returns (n: nat)
      requires Q.EnabledOnly(repo)
      ensures n == |R.ReviewsByFilters(repo, db.Snapshot(), ReviewSearchToDB(search), R.PagerNoLimit, R.SortOf(repo, R.ReviewTable))|
    {
      n := R.CountReviews(repo, db.Snapshot(), ReviewSearchToDB(search));
      R.CountIsUnpagedLength(repo, db.Snapshot(), ReviewSearchToDB(search), None, None, R.SortOf(repo, R.ReviewTable), true);
    }

    /** `GetReview`: the enabled review with the id, or nothing; each of its enabled files
        carries exactly the enabled issues of the review that point at it. */
    method GetReview(id: int) returns (rv: Option<Review>, err: Option<Db.DbError>)
      requires Q.EnabledOnly(repo)
      ensures err.Some? <==> R.ReviewByID(repo, db.Snapshot(), id).Err?
      ensures err.Some? ==> rv.None? && err.value == Db.ErrMultiRows
      ensures err.None? ==> (rv.Some? <==> exists k :: 0 <= k < |db.reviews| && db.reviews[k].id == id && db.reviews[k].statusId == Db.StatusEnabled)
      ensures rv.Some? ==>
        rv.value.row in db.reviews && rv.value.row.id == id && rv.value.row.statusId == Db.StatusEnabled &&
        rv.value.lastVersionReviewId.None? &&
        |rv.value.files| == |Q.FilesOfReview(db.Snapshot(), id)| &&
        forall i :: 0 <= i < |rv.value.files| ==>
          rv.value.files[i].row == Q.FilesOfReview(db.Snapshot(), id)[i].row &&
          rv.value.files[i].issues == Q.IssuesOfFile(db.Snapshot(), id, rv.value.files[i].row.id)
    {
      var t := db.Snapshot();
      var search := Db.ReviewSearch(Some(id), None, None, None, None);
      Q.OneReviewFound(repo, t, search);
      var r := R.ReviewByID(repo, t, id);
      if r.Err? {
        return None, Some(r.error);
      }
      if r.value.None? {
        forall k | 0 <= k < |t.reviews| && t.reviews[k].statusId == Db.StatusEnabled ensures t.reviews[k].id != id {
          assert !Db.ReviewMatches(t.reviews[k], search);
        }
        return None, None;
      }
      var review := NewReview(r.value).value;
      var files := LoadFiles(id);
      rv, err := Some(review.(files := files)), None;
    }

    /** The second half of `GetReview`: the review's files, each with its enabled issues. */
    method LoadFiles(id: int) returns (files: seq<ReviewFile>)
      requires Q.EnabledOnly(repo)
      ensures |files| == |Q.FilesOfReview(db.Snapshot(), id)|
      ensures forall i :: 0 <= i < |files| ==>
        files[i].row == Q.FilesOfReview(db.Snapshot(), id)[i].row &&
        files[i].issues == Q.IssuesOfFile(db.Snapshot(), id, files[i].row.id)
    {
      var t := db.Snapshot();
      var fileRows := R.ReviewFilesByFilters(repo, t, Some(Q.FilesOfReviewSearch(id)), R.PagerNoLimit, []);
      var bare := MapP(fileRows, ReviewFileOf);
      assert bare == MapSeq(fileRows, Q.WrapFile);
      Q.ReviewFilesLoaded(repo, t, id);
      var issueRows := R.IssuesByFilters(repo, t, Some(Q.IssuesOfReviewSearch(id)), R.PagerNoLimit, true, []);
      var issues := MapP(issueRows, IssueOf);
      assert issues == MapSeq(issueRows, Q.WrapIssue);
      var byFile := GroupByReviewFileID(issues);
      files := AttachIssues(bare, byFile);
      forall k | 0 <= k < |files| ensures files[k].issues == Q.IssuesOfFile(t, id, files[k].row.id) {
        Q.ReviewIssuesGroup(repo, t, id, files[k].row.id);
      }
    }

    /** `ListIssues`: at most `count` enabled issues matching the search, with their file
        and review joined. */
    method ListIssues(search: Option<IssueSearch>, count: nat) returns (issues: seq<Issue>)
      requires Q.EnabledOnly(repo)
      ensures |issues| <= count
      ensures forall k :: 0 <= k < |issues| ==>
        issues[k].row in db.issues && issues[k].row.statusId == Db.StatusEnabled &&
        (search.Some? ==> Db.IssueMatches(Db.JoinedIssue(issues[k].row, issues[k].reviewFile, issues[k].review), IssueSearchToDB(search).value))
      ensures forall k :: 0 <= k < |issues| ==>
        issues[k].reviewFile == R.FindReviewFile(db.files, issues[k].row.reviewFileId) &&
        issues[k].review == R.FindReview(db.reviews, issues[k].row.reviewId)
      ensures var rows := R.IssuesByFilters(repo, db.Snapshot(), IssueSearchToDB(search), R.NewPager(count), true, []);
        |issues| == |rows| && forall k :: 0 <= k < |issues| ==> issues[k].row == rows[k].row
    {
      var js := R.IssuesByFilters(repo, db.Snapshot(), IssueSearchToDB(search), R.NewPager(count), true, []);
      forall k | 0 <= k < |js| ensures js[k].row.statusId == Db.StatusEnabled {
        Q.EnabledOnlyVisible(repo, R.IssueTable, js[k].row.statusId);
      }
      issues := MapP(js, IssueOf);
    }

    /** `ListIssuesByProject`: like `ListIssues`, ordered by issue id ascending, so the
        ids are strictly ascending. */
    method ListIssuesByProject(search: Option<IssueSearch>, count: nat) returns (issues: seq<Issue>)
      requires Valid()
      ensures |issues| <= count
      ensures forall k :: 0 <= k < |issues| ==>
        issues[k].row in db.issues && issues[k].row.statusId == Db.StatusEnabled &&
        (search.Some? ==> Db.IssueMatches(Db.JoinedIssue(issues[k].row, issues[k].reviewFile, issues[k].review), IssueSearchToDB(search).value))
      ensures forall k :: 0 <= k < |issues| ==>
        issues[k].reviewFile == R.FindReviewFile(db.files, issues[k].row.reviewFileId) &&
        issues[k].review == R.FindReview(db.reviews, issues[k].row.reviewId)
      ensures forall i, j :: 0 <= i < j < |issues| ==> issues[i].row.id < issues[j].row.id
      ensures var rows := R.IssuesByFilters(repo, db.Snapshot(), IssueSearchToDB(search), R.NewPager(count), true, [R.IdAsc]);
        |issues| == |rows| && forall k :: 0 <= k < |issues| ==> issues[k].row == rows[k].row
    {
      var t := db.Snapshot();
      var js := R.IssuesByFilters(repo, t, IssueSearchToDB(search), R.NewPager(count), true, [R.IdAsc]);
      forall k | 0 <= k < |js| ensures js[k].row.statusId == Db.StatusEnabled {
        Q.EnabledOnlyVisible(repo, R.IssueTable, js[k].row.statusId);
      }
      Q.IdAscStrict(repo, t, IssueSearchToDB(search), R.NewPager(count));
      issues := MapP(js, IssueOf);
    }

    /** `CountIssues`: the number of rows the unpaged list query returns. */
    method CountIssues(search: Option<IssueSearch>) returns (n: nat)
      requires Q.EnabledOnly(repo)
      ensures n == |R.IssuesByFilters(repo, db.Snapshot(), IssueSearchToDB(search), R.PagerNoLimit, true, [])|
    {
      n := R.CountIssues(repo, db.Snapshot(), IssueSearchToDB(search));
      R.CountIsUnpagedLength(repo, db.Snapshot(), None, None, IssueSearchToDB(search), [], true);
    }

    /** `IssueByID`: the enabled issue with the id, without its joins, or nothing. */
    method IssueByID(id: int) returns (issue: Option<Issue>, err: Option<Db.DbError>)
      requires Q.EnabledOnly(repo)
      ensures err.Some? <==> R.IssueByID(repo, db.Snapshot(), id).Err?
      ensures err.Some? ==> issue.None? && err.value == Db.ErrMultiRows
      ensures err.None? ==> (issue.Some? <==> exists k :: 0 <= k < |db.issues| && db.issues[k].id == id && db.issues[k].statusId == Db.StatusEnabled)
      ensures issue.Some? ==> issue.value.row in db.issues && issue.value.row.id == id && issue.value.reviewFile.None?
    {
      Q.IssueByIDFound(repo, db.Snapshot(), id);
      var r := R.IssueByID(repo, db.Snapshot(), id);
      if r.Err? {
        return None, Some(r.error);
      }
      return NewIssue(r.value), None;
    }

    // -------------------------------------------------------------------------------
    // Narrow updates: each writes the named columns of the row with the id and nothing else.

    /** `UpdateReviewFileContent`: the caller's file takes the new content, and so does the
        stored row with its id; nothing else changes. */
    method UpdateReviewFileContent(rf: ReviewFile, content: string) returns (updated: ReviewFile, affected: bool)
      requires Valid()
      modifies db
      ensures Valid()
      ensures updated == rf.(row := rf.row.(content := content))
      ensures db.reviews == old(db.reviews) && db.issues == old(db.issues)
      ensures affected <==> exists k :: 0 <= k < |old(db.files)| && old(db.files)[k].id == rf.row.id
      ensures |db.files| == |old(db.files)|
      ensures forall k :: 0 <= k < |db.files| ==>
        db.files[k] == if old(db.files)[k].id == rf.row.id then old(db.files)[k].(content := content) else old(db.files)[k]
    {
      updated := rf.(row := rf.row.(content := content));
      ghost var before := db.files;
      affected := db.UpdateReviewFile(updated.row, Some({R.FContent}));
      forall k | 0 <= k < |before| ensures R.MergeReviewFile(before[k], updated.row, Some({R.FContent})) == before[k].(content := content) {
        R.ReviewFileNamedColumns(before[k], updated.row);
      }
    }

    /** `SetComment`: writes only the comment column (`None` clears it). */
    method SetComment(issueId: int, comment: Option<string>) returns (affected: bool)
      requires Valid()
      modifies db
      ensures Valid()
      ensures db.reviews == old(db.reviews) && db.files == old(db.files)
      ensures affected <==> exists k :: 0 <= k < |old(db.issues)| && old(db.issues)[k].id == issueId
      ensures |db.issues| == |old(db.issues)|
      ensures forall k :: 0 <= k < |db.issues| ==>
        db.issues[k] == if old(db.issues)[k].id == issueId then old(db.issues)[k].(comment := comment) else old(db.issues)[k]
    {
      var upd := BlankIssue(issueId).(comment := comment);
      ghost var before := db.issues;
      affected := db.UpdateIssue(upd, Some({R.IComment}));
      forall k | 0 <= k < |before| ensures R.MergeIssue(before[k], upd, Some({R.IComment})) == before[k].(comment := comment) {
        R.IssueNamedColumns(before[k], upd);
      }
    }

    /** `SetFeedback`: writes only the false-positive flag and the processing time, which
        is `now` when a flag is given and cleared when the flag is reset. */
    method SetFeedback(issueId: int, isFalsePositive: Option<bool>, now: Db.Time) returns (affected: bool)
      requires Valid()
      modifies db
      ensures Valid()
      ensures db.reviews == old(db.reviews) && db.files == old(db.files)
      ensures affected <==> exists k :: 0 <= k < |old(db.issues)| && old(db.issues)[k].id == issueId
      ensures |db.issues| == |old(db.issues)|
      ensures forall k :: 0 <= k < |db.issues| ==>
        db.issues[k] == if old(db.issues)[k].id == issueId
          then old(db.issues)[k].(isFalsePositive := isFalsePositive, processedAt := FeedbackRow(issueId, isFalsePositive, now).processedAt)
          else old(db.issues)[k]
    {
      var upd := FeedbackRow(issueId, isFalsePositive, now);
      ghost var before := db.issues;
      affected := db.UpdateIssue(upd, Some({R.IIsFalsePositive, R.IProcessedAt}));
      forall k | 0 <= k < |before|
        ensures R.MergeIssue(before[k], upd, Some({R.IIsFalsePositive, R.IProcessedAt})) ==
          before[k].(isFalsePositive := upd.isFalsePositive, processedAt := upd.processedAt)
      {
        R.IssueNamedColumns(before[k], upd);
      }
    }

    // -------------------------------------------------------------------------------
    // Version chaining and project statistics.

    /** `FillLastVersions`: every review of the slice whose stored row has a newer version
        in its group gets that version's id; when the slice holds an id twice, only its
        last position is written. Nothing else in the slice changes. */
    method FillLastVersions(reviews: array<Review>)
      requires Valid()
      modifies reviews
      ensures forall i :: 0 <= i < reviews.Length ==>
        reviews[i].row == old(reviews[i].row) && reviews[i].files == old(reviews[i].files)
      ensures forall i :: 0 <= i < reviews.Length ==>
        reviews[i].lastVersionReviewId ==
          if Q.LastWithId(old(reviews[..]), i) && Q.Resolve(db.Snapshot(), reviews[i].row.id).Some?
          then Q.Resolve(db.Snapshot(), reviews[i].row.id)
          else old(reviews[i].lastVersionReviewId)
    {
      if reviews.Length == 0 {
        return;
      }
      var t := db.Snapshot();
      assert R.UniqueReviewIds(t.reviews);
      var ids := set i | 0 <= i < reviews.Length :: reviews[i].row.id;
      var results := Q.LastVersionResults(t, ids);
      ghost var orig := reviews[..];
      var lv := (id: int) => Q.Resolve(t, id);
      forall m | 0 <= m < |results| ensures Some(results[m].lastVersionReviewId) == lv(results[m].reviewId) {
        Q.LastVersionResultsResolve(t, ids, results[m].reviewId);
      }
      ApplyLastVersions(reviews, results, lv);
      forall k | 0 <= k < reviews.Length
        ensures Q.Resolve(t, orig[k].row.id).Some? <==> Reported(results, orig[k].row.id)
      {
        Q.LastVersionResultsResolve(t, ids, orig[k].row.id);
      }
    }

    /** `ProjectsStats`: one entry per project with an enabled review, holding the
        project's statistics row. */
    method ProjectsStats() returns (m: map<int, ProjectStats>)
      requires Q.EnabledOnly(repo)
      ensures forall p :: p in m <==>
        exists k :: 0 <= k < |db.reviews| && db.reviews[k].statusId == Db.StatusEnabled && db.reviews[k].projectId == p
      ensures forall p :: p in m ==> m[p] == Q.StatOf(db.Snapshot(), p)
    {
      var t := db.Snapshot();
      var stats := Q.ProjectStatsRows(t);
      m := IndexByProject(stats);
      forall p ensures p in m <==> p in Q.ProjectsWithReviews(t.reviews) {
        if p in Q.ProjectsWithReviews(t.reviews) {
          var k :| 0 <= k < |stats| && stats[k].projectId == p;
        }
      }
    }
  }

  /** The slice indexed by id (`Reviews.Index`): a later duplicate overwrites an earlier
      one, so each id maps to its last position. */
  method LastIndexById(rs: seq<Review>) returns (idx: map<int, nat>)
    ensures forall id :: id in idx <==> exists k :: 0 <= k < |rs| && rs[k].row.id == id
    ensures forall id :: id in idx ==> idx[id] < |rs| && rs[idx[id]].row.id == id && Q.LastWithId(rs, idx[id])
  {
    idx := map[];
    var i := 0;
    while i < |rs|
      invariant 0 <= i <= |rs|
      invariant forall id :: id in idx <==> exists k :: 0 <= k < i && rs[k].row.id == id
      invariant forall id :: id in idx ==>
        idx[id] < i && rs[idx[id]].row.id == id && forall k :: idx[id] < k < i ==> rs[k].row.id != id
    {
      idx := idx[rs[i].row.id := i];
      i := i + 1;
    }
  }

  /** The rows of the reviews list: enabled, matching, stored, newest first. */
  lemma {:induction false} ListedReviewsShape(rr: R.ReviewRepo, t: R.Tables, search: Option<Db.ReviewSearch>, count: nat)
    requires Q.EnabledOnly(rr)
    ensures var rows := R.ReviewsByFilters(rr, t, search, R.NewPager(count), R.SortOf(rr, R.ReviewTable));
      |rows| <= count &&
      (forall i :: 0 <= i < |rows| ==>
        rows[i] in t.reviews && rows[i].statusId == Db.StatusEnabled && (search.Some? ==> Db.ReviewMatches(rows[i], search.value))) &&
      (forall i, j :: 0 <= i < j < |rows| ==> rows[i].createdAt >= rows[j].createdAt)
  {
    var sort := R.SortOf(rr, R.ReviewTable);
    var rows := R.ReviewsByFilters(rr, t, search, R.NewPager(count), sort);
    forall i | 0 <= i < |rows| ensures rows[i].statusId == Db.StatusEnabled {
      Q.EnabledOnlyVisible(rr, R.ReviewTable, rows[i].statusId);
    }
    assert Q.EnabledTable(rr, R.ReviewTable);
    forall i, j | 0 <= i < j < |rows| ensures rows[i].createdAt >= rows[j].createdAt {
      assert R.ReviewKey(sort[0])(rows[i]) <= R.ReviewKey(sort[0])(rows[j]);
    }
  }

  /** Sets each review's files to its bucket. */
  method AttachFiles(rs: seq<Review>, byReview: map<int, seq<ReviewFile>>) returns (out: seq<Review>)
    ensures |out| == |rs|
    ensures forall k :: 0 <= k < |rs| ==> out[k] == rs[k].(files := Bucket(byReview, rs[k].row.id))
  {
    out := rs;
    var i := 0;
    while i < |out|
      invariant 0 <= i <= |out| == |rs|
      invariant forall k :: 0 <= k < i ==> out[k] == rs[k].(files := Bucket(byReview, rs[k].row.id))
      invariant forall k :: i <= k < |rs| ==> out[k] == rs[k]
    {
      out := out[i := out[i].(files := Bucket(byReview, out[i].row.id))];
      i := i + 1;
    }
  }

  /** Sets each file's issues to its bucket. */
  method AttachIssues(fs: seq<ReviewFile>, byFile: map<int, seq<Issue>>) returns (out: seq<ReviewFile>)
    ensures |out| == |fs|
    ensures forall k :: 0 <= k < |fs| ==> out[k] == fs[k].(issues := Bucket(byFile, fs[k].row.id))
  {
    out := fs;
    var i := 0;
    while i < |out|
      invariant 0 <= i <= |out| == |fs|
      invariant forall k :: 0 <= k < i ==> out[k] == fs[k].(issues := Bucket(byFile, fs[k].row.id))
      invariant forall k :: i <= k < |fs| ==> out[k] == fs[k]
    {
      out := out[i := out[i].(issues := Bucket(byFile, out[i].row.id))];
      i := i + 1;
    }
  }

  /** The query reported the id. */
  predicate Reported(results: seq<Q.LastVersion>, id: int)
  {
    exists m :: 0 <= m < |results| && results[m].reviewId == id
  }

  /** One more row of the query reports exactly one more id. */
  lemma {:induction false} ReportedStep(results: seq<Q.LastVersion>, j: nat)
    requires j < |results|
    ensures forall id :: Reported(results[..j + 1], id) <==> Reported(results[..j], id) || id == results[j].reviewId
  {
    forall id ensures Reported(results[..j + 1], id) <==> Reported(results[..j], id) || id == results[j].reviewId {
      if Reported(results[..j + 1], id) {
        var m :| 0 <= m < j + 1 && results[..j + 1][m].reviewId == id;
        if m < j {
          assert results[..j][m] == results[..j + 1][m];
        }
      }
      if Reported(results[..j], id) {
        var m :| 0 <= m < j && results[..j][m].reviewId == id;
        assert results[..j + 1][m] == results[..j][m];
      }
      if id == results[j].reviewId {
        assert results[..j + 1][j] == results[j];
      }
    }
  }

  /** Two last positions of the same id are the same position. */
  lemma {:induction false} LastIsUnique(rs: seq<Review>, a: nat, b: nat)
    requires a < |rs| && b < |rs| && rs[a].row.id == rs[b].row.id
    requires Q.LastWithId(rs, a) && Q.LastWithId(rs, b)
    ensures a == b
  {
  }

  /** The loop of `FillLastVersions` over the query's rows: each reported id's last
      position in the slice takes the reported version (`lv` is what the query reports
      for an id). */
  method ApplyLastVersions(reviews: array<Review>, results: seq<Q.LastVersion>, ghost lv: int -> Option<int>)
    requires forall m :: 0 <= m < |results| ==> Some(results[m].lastVersionReviewId) == lv(results[m].reviewId)
    modifies reviews
    ensures forall k :: 0 <= k < reviews.Length ==>
      reviews[k].row == old(reviews[k].row) && reviews[k].files == old(reviews[k].files)
    ensures forall k :: 0 <= k < reviews.Length ==>
      reviews[k].lastVersionReviewId ==
        if Q.LastWithId(old(reviews[..]), k) && Reported(results, reviews[k].row.id)
        then lv(reviews[k].row.id) else old(reviews[k].lastVersionReviewId)
  {
    var orig := reviews[..];
    var idx := LastIndexById(orig);
    var j := 0;
    while j < |results|
      invariant 0 <= j <= |results|
      invariant AppliedUpTo(reviews[..], orig, results[..j], lv)
    {
      var r := results[j];
      ghost var cur := reviews[..];
      if r.reviewId in idx {
        var k := idx[r.reviewId];
        reviews[k] := reviews[k].(lastVersionReviewId := Some(r.lastVersionReviewId));
      }
      ApplyStep(cur, reviews[..], orig, results, j, lv, idx);
      j := j + 1;
    }
    assert results[..j] == results;
  }

  /** The slice after the rows `applied` of the query: ids are unchanged, and each
      reported id's last position carries its version. */
  ghost predicate AppliedUpTo(cur: seq<Review>, orig: seq<Review>, applied: seq<Q.LastVersion>, lv: int -> Option<int>)
  {
    |cur| == |orig| &&
    forall k :: 0 <= k < |cur| ==>
      cur[k].row == orig[k].row && cur[k].files == orig[k].files &&
      cur[k].lastVersionReviewId ==
        if Q.LastWithId(orig, k) && Reported(applied, orig[k].row.id) then lv(orig[k].row.id) else orig[k].lastVersionReviewId
  }

  /** One iteration of `ApplyLastVersions`: writing the row's version at the last position
      of its id, if the slice has the id, applies one more row. */
  lemma {:induction false} ApplyStep(cur: seq<Review>, next: seq<Review>, orig: seq<Review>, results: seq<Q.LastVersion>,
                                     j: nat, lv: int -> Option<int>, idx: map<int, nat>)
    requires j < |results|
    requires Some(results[j].lastVersionReviewId) == lv(results[j].reviewId)
    requires AppliedUpTo(cur, orig, results[..j], lv)
    requires forall id :: id in idx <==> exists k :: 0 <= k < |orig| && orig[k].row.id == id
    requires forall id :: id in idx ==> idx[id] < |orig| && orig[idx[id]].row.id == id && Q.LastWithId(orig, idx[id])
    requires var id := results[j].reviewId;
      next == if id in idx then cur[idx[id] := cur[idx[id]].(lastVersionReviewId := Some(results[j].lastVersionReviewId))] else cur
    ensures AppliedUpTo(next, orig, results[..j + 1], lv)
  {
    var r := results[j];
    ReportedStep(results, j);
    forall k | 0 <= k < |next|
      ensures next[k].row == orig[k].row && next[k].files == orig[k].files
      ensures next[k].lastVersionReviewId ==
        if Q.LastWithId(orig, k) && Reported(results[..j + 1], orig[k].row.id) then lv(orig[k].row.id) else orig[k].lastVersionReviewId
    {
      if orig[k].row.id == r.reviewId {
        assert r.reviewId in idx;
        if Q.LastWithId(orig, k) {
          LastIsUnique(orig, k, idx[r.reviewId]);
        }
      }
    }
  }

  /** The statistics rows keyed by project. */
  method IndexByProject(stats: seq<ProjectStats>) returns (m: map<int, ProjectStats>)
    ensures forall p :: p in m <==> exists k :: 0 <= k < |stats| && stats[k].projectId == p
    ensures forall p :: p in m ==> exists k :: 0 <= k < |stats| && stats[k].projectId == p && m[p] == stats[k]
  {
    m := map[];
    var i := 0;
    while i < |stats|
      invariant 0 <= i <= |stats|
      invariant forall p :: p in m <==> exists k :: 0 <= k < i && stats[k].projectId == p
      invariant forall p :: p in m ==> exists k :: 0 <= k < i && stats[k].projectId == p && m[p] == stats[k]
    {
      m := m[stats[i].projectId := stats[i]];
      i := i + 1;
    }
  }

  /** Errors of the read paths: a rejected argument, or a storage error. */
  datatype ManagerError = BadInput(e: Error) | Storage(dbErr: Db.DbError)

  /** An enabled review with the id in the project. */
  ghost predicate ReviewInProject(t: R.Tables, id: int, projectId: int)
  {
    exists k :: 0 <= k < |t.reviews| && t.reviews[k].statusId == Db.StatusEnabled && t.reviews[k].id == id && t.reviews[k].projectId == projectId
  }

  /** An enabled file of the review with the review type. */
  ghost predicate FileWithType(t: R.Tables, reviewId: int, reviewType: string)
  {
    exists k :: 0 <= k < |t.files| && t.files[k].statusId == Db.StatusEnabled && t.files[k].reviewId == reviewId && t.files[k].reviewType == reviewType
  }

  function ReviewOf(r: Db.ReviewRow): Option<Review>
  {
    NewReview(Some(r))
  }

  function ReviewFileOf(f: Db.ReviewFileRow): Option<ReviewFile>
  {
    NewReviewFile(Some(f))
  }

  function IssueOf(j: Db.JoinedIssue): Option<Issue>
  {
    NewIssue(Some(j))
  }

  function ReviewId(r: Review): int
  {
    r.row.id
  }

  /** `&db.Issue{ID: id}`: an issue value with only the id set. */
  function BlankIssue(id: int): Db.IssueRow
  {
    Db.IssueRow(id, 0, 0, None, "", "", "", "", "", "", "", None, None, None, 0, 0)
  }

  /** The value `SetFeedback` writes: the flag, and the processing time exactly when a
      flag is given. */
  function FeedbackRow(issueId: int, isFalsePositive: Option<bool>, now: Db.Time): (r: Db.IssueRow)
    ensures r.id == issueId && r.isFalsePositive == isFalsePositive
    ensures r.processedAt.Some? <==> isFalsePositive.Some?
    ensures r.processedAt.Some? ==> r.processedAt.value == now
  {
    BlankIssue(issueId).(isFalsePositive := isFalsePositive, processedAt := if isFalsePositive.Some? then Some(now) else None)
  }

  lemma {:induction false} PreparedIssueCount(pr: Project, rv: Review, n: nat)
    requires n <= |rv.files|
    ensures IssueCount(Prepared(pr, rv).files[..n]) == IssueCount(rv.files[..n])
  {
    if n > 0 {
      var p := Prepared(pr, rv).files;
      assert p[..n][..n - 1] == p[..n - 1];
      assert rv.files[..n][..n - 1] == rv.files[..n - 1];
      PreparedIssueCount(pr, rv, n - 1);
    }
  }
}
