/** Domain model of the reviewer package (pkg/reviewer/model.go): the closed enumerations,
    the nil-safe wrappers around database rows, the severity aggregator and the
    translations of domain searches into database searches. */
module ReviewerModel {
  import opened Common
  import Db = DbModel

  const ReviewTypeArchitecture: string := "architecture"
  const ReviewTypeCode: string := "code"
  const ReviewTypeSecurity: string := "security"
  const ReviewTypeTests: string := "tests"

  const SeverityCritical: string := "critical"
  const SeverityHigh: string := "high"
  const SeverityMedium: string := "medium"
  const SeverityLow: string := "low"

  const ReviewTypes: seq<string> := [ReviewTypeArchitecture, ReviewTypeCode, ReviewTypeSecurity, ReviewTypeTests]
  const Severities: seq<string> := [SeverityCritical, SeverityHigh, SeverityMedium, SeverityLow]

  const LightRed: string := "red"
  const LightYellow: string := "yellow"
  const LightGreen: string := "green"

  /** The errors of the package. */
  datatype Error = ErrInvalidReviewType | ErrDuplicateReviewType

  /** Membership in the closed list of review types: exact, case-sensitive. */
  function IsValidReviewType(rt: string): (b: bool)
    ensures b <==> rt == "architecture" || rt == "code" || rt == "security" || rt == "tests"
  {
    rt in ReviewTypes
  }

  /** Membership in the closed list of severities: exact, case-sensitive. */
  function IsValidSeverity(s: string): (b: bool)
    ensures b <==> s == "critical" || s == "high" || s == "medium" || s == "low"
  {
    s in Severities
  }

  // ---------------------------------------------------------------------------------
  // Domain entities: each embeds its row; children are attached by the manager.

  datatype Issue = Issue(row: Db.IssueRow, reviewFile: Option<Db.ReviewFileRow>, review: Option<Db.ReviewRow>)
  datatype ReviewFile = ReviewFile(row: Db.ReviewFileRow, issues: seq<Issue>)
  datatype Review = Review(row: Db.ReviewRow, files: seq<ReviewFile>, lastVersionReviewId: Option<int>)
  datatype Project = Project(row: Db.ProjectRow, slackChannel: Option<Db.SlackChannelRow>)
  datatype SlackChannel = SlackChannel(row: Db.SlackChannelRow)
  datatype Prompt = Prompt(row: Db.PromptRow)
  datatype TaskTracker = TaskTracker(row: Db.TaskTrackerRow)

  /** Absent in, absent out; otherwise the row with no files attached and no last version. */
  function NewReview(r: Option<Db.ReviewRow>): (rv: Option<Review>)
    ensures rv.Some? <==> r.Some?
    ensures rv.Some? ==> rv.value.row == r.value && rv.value.files == [] && rv.value.lastVersionReviewId.None?
  {
    if r.None? then None else Some(Review(r.value, [], None))
  }

  function NewReviewFile(f: Option<Db.ReviewFileRow>): (rf: Option<ReviewFile>)
    ensures rf.Some? <==> f.Some?
    ensures rf.Some? ==> rf.value.row == f.value && rf.value.issues == []
  {
    if f.None? then None else Some(ReviewFile(f.value, []))
  }

  function NewIssue(j: Option<Db.JoinedIssue>): (i: Option<Issue>)
    ensures i.Some? <==> j.Some?
    ensures i.Some? ==> i.value.row == j.value.row && i.value.reviewFile == j.value.reviewFile && i.value.review == j.value.review
  {
    if j.None? then None else Some(Issue(j.value.row, j.value.reviewFile, j.value.review))
  }

  function NewProject(p: Option<Db.JoinedProject>): (r: Option<Project>)
    ensures r.Some? <==> p.Some?
    ensures r.Some? ==> r.value.row == p.value.row && r.value.slackChannel == p.value.slackChannel
  {
    if p.None? then None else Some(Project(p.value.row, p.value.slackChannel))
  }

  function NewSlackChannel(c: Option<Db.SlackChannelRow>): (r: Option<SlackChannel>)
    ensures r.Some? <==> c.Some?
    ensures r.Some? ==> r.value.row == c.value
  {
    if c.None? then None else Some(SlackChannel(c.value))
  }

  function NewPrompt(p: Option<Db.PromptRow>): (r: Option<Prompt>)
    ensures r.Some? <==> p.Some?
    ensures r.Some? ==> r.value.row == p.value
  {
    if p.None? then None else Some(Prompt(p.value))
  }

  function NewTaskTracker(t: Option<Db.TaskTrackerRow>): (r: Option<TaskTracker>)
    ensures r.Some? <==> t.Some?
    ensures r.Some? ==> r.value.row == t.value
  {
    if t.None? then None else Some(TaskTracker(t.value))
  }

  /** A project can be notified when a Slack channel is joined and its webhook is set. */
  predicate HasSlackWebhook(p: Project)
  {
    p.slackChannel.Some? && p.slackChannel.value.webhookUrl != ""
  }

  lemma {:induction false} HasSlackWebhookCases(p: Project)
    ensures p.slackChannel.None? ==> !HasSlackWebhook(p)
    ensures p.slackChannel.Some? ==> (HasSlackWebhook(p) <==> |p.slackChannel.value.webhookUrl| > 0)
  {
  }

  // ---------------------------------------------------------------------------------
  // Severity aggregator.

  type IssueStats = Db.IssueStats

  const ZeroStats: IssueStats := Db.IssueStats(0, 0, 0, 0, 0)

  /** `IssueStats.Add`: the receiver after adding `other` field by field. */
  function Add(s: IssueStats, other: IssueStats): (r: IssueStats)
    ensures r.critical - s.critical == other.critical && r.high - s.high == other.high
    ensures r.medium - s.medium == other.medium && r.low - s.low == other.low
    ensures r.total - s.total == other.total
  {
    Db.IssueStats(s.critical + other.critical, s.high + other.high, s.medium + other.medium,
                  s.low + other.low, s.total + other.total)
  }

  lemma {:induction false} AddZero(s: IssueStats)
    ensures Add(s, ZeroStats) == s && Add(ZeroStats, s) == s
  {
  }

  lemma {:induction false} AddCommutative(a: IssueStats, b: IssueStats)
    ensures Add(a, b) == Add(b, a)
  {
  }

  lemma {:induction false} AddAssociative(a: IssueStats, b: IssueStats, c: IssueStats)
    ensures Add(Add(a, b), c) == Add(a, Add(b, c))
  {
  }

  predicate NonNegative(s: IssueStats)
  {
    s.critical >= 0 && s.high >= 0 && s.medium >= 0 && s.low >= 0 && s.total >= 0
  }

  /** Number of issues whose severity is exactly `sev`. */
  function CountSeverity(issues: seq<Issue>, sev: string): nat
  {
    if |issues| == 0 then 0
    else CountSeverity(issues[..|issues| - 1], sev) + (if issues[|issues| - 1].row.severity == sev then 1 else 0)
  }

  /** Number of issues whose severity is one of the four known ones. */
  function CountKnown(issues: seq<Issue>): nat
  {
    if |issues| == 0 then 0
    else CountKnown(issues[..|issues| - 1]) + (if IsValidSeverity(issues[|issues| - 1].row.severity) then 1 else 0)
  }

  /** The statistics of a list of issues, bucket by bucket. */
  function Tally(issues: seq<Issue>): IssueStats
  {
    var c := CountSeverity(issues, SeverityCritical);
    var h := CountSeverity(issues, SeverityHigh);
    var m := CountSeverity(issues, SeverityMedium);
    var l := CountSeverity(issues, SeverityLow);
    Db.IssueStats(c, h, m, l, c + h + m + l)
  }

  /** `calcIssueStats`: counts each issue in the bucket of its severity, ignoring unknown
      severities, and sets the total to the sum of the four buckets. */
  method CalcIssueStats(issues: seq<Issue>) returns (s: IssueStats)
    ensures s == Tally(issues)
    ensures s.total == s.critical + s.high + s.medium + s.low
    ensures s.total == CountKnown(issues) && NonNegative(s)
  {
    s := ZeroStats;
    var i := 0;
    while i < |issues|
      invariant 0 <= i <= |issues|
      invariant s.critical == CountSeverity(issues[..i], SeverityCritical)
      invariant s.high == CountSeverity(issues[..i], SeverityHigh)
      invariant s.medium == CountSeverity(issues[..i], SeverityMedium)
      invariant s.low == CountSeverity(issues[..i], SeverityLow)
      invariant s.total == 0
    {
      assert issues[..i + 1][..i] == issues[..i];
      var sev := issues[i].row.severity;
      if sev == SeverityCritical {
        s := s.(critical := s.critical + 1);
      } else if sev == SeverityHigh {
        s := s.(high := s.high + 1);
      } else if sev == SeverityMedium {
        s := s.(medium := s.medium + 1);
      } else if sev == SeverityLow {
        s := s.(low := s.low + 1);
      }
      i := i + 1;
    }
    assert issues[..i] == issues;
    s := s.(total := s.critical + s.high + s.medium + s.low);
    TallyTotalCountsKnown(issues);
  }

  /** The total of the tally is the number of issues with a known severity. */
  lemma {:induction false} TallyTotalCountsKnown(issues: seq<Issue>)
    ensures Tally(issues).total == CountKnown(issues)
  {
    if |issues| > 0 {
      TallyTotalCountsKnown(issues[..|issues| - 1]);
    }
  }

  lemma {:induction false} CountSeverityAppend(a: seq<Issue>, b: seq<Issue>, sev: string)
    ensures CountSeverity(a + b, sev) == CountSeverity(a, sev) + CountSeverity(b, sev)
  {
    if |b| == 0 {
      assert a + b == a;
    } else {
      assert (a + b)[..|a + b| - 1] == a + b[..|b| - 1];
      CountSeverityAppend(a, b[..|b| - 1], sev);
    }
  }

  /** Tallying a concatenation is adding the tallies of the parts. */
  lemma {:induction false} TallyAppend(a: seq<Issue>, b: seq<Issue>)
    ensures Tally(a + b) == Add(Tally(a), Tally(b))
  {
    CountSeverityAppend(a, b, SeverityCritical);
    CountSeverityAppend(a, b, SeverityHigh);
    CountSeverityAppend(a, b, SeverityMedium);
    CountSeverityAppend(a, b, SeverityLow);
  }

  /** When every issue has a known severity, the total is the number of issues. */
  lemma {:induction false} TallyTotalAllKnown(issues: seq<Issue>)
    requires forall i :: 0 <= i < |issues| ==> IsValidSeverity(issues[i].row.severity)
    ensures Tally(issues).total == |issues|
  {
    CountKnownAll(issues);
    TallyTotalCountsKnown(issues);
  }

  lemma {:induction false} CountKnownAll(issues: seq<Issue>)
    requires forall i :: 0 <= i < |issues| ==> IsValidSeverity(issues[i].row.severity)
    ensures CountKnown(issues) == |issues|
  {
    if |issues| > 0 {
      CountKnownAll(issues[..|issues| - 1]);
    }
  }

  /** `calcTrafficLight`: the first matching rule of red, yellow, green. */
  function CalcTrafficLight(s: IssueStats): (light: string)
    ensures light == LightRed <==> s.critical >= 1 || s.high >= 2
    ensures light == LightYellow <==> !(s.critical >= 1 || s.high >= 2) && (s.high >= 1 || s.medium >= 3)
    ensures light == LightGreen <==> s.critical < 1 && s.high < 1 && s.medium < 3
  {
    if s.critical >= 1 || s.high >= 2 then LightRed
    else if s.high >= 1 || s.medium >= 3 then LightYellow
    else LightGreen
  }

  /** green < yellow < red. */
  function LightRank(light: string): nat
  {
    if light == LightRed then 2 else if light == LightYellow then 1 else 0
  }

  /** Adding non-negative statistics never lowers the light. */
  lemma {:induction false} LightMonotoneUnderAdd(a: IssueStats, b: IssueStats)
    requires NonNegative(a) && NonNegative(b)
    ensures LightRank(CalcTrafficLight(Add(a, b))) >= LightRank(CalcTrafficLight(a))
    ensures LightRank(CalcTrafficLight(Add(a, b))) >= LightRank(CalcTrafficLight(b))
  {
  }

  /** The light of a sum can be worse than the light of each summand: one high issue
      is yellow, two are red. */
  lemma {:induction false} SummedLightCanExceedParts()
    ensures var one := Db.IssueStats(0, 1, 0, 0, 1);
      CalcTrafficLight(one) == LightYellow && CalcTrafficLight(Add(one, one)) == LightRed
  {
  }

  // ---------------------------------------------------------------------------------
  // Searches.

  /** Per-project aggregate of the enabled reviews, with the newest review's header. */
  datatype ProjectStats = ProjectStats(projectId: int, reviewCount: int, createdAt: Db.Time, author: string, trafficLight: string)

  datatype ReviewSearch = ReviewSearch(projectId: int, author: Option<string>, trafficLight: Option<string>, fromReviewId: Option<int>)

  datatype IssueSearch = IssueSearch(
    reviewId: int, projectId: Option<int>, isFalsePositive: Option<bool>, fromIssueId: Option<int>,
    severity: Option<string>, issueType: Option<string>, reviewType: Option<string>)

  /** `ReviewSearch.ToDB`. */
  function ReviewSearchToDB(s: Option<ReviewSearch>): (r: Option<Db.ReviewSearch>)
    ensures r.Some? <==> s.Some?
    ensures r.Some? ==> r.value.id.None? && r.value.projectId == Some(s.value.projectId)
  {
    if s.None? then None
    else Some(Db.ReviewSearch(None, Some(s.value.projectId), s.value.author, s.value.trafficLight, s.value.fromReviewId))
  }

  /** A row passes the translated search exactly when it belongs to the project, matches
      the optional author and light, and lies strictly below the cursor. */
  lemma {:induction false} ReviewSearchToDBSelects(s: ReviewSearch, r: Db.ReviewRow)
    ensures Db.ReviewMatches(r, ReviewSearchToDB(Some(s)).value) <==>
      r.projectId == s.projectId &&
      (s.author.None? || r.author == s.author.value) &&
      (s.trafficLight.None? || r.trafficLight == s.trafficLight.value) &&
      (s.fromReviewId.None? || r.id < s.fromReviewId.value)
  {
  }

  /** `IssueSearch.ToDB`: review id 0 means no review filter; the cursor is a strict
      lower bound on the issue id. */
  function IssueSearchToDB(s: Option<IssueSearch>): (r: Option<Db.IssueSearch>)
    ensures r.Some? <==> s.Some?
    ensures r.Some? ==> (r.value.reviewId.None? <==> s.value.reviewId == 0)
    ensures r.Some? ==> r.value.idGt == s.value.fromIssueId && r.value.id.None?
  {
    if s.None? then None
    else
      var q := s.value;
      Some(Db.IssueSearch(None, if q.reviewId != 0 then Some(q.reviewId) else None, q.severity, q.issueType,
                          q.reviewType, q.isFalsePositive, q.projectId, q.fromIssueId))
  }

  lemma {:induction false} IssueSearchToDBSelects(s: IssueSearch, j: Db.JoinedIssue)
    ensures Db.IssueMatches(j, IssueSearchToDB(Some(s)).value) <==>
      (s.reviewId == 0 || j.row.reviewId == s.reviewId) &&
      (s.severity.None? || j.row.severity == s.severity.value) &&
      (s.issueType.None? || j.row.issueType == s.issueType.value) &&
      (s.reviewType.None? || (j.reviewFile.Some? && j.reviewFile.value.reviewType == s.reviewType.value)) &&
      (s.isFalsePositive.None? || j.row.isFalsePositive == s.isFalsePositive) &&
      (s.projectId.None? || (j.review.Some? && j.review.value.projectId == s.projectId.value)) &&
      (s.fromIssueId.None? || j.row.id > s.fromIssueId.value)
  {
  }
}
