/** Rows of the `reviews`, `reviewFiles`, `issues` and `projects` tables and the sparse
    search records the repository turns into WHERE clauses (package `db`).
    The generated struct definitions are not part of this model: the columns below are
    the ones the core reads or writes. */
module DbModel {
  import opened Common

  /** Timestamps as integers (e.g. microseconds since the epoch). */
  type Time = int

  /** Lifecycle statuses. `StatusEnabled` is 1 (the value every fixture defaults to);
      `StatusDeleted` is the conventional 3 of the generated code. */
  const StatusEnabled: int := 1
  const StatusDeleted: int := 3

  /** `db.ReviewFileIssueStats` (pkg/db/model_params.go): counters per severity. */
  datatype IssueStats = IssueStats(critical: int, high: int, medium: int, low: int, total: int)

  /** `db.ReviewModelInfo`; the cost is only ever copied. */
  datatype ModelInfo = ModelInfo(model: string, inputTokens: int, outputTokens: int, costUsd: real)

  datatype ReviewRow = ReviewRow(
    id: int, projectId: int, promptId: int, externalId: string, title: string,
    description: string, trafficLight: string, commitHash: string, sourceBranch: string,
    targetBranch: string, author: string, createdAt: Time, durationMs: int,
    modelInfo: ModelInfo, statusId: int)

  datatype ReviewFileRow = ReviewFileRow(
    id: int, reviewId: int, reviewType: string, content: string, summary: string,
    trafficLight: string, isAccepted: bool, issueStats: IssueStats, createdAt: Time,
    statusId: int)

  datatype IssueRow = IssueRow(
    id: int, reviewId: int, reviewFileId: int, localId: Option<string>, issueType: string,
    title: string, severity: string, description: string, content: string, file: string,
    lines: string, isFalsePositive: Option<bool>, comment: Option<string>,
    processedAt: Option<Time>, createdAt: Time, statusId: int)

  /** An issue as `db.Issue` holds it after a select: its columns plus the joined
      review file and review (absent when the join was not requested). */
  datatype JoinedIssue = JoinedIssue(row: IssueRow, reviewFile: Option<ReviewFileRow>, review: Option<ReviewRow>)

  datatype SlackChannelRow = SlackChannelRow(id: int, title: string, channel: string, webhookUrl: string, statusId: int)

  datatype ProjectRow = ProjectRow(
    id: int, title: string, vcsUrl: string, language: string, projectKey: string,
    promptId: int, slackChannelId: Option<int>, createdAt: Time, statusId: int)

  datatype PromptRow = PromptRow(
    id: int, title: string, common: string, architecture: string, code: string,
    security: string, tests: string, statusId: int)

  datatype TaskTrackerRow = TaskTrackerRow(
    id: int, title: string, url: string, authToken: Option<string>, fetchPrompt: string, statusId: int)

  /** A project with its joined Slack channel. */
  datatype JoinedProject = JoinedProject(row: ProjectRow, slackChannel: Option<SlackChannelRow>)

  /** `db.ReviewSearch`: every present field is one equality conjunct; `idLt` is the
      exclusive upper bound on the id used as a cursor. */
  datatype ReviewSearch = ReviewSearch(
    id: Option<int>, projectId: Option<int>, author: Option<string>,
    trafficLight: Option<string>, idLt: Option<int>)

  datatype ReviewFileSearch = ReviewFileSearch(
    id: Option<int>, reviewId: Option<int>, reviewIds: Option<seq<int>>, reviewType: Option<string>)

  /** `db.IssueSearch`; `reviewFileReviewType` and `reviewProjectId` test the joined file
      and review; `idGt` is the extra condition `"t"."issueId" > cursor`. */
  datatype IssueSearch = IssueSearch(
    id: Option<int>, reviewId: Option<int>, severity: Option<string>, issueType: Option<string>,
    reviewFileReviewType: Option<string>, isFalsePositive: Option<bool>,
    reviewProjectId: Option<int>, idGt: Option<int>)

  const EmptyReviewSearch := ReviewSearch(None, None, None, None, None)
  const EmptyReviewFileSearch := ReviewFileSearch(None, None, None, None)
  const EmptyIssueSearch := IssueSearch(None, None, None, None, None, None, None, None)

  /** Errors the storage layer reports: more than one row for a single-row fetch
      (`pg.ErrMultiRows`), or any other failure of the engine. */
  datatype DbError = ErrMultiRows | ErrStorage

  /** The WHERE clause a `db.ReviewSearch` stands for. */
  predicate ReviewMatches(r: ReviewRow, s: ReviewSearch)
  {
    (s.id.None? || r.id == s.id.value) &&
    (s.projectId.None? || r.projectId == s.projectId.value) &&
    (s.author.None? || r.author == s.author.value) &&
    (s.trafficLight.None? || r.trafficLight == s.trafficLight.value) &&
    (s.idLt.None? || r.id < s.idLt.value)
  }

  /** The WHERE clause a `db.ReviewFileSearch` stands for (`reviewIds` is `IN (...)`). */
  predicate ReviewFileMatches(f: ReviewFileRow, s: ReviewFileSearch)
  {
    (s.id.None? || f.id == s.id.value) &&
    (s.reviewId.None? || f.reviewId == s.reviewId.value) &&
    (s.reviewIds.None? || f.reviewId in s.reviewIds.value) &&
    (s.reviewType.None? || f.reviewType == s.reviewType.value)
  }

  /** The WHERE clause a `db.IssueSearch` stands for; the conditions on the review file
      and the review hold only when that joined row is present. */
  predicate IssueMatches(j: JoinedIssue, s: IssueSearch)
  {
    (s.id.None? || j.row.id == s.id.value) &&
    (s.reviewId.None? || j.row.reviewId == s.reviewId.value) &&
    (s.severity.None? || j.row.severity == s.severity.value) &&
    (s.issueType.None? || j.row.issueType == s.issueType.value) &&
    (s.reviewFileReviewType.None? ||
      (j.reviewFile.Some? && j.reviewFile.value.reviewType == s.reviewFileReviewType.value)) &&
    (s.isFalsePositive.None? || j.row.isFalsePositive == Some(s.isFalsePositive.value)) &&
    (s.reviewProjectId.None? ||
      (j.review.Some? && j.review.value.projectId == s.reviewProjectId.value)) &&
    (s.idGt.None? || j.row.id > s.idGt.value)
  }
}
