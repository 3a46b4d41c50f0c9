# reviewsrv core, modelled in Dafny

reviewsrv stores AI code reviews. An upload carries a **review draft**: a header, one
**review file** per review type (architecture, code, security, tests) and a flat list of
**issues**, each tagged with the review type of its file and a severity (critical, high,
medium, low).

The server handles an upload in four steps:

- it validates the draft and converts it into a review with files and issues;
- it *prepares* the review: every file, issue and the review itself are enabled, each file
  gets its severity statistics and a traffic light, and the review gets the light of the
  summed statistics;
- it saves the review, then each file, then the file's issues, in one transaction;
- it serves all of it back over JSON-RPC: reviews of a project (newest first, with the id of
  the newest version of the same merge request), one review with its files and issues, issue
  lists, counts, and two updates of an issue (false-positive feedback and a comment).

The browser client shows the data with a few pure formatting helpers, turns task ids into
tracker links after escaping the text as HTML, and validates JSON-RPC 2.0 responses.

## How the model is organised

The model follows the program's packages:

| file | module | models |
|---|---|---|
| common.dfy | Common | `Option`, `Result` |
| strings.dfy | Strings | string built-ins used by the source (`includes`, decimal printing and parsing, UTF-8 length, ASCII upper case) |
| sorting.dfy | Sorting | filtering, stable ordering by an integer key, `LIMIT` |
| db_model.dfy | DbModel | the stored rows, the search structs and what a search selects |
| reviewer_model.dfy | ReviewerModel | pkg/reviewer/model.go |
| collection.dfy | Collection | pkg/reviewer/collection.go |
| review_repo.dfy | Repository | pkg/db/review.go: the `ReviewRepo` value and a `Database` class holding the three tables |
| manager_reads.dfy | Queries | what the manager's reads and hand-written SQL compute over a snapshot of the tables |
| manager.dfy | Manager | pkg/reviewer/manager.go: `prepareReview` and the class `ReviewManager` |
| rest_model.dfy | RestModel | pkg/rest/model.go |
| rpc_model.dfy | RpcModel | pkg/rpc/model.go |
| rpc_review.dfy | RpcService | pkg/rpc/review.go: the class `ReviewService` |
| format.dfy | Format | frontend/src/utils/format.ts |
| use_format.dfy | UseFormat | frontend/src/composables/useFormat.ts |
| task_link.dfy | TaskLink | frontend/src/composables/useTaskLink.ts |
| rpc_client.dfy | RpcClient | the validator, `groupBy` and the request-id counter of frontend/src/api/HttpRpcClient.ts |

**How the Go code is modelled**

- Code that updates state in place (the manager's writes, the repository's inserts, updates
  and soft deletes, the RPC service, the fill-in of last versions over a slice, the client's
  id counter) is written as classes and methods with `modifies` clauses. Each method states
  the whole new state.
- The loops of the source (`prepareReview`, `calcIssueStats`, `MapP`/`Map`, the colgen
  `GroupBy*`, `ToModel`, `groupBy`, `newReviewSummaries`/`newIssues`, the merge loop of
  `Projects`) are `while`/`for` loops. Each is proved against a specification function.
- The database is three in-memory tables in insertion order, plus one id sequence per table.
  A query that the Go code sends without an `ORDER BY` returns rows in table order. The
  default sort (`createdAt DESC`) is a stable sort.
- Soft deletion sets the status to `StatusDeleted`. Rows are never removed.

## Model

| member | source | states |
|---|---|---|
| ReviewerModel.IsValidReviewType | pkg/reviewer/model.go:33-35 | true exactly for the four review types, compared exactly |
| ReviewerModel.IsValidSeverity | pkg/reviewer/model.go:38-40 | true exactly for the four severities |
| ReviewerModel.NewReview | pkg/reviewer/model.go:49-57 | absent in, absent out; otherwise the row with no files and no last version |
| ReviewerModel.NewReviewFile | pkg/reviewer/model.go:65-73 | absent in, absent out; otherwise the row with no issues |
| ReviewerModel.NewIssue | pkg/reviewer/model.go:80-88 | absent in, absent out; otherwise the row with its joined file and review |
| ReviewerModel.NewProject | pkg/reviewer/model.go:95-103 | absent in, absent out; otherwise the row with its Slack channel |
| ReviewerModel.NewTaskTracker | pkg/reviewer/model.go:115-123 | absent in, absent out; otherwise wraps the row |
| ReviewerModel.NewPrompt | pkg/reviewer/model.go:130-138 | absent in, absent out; otherwise wraps the row |
| ReviewerModel.NewSlackChannel | pkg/reviewer/model.go:250-258 | absent in, absent out; otherwise wraps the row |
| ReviewerModel.HasSlackWebhookCases | pkg/reviewer/model.go:106-108 | no channel means no webhook; with a channel, a webhook exactly when its URL is non-empty |
| ReviewerModel.Add | pkg/reviewer/model.go:143-149 | each of the five counters grows by the other's counter |
| ReviewerModel.AddZero | pkg/reviewer/model.go:143-149 | zero statistics are a neutral element on both sides |
| ReviewerModel.AddCommutative | pkg/reviewer/model.go:143-149 | adding statistics is commutative |
| ReviewerModel.AddAssociative | pkg/reviewer/model.go:143-149 | adding statistics is associative, so a running total does not depend on grouping |
| ReviewerModel.CalcIssueStats | pkg/reviewer/model.go:151-167 | the loop yields the per-severity tally; total = sum of the four buckets = number of issues with a known severity; all non-negative |
| ReviewerModel.TallyTotalCountsKnown | pkg/reviewer/model.go:151-167 | an issue with an unknown severity counts in no bucket and not in the total |
| ReviewerModel.TallyAppend | pkg/reviewer/model.go:151-167 | the tally of a concatenation is the sum of the tallies |
| ReviewerModel.TallyTotalAllKnown | pkg/reviewer/model.go:151-167 | when every severity is known, the total is the number of issues |
| ReviewerModel.CalcTrafficLight | pkg/reviewer/model.go:169-178 | red iff critical >= 1 or high >= 2; yellow iff not red and (high >= 1 or medium >= 3); green otherwise |
| ReviewerModel.LightMonotoneUnderAdd | pkg/reviewer/model.go:143-178 | adding non-negative statistics never lowers the light below either part's |
| ReviewerModel.SummedLightCanExceedParts | pkg/reviewer/model.go:169-178 | two yellow files (one high issue each) sum to a red review |
| ReviewerModel.ReviewSearchToDB | pkg/reviewer/model.go:198-210 | absent in, absent out; always scoped to the project, never to a single id |
| ReviewerModel.ReviewSearchToDBSelects | pkg/reviewer/model.go:198-210 | a row is selected iff it is in the project and matches author, light and "id below fromReviewId", each only when given |
| ReviewerModel.IssueSearchToDB | pkg/reviewer/model.go:224-243 | absent in, absent out; review id 0 means no review condition; fromIssueId becomes the id lower bound |
| ReviewerModel.IssueSearchToDBSelects | pkg/reviewer/model.go:224-243 | an issue is selected iff every given condition holds, the review type and the project through the joined file and review |
| Collection.MapP | pkg/reviewer/collection.go:11-17 | one converted element per input element, in order |
| Collection.Map | pkg/reviewer/collection.go:20-26 | one converted element per input element, in order |
| Collection.Ptr | pkg/reviewer/collection.go:29-31 | a present reference to the value |
| Collection.GroupBy | pkg/reviewer/collection.go:3-8 | the keys are exactly the keys that occur; each bucket is the elements with that key, in input order |
| Collection.GroupedElementInItsBucket | pkg/reviewer/collection.go:3-8 | every element is in its own key's bucket and in no other |
| Collection.GroupByReviewID | pkg/reviewer/collection.go:7 | each review id's bucket is that review's files in order; an unknown id gives the empty list |
| Collection.GroupByReviewFileID | pkg/reviewer/collection.go:6 | each file id's bucket is that file's issues in order |
| Repository.NewPager | pkg/reviewer/manager.go:205 | the first page holds at most `count` rows |
| Repository.NewReviewRepo | pkg/db/review.go:19-38 | each table hides deleted rows and sorts newest first by default |
| Repository.WithTransaction | pkg/db/review.go:41-44 | the same filters, sort and joins on the transaction's connection |
| Repository.WithEnabledOnly | pkg/db/review.go:47-57 | each table's filters gain the "enabled" condition; nothing else changes |
| Repository.EnabledOnlyPasses | pkg/db/review.go:47-57 | after the call a row passes iff it passed before and is enabled |
| Repository.ApplySort | pkg/db/review.go:27-31 | a permutation of the rows, ordered by the first sort field |
| Repository.FindById | pkg/db/review.go:33 | the joined row is a row of the table carrying the id; absent iff no row has it |
| Repository.JoinAll | pkg/db/review.go:62-64 | one joined issue per row, in order |
| Repository.JoinAllRows | pkg/db/review.go:33 | every joined issue comes from a row of the table, joined with its own file and review |
| Repository.BareAll | pkg/db/review.go:72-88 | without the `FullIssue` option, each issue comes back without related rows |
| Repository.PagedSelection | pkg/db/review.go:91-94 | a page of a filtered, sorted query holds only selected rows of the table, in sort order |
| Repository.ReviewsByFilters | pkg/db/review.go:243-246 | at most the page size; only stored rows that pass the base filters and the search; ordered by the sort |
| Repository.ReviewFilesByFilters | pkg/db/review.go:167-170 | at most the page size; only stored rows that pass the base filters and the search |
| Repository.IssuesByFilters | pkg/db/review.go:91-94 | at most the page size; only stored rows; with `FullIssue`, each selected and joined with its own file and review; ordered by the sort |
| Repository.One | pkg/db/review.go:77-88 | `ErrMultiRows` iff two or more rows; absent iff none; otherwise the only row |
| Repository.CountIsUnpagedLength | pkg/db/review.go:97-99 | each count is the length of the same list query with no page limit |
| Repository.SelectByKey | pkg/db/review.go:224-226 | with unique keys, selecting by key keeps at most one row, and keeps one iff some row qualifies |
| Repository.ReviewByIDFinds | pkg/db/review.go:224-240 | with unique ids, the lookup never fails; present iff a visible row has the id |
| Repository.IssueByIDFinds | pkg/db/review.go:72-88 | with unique ids, the issue lookup never reports `ErrMultiRows` |
| Repository.MergeReview | pkg/db/review.go:266-278 | the id and creation time are never written; without named columns every other column is |
| Repository.WriteReviewColumns | pkg/db/review.go:266-278 | writing named columns keeps the id and the creation time |
| Repository.ReviewNamedColumns | pkg/db/review.go:281-285 | a soft delete writes the status column only |
| Repository.MergeReviewFile | pkg/db/review.go:190-202 | the id and creation time are never written; without named columns every other column is |
| Repository.WriteReviewFileColumns | pkg/db/review.go:190-202 | writing named columns keeps the id and the creation time |
| Repository.ReviewFileNamedColumns | pkg/db/review.go:190-209 | naming the content or the status writes that column and nothing else |
| Repository.MergeIssue | pkg/db/review.go:114-126 | the id and creation time are never written; without named columns every other column is |
| Repository.WriteIssueColumns | pkg/db/review.go:114-126 | writing named columns keeps the id and the creation time |
| Repository.IssueNamedColumns | pkg/db/review.go:114-133 | a comment, feedback or status update writes exactly the named columns |
| Repository.Database.AddReview | pkg/db/review.go:254-263 | on success the row gets the next id and is appended with the insert time; on failure nothing changes |
| Repository.Database.AddReviewFile | pkg/db/review.go:178-187 | on success the row gets the next id and is appended with the insert time; on failure nothing changes |
| Repository.Database.AddIssue | pkg/db/review.go:102-111 | on success the row gets the next id and is appended with the insert time; on failure nothing changes |
| Repository.Database.UpdateReview | pkg/db/review.go:266-278 | affected iff a row has the id; only that row changes, by `MergeReview`; other tables unchanged |
| Repository.Database.UpdateReviewFile | pkg/db/review.go:190-202 | affected iff a row has the id; only that row changes, by `MergeReviewFile` |
| Repository.Database.UpdateIssue | pkg/db/review.go:114-126 | affected iff a row has the id; only that row changes, by `MergeIssue` |
| Repository.Database.DeleteReview | pkg/db/review.go:281-285 | deleted iff a row has the id; only that row's status becomes deleted |
| Repository.Database.DeleteReviewFile | pkg/db/review.go:205-209 | deleted iff a row has the id; only that row's status becomes deleted |
| Repository.Database.DeleteIssue | pkg/db/review.go:129-133 | deleted iff a row has the id; only that row's status becomes deleted |
| Repository.Database.Rollback | pkg/reviewer/manager.go:100-123 | a failed transaction restores the tables; the id sequences are not rolled back |
| Queries.EnabledOnlyVisible | pkg/reviewer/manager.go:19-24 | through the manager's repository a row is visible iff it is enabled |
| Queries.OneReviewFound | pkg/db/review.go:229-240 | absent iff no visible row matches; a found row is stored, enabled and matching; the only error is `ErrMultiRows` |
| Queries.OneReviewFileFound | pkg/db/review.go:153-164 | absent iff no visible row matches; a found row is stored, enabled and matching; the only error is `ErrMultiRows` |
| Queries.IssueByIDFound | pkg/db/review.go:72-88 | absent iff no enabled issue has the id; a found issue comes without its file and review |
| Queries.ListedFilesGroup | pkg/reviewer/manager.go:215-223 | after grouping, each listed review gets exactly its enabled files, in table order |
| Queries.ReviewFilesLoaded | pkg/reviewer/manager.go:242-246 | `GetReview` loads exactly the review's enabled files, in table order |
| Queries.ReviewIssuesGroup | pkg/reviewer/manager.go:248-256 | after grouping, each file gets exactly its enabled issues of this review, in table order |
| Queries.MaxId | pkg/reviewer/manager.go:142-149 | absent iff no enabled review of the merge request exists; otherwise the largest such id |
| Queries.LastVersionResults | pkg/reviewer/manager.go:141-156 | the query returns no more rows than the reviews table holds |
| Queries.LastVersionResultsResolve | pkg/reviewer/manager.go:141-156 | a review id is reported iff it was asked for and has a newer version; the reported value is that version |
| Queries.ReportedResolves | pkg/reviewer/manager.go:150-156 | every reported row answers a requested id with its newest version |
| Queries.ResolvedReported | pkg/reviewer/manager.go:150-156 | every requested id with a newer version is reported |
| Queries.ResolveIsNewest | pkg/reviewer/manager.go:142-155 | the last version has a non-empty external id, differs from the review, is the largest enabled id of the same project and external id, and is newer than an enabled review |
| Queries.NoVersionCases | pkg/reviewer/manager.go:146-155 | no last version for an empty external id or for the newest review itself |
| Queries.IdAscStrict | pkg/reviewer/manager.go:277-287 | sorted by id ascending, unique ids come out strictly increasing |
| Queries.Latest | pkg/reviewer/manager.go:182-190 | the row with the largest creation time |
| Queries.ProjectsWithReviews | pkg/reviewer/manager.go:182-190 | exactly the projects with an enabled review |
| Queries.ProjectStatsRows | pkg/reviewer/manager.go:180-191 | one row per project with an enabled review, each that project's statistics |
| Queries.StatOfMeaning | pkg/reviewer/manager.go:182-190 | the count is the number of the project's enabled reviews (>= 1); author, time and light come from its newest one |
| Manager.PrepareReview | pkg/reviewer/manager.go:64-92 | an error iff two files share a review type (`ErrDuplicateReviewType`); otherwise the prepared review |
| Manager.PrepareOneFile | pkg/reviewer/manager.go:71-88 | one loop iteration: the prepared file and the tally of its issues |
| Manager.EnableEach | pkg/reviewer/manager.go:85-87 | every issue is enabled, nothing else changes |
| Manager.EnableIssuesKeepsCounts | pkg/reviewer/manager.go:78-87 | enabling the issues does not change any severity count |
| Manager.PreparedFileStats | pkg/reviewer/manager.go:78-82 | a prepared file's statistics are the tally of its issues, its light that of the tally, and its total the sum of the buckets |
| Manager.TotalIsTallyOfAll | pkg/reviewer/manager.go:80-89 | the summed statistics are the tally of all issues of the review |
| Manager.TotalNonNegative | pkg/reviewer/manager.go:80-89 | the summed statistics are non-negative |
| Manager.ReviewLightDominatesFiles | pkg/reviewer/manager.go:80-89 | the review's light is at least as severe as each file's |
| Manager.NoFilesIsGreen | pkg/reviewer/manager.go:70-89 | a review without files is green |
| Manager.PreparedIssueCount | pkg/reviewer/manager.go:71-88 | preparation keeps the number of issues of every prefix of files |
| Manager.SavedReviewLinks | pkg/reviewer/manager.go:105-119 | after saving, each file points to the review and each issue to its review and file; ids are consecutive |
| Manager.StoredIssuesCount | pkg/reviewer/manager.go:105-119 | one issue row is stored per issue of the review |
| Manager.SaveKeepsIssueCount | pkg/reviewer/manager.go:105-119 | saving keeps the number of issues of every prefix of files |
| Manager.FeedbackRow | pkg/reviewer/manager.go:308-316 | the feedback row carries the flag; processedAt is set (to now) iff a flag is given |
| Manager.ReviewManager.constructor | pkg/reviewer/manager.go:19-24 | a manager on the base connection over the given store |
| Manager.ReviewManager.AddFileWithIssues | pkg/reviewer/manager.go:105-119 | inserts a file and then its issues; on success the file and issue rows are appended with consecutive ids |
| Manager.ReviewManager.AddFileAt | pkg/reviewer/manager.go:105-119 | one iteration of the file loop keeps the stored prefix equal to the saved review's prefix |
| Manager.ReviewManager.SaveFiles | pkg/reviewer/manager.go:105-119 | the file loop appends every file and its issues with back-filled ids in order, or on the first failed insert restores the snapshot; it succeeds exactly when no insert number reaches the failing one |
| Manager.ReviewManager.SavePrepared | pkg/reviewer/manager.go:100-123 | all rows are appended in order, or on any failed insert the tables are unchanged |
| Manager.ReviewManager.CreateReview | pkg/reviewer/manager.go:95-126 | a duplicate type is rejected and nothing is written; otherwise the review comes back; on a storage error the tables are unchanged; on success the prepared review with its files and issues is appended |
| Manager.ReviewManager.ReviewFileByKey | pkg/reviewer/manager.go:39-55 | an unknown type is `ErrInvalidReviewType`; otherwise present iff the review is in the project and has an enabled file of that type |
| Manager.ReviewManager.UpdateReviewFileContent | pkg/reviewer/manager.go:58-62 | only the content of the file with that id changes |
| Manager.ReviewManager.FillLastVersions | pkg/reviewer/manager.go:135-176 | only `lastVersionReviewId` changes; the last slice entry with each id gets its newest version when one exists |
| Manager.ReviewManager.ProjectsStats | pkg/reviewer/manager.go:179-201 | keys are exactly the projects with an enabled review; each value is that project's statistics |
| Manager.ReviewManager.LoadListedFiles | pkg/reviewer/manager.go:215-223 | each listed review keeps its row and gets exactly its enabled files, in table order |
| Manager.ReviewManager.ListReviews | pkg/reviewer/manager.go:204-226 | exactly the rows of the query's page (`ReviewsByFilters` with a limit of `count`), in its order: enabled, matching, newest first, each with exactly its enabled files |
| Manager.ReviewManager.CountReviews | pkg/reviewer/manager.go:229-231 | the length of the unpaged list |
| Manager.ReviewManager.LoadFiles | pkg/reviewer/manager.go:242-256 | the loaded files are the review's enabled files in table order, each with exactly its enabled issues |
| Manager.ReviewManager.GetReview | pkg/reviewer/manager.go:234-259 | present iff an enabled review has the id; its files are its enabled files, each with exactly its enabled issues |
| Manager.ReviewManager.ListIssues | pkg/reviewer/manager.go:262-269 | exactly the issue rows of the query's page (`IssuesByFilters`, limit `count`), in its order, each enabled, matching and with its own file and review |
| Manager.ReviewManager.ListIssuesByProject | pkg/reviewer/manager.go:277-287 | exactly the rows of the id-ascending page of the query, so the ids are strictly increasing; each with its own file and review |
| Manager.ReviewManager.CountIssues | pkg/reviewer/manager.go:272-274 | the length of the unpaged list |
| Manager.ReviewManager.IssueByID | pkg/reviewer/manager.go:290-299 | an error iff the repository lookup fails (`ErrMultiRows`); otherwise present iff an enabled issue has the id |
| Manager.ReviewManager.SetComment | pkg/reviewer/manager.go:302-305 | affected iff an issue has the id; only its comment changes |
| Manager.ReviewManager.SetFeedback | pkg/reviewer/manager.go:308-316 | affected iff an issue has the id; only its flag and processedAt change |
| Manager.LastIndexById | pkg/reviewer/manager.go:165-168 | maps each id in the slice to the index of its last occurrence |
| Manager.ApplyStep | pkg/reviewer/manager.go:169-174 | one result row applied at the last position of its id keeps the slice's ids and files, and extends the set of applied ids by exactly that row's id |
| Manager.ApplyLastVersions | pkg/reviewer/manager.go:169-174 | each reported id sets the version of its last slice entry; nothing else changes |
| Manager.IndexByProject | pkg/reviewer/manager.go:196-199 | the keys are exactly the projects of the rows; each value is one of that project's rows |
| Manager.AttachFiles | pkg/reviewer/manager.go:221-223 | each review gets its bucket of files, the empty list when it has none |
| Manager.AttachIssues | pkg/reviewer/manager.go:254-256 | each file gets its bucket of issues, the empty list when it has none |
| Manager.ListedReviewsShape | pkg/reviewer/manager.go:205 | the listed rows are at most `count`, enabled, matching, newest first |
| RestModel.ValidateAccepts | pkg/rest/model.go:48-63 | the draft is accepted iff every review type, file type and severity is known |
| RestModel.ValidateFileFirst | pkg/rest/model.go:49-53 | the first bad file is reported before any issue is looked at |
| RestModel.ValidateIssueOrder | pkg/rest/model.go:54-61 | the first bad issue is reported, its file type before its severity |
| RestModel.PtrString | pkg/rest/model.go:118-123 | absent iff the string is empty; otherwise the string itself |
| RestModel.GroupByType | pkg/rest/model.go:87-101 | each file type maps to its converted issues in draft order; an unused type gives the empty list |
| RestModel.ToModel | pkg/rest/model.go:66-116 | the conversion equals the model of the draft |
| RestModel.ModelFiles | pkg/rest/model.go:66-116 | one file per draft file with its type, summary and acceptance; header fields copied; ids, status, light and stats left zero |
| RestModel.IssuesOfTypeOrder | pkg/rest/model.go:87-101 | a file's list holds as many issues as the draft has of its type, in draft order |
| RestModel.IssuesOfTypeMembers | pkg/rest/model.go:87-113 | a file's list holds exactly the converted draft issues of its type |
| RestModel.ModelIssueTotal | pkg/rest/model.go:87-113 | with distinct file types, the files hold exactly the issues whose type names a file |
| RestModel.DroppedIssue | pkg/rest/model.go:87-113 | an issue whose type names no file ends up in no file |
| RestModel.ValidModelStats | pkg/rest/model.go:48-63 | after validation every issue counts in its file's total |
| RestModel.LocalIdKept | pkg/rest/model.go:91 | an empty local id becomes absent; any other is kept |
| RpcModel.IssueStatsRoundTrip | pkg/rpc/model.go:27-35 | the RPC statistics and the stored ones convert into each other without loss |
| RpcModel.NewProject | pkg/rpc/model.go:64-76 | absent in, absent out; id, title, URL, language and creation time copied; no count and no last review yet |
| RpcModel.NewReviewSummary | pkg/rpc/model.go:99-127 | absent in, absent out; otherwise the review's summary |
| RpcModel.SummaryFiles | pkg/rpc/model.go:99-127 | one file summary per file in order, with its type, light and statistics; the last version is kept |
| RpcModel.NewReview | pkg/rpc/model.go:148-172 | absent in, absent out; every column of the review and of each file, in order, reaches the RPC record; the last version is kept |
| RpcModel.NewIssue | pkg/rpc/model.go:212-237 | absent in, absent out; the review type comes from the joined file; the commit hash from the review, or empty without one |
| RpcModel.ReviewFiltersToDomain | pkg/rpc/model.go:246-256 | scoped to the project and the cursor; author and light only when filters are given |
| RpcModel.IssueFiltersToDomain | pkg/rpc/model.go:267-278 | scoped to the review, with no project and no cursor |
| RpcModel.IssueFiltersToDomainByProject | pkg/rpc/model.go:281-292 | scoped to the project, with review id 0 and no cursor |
| RpcModel.IssueFiltersReachStorage | pkg/rpc/model.go:267-292 | each RPC filter reaches the storage search unchanged, and the scope is the review or the project |
| RpcModel.ReviewFiltersSelect | pkg/rpc/model.go:246-256 | a row is selected iff it is in the project, below the cursor and matches the given author and light |
| RpcModel.NewReviewSummaries | pkg/rpc/review.go:117 | one summary per review, in order |
| RpcModel.NewIssues | pkg/rpc/review.go:175 | one RPC issue per issue, in order |
| RpcService.FindProject | pkg/reviewer/project.go:25-30 | the found project carries the id; absent iff none does |
| RpcService.MergeStats | pkg/rpc/review.go:64-73 | each project with statistics takes its count and last review; the others are unchanged |
| RpcService.LoadedFiles | pkg/reviewer/manager.go:242-256 | one loaded file per enabled file of the review |
| RpcService.ReviewService.constructor | pkg/rpc/review.go:20-25 | a service over the manager and the project directory |
| RpcService.ReviewService.CheckProject | pkg/rpc/review.go:27-36 | not found iff no project has the id |
| RpcService.ReviewService.CheckIssue | pkg/rpc/review.go:38-47 | success iff an enabled issue has the id; every error is not found |
| RpcService.ReviewService.Projects | pkg/rpc/review.go:52-76 | one entry per project, in order; the count and last review of a project with reviews, zero and none otherwise |
| RpcService.ReviewService.ProjectByID | pkg/rpc/review.go:84-94 | not found iff no project has the id; otherwise its conversion |
| RpcService.ReviewService.Summaries | pkg/rpc/review.go:108-117 | one summary per review of the first page of 50 that the search selects, in its order (newest first); the last entry of each id carries its newest version and every other entry none |
| RpcService.ReviewService.Get | pkg/rpc/review.go:103-118 | not found for an unknown project; otherwise one summary per review of the first page of 50 selected reviews, newest first, with last versions filled |
| RpcService.ReviewService.Count | pkg/rpc/review.go:127-138 | not found for an unknown project; otherwise the number of selected reviews |
| RpcService.ReviewService.GetByID | pkg/rpc/review.go:146-161 | not found iff no enabled review has the id; otherwise that review with its files, issues and last version |
| RpcService.ReviewService.Issues | pkg/rpc/review.go:169-176 | the conversion of each issue of the first page of 500 of the review's enabled issues that pass the filters, in order |
| RpcService.ReviewService.CountIssues | pkg/rpc/review.go:184-191 | the number of the review's enabled issues that pass the filters |
| RpcService.ReviewService.IssuesByProject | pkg/rpc/review.go:201-215 | not found for an unknown project; otherwise the conversion of each issue of the first id-ascending page of 50 of the project's issues after the cursor |
| RpcService.ReviewService.ProjectIssues | pkg/rpc/review.go:206-215 | the page after the project check: the converted id-ascending page of the project's search, strictly increasing ids |
| RpcService.ProjectIssuesListed | pkg/rpc/review.go:206-215 | every issue of that page is an enabled stored issue of the project that passes the filters and lies after the cursor |
| RpcService.ReviewService.CountIssuesByProject | pkg/rpc/review.go:224-235 | not found for an unknown project; otherwise the number of the project's issues that pass the filters |
| RpcService.ReviewService.Feedback | pkg/rpc/review.go:244-255 | success iff an enabled issue has the id, and then only that issue's flag and processedAt change; otherwise not found, with no change |
| RpcService.ReviewService.SetComment | pkg/rpc/review.go:265-278 | success iff the comment is absent or at most 255 bytes and an enabled issue has the id, and then only that comment changes (`None` clears it); otherwise bad request (too long) or not found, with no change |
| RpcService.SummariesListed | pkg/rpc/review.go:108-117 | every summary of a page comes from a stored, enabled, matching review with its files |
| RpcService.SummariesLastVersion | pkg/rpc/review.go:113-117 | a summary's last version is the newest version for the last entry with its id, none otherwise |
| RpcService.Convert | pkg/rpc/review.go:175 | each listed issue converts, because every stored issue's file exists |
| RpcService.LinkKept | pkg/rpc/review.go:244-278 | an update that keeps status and file keeps every issue linked to its file |
| Format.DurationParts | frontend/src/utils/format.ts:38-44 | under a minute, "<s>s"; otherwise "<m>m <r>s" with r < 60 and 60m + r the whole seconds |
| Format.DurationRoundTrip | frontend/src/utils/format.ts:38-44 | the text of a non-negative duration reads back as its whole seconds |
| Format.ShortHash | frontend/src/utils/format.ts:50-52 | a prefix of the hash, 7 characters long or the whole hash when shorter |
| Format.ShortHashIdempotent | frontend/src/utils/format.ts:50-52 | shortening twice is shortening once |
| Format.LabelIsInitial | frontend/src/utils/format.ts:54-70 | the label is the upper-cased first letter, empty for an empty type |
| Format.FullNameCapitalises | frontend/src/utils/format.ts:61-74 | a known type is capitalised; any other type is returned as is; the label of the full name is the label |
| Format.CompareSeverityOrder | frontend/src/utils/format.ts:76-85 | antisymmetric and transitive; critical < high < medium < low < any unknown; all unknowns tie |
| Format.BuildVcsMrURL | frontend/src/utils/format.ts:87-92 | the link starts with the repository URL |
| Format.BuildVcsCommitURL | frontend/src/utils/format.ts:94-99 | the link starts with the repository URL |
| Format.VcsLinkPaths | frontend/src/utils/format.ts:87-99 | a link starts with the repository URL and ends with the id or hash; between them is "/pull/" or "/commit/" on GitHub, "/-/merge_requests/" or "/-/commit/" elsewhere |
| Format.BuildVcsFileURL | frontend/src/utils/format.ts:101-117 | the link starts with the blob URL of the file |
| Format.PartsOfRange | frontend/src/utils/format.ts:109-111 | "a-b" and "a-b-c" both split into start a and end b |
| Format.FileURLRange | frontend/src/utils/format.ts:101-117 | a "start-end" range of dash-free parts gets "#Lstart-Lend" on GitHub and "#Lstart-end" elsewhere |
| Format.FileURLSingle | frontend/src/utils/format.ts:101-117 | a single dash-free line gets "#Lline" on either host |
| Format.FileAnchors | frontend/src/utils/format.ts:101-117 | a range gets "#La-Lb" on GitHub and "#La-b" elsewhere; one line gets "#La" |
| Format.FileURLIgnoresTail | frontend/src/utils/format.ts:109-117 | anything after the second '-' of the lines is ignored |
| UseFormat.RankAgrees | frontend/src/composables/useFormat.ts:84-86 | the composable's severity table ranks as the utility does |
| UseFormat.LabelAgrees | frontend/src/composables/useFormat.ts:76-78 | the label table with its upper-cased first-letter fallback gives the utility's label for every review type |
| UseFormat.FullNameAgrees | frontend/src/composables/useFormat.ts:80-82 | the full-name table with its identity fallback gives the utility's full name for every review type |
| UseFormat.LinksAgree | frontend/src/composables/useFormat.ts:88-118 | the three link builders agree with the utility's |
| UseFormat.UseFormatAgrees | frontend/src/composables/useFormat.ts:60-133 | every returned helper agrees with its namesake in the utility module on every input |
| TaskLink.ReplaceAll | frontend/src/composables/useTaskLink.ts:2 | every output character comes from the replacement or is a kept non-target character; no target means no change |
| TaskLink.EscapeHtmlIsMap | frontend/src/composables/useTaskLink.ts:1-3 | the chain of four replacements ('&' first) escapes each character independently |
| TaskLink.NoMarkupCharacters | frontend/src/composables/useTaskLink.ts:1-3 | the escaped text has no '<', '>' or '"' |
| TaskLink.PlainTextUnchanged | frontend/src/composables/useTaskLink.ts:1-3 | text without the four special characters is unchanged |
| TaskLink.EscapeAmpersand | frontend/src/composables/useTaskLink.ts:2 | "&" becomes "&amp;" |
| TaskLink.EscapeIdempotentIff | frontend/src/composables/useTaskLink.ts:1-3 | escaping twice equals escaping once iff the text has none of the four special characters |
| TaskLink.SingleQuoteKept | frontend/src/composables/useTaskLink.ts:2 | the single quote is not escaped |
| TaskLink.AmpersandsBeginEntities | frontend/src/composables/useTaskLink.ts:1-3 | every '&' of the output begins one of the four entities |
| TaskLink.UnescapeEscape | frontend/src/composables/useTaskLink.ts:1-3 | decoding the four entities gives back the original text |
| TaskLink.EscapeInjective | frontend/src/composables/useTaskLink.ts:1-3 | distinct texts escape to distinct HTML |
| TaskLink.StripTrailingSlashes | frontend/src/composables/useTaskLink.ts:11 | a prefix that does not end in '/', and everything cut off is '/' |
| TaskLink.StripUnique | frontend/src/composables/useTaskLink.ts:11 | those three properties determine the stripped URL |
| TaskLink.StripIdempotent | frontend/src/composables/useTaskLink.ts:11 | stripping twice is stripping once |
| TaskLink.GitHubSurvivesStrip | frontend/src/composables/useTaskLink.ts:5-12 | stripping does not change whether the URL is GitHub's |
| TaskLink.BuildTaskURL | frontend/src/composables/useTaskLink.ts:10-16 | the link starts with the stripped tracker URL |
| TaskLink.TaskURLPath | frontend/src/composables/useTaskLink.ts:10-16 | the link starts with the stripped base and ends with the task id, with "/issues/" (GitHub) or "/issue/" between, so exactly one '/' at the join |
| TaskLink.TaskURLSlashInsensitive | frontend/src/composables/useTaskLink.ts:10-16 | a trailing '/' on the tracker URL does not change the link |
| TaskLink.LinkifyEarly | frontend/src/composables/useTaskLink.ts:27-28 | the early return happens iff the tracker or the text is missing or empty; it returns the escaped text (empty for no text) |
| TaskLink.NoTrackerOnlyEscapes | frontend/src/composables/useTaskLink.ts:27-28 | without a tracker the result decodes back to the text |
| RpcClient.Field | frontend/src/api/HttpRpcClient.ts:45-71 | a field is present iff the value is an object that has it |
| RpcClient.ValidResponseMeaning | frontend/src/api/HttpRpcClient.ts:45-71 | valid iff an object with jsonrpc "2.0", an id that is a string, number or null, a result or an error, and an error that is an object when present |
| RpcClient.ConformingIsValid | frontend/src/api/HttpRpcClient.ts:45-71 | every response of the form section 5 of the JSON-RPC 2.0 specification requires passes |
| RpcClient.ValidatorIsLenient | frontend/src/api/HttpRpcClient.ts:58-71 | a response carrying both result and error passes although it does not conform; a null result passes |
| RpcClient.ValidatorRejects | frontend/src/api/HttpRpcClient.ts:45-68 | rejects non-objects, arrays, a wrong or missing version, a missing id and a null error |
| RpcClient.GroupBy | frontend/src/api/HttpRpcClient.ts:8-16 | the keys are exactly the keys that occur; each bucket is the items with that key, in order |
| RpcClient.BucketSizesSum | frontend/src/api/HttpRpcClient.ts:8-16 | the bucket sizes add up to the number of items: nothing lost or duplicated |
| RpcClient.HttpRpcClient.constructor | frontend/src/api/HttpRpcClient.ts:85 | the counter starts at 0 with no id handed out |
| RpcClient.HttpRpcClient.GenerateId | frontend/src/api/HttpRpcClient.ts:410-414 | returns the counter plus one, which is also the new counter, and is fresh |
| RpcClient.HttpRpcClient.CreateRpcRequest | frontend/src/api/HttpRpcClient.ts:416-423 | a "2.0" request with the method, the params and a fresh id |
| RpcClient.HttpRpcClient.CreateRpcNotify | frontend/src/api/HttpRpcClient.ts:426-432 | a notification (no id) with the method and params; the counter is untouched |
| RpcClient.IssuedIdsDistinct | frontend/src/api/HttpRpcClient.ts:410-414 | the ids handed out are strictly increasing, so never reused |

## Left out

**Outside the modelled core**
- The project directory (pkg/reviewer/project.go, pkg/db/project.go) is a fixed sequence of projects given to the RPC service. Project storage, prompts (pkg/reviewer/prompt.go), Slack and task-tracker storage are not part of this model.
- pkg/rest/rest.go (the HTTP upload handler) is not part of this model. It maps every `CreateReview` error to HTTP 500, even the duplicate-type error that the design describes as a 400.

**Storage and side effects**
- SQL is modelled as three in-memory tables, as summarised in "How the model is organised". The generated search `Apply` code and the status constants are not part of the sources: each given search field is taken to be an equality condition, `StatusEnabled` is 1 and `StatusDeleted` is 3.
- The hand-written SQL of `FillLastVersions` and `ProjectsStats` is modelled by what it computes (`Queries.LastVersionResults`, `Queries.ProjectStatsRows`). Result-row order is not modelled.
- The foreign keys issue → file → review are the invariant `RpcService.FilesLinked` on the service rather than database constraints.
- The clock is a `now` parameter. The column default `now()` is the insert time of each row.
- Storage failures of inserts are a `failAt` parameter naming the failing insert. Reads never fail except `ErrMultiRows`; connection, context and SQL errors of reads are not modelled.
- The advisory lock and the transaction wrapper of `runInLock` are modelled only by their effect: a failed transaction restores the tables (`Repository.Database.Rollback`). Concurrency is not modelled.
- Logging and the RPC error wrapping beyond the error kind (not found, bad request, internal) are not modelled.

**Methods with weaker or specialised contracts**
- RpcService.ReviewService.GetByID: the internal-error path is not modelled. With unique ids (kept by the store's invariant) the lookup cannot return `ErrMultiRows`, so that branch is unreachable.
- RpcService.ReviewService.CheckIssue: the internal-error path is not modelled, for the same reason as `GetByID`: with unique issue ids the lookup cannot return `ErrMultiRows`. `Feedback` and `SetComment` inherit this, so their only errors are bad request and not found.
- Manager.PrepareReview: on a duplicate review type the model returns the input review unchanged. The Go code has by then already updated the review's header and the files before the duplicate in place. Every caller discards the review on that error, so nothing observable differs.
- RpcModel.NewIssue: requires the issue's joined file. The Go code dereferences it and would panic without one.
- Collection.MapP: requires every conversion to succeed. The generated converters never return nil for a non-nil element.
- ReviewerModel.CalcIssueStats: models the counters as unbounded integers (Go `int` is 64-bit, which real review sizes cannot overflow).

**Frontend**
- `timeAgo`, `formatDate`, `formatDateTime` and `formatCost` depend on the clock, `Intl` and floating point, and are not modelled.
- `getTaskPattern` and the regular-expression branch of `linkifyTaskIds` are not modelled. TaskLink.LinkifyEarly returns `None` when that branch would run.
- JavaScript numbers are integers in the model. `Math.floor(ms / 1000)` of a non-negative duration is Dafny's `/`.
- `toUpperCase` is modelled for ASCII letters only.
- Lookups of prototype keys such as "constructor" in the tables are not modelled.
- JSON values are a small datatype with integer numbers. The order of object keys is not modelled.
- The HTTP transport of the RPC client (fetch, batching, token refresh and error classes) is not modelled. `groupBy` is modelled for string keys.
- `CostUsd` is only copied.

## Where the code and the design differ

- The comment limit of `SetComment` is `len(*comment) > 255`, which counts UTF-8 bytes, not characters. The model follows the code (`Strings.Utf8Len`).
- The review's traffic light is computed from the summed statistics, so it can be more severe than every file's light (ReviewerModel.SummedLightCanExceedParts). It is never less severe (Manager.ReviewLightDominatesFiles).
- The response validator accepts a response that carries both `result` and `error`, which section 5 of the JSON-RPC 2.0 specification forbids (RpcClient.ValidatorIsLenient).
