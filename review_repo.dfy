/** The review repository (pkg/db/review.go) over an in-memory store.
    `ReviewRepo` is the value the Go code copies around (connection, base filters per
    table, default sorts, joins); reads are functions of a snapshot of the three tables;
    inserts, updates and soft deletes are methods of the `Database` object that holds
    the tables and their id sequences. */
module Repository {
  import opened Common
  import opened Sorting
  import opened DbModel

  datatype TableName = IssueTable | ReviewFileTable | ReviewTable

  /** Base filters on `statusId`: `StatusFilter` hides deleted rows,
      `StatusEnabledFilter` keeps enabled rows only. */
  datatype BaseFilter = StatusFilter | StatusEnabledFilter

  predicate FilterHolds(f: BaseFilter, statusId: int)
  {
    match f
    case StatusFilter => statusId != StatusDeleted
    case StatusEnabledFilter => statusId == StatusEnabled
  }

  predicate PassesAll(fs: seq<BaseFilter>, statusId: int)
  {
    forall k :: 0 <= k < |fs| ==> FilterHolds(fs[k], statusId)
  }

  datatype Direction = Asc | Desc
  datatype SortColumn = ByCreatedAt | ById
  datatype SortField = SortField(column: SortColumn, direction: Direction)

  const CreatedAtDesc := SortField(ByCreatedAt, Desc)
  const IdAsc := SortField(ById, Asc)

  /** The connection a repository runs its statements on. */
  datatype Conn = BaseConn | TxConn(tx: nat)

  /** `LIMIT`; `None` is `PagerNoLimit`. */
  datatype Pager = Pager(limit: Option<nat>)

  const PagerNoLimit := Pager(None)
  const PagerTwo := Pager(Some(2))

  /** `db.NewPager(0, count)`: the first page of `count` rows. */
  function NewPager(count: nat): (p: Pager)
    ensures p.limit == Some(count)
  {
    Pager(Some(count))
  }

  function Page<T>(rows: seq<T>, p: Pager): (r: seq<T>)
    ensures p.limit.None? ==> r == rows
    ensures p.limit.Some? ==> |r| <= p.limit.value
    ensures |r| <= |rows| && r == rows[..|r|]
  {
    if p.limit.None? then rows else Take(rows, p.limit.value)
  }

  datatype ReviewRepo = ReviewRepo(
    conn: Conn,
    filters: map<TableName, seq<BaseFilter>>,
    sort: map<TableName, seq<SortField>>,
    join: map<TableName, seq<string>>)

  /** `NewReviewRepo`: deleted rows hidden in every table, newest first by default. */
  function NewReviewRepo(conn: Conn): (rr: ReviewRepo)
    ensures rr.conn == conn
    ensures FiltersOf(rr, IssueTable) == FiltersOf(rr, ReviewFileTable) == FiltersOf(rr, ReviewTable) == [StatusFilter]
    ensures SortOf(rr, IssueTable) == SortOf(rr, ReviewFileTable) == SortOf(rr, ReviewTable) == [CreatedAtDesc]
  {
    ReviewRepo(
      conn,
      map[IssueTable := [StatusFilter], ReviewFileTable := [StatusFilter], ReviewTable := [StatusFilter]],
      map[IssueTable := [CreatedAtDesc], ReviewFileTable := [CreatedAtDesc], ReviewTable := [CreatedAtDesc]],
      map[IssueTable := ["t.*", "ReviewFile", "Review", "User"],
          ReviewFileTable := ["t.*", "Review"],
          ReviewTable := ["t.*", "Project", "Prompt"]])
  }

  /** The base filters of a table; a table missing from the map has none. */
  function FiltersOf(rr: ReviewRepo, t: TableName): seq<BaseFilter>
  {
    if t in rr.filters then rr.filters[t] else []
  }

  /** `Default*Sort`: the table's sort fields (none when the table has no entry). */
  function SortOf(rr: ReviewRepo, t: TableName): seq<SortField>
  {
    if t in rr.sort then rr.sort[t] else []
  }

  /** `WithTransaction`: the same repository on the transaction's connection. */
  function WithTransaction(rr: ReviewRepo, tx: nat): (r: ReviewRepo)
    ensures r.conn == TxConn(tx)
    ensures r.filters == rr.filters && r.sort == rr.sort && r.join == rr.join
  {
    rr.(conn := TxConn(tx))
  }

  /** `WithEnabledOnly`: a fresh filter map in which every table's list is a copy of the
      original list followed by `StatusEnabledFilter`. */
  method WithEnabledOnly(rr: ReviewRepo) returns (r: ReviewRepo)
    ensures r.conn == rr.conn && r.sort == rr.sort && r.join == rr.join
    ensures r.filters.Keys == rr.filters.Keys
    ensures forall t :: t in r.filters ==> r.filters[t] == rr.filters[t] + [StatusEnabledFilter]
  {
    var f: map<TableName, seq<BaseFilter>> := map[];
    var todo := rr.filters.Keys;
    while todo != {}
      invariant todo <= rr.filters.Keys
      invariant f.Keys == rr.filters.Keys - todo
      invariant forall t :: t in f ==> f[t] == rr.filters[t] + [StatusEnabledFilter]
      decreases |todo|
    {
      var t :| t in todo;
      var copied := rr.filters[t];
      f := f[t := copied + [StatusEnabledFilter]];
      todo := todo - {t};
    }
    r := rr.(filters := f);
  }

  /** After `WithEnabledOnly` a row passes a table's base filters exactly when it passed
      them before and is enabled. */
  lemma {:induction false} EnabledOnlyPasses(rr: ReviewRepo, r: ReviewRepo, t: TableName, statusId: int)
    requires t in rr.filters
    requires r.filters.Keys == rr.filters.Keys
    requires forall u :: u in r.filters ==> r.filters[u] == rr.filters[u] + [StatusEnabledFilter]
    ensures PassesAll(FiltersOf(r, t), statusId) <==> PassesAll(FiltersOf(rr, t), statusId) && statusId == StatusEnabled
  {
    var fs := FiltersOf(rr, t);
    assert FiltersOf(r, t) == fs + [StatusEnabledFilter];
    if PassesAll(fs, statusId) && statusId == StatusEnabled {
      forall k | 0 <= k < |fs + [StatusEnabledFilter]|
        ensures FilterHolds((fs + [StatusEnabledFilter])[k], statusId)
      {
        if k < |fs| {
          assert (fs + [StatusEnabledFilter])[k] == fs[k];
        }
      }
    }
    if PassesAll(fs + [StatusEnabledFilter], statusId) {
      assert FilterHolds((fs + [StatusEnabledFilter])[|fs|], statusId);
      forall k | 0 <= k < |fs| ensures FilterHolds(fs[k], statusId) {
        assert (fs + [StatusEnabledFilter])[k] == fs[k];
      }
    }
  }

  // ---------------------------------------------------------------------------------
  // Ordering.

  function ReviewKey(f: SortField): ReviewRow -> int
  {
    (r: ReviewRow) => Signed(f.direction, if f.column == ById then r.id else r.createdAt)
  }

  function ReviewFileKey(f: SortField): ReviewFileRow -> int
  {
    (r: ReviewFileRow) => Signed(f.direction, if f.column == ById then r.id else r.createdAt)
  }

  function IssueKey(f: SortField): JoinedIssue -> int
  {
    (j: JoinedIssue) => Signed(f.direction, if f.column == ById then j.row.id else j.row.createdAt)
  }

  /** Ascending order on the negated value is descending order on the value. */
  function Signed(d: Direction, v: int): int
  {
    if d == Asc then v else -v
  }

  /** `ORDER BY f0, f1, ...`: stable sorts from the last field to the first, so that the
      first field decides and later fields break its ties. No field keeps table order. */
  function ApplySort<T>(rows: seq<T>, fields: seq<SortField>, key: SortField -> (T -> int)): (r: seq<T>)
    ensures multiset(r) == multiset(rows)
    ensures |fields| > 0 ==> SortedBy(r, key(fields[0]))
    decreases |fields|
  {
    if |fields| == 0 then rows
    else
      var inner := ApplySort(rows, fields[1..], key);
      SortByPermutes(inner, key(fields[0]));
      SortBySorted(inner, key(fields[0]));
      SortBy(inner, key(fields[0]))
  }

  // ---------------------------------------------------------------------------------
  // Reads over a snapshot of the tables.

  datatype Tables = Tables(reviews: seq<ReviewRow>, files: seq<ReviewFileRow>, issues: seq<IssueRow>)

  predicate ReviewSelected(rr: ReviewRepo, search: Option<ReviewSearch>, r: ReviewRow)
  {
    PassesAll(FiltersOf(rr, ReviewTable), r.statusId) && (search.None? || ReviewMatches(r, search.value))
  }

  predicate ReviewFileSelected(rr: ReviewRepo, search: Option<ReviewFileSearch>, f: ReviewFileRow)
  {
    PassesAll(FiltersOf(rr, ReviewFileTable), f.statusId) && (search.None? || ReviewFileMatches(f, search.value))
  }

  predicate IssueSelected(rr: ReviewRepo, search: Option<IssueSearch>, j: JoinedIssue)
  {
    PassesAll(FiltersOf(rr, IssueTable), j.row.statusId) && (search.None? || IssueMatches(j, search.value))
  }

  function ReviewRowId(r: ReviewRow): int { r.id }

  function ReviewFileRowId(f: ReviewFileRow): int { f.id }

  function IssueRowId(i: IssueRow): int { i.id }

  /** The first row with the given id, as a `LEFT JOIN` on the primary key finds it. */
  function FindById<T>(rows: seq<T>, id: int, idOf: T -> int): (r: Option<T>)
    ensures r.Some? ==> r.value in rows && idOf(r.value) == id
    ensures r.None? ==> forall k :: 0 <= k < |rows| ==> idOf(rows[k]) != id
  {
    if |rows| == 0 then None else if idOf(rows[0]) == id then Some(rows[0]) else FindById(rows[1..], id, idOf)
  }

  /** The review an issue's `reviewId` joins to. */
  function FindReview(rows: seq<ReviewRow>, id: int): (r: Option<ReviewRow>)
    ensures r.Some? ==> r.value in rows && r.value.id == id
    ensures r.None? ==> forall k :: 0 <= k < |rows| ==> rows[k].id != id
  {
    FindById(rows, id, ReviewRowId)
  }

  /** The review file an issue's `reviewFileId` joins to. */
  function FindReviewFile(rows: seq<ReviewFileRow>, id: int): (r: Option<ReviewFileRow>)
    ensures r.Some? ==> r.value in rows && r.value.id == id
    ensures r.None? ==> forall k :: 0 <= k < |rows| ==> rows[k].id != id
  {
    FindById(rows, id, ReviewFileRowId)
  }

  /** An issue with its review file and review joined (no status condition on the join). */
  function JoinIssue(t: Tables, row: IssueRow): JoinedIssue
  {
    JoinedIssue(row, FindReviewFile(t.files, row.reviewFileId), FindReview(t.reviews, row.reviewId))
  }

  function JoinAll(t: Tables, rows: seq<IssueRow>): (r: seq<JoinedIssue>)
    ensures |r| == |rows|
    ensures forall k :: 0 <= k < |rows| ==> r[k] == JoinIssue(t, rows[k])
  {
    if |rows| == 0 then [] else [JoinIssue(t, rows[0])] + JoinAll(t, rows[1..])
  }

  lemma {:induction false} JoinAllRows(t: Tables, rows: seq<IssueRow>)
    ensures forall j :: j in JoinAll(t, rows) ==> j.row in rows && j == JoinIssue(t, j.row)
  {
    forall j | j in JoinAll(t, rows) ensures j.row in rows && j == JoinIssue(t, j.row) {
      var m :| 0 <= m < |rows| && JoinAll(t, rows)[m] == j;
    }
  }

  /** Without the `FullIssue` columns an issue comes back with no related rows. */
  function Bare(j: JoinedIssue): JoinedIssue
  {
    JoinedIssue(j.row, None, None)
  }

  function BareAll(js: seq<JoinedIssue>): (r: seq<JoinedIssue>)
    ensures |r| == |js|
    ensures forall k :: 0 <= k < |js| ==> r[k] == Bare(js[k])
  {
    if |js| == 0 then [] else [Bare(js[0])] + BareAll(js[1..])
  }

  function SelectReviews(rr: ReviewRepo, t: Tables, search: Option<ReviewSearch>): seq<ReviewRow>
  {
    Filter(t.reviews, (r: ReviewRow) => ReviewSelected(rr, search, r))
  }

  function SelectReviewFiles(rr: ReviewRepo, t: Tables, search: Option<ReviewFileSearch>): seq<ReviewFileRow>
  {
    Filter(t.files, (f: ReviewFileRow) => ReviewFileSelected(rr, search, f))
  }

  function SelectIssues(rr: ReviewRepo, t: Tables, search: Option<IssueSearch>): seq<JoinedIssue>
  {
    Filter(JoinAll(t, t.issues), (j: JoinedIssue) => IssueSelected(rr, search, j))
  }

  /** A page of an ordered selection holds selected rows of the table, in order. */
  lemma {:induction false} PagedSelection<T>(rows: seq<T>, p: T -> bool, sort: seq<SortField>, key: SortField -> (T -> int), pager: Pager)
    ensures var r := Page(ApplySort(Filter(rows, p), sort, key), pager);
      (forall k :: 0 <= k < |r| ==> r[k] in rows && p(r[k])) &&
      (|sort| > 0 ==> SortedBy(r, key(sort[0])))
  {
    var sorted := ApplySort(Filter(rows, p), sort, key);
    var r := Page(sorted, pager);
    forall k | 0 <= k < |r| ensures r[k] in rows && p(r[k]) {
      assert r[k] == sorted[k];
      assert sorted[k] in multiset(sorted);
      FilterMembers(rows, p, r[k]);
    }
    if |sort| > 0 {
      TakeSorted(sorted, |r|, key(sort[0]));
    }
  }

  /** `ReviewsByFilters`: the selected rows, ordered, then paged. */
  function ReviewsByFilters(rr: ReviewRepo, t: Tables, search: Option<ReviewSearch>, pager: Pager, sort: seq<SortField>): (rs: seq<ReviewRow>)
    ensures pager.limit.Some? ==> |rs| <= pager.limit.value
    ensures forall k :: 0 <= k < |rs| ==> rs[k] in t.reviews && ReviewSelected(rr, search, rs[k])
    ensures |sort| > 0 ==> SortedBy(rs, ReviewKey(sort[0]))
  {
    PagedSelection(t.reviews, (r: ReviewRow) => ReviewSelected(rr, search, r), sort, ReviewKey, pager);
    Page(ApplySort(SelectReviews(rr, t, search), sort, ReviewKey), pager)
  }

  function ReviewFilesByFilters(rr: ReviewRepo, t: Tables, search: Option<ReviewFileSearch>, pager: Pager, sort: seq<SortField>): (fs: seq<ReviewFileRow>)
    ensures pager.limit.Some? ==> |fs| <= pager.limit.value
    ensures forall k :: 0 <= k < |fs| ==> fs[k] in t.files && ReviewFileSelected(rr, search, fs[k])
  {
    PagedSelection(t.files, (f: ReviewFileRow) => ReviewFileSelected(rr, search, f), sort, ReviewFileKey, pager);
    Page(ApplySort(SelectReviewFiles(rr, t, search), sort, ReviewFileKey), pager)
  }

  /** `IssuesByFilters`; `full` is the `FullIssue` option that loads the related rows. */
  function IssuesByFilters(rr: ReviewRepo, t: Tables, search: Option<IssueSearch>, pager: Pager, full: bool, sort: seq<SortField>): (js: seq<JoinedIssue>)
    ensures pager.limit.Some? ==> |js| <= pager.limit.value
    ensures forall k :: 0 <= k < |js| ==> js[k].row in t.issues
    ensures full ==> forall k :: 0 <= k < |js| ==> IssueSelected(rr, search, js[k])
    ensures full ==> forall k :: 0 <= k < |js| ==> js[k] == JoinIssue(t, js[k].row)
    ensures |sort| > 0 ==> SortedBy(js, IssueKey(sort[0]))
  {
    var all := JoinAll(t, t.issues);
    PagedSelection(all, (j: JoinedIssue) => IssueSelected(rr, search, j), sort, IssueKey, pager);
    var paged := Page(ApplySort(SelectIssues(rr, t, search), sort, IssueKey), pager);
    JoinAllRows(t, t.issues);
    if full then paged
    else
      BareAllKeeps(paged, sort);
      BareAll(paged)
  }

  /** Dropping the joins keeps every row, so it keeps the order of a sorted page. */
  lemma {:induction false} BareAllKeeps(js: seq<JoinedIssue>, sort: seq<SortField>)
    requires |sort| > 0 ==> SortedBy(js, IssueKey(sort[0]))
    ensures forall k :: 0 <= k < |js| ==> BareAll(js)[k].row == js[k].row
    ensures |sort| > 0 ==> SortedBy(BareAll(js), IssueKey(sort[0]))
  {
    var r := BareAll(js);
    if |sort| > 0 {
      forall i, j | 0 <= i < j < |r| ensures IssueKey(sort[0])(r[i]) <= IssueKey(sort[0])(r[j]) {
        assert IssueKey(sort[0])(js[i]) <= IssueKey(sort[0])(js[j]);
      }
    }
  }

  /** `One*`: `LIMIT 2` into a single row; two rows are `ErrMultiRows`, none is absent. */
  function One<T>(rows: seq<T>): (r: Result<Option<T>, DbError>)
    ensures r == Err(ErrMultiRows) <==> |rows| >= 2
    ensures r == Ok(None) <==> |rows| == 0
    ensures r.Ok? && r.value.Some? ==> rows == [r.value.value]
  {
    if |rows| >= 2 then Err(ErrMultiRows)
    else if |rows| == 0 then Ok(None)
    else Ok(Some(rows[0]))
  }

  function OneReview(rr: ReviewRepo, t: Tables, search: Option<ReviewSearch>): Result<Option<ReviewRow>, DbError>
  {
    One(SelectReviews(rr, t, search))
  }

  function OneReviewFile(rr: ReviewRepo, t: Tables, search: Option<ReviewFileSearch>): Result<Option<ReviewFileRow>, DbError>
  {
    One(SelectReviewFiles(rr, t, search))
  }

  /** `OneIssue` without options: the issue row alone. */
  function OneIssue(rr: ReviewRepo, t: Tables, search: Option<IssueSearch>): Result<Option<JoinedIssue>, DbError>
  {
    match One(SelectIssues(rr, t, search))
    case Err(e) => Err(e)
    case Ok(None) => Ok(None)
    case Ok(Some(j)) => Ok(Some(Bare(j)))
  }

  function ReviewByID(rr: ReviewRepo, t: Tables, id: int): Result<Option<ReviewRow>, DbError>
  {
    OneReview(rr, t, Some(ReviewSearch(Some(id), None, None, None, None)))
  }

  function ReviewFileByID(rr: ReviewRepo, t: Tables, id: int): Result<Option<ReviewFileRow>, DbError>
  {
    OneReviewFile(rr, t, Some(ReviewFileSearch(Some(id), None, None, None)))
  }

  function IssueByID(rr: ReviewRepo, t: Tables, id: int): Result<Option<JoinedIssue>, DbError>
  {
    OneIssue(rr, t, Some(IssueSearch(Some(id), None, None, None, None, None, None, None)))
  }

  function CountReviews(rr: ReviewRepo, t: Tables, search: Option<ReviewSearch>): nat
  {
    |SelectReviews(rr, t, search)|
  }

  function CountReviewFiles(rr: ReviewRepo, t: Tables, search: Option<ReviewFileSearch>): nat
  {
    |SelectReviewFiles(rr, t, search)|
  }

  function CountIssues(rr: ReviewRepo, t: Tables, search: Option<IssueSearch>): nat
  {
    |SelectIssues(rr, t, search)|
  }

  /** `Count*` counts what the list query returns without a page limit, whatever the order. */
  lemma {:induction false} CountIsUnpagedLength(rr: ReviewRepo, t: Tables, rs: Option<ReviewSearch>, fs: Option<ReviewFileSearch>,
                             iss: Option<IssueSearch>, sort: seq<SortField>, full: bool)
    ensures CountReviews(rr, t, rs) == |ReviewsByFilters(rr, t, rs, PagerNoLimit, sort)|
    ensures CountReviewFiles(rr, t, fs) == |ReviewFilesByFilters(rr, t, fs, PagerNoLimit, sort)|
    ensures CountIssues(rr, t, iss) == |IssuesByFilters(rr, t, iss, PagerNoLimit, full, sort)|
  {
    var a := SelectReviews(rr, t, rs);
    assert |multiset(ApplySort(a, sort, ReviewKey))| == |multiset(a)|;
    var b := SelectReviewFiles(rr, t, fs);
    assert |multiset(ApplySort(b, sort, ReviewFileKey))| == |multiset(b)|;
    var c := SelectIssues(rr, t, iss);
    assert |multiset(ApplySort(c, sort, IssueKey))| == |multiset(c)|;
  }

  predicate UniqueReviewIds(rows: seq<ReviewRow>)
  {
    forall i, j :: 0 <= i < j < |rows| ==> rows[i].id != rows[j].id
  }

  predicate UniqueReviewFileIds(rows: seq<ReviewFileRow>)
  {
    forall i, j :: 0 <= i < j < |rows| ==> rows[i].id != rows[j].id
  }

  predicate UniqueIssueIds(rows: seq<IssueRow>)
  {
    forall i, j :: 0 <= i < j < |rows| ==> rows[i].id != rows[j].id
  }

  /** Selecting by a unique key keeps at most the row with that key. */
  lemma {:induction false} SelectByKey<T>(rows: seq<T>, key: T -> int, p: T -> bool, id: int)
    requires forall i, j :: 0 <= i < j < |rows| ==> key(rows[i]) != key(rows[j])
    requires forall r :: p(r) ==> key(r) == id
    ensures |Filter(rows, p)| <= 1
    ensures |Filter(rows, p)| == 1 <==> exists k :: 0 <= k < |rows| && p(rows[k])
  {
    if |rows| > 0 {
      SelectByKey(rows[1..], key, p, id);
      if p(rows[0]) {
        forall k | 0 <= k < |rows[1..]| ensures !p(rows[1..][k]) {
          assert rows[1..][k] == rows[k + 1];
        }
        assert |Filter(rows[1..], p)| == 0;
      }
      if exists k :: 0 <= k < |rows| && p(rows[k]) {
        var k :| 0 <= k < |rows| && p(rows[k]);
        if k > 0 {
          assert rows[1..][k - 1] == rows[k];
        }
      }
      if exists k :: 0 <= k < |rows[1..]| && p(rows[1..][k]) {
        var k :| 0 <= k < |rows[1..]| && p(rows[1..][k]);
        assert rows[k + 1] == rows[1..][k];
      }
    }
  }

  /** With unique ids, `ReviewByID` never reports `ErrMultiRows`: it finds the row with
      that id when the base filters let it through, and reports absence otherwise. */
  lemma {:induction false} ReviewByIDFinds(rr: ReviewRepo, t: Tables, id: int)
    requires UniqueReviewIds(t.reviews)
    ensures ReviewByID(rr, t, id).Ok?
    ensures ReviewByID(rr, t, id).value.Some? <==>
      exists k :: 0 <= k < |t.reviews| && t.reviews[k].id == id && PassesAll(FiltersOf(rr, ReviewTable), t.reviews[k].statusId)
    ensures ReviewByID(rr, t, id).value.Some? ==> ReviewByID(rr, t, id).value.value.id == id
  {
    var search := Some(ReviewSearch(Some(id), None, None, None, None));
    var p := (r: ReviewRow) => ReviewSelected(rr, search, r);
    SelectByKey(t.reviews, (r: ReviewRow) => r.id, p, id);
  }

  /** With unique ids, `IssueByID` never reports `ErrMultiRows` either. */
  lemma {:induction false} IssueByIDFinds(rr: ReviewRepo, t: Tables, id: int)
    requires UniqueIssueIds(t.issues)
    ensures IssueByID(rr, t, id).Ok?
  {
    var search := Some(IssueSearch(Some(id), None, None, None, None, None, None, None));
    var p := (j: JoinedIssue) => IssueSelected(rr, search, j);
    var all := JoinAll(t, t.issues);
    SelectByKey(all, (j: JoinedIssue) => j.row.id, p, id);
  }

  // ---------------------------------------------------------------------------------
  // Column lists of `UPDATE` statements.

  datatype ReviewColumn = RProjectId | RPromptId | RExternalId | RTitle | RDescription | RTrafficLight
    | RCommitHash | RSourceBranch | RTargetBranch | RAuthor | RDurationMs | RModelInfo | RStatusId

  datatype ReviewFileColumn = FReviewId | FReviewType | FContent | FSummary | FTrafficLight
    | FIsAccepted | FIssueStats | FStatusId

  datatype IssueColumn = IReviewId | IReviewFileId | ILocalId | IIssueType | ITitle | ISeverity
    | IDescription | IContent | IFile | ILines | IIsFalsePositive | IComment | IProcessedAt | IStatusId

  /** The stored row after `UPDATE ... SET <columns>`; `None` is "every column but the id and
      the creation time". */
  function MergeReview(cur: ReviewRow, upd: ReviewRow, cols: Option<set<ReviewColumn>>): (r: ReviewRow)
    ensures r.id == cur.id && r.createdAt == cur.createdAt
    ensures cols.None? ==> r == upd.(id := cur.id, createdAt := cur.createdAt)
  {
    if cols.None? then upd.(id := cur.id, createdAt := cur.createdAt)
    else WriteReviewColumns(cur, upd, cols.value)
  }

  /** The new value of a column that is written, the stored one otherwise. */
  function Pick<X>(written: bool, newValue: X, stored: X): X
  {
    if written then newValue else stored
  }

  /** `SET` of the named columns only; the id and the creation time are never written. */
  function WriteReviewColumns(cur: ReviewRow, upd: ReviewRow, cols: set<ReviewColumn>): (r: ReviewRow)
    ensures r.id == cur.id && r.createdAt == cur.createdAt
  {
    ReviewRow(
      cur.id,
      Pick(RProjectId in cols, upd.projectId, cur.projectId),
      Pick(RPromptId in cols, upd.promptId, cur.promptId),
      Pick(RExternalId in cols, upd.externalId, cur.externalId),
      Pick(RTitle in cols, upd.title, cur.title),
      Pick(RDescription in cols, upd.description, cur.description),
      Pick(RTrafficLight in cols, upd.trafficLight, cur.trafficLight),
      Pick(RCommitHash in cols, upd.commitHash, cur.commitHash),
      Pick(RSourceBranch in cols, upd.sourceBranch, cur.sourceBranch),
      Pick(RTargetBranch in cols, upd.targetBranch, cur.targetBranch),
      Pick(RAuthor in cols, upd.author, cur.author),
      cur.createdAt,
      Pick(RDurationMs in cols, upd.durationMs, cur.durationMs),
      Pick(RModelInfo in cols, upd.modelInfo, cur.modelInfo),
      Pick(RStatusId in cols, upd.statusId, cur.statusId))
  }

  function MergeReviewFile(cur: ReviewFileRow, upd: ReviewFileRow, cols: Option<set<ReviewFileColumn>>): (r: ReviewFileRow)
    ensures r.id == cur.id && r.createdAt == cur.createdAt
    ensures cols.None? ==> r == upd.(id := cur.id, createdAt := cur.createdAt)
  {
    if cols.None? then upd.(id := cur.id, createdAt := cur.createdAt)
    else WriteReviewFileColumns(cur, upd, cols.value)
  }

  /** `SET` of the named columns only; the id and the creation time are never written. */
  function WriteReviewFileColumns(cur: ReviewFileRow, upd: ReviewFileRow, cols: set<ReviewFileColumn>): (r: ReviewFileRow)
    ensures r.id == cur.id && r.createdAt == cur.createdAt
  {
    ReviewFileRow(
      cur.id,
      Pick(FReviewId in cols, upd.reviewId, cur.reviewId),
      Pick(FReviewType in cols, upd.reviewType, cur.reviewType),
      Pick(FContent in cols, upd.content, cur.content),
      Pick(FSummary in cols, upd.summary, cur.summary),
      Pick(FTrafficLight in cols, upd.trafficLight, cur.trafficLight),
      Pick(FIsAccepted in cols, upd.isAccepted, cur.isAccepted),
      Pick(FIssueStats in cols, upd.issueStats, cur.issueStats),
      cur.createdAt,
      Pick(FStatusId in cols, upd.statusId, cur.statusId))
  }

  function MergeIssue(cur: IssueRow, upd: IssueRow, cols: Option<set<IssueColumn>>): (r: IssueRow)
    ensures r.id == cur.id && r.createdAt == cur.createdAt
    ensures cols.None? ==> r == upd.(id := cur.id, createdAt := cur.createdAt)
  {
    if cols.None? then upd.(id := cur.id, createdAt := cur.createdAt)
    else WriteIssueColumns(cur, upd, cols.value)
  }

  /** `SET` of the named columns only; the id and the creation time are never written. */
  function WriteIssueColumns(cur: IssueRow, upd: IssueRow, cols: set<IssueColumn>): (r: IssueRow)
    ensures r.id == cur.id && r.createdAt == cur.createdAt
  {
    IssueRow(
      cur.id,
      Pick(IReviewId in cols, upd.reviewId, cur.reviewId),
      Pick(IReviewFileId in cols, upd.reviewFileId, cur.reviewFileId),
      Pick(ILocalId in cols, upd.localId, cur.localId),
      Pick(IIssueType in cols, upd.issueType, cur.issueType),
      Pick(ITitle in cols, upd.title, cur.title),
      Pick(ISeverity in cols, upd.severity, cur.severity),
      Pick(IDescription in cols, upd.description, cur.description),
      Pick(IContent in cols, upd.content, cur.content),
      Pick(IFile in cols, upd.file, cur.file),
      Pick(ILines in cols, upd.lines, cur.lines),
      Pick(IIsFalsePositive in cols, upd.isFalsePositive, cur.isFalsePositive),
      Pick(IComment in cols, upd.comment, cur.comment),
      Pick(IProcessedAt in cols, upd.processedAt, cur.processedAt),
      cur.createdAt,
      Pick(IStatusId in cols, upd.statusId, cur.statusId))
  }

  /** Naming columns writes those columns and leaves every other one as stored. */
  lemma {:induction false} IssueNamedColumns(cur: IssueRow, upd: IssueRow)
    ensures MergeIssue(cur, upd, Some({IComment})) == cur.(comment := upd.comment)
    ensures MergeIssue(cur, upd, Some({IIsFalsePositive, IProcessedAt})) ==
      cur.(isFalsePositive := upd.isFalsePositive, processedAt := upd.processedAt)
    ensures MergeIssue(cur, upd, Some({IStatusId})) == cur.(statusId := upd.statusId)
  {
  }

  lemma {:induction false} ReviewFileNamedColumns(f: ReviewFileRow, fu: ReviewFileRow)
    ensures MergeReviewFile(f, fu, Some({FContent})) == f.(content := fu.content)
    ensures MergeReviewFile(f, fu, Some({FStatusId})) == f.(statusId := fu.statusId)
  {
  }

  lemma {:induction false} ReviewNamedColumns(rv: ReviewRow, ru: ReviewRow)
    ensures MergeReview(rv, ru, Some({RStatusId})) == rv.(statusId := ru.statusId)
  {
  }

  /** The position of the row an `UPDATE ... WHERE id = ?` touches. */
  function IndexById<T>(rows: seq<T>, id: int, idOf: T -> int): (k: Option<nat>)
    ensures k.Some? ==> k.value < |rows| && idOf(rows[k.value]) == id
    ensures k.None? ==> forall i :: 0 <= i < |rows| ==> idOf(rows[i]) != id
  {
    if |rows| == 0 then None
    else if idOf(rows[0]) == id then Some(0)
    else match IndexById(rows[1..], id, idOf) case None => None case Some(k) => Some(k + 1)
  }

  /** The rows of each table carry distinct positive ids below the table's sequence. */
  ghost predicate TablesValid(t: Tables, nextReviewId: int, nextFileId: int, nextIssueId: int)
  {
    UniqueReviewIds(t.reviews) && UniqueReviewFileIds(t.files) && UniqueIssueIds(t.issues) &&
    (forall k :: 0 <= k < |t.reviews| ==> 0 < t.reviews[k].id < nextReviewId) &&
    (forall k :: 0 <= k < |t.files| ==> 0 < t.files[k].id < nextFileId) &&
    (forall k :: 0 <= k < |t.issues| ==> 0 < t.issues[k].id < nextIssueId)
  }

  /** The store: three tables and their id sequences. A failed insert changes nothing;
      the sequences are never rolled back. */
  class Database {
    var reviews: seq<ReviewRow>
    var files: seq<ReviewFileRow>
    var issues: seq<IssueRow>
    var nextReviewId: int
    var nextFileId: int
    var nextIssueId: int

    ghost predicate Valid()
      reads this
    {
      1 <= nextReviewId && 1 <= nextFileId && 1 <= nextIssueId &&
      TablesValid(Snapshot(), nextReviewId, nextFileId, nextIssueId)
    }

    function Snapshot(): Tables
      reads this
    {
      Tables(reviews, files, issues)
    }

    constructor ()
      ensures Valid()
      ensures reviews == [] && files == [] && issues == []
      ensures nextReviewId == 1 && nextFileId == 1 && nextIssueId == 1
    {
      reviews, files, issues := [], [], [];
      nextReviewId, nextFileId, nextIssueId := 1, 1, 1;
    }

    /** `AddReview` without options: the row gets the next id; `createdAt` is left to the
        column default, the transaction time `now`. The caller's value gets the id only. */
    method AddReview(r: ReviewRow, now: Time, fail: bool) returns (saved: ReviewRow, err: Option<DbError>)
      requires Valid()
      modifies this
      ensures Valid()
      ensures files == old(files) && issues == old(issues)
      ensures nextFileId == old(nextFileId) && nextIssueId == old(nextIssueId)
      ensures fail ==> err == Some(ErrStorage) && saved == r && reviews == old(reviews) && nextReviewId == old(nextReviewId)
      ensures !fail ==> (err.None? && saved == r.(id := old(nextReviewId)) &&
        reviews == old(reviews) + [saved.(createdAt := now)] && nextReviewId == old(nextReviewId) + 1)
    {
      if fail {
        return r, Some(ErrStorage);
      }
      saved := r.(id := nextReviewId);
      reviews := reviews + [saved.(createdAt := now)];
      nextReviewId := nextReviewId + 1;
      err := None;
    }

    method AddReviewFile(f: ReviewFileRow, now: Time, fail: bool) returns (saved: ReviewFileRow, err: Option<DbError>)
      requires Valid()
      modifies this
      ensures Valid()
      ensures reviews == old(reviews) && issues == old(issues)
      ensures nextReviewId == old(nextReviewId) && nextIssueId == old(nextIssueId)
      ensures fail ==> err == Some(ErrStorage) && saved == f && files == old(files) && nextFileId == old(nextFileId)
      ensures !fail ==> (err.None? && saved == f.(id := old(nextFileId)) &&
        files == old(files) + [saved.(createdAt := now)] && nextFileId == old(nextFileId) + 1)
    {
      if fail {
        return f, Some(ErrStorage);
      }
      saved := f.(id := nextFileId);
      files := files + [saved.(createdAt := now)];
      nextFileId := nextFileId + 1;
      err := None;
    }

    method AddIssue(i: IssueRow, now: Time, fail: bool) returns (saved: IssueRow, err: Option<DbError>)
      requires Valid()
      modifies this
      ensures Valid()
      ensures reviews == old(reviews) && files == old(files)
      ensures nextReviewId == old(nextReviewId) && nextFileId == old(nextFileId)
      ensures fail ==> err == Some(ErrStorage) && saved == i && issues == old(issues) && nextIssueId == old(nextIssueId)
      ensures !fail ==> (err.None? && saved == i.(id := old(nextIssueId)) &&
        issues == old(issues) + [saved.(createdAt := now)] && nextIssueId == old(nextIssueId) + 1)
    {
      if fail {
        return i, Some(ErrStorage);
      }
      saved := i.(id := nextIssueId);
      issues := issues + [saved.(createdAt := now)];
      nextIssueId := nextIssueId + 1;
      err := None;
    }

    /** `UpdateReview`: `WHERE id = ...` with no base filter, so a soft-deleted row is
        updated too; reports whether a row was affected. */
    method UpdateReview(upd: ReviewRow, cols: Option<set<ReviewColumn>>) returns (affected: bool)
      requires Valid()
      modifies this
      ensures Valid()
      ensures files == old(files) && issues == old(issues)
      ensures nextReviewId == old(nextReviewId) && nextFileId == old(nextFileId) && nextIssueId == old(nextIssueId)
      ensures affected <==> exists k :: 0 <= k < |old(reviews)| && old(reviews)[k].id == upd.id
      ensures |reviews| == |old(reviews)|
      ensures forall k :: 0 <= k < |reviews| ==>
        reviews[k] == if old(reviews)[k].id == upd.id then MergeReview(old(reviews)[k], upd, cols) else old(reviews)[k]
    {
      var k := IndexById(reviews, upd.id, ReviewRowId);
      if k.None? {
        return false;
      }
      reviews := reviews[k.value := MergeReview(reviews[k.value], upd, cols)];
      affected := true;
    }

    method UpdateReviewFile(upd: ReviewFileRow, cols: Option<set<ReviewFileColumn>>) returns (affected: bool)
      requires Valid()
      modifies this
      ensures Valid()
      ensures reviews == old(reviews) && issues == old(issues)
      ensures nextReviewId == old(nextReviewId) && nextFileId == old(nextFileId) && nextIssueId == old(nextIssueId)
      ensures affected <==> exists k :: 0 <= k < |old(files)| && old(files)[k].id == upd.id
      ensures |files| == |old(files)|
      ensures forall k :: 0 <= k < |files| ==>
        files[k] == if old(files)[k].id == upd.id then MergeReviewFile(old(files)[k], upd, cols) else old(files)[k]
    {
      var k := IndexById(files, upd.id, ReviewFileRowId);
      if k.None? {
        return false;
      }
      files := files[k.value := MergeReviewFile(files[k.value], upd, cols)];
      affected := true;
    }

    method UpdateIssue(upd: IssueRow, cols: Option<set<IssueColumn>>) returns (affected: bool)
      requires Valid()
      modifies this
      ensures Valid()
      ensures reviews == old(reviews) && files == old(files)
      ensures nextReviewId == old(nextReviewId) && nextFileId == old(nextFileId) && nextIssueId == old(nextIssueId)
      ensures affected <==> exists k :: 0 <= k < |old(issues)| && old(issues)[k].id == upd.id
      ensures |issues| == |old(issues)|
      ensures forall k :: 0 <= k < |issues| ==>
        issues[k] == if old(issues)[k].id == upd.id then MergeIssue(old(issues)[k], upd, cols) else old(issues)[k]
    {
      var k := IndexById(issues, upd.id, IssueRowId);
      if k.None? {
        return false;
      }
      issues := issues[k.value := MergeIssue(issues[k.value], upd, cols)];
      affected := true;
    }

    /** `DeleteReview`: a soft delete; only the status of the row with that id changes. */
    method DeleteReview(id: int) returns (deleted: bool)
      requires Valid()
      modifies this
      ensures Valid()
      ensures files == old(files) && issues == old(issues)
      ensures nextReviewId == old(nextReviewId) && nextFileId == old(nextFileId) && nextIssueId == old(nextIssueId)
      ensures deleted <==> exists k :: 0 <= k < |old(reviews)| && old(reviews)[k].id == id
      ensures |reviews| == |old(reviews)|
      ensures forall k :: 0 <= k < |reviews| ==>
        reviews[k] == if old(reviews)[k].id == id then old(reviews)[k].(statusId := StatusDeleted) else old(reviews)[k]
    {
      var blank := ReviewRow(id, 0, 0, "", "", "", "", "", "", "", "", 0, 0, ModelInfo("", 0, 0, 0.0), StatusDeleted);
      deleted := UpdateReview(blank, Some({RStatusId}));
    }

    method DeleteReviewFile(id: int) returns (deleted: bool)
      requires Valid()
      modifies this
      ensures Valid()
      ensures reviews == old(reviews) && issues == old(issues)
      ensures nextReviewId == old(nextReviewId) && nextFileId == old(nextFileId) && nextIssueId == old(nextIssueId)
      ensures deleted <==> exists k :: 0 <= k < |old(files)| && old(files)[k].id == id
      ensures |files| == |old(files)|
      ensures forall k :: 0 <= k < |files| ==>
        files[k] == if old(files)[k].id == id then old(files)[k].(statusId := StatusDeleted) else old(files)[k]
    {
      var blank := ReviewFileRow(id, 0, "", "", "", "", false, IssueStats(0, 0, 0, 0, 0), 0, StatusDeleted);
      deleted := UpdateReviewFile(blank, Some({FStatusId}));
    }

    method DeleteIssue(id: int) returns (deleted: bool)
      requires Valid()
      modifies this
      ensures Valid()
      ensures reviews == old(reviews) && files == old(files)
      ensures nextReviewId == old(nextReviewId) && nextFileId == old(nextFileId) && nextIssueId == old(nextIssueId)
      ensures deleted <==> exists k :: 0 <= k < |old(issues)| && old(issues)[k].id == id
      ensures |issues| == |old(issues)|
      ensures forall k :: 0 <= k < |issues| ==>
        issues[k] == if old(issues)[k].id == id then old(issues)[k].(statusId := StatusDeleted) else old(issues)[k]
    {
      var blank := IssueRow(id, 0, 0, None, "", "", "", "", "", "", "", None, None, None, 0, StatusDeleted);
      deleted := UpdateIssue(blank, Some({IStatusId}));
    }

    /** Transaction rollback: the rows return to a snapshot taken earlier; the sequences
        keep the values they reached. */
    method Rollback(t: Tables)
      requires Valid()
      requires TablesValid(t, nextReviewId, nextFileId, nextIssueId)
      modifies this
      ensures Valid()
      ensures Snapshot() == t
      ensures nextReviewId == old(nextReviewId) && nextFileId == old(nextFileId) && nextIssueId == old(nextIssueId)
    {
      reviews, files, issues := t.reviews, t.files, t.issues;
    }
  }
}
