/** Order-preserving slice helpers and the generated group-by collections
    (pkg/reviewer/collection.go). */
module Collection {
  import opened Common
  import opened Sorting
  import opened ReviewerModel

  /** `MapP`: a pre-sized result filled by index with the value each element's converter
      points to. A converter returning nil would make the Go code panic, so every
      element must convert. */
  method MapP<T, M(0)>(a: seq<T>, f: T -> Option<M>) returns (n: seq<M>)
    requires forall i :: 0 <= i < |a| ==> f(a[i]).Some?
    ensures |n| == |a|
    ensures forall i :: 0 <= i < |a| ==> Some(n[i]) == f(a[i])
  {
    var buf := new M[|a|];
    var i := 0;
    while i < |a|
      invariant 0 <= i <= |a|
      invariant forall j :: 0 <= j < i ==> Some(buf[j]) == f(a[j])
    {
      buf[i] := f(a[i]).value;
      i := i + 1;
    }
    n := buf[..];
  }

  /** `Map`: the same for a converter on values. */
  method Map<T, M(0)>(a: seq<T>, f: T -> M) returns (n: seq<M>)
    ensures |n| == |a|
    ensures forall i :: 0 <= i < |a| ==> n[i] == f(a[i])
  {
    var buf := new M[|a|];
    var i := 0;
    while i < |a|
      invariant 0 <= i <= |a|
      invariant forall j :: 0 <= j < i ==> buf[j] == f(a[j])
    {
      buf[i] := f(a[i]);
      i := i + 1;
    }
    n := buf[..];
  }

  /** `Ptr`: a reference to a copy of the value. */
  function Ptr<T>(v: T): (p: Option<T>)
    ensures p.Some? && p.value == v
  {
    Some(v)
  }

  function KeyIs<X>(key: X -> int, k: int): X -> bool
  {
    (x: X) => key(x) == k
  }

  /** A bucket lookup: a key that was never grouped yields the empty (nil) list. */
  function Bucket<X>(m: map<int, seq<X>>, k: int): seq<X>
  {
    if k in m then m[k] else []
  }

  /** The generated `GroupBy<Key>`: appends every element to the bucket of its key.
      The buckets are exactly the keys present, and each holds, in input order, the
      elements with that key. */
  method GroupBy<X>(xs: seq<X>, key: X -> int) returns (m: map<int, seq<X>>)
    ensures forall k :: k in m <==> exists i :: 0 <= i < |xs| && key(xs[i]) == k
    ensures forall k :: Bucket(m, k) == Filter(xs, KeyIs(key, k))
  {
    m := map[];
    var i := 0;
    while i < |xs|
      invariant 0 <= i <= |xs|
      invariant forall k :: k in m ==> m[k] != []
      invariant forall k :: Bucket(m, k) == Filter(xs[..i], KeyIs(key, k))
    {
      var x := xs[i];
      var k := key(x);
      var bucket := if k in m then m[k] else [];
      var before := m;
      m := m[k := bucket + [x]];
      GroupStep(xs[..i], x, key, before, m);
      assert xs[..i + 1] == xs[..i] + [x];
      i := i + 1;
    }
    assert xs[..i] == xs;
    KeysPresent(xs, key, m);
  }

  /** Appending one element to the bucket of its key keeps every bucket equal to the
      filtered input. */
  lemma {:induction false} GroupStep<X>(prefix: seq<X>, x: X, key: X -> int, m: map<int, seq<X>>, m': map<int, seq<X>>)
    requires forall k :: Bucket(m, k) == Filter(prefix, KeyIs(key, k))
    requires m' == m[key(x) := Bucket(m, key(x)) + [x]]
    ensures forall k :: Bucket(m', k) == Filter(prefix + [x], KeyIs(key, k))
  {
    forall k ensures Bucket(m', k) == Filter(prefix + [x], KeyIs(key, k)) {
      FilterAppend(prefix, [x], KeyIs(key, k));
    }
  }

  /** With no empty bucket, the keys grouped are exactly the keys of the input. */
  lemma {:induction false} KeysPresent<X>(xs: seq<X>, key: X -> int, m: map<int, seq<X>>)
    requires forall k :: Bucket(m, k) == Filter(xs, KeyIs(key, k))
    requires forall k :: k in m ==> m[k] != []
    ensures forall k :: k in m <==> exists i :: 0 <= i < |xs| && key(xs[i]) == k
  {
    forall k ensures k in m <==> exists i :: 0 <= i < |xs| && key(xs[i]) == k {
      if k in m {
        var b := Filter(xs, KeyIs(key, k));
        assert b[0] in b;
        FilterMembers(xs, KeyIs(key, k), b[0]);
        var i :| 0 <= i < |xs| && xs[i] == b[0];
        assert key(xs[i]) == k;
      } else if exists i :: 0 <= i < |xs| && key(xs[i]) == k {
        var i :| 0 <= i < |xs| && key(xs[i]) == k;
        FilterMembers(xs, KeyIs(key, k), xs[i]);
        assert false;
      }
    }
  }

  /** The buckets partition the input: the sizes of the buckets of the keys present sum
      to the input length, shown here as each element being in the bucket of its key. */
  lemma {:induction false} GroupedElementInItsBucket<X>(xs: seq<X>, key: X -> int, m: map<int, seq<X>>, i: nat)
    requires forall k :: Bucket(m, k) == Filter(xs, KeyIs(key, k))
    requires i < |xs|
    ensures xs[i] in Bucket(m, key(xs[i]))
    ensures forall k :: k != key(xs[i]) ==> xs[i] !in Bucket(m, k)
  {
    FilterMembers(xs, KeyIs(key, key(xs[i])), xs[i]);
    forall k | k != key(xs[i]) ensures xs[i] !in Bucket(m, k) {
      FilterMembers(xs, KeyIs(key, k), xs[i]);
    }
  }

  function FileReviewId(f: ReviewFile): int
  {
    f.row.reviewId
  }

  function IssueFileId(i: Issue): int
  {
    i.row.reviewFileId
  }

  /** `ReviewFiles.GroupByReviewID`. */
  method GroupByReviewID(files: seq<ReviewFile>) returns (m: map<int, seq<ReviewFile>>)
    ensures forall id :: Bucket(m, id) == Filter(files, KeyIs(FileReviewId, id))
  {
    m := GroupBy(files, FileReviewId);
  }

  /** `Issues.GroupByReviewFileID`. */
  method GroupByReviewFileID(issues: seq<Issue>) returns (m: map<int, seq<Issue>>)
    ensures forall id :: Bucket(m, id) == Filter(issues, KeyIs(IssueFileId, id))
  {
    m := GroupBy(issues, IssueFileId);
  }
}
