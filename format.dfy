/** The pure display helpers of the review pages (frontend/src/utils/format.ts): duration
    and hash formatting, review-type labels, the severity order and the links into the
    project's GitHub or GitLab repository. */
module Format {
  import opened Common
  import opened Strings
  import ReviewerModel

  // ---------------------------------------------------------------------------------
  // Durations.

  /** `formatDuration`: `Math.floor(ms / 1000)` seconds (Dafny's `/` by a positive divisor
      is the floor), as "<s>s" under a minute and "<m>m <r>s" from a minute on. */
  function FormatDuration(ms: int): string
  {
    var seconds := ms / 1000;
    if seconds < 60 then IntToString(seconds) + "s"
    else NatToString(seconds / 60) + "m " + NatToString(seconds % 60) + "s"
  }

  /** Reads a formatted duration back as a number of whole seconds; the partner of
      `FormatDuration`. */
  function ParseDuration(s: string): Option<nat>
  {
    if |s| == 0 || s[|s| - 1] != 's' then None else ParseMinSec(s[..|s| - 1])
  }

  /** "<s>" or "<m>m <r>" as a number of seconds. */
  function ParseMinSec(body: string): Option<nat>
  {
    var k := IndexOf(body, 'm');
    if k == |body| then ParseNat(body)
    else if k + 1 < |body| && body[k + 1] == ' ' then
      var m := ParseNat(body[..k]);
      var r := ParseNat(body[k + 2..]);
      if m.Some? && r.Some? then Some(60 * m.value + r.value) else None
    else None
  }

  lemma {:induction false} DigitsHaveNo(s: string, c: char)
    requires IsDigits(s) && !('0' <= c <= '9')
    ensures c !in s
  {
  }

  /** For a non-negative duration: under a minute the whole seconds; otherwise minutes
      and a remainder below 60 that add back up to the whole seconds. */
  lemma {:induction false} DurationParts(ms: int)
    requires ms >= 0
    ensures ms / 1000 < 60 ==> FormatDuration(ms) == NatToString(ms / 1000) + "s"
    ensures ms / 1000 >= 60 ==>
      exists m: nat, r: nat :: r < 60 && 60 * m + r == ms / 1000 &&
        FormatDuration(ms) == NatToString(m) + "m " + NatToString(r) + "s"
  {
    var seconds := ms / 1000;
    if seconds >= 60 {
      var m: nat, r: nat := seconds / 60, seconds % 60;
      assert r < 60 && 60 * m + r == seconds;
      assert FormatDuration(ms) == NatToString(m) + "m " + NatToString(r) + "s";
    }
  }

  lemma {:induction false} ParseSeconds(a: string)
    requires |a| > 0 && IsDigits(a)
    ensures ParseDuration(a + "s") == ParseNat(a)
  {
    var s := a + "s";
    assert s[..|s| - 1] == a;
    DigitsHaveNo(a, 'm');
  }

  lemma {:induction false} ParseMinutes(a: string, b: string, m: nat, r: nat)
    requires IsDigits(a) && ParseNat(a) == Some(m) && ParseNat(b) == Some(r)
    ensures ParseDuration(a + "m " + b + "s") == Some(60 * m + r)
  {
    var body := a + "m " + b;
    var s := body + "s";
    assert a + "m " + b + "s" == s;
    assert s[..|s| - 1] == body;
    assert ParseDuration(s) == ParseMinSec(body);
    MinSecOf(a, b, m, r);
  }

  lemma {:induction false} MinSecOf(a: string, b: string, m: nat, r: nat)
    requires IsDigits(a) && ParseNat(a) == Some(m) && ParseNat(b) == Some(r)
    ensures ParseMinSec(a + "m " + b) == Some(60 * m + r)
  {
    SplitAtM(a, b);
  }

  lemma {:induction false} SplitAtM(a: string, b: string)
    requires IsDigits(a)
    ensures var body := a + "m " + b;
      IndexOf(body, 'm') == |a| && |a| + 1 < |body| && body[|a| + 1] == ' ' &&
      body[..|a|] == a && body[|a| + 2..] == b
  {
    var body := a + "m " + b;
    assert body == a + ("m " + b);
    DigitsHaveNo(a, 'm');
    IndexOfAfter(a, "m " + b, 'm');
  }

  /** A formatted non-negative duration reads back as its whole seconds. */
  lemma {:induction false} DurationRoundTrip(ms: int)
    requires ms >= 0
    ensures ParseDuration(FormatDuration(ms)) == Some(ms / 1000)
  {
    var seconds := ms / 1000;
    if seconds < 60 {
      NatToStringRoundTrip(seconds);
      ParseSeconds(NatToString(seconds));
      assert FormatDuration(ms) == NatToString(seconds) + "s";
    } else {
      NatToStringRoundTrip(seconds / 60);
      NatToStringRoundTrip(seconds % 60);
      ParseMinutes(NatToString(seconds / 60), NatToString(seconds % 60), seconds / 60, seconds % 60);
      assert FormatDuration(ms) == NatToString(seconds / 60) + "m " + NatToString(seconds % 60) + "s";
    }
  }

  // ---------------------------------------------------------------------------------
  // Hashes and review types.

  /** `shortHash`: `substring(0, 7)`, the whole hash when it is shorter. */
  function ShortHash(hash: string): (r: string)
    ensures |r| == if |hash| < 7 then |hash| else 7
    ensures IsPrefix(r, hash)
  {
    if |hash| <= 7 then hash else hash[..7]
  }

  lemma {:induction false} ShortHashIdempotent(hash: string)
    ensures ShortHash(ShortHash(hash)) == ShortHash(hash)
  {
  }

  /** `reviewTypeLabel`: the table's letter, else the first character upper-cased (the
      empty string has no first character). */
  function ReviewTypeLabel(rt: string): string
  {
    if rt == "architecture" then "A"
    else if rt == "code" then "C"
    else if rt == "security" then "S"
    else if rt == "tests" then "T"
    else if |rt| == 0 then ""
    else [AsciiUpper(rt[0])]
  }

  /** `reviewTypeFullName`: the table's capitalised name, else the type itself. */
  function ReviewTypeFullName(rt: string): string
  {
    if rt == "architecture" then "Architecture"
    else if rt == "code" then "Code"
    else if rt == "security" then "Security"
    else if rt == "tests" then "Tests"
    else rt
  }

  /** The label table agrees with its fallback: every label is the type's first letter
      upper-cased. */
  lemma {:induction false} LabelIsInitial(rt: string)
    ensures ReviewTypeLabel(rt) == if |rt| == 0 then "" else [AsciiUpper(rt[0])]
  {
  }

  /** The known review types are exactly those whose full name differs from the type:
      it is the type with its first letter upper-cased. */
  lemma {:induction false} FullNameCapitalises(rt: string)
    ensures ReviewerModel.IsValidReviewType(rt) ==>
      |rt| > 0 && ReviewTypeFullName(rt) == [AsciiUpper(rt[0])] + rt[1..] && ReviewTypeFullName(rt) != rt
    ensures !ReviewerModel.IsValidReviewType(rt) ==> ReviewTypeFullName(rt) == rt
    ensures ReviewTypeLabel(rt) == ReviewTypeLabel(ReviewTypeFullName(rt))
  {
  }

  // ---------------------------------------------------------------------------------
  // Severity order.

  /** The rank of `severityOrder`, 99 for any other value. */
  function SeverityRank(s: string): nat
  {
    if s == "critical" then 0
    else if s == "high" then 1
    else if s == "medium" then 2
    else if s == "low" then 3
    else 99
  }

  /** `compareSeverity`: negative when `a` sorts first. */
  function CompareSeverity(a: string, b: string): int
  {
    SeverityRank(a) - SeverityRank(b)
  }

  /** A comparator: antisymmetric, zero exactly on equal ranks, transitive; the four
      severities come in the order critical, high, medium, low, before every unknown
      value, and unknown values tie. */
  lemma {:induction false} CompareSeverityOrder(a: string, b: string, c: string)
    ensures CompareSeverity(a, b) == -CompareSeverity(b, a)
    ensures CompareSeverity(a, b) == 0 <==> SeverityRank(a) == SeverityRank(b)
    ensures CompareSeverity(a, b) < 0 && CompareSeverity(b, c) < 0 ==> CompareSeverity(a, c) < 0
    ensures ReviewerModel.IsValidSeverity(a) && !ReviewerModel.IsValidSeverity(b) ==> CompareSeverity(a, b) < 0
    ensures !ReviewerModel.IsValidSeverity(a) && !ReviewerModel.IsValidSeverity(b) ==> CompareSeverity(a, b) == 0
    ensures CompareSeverity("critical", "high") < 0 && CompareSeverity("high", "medium") < 0 &&
            CompareSeverity("medium", "low") < 0
  {
  }

  // ---------------------------------------------------------------------------------
  // Repository links.

  /** The GitHub test of the link builders: the URL contains "github.com". */
  predicate IsGitHubURL(vcsURL: string)
  {
    Contains(vcsURL, "github.com")
  }

  /** `buildVcsMrURL`: the pull request on GitHub, the merge request on GitLab. */
  function BuildVcsMrURL(vcsURL: string, externalId: string): (r: string)
    ensures IsPrefix(vcsURL, r)
  {
    if IsGitHubURL(vcsURL) then vcsURL + "/pull/" + externalId
    else vcsURL + "/-/merge_requests/" + externalId
  }

  /** `buildVcsCommitURL`. */
  function BuildVcsCommitURL(vcsURL: string, commitHash: string): (r: string)
    ensures IsPrefix(vcsURL, r)
  {
    if IsGitHubURL(vcsURL) then vcsURL + "/commit/" + commitHash
    else vcsURL + "/-/commit/" + commitHash
  }

  /** A link starts with the repository URL and ends with the merge request id or the
      commit hash; what lies between is the host's path, GitHub's or GitLab's. */
  lemma {:induction false} VcsLinkPaths(vcsURL: string, externalId: string, commitHash: string)
    ensures var u := BuildVcsMrURL(vcsURL, externalId);
      |u| > |vcsURL| + |externalId| && u[..|vcsURL|] == vcsURL && u[|u| - |externalId|..] == externalId &&
      u[|vcsURL|..|u| - |externalId|] == if IsGitHubURL(vcsURL) then "/pull/" else "/-/merge_requests/"
    ensures var u := BuildVcsCommitURL(vcsURL, commitHash);
      |u| > |vcsURL| + |commitHash| && u[..|vcsURL|] == vcsURL && u[|u| - |commitHash|..] == commitHash &&
      u[|vcsURL|..|u| - |commitHash|] == if IsGitHubURL(vcsURL) then "/commit/" else "/-/commit/"
  {
    var path := if IsGitHubURL(vcsURL) then "/pull/" else "/-/merge_requests/";
    JoinParts(vcsURL, path, externalId);
    path := if IsGitHubURL(vcsURL) then "/commit/" else "/-/commit/";
    JoinParts(vcsURL, path, commitHash);
  }

  /** `lines.split('-')`: the first part and, when there is a '-', the second part (up to
      a second '-', if any). */
  function LinesParts(lines: string): (string, Option<string>)
  {
    var k := IndexOf(lines, '-');
    if k == |lines| then (lines, None)
    else
      var rest := lines[k + 1..];
      (lines[..k], Some(rest[..IndexOf(rest, '-')]))
  }

  /** The blob link without a line anchor. */
  function BlobURL(vcsURL: string, commitHash: string, file: string): string
  {
    if IsGitHubURL(vcsURL) then vcsURL + "/blob/" + commitHash + "/" + file
    else vcsURL + "/-/blob/" + commitHash + "/" + file
  }

  /** `buildVcsFileURL`: absent or empty `lines` give the blob link; otherwise an anchor
      to the first line, and to the range when the second part is non-empty. */
  function BuildVcsFileURL(vcsURL: string, commitHash: string, file: string, lines: Option<string>): (r: string)
    ensures IsPrefix(BlobURL(vcsURL, commitHash, file), r)
    ensures IsPrefix(vcsURL, r)
  {
    var base := BlobURL(vcsURL, commitHash, file);
    if lines.None? || lines.value == "" then base
    else
      var parts := LinesParts(lines.value);
      var start := parts.0;
      var end := parts.1;
      if end.Some? && end.value != "" then
        if IsGitHubURL(vcsURL) then base + "#L" + start + "-L" + end.value
        else base + "#L" + start + "-" + end.value
      else base + "#L" + start
  }

  lemma {:induction false} PartsOfSingle(x: string)
    requires '-' !in x
    ensures LinesParts(x) == (x, None)
  {
  }

  /** A first part without '-' is cut off at the first '-'. */
  lemma {:induction false} PartsAfterDash(x: string, rest: string)
    requires '-' !in x
    ensures LinesParts(x + "-" + rest) == (x, Some(rest[..IndexOf(rest, '-')]))
  {
    var s := x + "-" + rest;
    assert s == x + ("-" + rest);
    IndexOfAfter(x, "-" + rest, '-');
    assert s[..|x|] == x;
    assert s[|x| + 1..] == rest;
  }

  lemma {:induction false} PartsOfRange(x: string, y: string, z: string)
    requires '-' !in x && '-' !in y
    ensures LinesParts(x + "-" + y) == (x, Some(y))
    ensures LinesParts(x + "-" + y + "-" + z) == (x, Some(y))
  {
    PartsAfterDash(x, y);
    assert IndexOf(y, '-') == |y| && y[..|y|] == y;
    PartsAfterDash(x, y + "-" + z);
    assert x + "-" + (y + "-" + z) == x + "-" + y + "-" + z;
    assert y + "-" + z == y + ("-" + z);
    IndexOfAfter(y, "-" + z, '-');
    assert (y + ("-" + z))[..|y|] == y;
  }

  lemma {:induction false} FileURLRange(vcsURL: string, commitHash: string, file: string, x: string, y: string)
    requires '-' !in x && '-' !in y && |y| > 0
    ensures var base := BlobURL(vcsURL, commitHash, file);
      BuildVcsFileURL(vcsURL, commitHash, file, Some(x + "-" + y)) ==
        (if IsGitHubURL(vcsURL) then base + "#L" + x + "-L" + y else base + "#L" + x + "-" + y)
  {
    PartsOfRange(x, y, "");
    assert |x + "-" + y| > 0;
  }

  lemma {:induction false} FileURLSingle(vcsURL: string, commitHash: string, file: string, x: string)
    requires '-' !in x && |x| > 0
    ensures BuildVcsFileURL(vcsURL, commitHash, file, Some(x)) == BlobURL(vcsURL, commitHash, file) + "#L" + x
  {
    PartsOfSingle(x);
  }

  /** The anchors for "a-b" and for "a": "#La-Lb" on GitHub, "#La-b" on GitLab, "#La"
      on both. */
  lemma {:induction false} FileAnchors(vcsURL: string, commitHash: string, file: string, a: nat, b: nat)
    ensures var base := BlobURL(vcsURL, commitHash, file);
      var sa := NatToString(a);
      var sb := NatToString(b);
      BuildVcsFileURL(vcsURL, commitHash, file, Some(sa + "-" + sb)) ==
        (if IsGitHubURL(vcsURL) then base + "#L" + sa + "-L" + sb else base + "#L" + sa + "-" + sb)
    ensures BuildVcsFileURL(vcsURL, commitHash, file, Some(NatToString(a))) ==
      BlobURL(vcsURL, commitHash, file) + "#L" + NatToString(a)
  {
    var sa := NatToString(a);
    var sb := NatToString(b);
    DigitsHaveNo(sa, '-');
    DigitsHaveNo(sb, '-');
    FileURLRange(vcsURL, commitHash, file, sa, sb);
    FileURLSingle(vcsURL, commitHash, file, sa);
  }

  /** Only the first two '-'-separated parts count: whatever follows a second '-' is
      ignored. */
  lemma {:induction false} FileURLIgnoresTail(vcsURL: string, commitHash: string, file: string, x: string, y: string, z: string)
    requires '-' !in x && '-' !in y
    ensures BuildVcsFileURL(vcsURL, commitHash, file, Some(x + "-" + y + "-" + z)) ==
            BuildVcsFileURL(vcsURL, commitHash, file, Some(x + "-" + y))
  {
    PartsOfRange(x, y, z);
    assert |x + "-" + y| > 0 && |x + "-" + y + "-" + z| > 0;
  }
}
