/** The `useFormat` composable (frontend/src/composables/useFormat.ts): the same display
    helpers as the utility module, written again as closures over lookup tables and
    returned together. */
module UseFormat {
  import opened Common
  import opened Strings
  import F = Format

  const ReviewTypeLabels: map<string, string> :=
    map["architecture" := "A", "code" := "C", "security" := "S", "tests" := "T"]

  const ReviewTypeFullNames: map<string, string> :=
    map["architecture" := "Architecture", "code" := "Code", "security" := "Security", "tests" := "Tests"]

  const SeverityOrder: map<string, int> :=
    map["critical" := 0, "high" := 1, "medium" := 2, "low" := 3]

  /** The object `useFormat` returns (its clock- and float-based members are not
      modelled). */
  datatype Formatter = Formatter(
    formatDuration: int -> string,
    shortHash: string -> string,
    reviewTypeLabel: string -> string,
    reviewTypeFullName: string -> string,
    compareSeverity: (string, string) -> int,
    buildVcsMrURL: (string, string) -> string,
    buildVcsCommitURL: (string, string) -> string,
    buildVcsFileURL: (string, string, string, Option<string>) -> string)

  function FormatDuration(ms: int): string
  {
    var seconds := ms / 1000;
    if seconds < 60 then IntToString(seconds) + "s"
    else NatToString(seconds / 60) + "m " + NatToString(seconds % 60) + "s"
  }

  function ShortHash(hash: string): string
  {
    if |hash| <= 7 then hash else hash[..7]
  }

  function ReviewTypeLabel(rt: string): string
  {
    if rt in ReviewTypeLabels then ReviewTypeLabels[rt]
    else if |rt| == 0 then "" else [AsciiUpper(rt[0])]
  }

  function ReviewTypeFullName(rt: string): string
  {
    if rt in ReviewTypeFullNames then ReviewTypeFullNames[rt] else rt
  }

  function Rank(s: string): int
  {
    if s in SeverityOrder then SeverityOrder[s] else 99
  }

  function CompareSeverity(a: string, b: string): int
  {
    Rank(a) - Rank(b)
  }

  function MrURL(vcsURL: string, externalId: string): string
  {
    if Contains(vcsURL, "github.com") then vcsURL + "/pull/" + externalId
    else vcsURL + "/-/merge_requests/" + externalId
  }

  function CommitURL(vcsURL: string, commitHash: string): string
  {
    if Contains(vcsURL, "github.com") then vcsURL + "/commit/" + commitHash
    else vcsURL + "/-/commit/" + commitHash
  }

  function BlobBase(vcsURL: string, commitHash: string, file: string): string
  {
    if Contains(vcsURL, "github.com") then vcsURL + "/blob/" + commitHash + "/" + file
    else vcsURL + "/-/blob/" + commitHash + "/" + file
  }

  function FileURL(vcsURL: string, commitHash: string, file: string, lines: Option<string>): string
  {
    var base := BlobBase(vcsURL, commitHash, file);
    if lines.None? || lines.value == "" then base
    else
      var parts := F.LinesParts(lines.value);
      var end := parts.1;
      if end.Some? && end.value != "" then
        if Contains(vcsURL, "github.com") then base + "#L" + parts.0 + "-L" + end.value
        else base + "#L" + parts.0 + "-" + end.value
      else base + "#L" + parts.0
  }

  /** `useFormat()`: the helpers above, returned together. */
  function UseFormat(): Formatter
  {
    Formatter(FormatDuration, ShortHash, ReviewTypeLabel, ReviewTypeFullName, CompareSeverity,
      MrURL, CommitURL, FileURL)
  }

  /** The severity table ranks exactly as the utility's comparator. */
  lemma {:induction false} RankAgrees(s: string)
    ensures Rank(s) == F.SeverityRank(s)
  {
  }

  /** The label table and its fallback are the utility's conditional chain. */
  lemma {:induction false} LabelAgrees(rt: string)
    ensures ReviewTypeLabel(rt) == F.ReviewTypeLabel(rt)
  {
  }

  /** The full-name table is the utility's conditional chain. */
  lemma {:induction false} FullNameAgrees(rt: string)
    ensures ReviewTypeFullName(rt) == F.ReviewTypeFullName(rt)
  {
  }

  /** The repository links agree with the utility's builders. */
  lemma {:induction false} LinksAgree(vcsURL: string, id: string, file: string, lines: Option<string>)
    ensures MrURL(vcsURL, id) == F.BuildVcsMrURL(vcsURL, id)
    ensures CommitURL(vcsURL, id) == F.BuildVcsCommitURL(vcsURL, id)
    ensures FileURL(vcsURL, id, file, lines) == F.BuildVcsFileURL(vcsURL, id, file, lines)
  {
    assert BlobBase(vcsURL, id, file) == F.BlobURL(vcsURL, id, file);
  }

  /** Every closure agrees with its namesake in the utility module on every input, so
      the two copies of the helpers cannot drift apart. */
  lemma {:induction false} UseFormatAgrees(ms: int, s: string, t: string, u: string, lines: Option<string>)
    ensures UseFormat().formatDuration(ms) == F.FormatDuration(ms)
    ensures UseFormat().shortHash(s) == F.ShortHash(s)
    ensures UseFormat().reviewTypeLabel(s) == F.ReviewTypeLabel(s)
    ensures UseFormat().reviewTypeFullName(s) == F.ReviewTypeFullName(s)
    ensures UseFormat().compareSeverity(s, t) == F.CompareSeverity(s, t)
    ensures UseFormat().buildVcsMrURL(s, t) == F.BuildVcsMrURL(s, t)
    ensures UseFormat().buildVcsCommitURL(s, t) == F.BuildVcsCommitURL(s, t)
    ensures UseFormat().buildVcsFileURL(s, t, u, lines) == F.BuildVcsFileURL(s, t, u, lines)
  {
    RankAgrees(s);
    RankAgrees(t);
    LabelAgrees(s);
    FullNameAgrees(s);
    LinksAgree(s, t, u, lines);
  }
}
