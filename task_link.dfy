/** Task-tracker links in review comments (frontend/src/composables/useTaskLink.ts): HTML
    escaping of comment text and the URL of a task on the project's tracker. */
module TaskLink {
  import opened Common
  import opened Strings

  // ---------------------------------------------------------------------------------
  // Global replacement of one character.

  /** `s.replace(/c/g, rep)`: every occurrence of `c`, left to right, replaced by `rep`.
      Every character of the result comes from `rep` or is a character of `s` other
      than `c`. */
  function ReplaceAll(s: string, c: char, rep: string): (r: string)
    ensures forall d :: d in r ==> d in rep || (d in s && d != c)
    ensures c !in s ==> r == s
  {
    if |s| == 0 then ""
    else
      var rest := ReplaceAll(s[1..], c, rep);
      assert forall d :: d in s[1..] ==> d in s;
      (if s[0] == c then rep else [s[0]]) + rest
  }

  /** Replacement works on the two halves of a string independently. */
  lemma {:induction false} ReplaceAllAppend(a: string, b: string, c: char, rep: string)
    ensures ReplaceAll(a + b, c, rep) == ReplaceAll(a, c, rep) + ReplaceAll(b, c, rep)
    decreases |a|
  {
    if |a| == 0 {
      assert a + b == b;
    } else {
      assert (a + b)[1..] == a[1..] + b;
      ReplaceAllAppend(a[1..], b, c, rep);
    }
  }

  // ---------------------------------------------------------------------------------
  // escapeHtml.

  /** `escapeHtml`: '&' first, then '<', '>' and '"', each replaced throughout. */
  function EscapeHtml(s: string): string
  {
    ReplaceAll(ReplaceAll(ReplaceAll(ReplaceAll(s, '&', "&amp;"), '<', "&lt;"), '>', "&gt;"), '"', "&quot;")
  }

  /** The entity of one character: the four special characters become their entities,
      every other character (the single quote included) stays as it is. */
  function EscapeChar(c: char): string
  {
    if c == '&' then "&amp;"
    else if c == '<' then "&lt;"
    else if c == '>' then "&gt;"
    else if c == '"' then "&quot;"
    else [c]
  }

  /** The character-by-character reading of `escapeHtml`. */
  function EscapeMap(s: string): string
  {
    if |s| == 0 then "" else EscapeChar(s[0]) + EscapeMap(s[1..])
  }

  lemma {:induction false} EscapeHtmlAppend(a: string, b: string)
    ensures EscapeHtml(a + b) == EscapeHtml(a) + EscapeHtml(b)
  {
    var s1a, s1b := ReplaceAll(a, '&', "&amp;"), ReplaceAll(b, '&', "&amp;");
    ReplaceAllAppend(a, b, '&', "&amp;");
    var s2a, s2b := ReplaceAll(s1a, '<', "&lt;"), ReplaceAll(s1b, '<', "&lt;");
    ReplaceAllAppend(s1a, s1b, '<', "&lt;");
    var s3a, s3b := ReplaceAll(s2a, '>', "&gt;"), ReplaceAll(s2b, '>', "&gt;");
    ReplaceAllAppend(s2a, s2b, '>', "&gt;");
    ReplaceAllAppend(s3a, s3b, '"', "&quot;");
  }

  /** Replacement in a one-character string. */
  lemma {:induction false} ReplaceAllSingle(c: char, d: char, rep: string)
    ensures ReplaceAll([c], d, rep) == if c == d then rep else [c]
  {
    assert [c][1..] == [];
  }

  /** A string that lacks the remaining special characters passes the rest of the chain. */
  lemma {:induction false} LaterStepsKeep(s: string, from: nat)
    requires from <= 3
    requires from <= 1 ==> '<' !in s
    requires from <= 2 ==> '>' !in s
    requires '"' !in s
    ensures from == 1 ==> ReplaceAll(ReplaceAll(ReplaceAll(s, '<', "&lt;"), '>', "&gt;"), '"', "&quot;") == s
    ensures from == 2 ==> ReplaceAll(ReplaceAll(s, '>', "&gt;"), '"', "&quot;") == s
    ensures from == 3 ==> ReplaceAll(s, '"', "&quot;") == s
  {
  }

  lemma {:induction false} EscapeHtmlChar(c: char)
    ensures EscapeHtml([c]) == EscapeChar(c)
  {
    ReplaceAllSingle(c, '&', "&amp;");
    if c == '&' {
      LaterStepsKeep("&amp;", 1);
    } else {
      ReplaceAllSingle(c, '<', "&lt;");
      if c == '<' {
        LaterStepsKeep("&lt;", 2);
      } else {
        ReplaceAllSingle(c, '>', "&gt;");
        if c == '>' {
          LaterStepsKeep("&gt;", 3);
        } else {
          ReplaceAllSingle(c, '"', "&quot;");
        }
      }
    }
  }

  /** Because '&' is replaced first and no entity holds '<', '>' or '"', the chain of
      replacements escapes each character on its own: the later replacements never touch
      the entities the earlier ones produced. */
  lemma {:induction false} EscapeHtmlIsMap(s: string)
    ensures EscapeHtml(s) == EscapeMap(s)
    decreases |s|
  {
    if |s| == 0 {
    } else {
      assert s == [s[0]] + s[1..];
      EscapeHtmlAppend([s[0]], s[1..]);
      EscapeHtmlChar(s[0]);
      EscapeHtmlIsMap(s[1..]);
    }
  }

  /** The escaped text holds no '<', '>' or '"'. */
  lemma {:induction false} NoMarkupCharacters(s: string)
    ensures '<' !in EscapeHtml(s) && '>' !in EscapeHtml(s) && '"' !in EscapeHtml(s)
  {
    var s2 := ReplaceAll(ReplaceAll(s, '&', "&amp;"), '<', "&lt;");
    assert '<' !in "&lt;";
    var s3 := ReplaceAll(s2, '>', "&gt;");
    assert '<' !in "&gt;" && '>' !in "&gt;";
    assert '<' !in s3 && '>' !in s3;
    assert '<' !in "&quot;" && '>' !in "&quot;" && '"' !in "&quot;";
  }

  /** Text without the four special characters is left as it is. */
  lemma {:induction false} PlainTextUnchanged(s: string)
    requires '&' !in s && '<' !in s && '>' !in s && '"' !in s
    ensures EscapeHtml(s) == s
  {
    EscapeHtmlIsMap(s);
    PlainMapUnchanged(s);
  }

  lemma {:induction false} PlainMapUnchanged(s: string)
    requires '&' !in s && '<' !in s && '>' !in s && '"' !in s
    ensures EscapeMap(s) == s
    decreases |s|
  {
    if |s| > 0 {
      assert s[0] in s;
      assert forall d :: d in s[1..] ==> d in s;
      PlainMapUnchanged(s[1..]);
    }
  }

  /** An ampersand on its own becomes "&amp;". */
  lemma {:induction false} EscapeAmpersand()
    ensures EscapeHtml("&") == "&amp;"
  {
    EscapeHtmlChar('&');
  }

  /** Any special character in the text puts an '&' into the escaped text. */
  lemma {:induction false} MapHasAmpersand(s: string)
    requires '&' in s || '<' in s || '>' in s || '"' in s
    ensures '&' in EscapeMap(s)
    decreases |s|
  {
    var e := EscapeChar(s[0]);
    assert EscapeMap(s) == e + EscapeMap(s[1..]);
    if s[0] in "&<>\"" {
      assert e[0] == '&';
    } else {
      assert s == [s[0]] + s[1..];
      MapHasAmpersand(s[1..]);
    }
  }

  /** Escaping never shortens the text, and lengthens text holding an '&'. */
  lemma {:induction false} MapLength(s: string)
    ensures |EscapeMap(s)| >= |s|
    ensures '&' in s ==> |EscapeMap(s)| > |s|
    decreases |s|
  {
    if |s| > 0 {
      assert s == [s[0]] + s[1..];
      MapLength(s[1..]);
    }
  }

  /** Escaping is idempotent exactly on text without special characters: otherwise the
      escaped text holds an '&', which a second escaping turns into "&amp;" again. */
  lemma {:induction false} EscapeIdempotentIff(s: string)
    ensures EscapeHtml(EscapeHtml(s)) == EscapeHtml(s) <==> ('&' !in s && '<' !in s && '>' !in s && '"' !in s)
  {
    var e := EscapeHtml(s);
    if '&' !in s && '<' !in s && '>' !in s && '"' !in s {
      PlainTextUnchanged(s);
    } else {
      EscapeHtmlIsMap(s);
      MapHasAmpersand(s);
      EscapeHtmlIsMap(e);
      MapLength(e);
    }
  }

  /** The single quote is not escaped. */
  lemma {:induction false} SingleQuoteKept()
    ensures EscapeHtml("'") == "'"
  {
    EscapeHtmlChar('\'');
  }

  /** Whether an entity starts at index `i`. */
  predicate EntityAt(r: string, i: nat)
    requires i <= |r|
  {
    IsPrefix("&amp;", r[i..]) || IsPrefix("&lt;", r[i..]) || IsPrefix("&gt;", r[i..]) ||
    IsPrefix("&quot;", r[i..])
  }

  /** Every '&' of the escaped text begins one of the four entities. */
  lemma {:induction false} AmpersandsBeginEntities(s: string)
    ensures forall i :: 0 <= i < |EscapeHtml(s)| && EscapeHtml(s)[i] == '&' ==> EntityAt(EscapeHtml(s), i)
  {
    EscapeHtmlIsMap(s);
    MapAmpersands(s);
  }

  lemma {:induction false} MapAmpersands(s: string)
    ensures forall i :: 0 <= i < |EscapeMap(s)| && EscapeMap(s)[i] == '&' ==> EntityAt(EscapeMap(s), i)
    decreases |s|
  {
    if |s| > 0 {
      var e, rest := EscapeChar(s[0]), EscapeMap(s[1..]);
      MapAmpersands(s[1..]);
      forall i | 0 <= i < |e + rest| && (e + rest)[i] == '&'
        ensures EntityAt(e + rest, i)
      {
        if i < |e| {
          assert i == 0;
          assert (e + rest)[..|e|] == e;
        } else {
          assert (e + rest)[i..] == rest[i - |e|..];
          assert rest[i - |e|] == '&';
        }
      }
    }
  }

  // ---------------------------------------------------------------------------------
  // Decoding the four entities.

  /** Reads the four entities back as their characters; any other text is kept. */
  function Unescape(r: string): string
    decreases |r|
  {
    if |r| == 0 then ""
    else if IsPrefix("&amp;", r) then "&" + Unescape(r[5..])
    else if IsPrefix("&lt;", r) then "<" + Unescape(r[4..])
    else if IsPrefix("&gt;", r) then ">" + Unescape(r[4..])
    else if IsPrefix("&quot;", r) then "\"" + Unescape(r[6..])
    else [r[0]] + Unescape(r[1..])
  }

  lemma {:induction false} UnescapeAmp(rest: string)
    ensures Unescape("&amp;" + rest) == "&" + Unescape(rest)
  {
    var r := "&amp;" + rest;
    assert r[..5] == "&amp;" && r[5..] == rest;
  }

  lemma {:induction false} UnescapeLt(rest: string)
    ensures Unescape("&lt;" + rest) == "<" + Unescape(rest)
  {
    var r := "&lt;" + rest;
    assert r[1] == 'l';
    assert !IsPrefix("&amp;", r);
    assert r[..4] == "&lt;" && r[4..] == rest;
  }

  lemma {:induction false} UnescapeGt(rest: string)
    ensures Unescape("&gt;" + rest) == ">" + Unescape(rest)
  {
    var r := "&gt;" + rest;
    assert r[1] == 'g';
    assert !IsPrefix("&amp;", r) && !IsPrefix("&lt;", r);
    assert r[..4] == "&gt;" && r[4..] == rest;
  }

  lemma {:induction false} UnescapeQuot(rest: string)
    ensures Unescape("&quot;" + rest) == "\"" + Unescape(rest)
  {
    var r := "&quot;" + rest;
    assert r[1] == 'q';
    assert !IsPrefix("&amp;", r) && !IsPrefix("&lt;", r) && !IsPrefix("&gt;", r);
    assert r[..6] == "&quot;" && r[6..] == rest;
  }

  lemma {:induction false} UnescapePlain(c: char, rest: string)
    requires c != '&'
    ensures Unescape([c] + rest) == [c] + Unescape(rest)
  {
    var r := [c] + rest;
    assert r[0] == c && r[1..] == rest;
    EntityNotPrefix("&amp;", r);
    EntityNotPrefix("&lt;", r);
    EntityNotPrefix("&gt;", r);
    EntityNotPrefix("&quot;", r);
  }

  /** No entity starts a string whose first character is not '&'. */
  lemma {:induction false} EntityNotPrefix(e: string, r: string)
    requires |e| > 0 && e[0] == '&' && |r| > 0 && r[0] != '&'
    ensures !IsPrefix(e, r)
  {
  }

  lemma {:induction false} UnescapeChar(c: char, rest: string)
    ensures Unescape(EscapeChar(c) + rest) == [c] + Unescape(rest)
  {
    if c == '&' {
      UnescapeAmp(rest);
    } else if c == '<' {
      UnescapeLt(rest);
    } else if c == '>' {
      UnescapeGt(rest);
    } else if c == '"' {
      UnescapeQuot(rest);
    } else {
      UnescapePlain(c, rest);
    }
  }

  /** Decoding inverts escaping. */
  lemma {:induction false} UnescapeEscape(s: string)
    ensures Unescape(EscapeHtml(s)) == s
  {
    EscapeHtmlIsMap(s);
    UnescapeMap(s);
  }

  lemma {:induction false} UnescapeMap(s: string)
    ensures Unescape(EscapeMap(s)) == s
    decreases |s|
  {
    if |s| > 0 {
      UnescapeChar(s[0], EscapeMap(s[1..]));
      UnescapeMap(s[1..]);
    }
  }

  /** Distinct texts escape to distinct HTML. */
  lemma {:induction false} EscapeInjective(a: string, b: string)
    ensures EscapeHtml(a) == EscapeHtml(b) ==> a == b
  {
    UnescapeEscape(a);
    UnescapeEscape(b);
  }

  // ---------------------------------------------------------------------------------
  // Task URLs.

  /** `isGitHub`: the tracker URL contains "github.com". */
  predicate IsGitHub(trackerURL: string)
  {
    Contains(trackerURL, "github.com")
  }

  /** `trackerURL.replace(/\/+$/, '')`: the URL without its trailing run of '/'. The
      result is a prefix that does not end in '/', and what was cut is all '/'. */
  function StripTrailingSlashes(s: string): (r: string)
    ensures IsPrefix(r, s)
    ensures |r| == 0 || r[|r| - 1] != '/'
    ensures forall i :: |r| <= i < |s| ==> s[i] == '/'
  {
    if |s| > 0 && s[|s| - 1] == '/' then StripTrailingSlashes(s[..|s| - 1]) else s
  }

  /** The three properties pin the stripped URL down: any prefix with them is it. */
  lemma {:induction false} StripUnique(s: string, r: string)
    requires IsPrefix(r, s) && (|r| == 0 || r[|r| - 1] != '/')
    requires forall i :: |r| <= i < |s| ==> s[i] == '/'
    ensures r == StripTrailingSlashes(s)
  {
    var t := StripTrailingSlashes(s);
    assert r == s[..|r|] && t == s[..|t|];
  }

  lemma {:induction false} StripIdempotent(s: string)
    ensures StripTrailingSlashes(StripTrailingSlashes(s)) == StripTrailingSlashes(s)
  {
  }

  /** A '/' appended to a URL cannot create or destroy an occurrence of a pattern
      without '/'. */
  lemma {:induction false} ContainsSlash(t: string, sub: string)
    requires '/' !in sub
    ensures Contains(t + "/", sub) <==> Contains(t, sub)
    decreases |t|
  {
    var u := t + "/";
    if IsPrefix(sub, u) {
      assert u[|t|] == '/';
      forall i | 0 <= i < |sub| ensures sub[i] != '/' {
        assert sub[i] in sub;
      }
      assert |sub| <= |t|;
      assert u[..|sub|] == t[..|sub|];
    }
    if IsPrefix(sub, t) {
      assert u[..|sub|] == t[..|sub|];
    }
    if |t| > 0 {
      assert u[1..] == t[1..] + "/";
      ContainsSlash(t[1..], sub);
    } else {
      assert u[1..] == "";
    }
  }

  /** Stripping the trailing '/' does not change whether a URL is GitHub's. */
  lemma {:induction false} GitHubSurvivesStrip(s: string)
    ensures IsGitHub(StripTrailingSlashes(s)) <==> IsGitHub(s)
    decreases |s|
  {
    if |s| > 0 && s[|s| - 1] == '/' {
      assert s == s[..|s| - 1] + "/";
      ContainsSlash(s[..|s| - 1], "github.com");
      GitHubSurvivesStrip(s[..|s| - 1]);
    }
  }

  /** `buildTaskURL`: the tracker URL without trailing '/', then "/issues/<id>" on
      GitHub and "/issue/<id>" elsewhere. */
  function BuildTaskURL(trackerURL: string, taskId: string): (r: string)
    ensures IsPrefix(StripTrailingSlashes(trackerURL), r)
  {
    var base := StripTrailingSlashes(trackerURL);
    if IsGitHub(trackerURL) then base + "/issues/" + taskId else base + "/issue/" + taskId
  }

  /** The link starts with the stripped tracker URL and ends with the task id; between
      them is the tracker's path, which starts with the only '/' at the join. */
  lemma {:induction false} TaskURLPath(trackerURL: string, taskId: string)
    ensures var base := StripTrailingSlashes(trackerURL);
      var u := BuildTaskURL(trackerURL, taskId);
      |u| > |base| + |taskId| && u[..|base|] == base && u[|u| - |taskId|..] == taskId &&
      u[|base|..|u| - |taskId|] == (if IsGitHub(trackerURL) then "/issues/" else "/issue/") &&
      u[|base|] == '/' && (|base| == 0 || u[|base| - 1] != '/')
  {
    var base := StripTrailingSlashes(trackerURL);
    JoinParts(base, if IsGitHub(trackerURL) then "/issues/" else "/issue/", taskId);
  }

  /** Trailing slashes on the tracker URL do not change the link. */
  lemma {:induction false} TaskURLSlashInsensitive(trackerURL: string, taskId: string)
    ensures BuildTaskURL(trackerURL + "/", taskId) == BuildTaskURL(trackerURL, taskId)
  {
    assert (trackerURL + "/")[..|trackerURL|] == trackerURL;
    ContainsSlash(trackerURL, "github.com");
  }

  // ---------------------------------------------------------------------------------
  // linkifyTaskIds.

  /** The early return of `linkifyTaskIds`: with no tracker (null or ""), or no text (null
      or ""), the escaped text, null text read as "". `None` stands for the other branch,
      the regular-expression replacement, which this model does not cover. */
  function LinkifyEarly(text: Option<string>, trackerURL: Option<string>): (r: Option<string>)
    ensures r.Some? <==> trackerURL.None? || trackerURL.value == "" || text.None? || text.value == ""
    ensures r.Some? ==> r.value == EscapeHtml(if text.Some? then text.value else "")
  {
    if trackerURL.None? || trackerURL.value == "" || text.None? || text.value == "" then
      Some(EscapeHtml(if text.Some? then text.value else ""))
    else None
  }

  /** Without a tracker the text comes back only escaped, and so decodes to itself. */
  lemma {:induction false} NoTrackerOnlyEscapes(text: string)
    ensures LinkifyEarly(Some(text), None).Some?
    ensures Unescape(LinkifyEarly(Some(text), None).value) == text
  {
    UnescapeEscape(text);
  }
}
