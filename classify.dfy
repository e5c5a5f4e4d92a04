/** Deciding whether a cleaned reference is rewritten (index.js:67-86):
    the base-map lookup, the filters for absolute, data, fragment and
    scheme references, and the optional eligibility glob. */
module Eligibility {
  import opened CssTypes

  /** `s.indexOf(p) === 0`. */
  predicate StartsWith(s: string, p: string) {
    |p| <= |s| && s[..|p|] == p
  }

  /** The reference begins with `/key/`. */
  predicate KeyMatches(ref: string, key: string) {
    StartsWith(ref, "/" + key + "/")
  }

  /** The base directory chosen for `ref`: the value of the last entry (in
      enumeration order) whose key matches, or None when no key does. */
  function BaseDirFor(ref: string, sources: seq<(string, string)>): Option<string>
    decreases |sources|
  {
    if sources == [] then None
    else if KeyMatches(ref, sources[|sources| - 1].0) then Some(sources[|sources| - 1].1)
    else BaseDirFor(ref, sources[..|sources| - 1])
  }

  /** Entry `i` matches and no later entry does. */
  predicate IsLastMatch(ref: string, sources: seq<(string, string)>, i: int) {
    0 <= i < |sources| && KeyMatches(ref, sources[i].0) &&
    forall j :: i < j < |sources| ==> !KeyMatches(ref, sources[j].0)
  }

  /** The loop over the base map (index.js:67-74): every key is tried, and
      each match overwrites the previous one. */
  method FindBaseDir(ref: string, sources: seq<(string, string)>) returns (assetFromBaseDir: Option<string>)
    ensures assetFromBaseDir == BaseDirFor(ref, sources)
  {
    assetFromBaseDir := None;
    var i := 0;
    while i < |sources|
      invariant 0 <= i <= |sources|
      invariant assetFromBaseDir == BaseDirFor(ref, sources[..i])
    {
      assert sources[..i + 1][..i] == sources[..i];
      if KeyMatches(ref, sources[i].0) {
        assetFromBaseDir := Some(sources[i].1);
      }
      i := i + 1;
    }
    assert sources[..i] == sources;
  }

  /** No base directory exactly when no key matches. */
  lemma {:induction false} BaseDirForNone(ref: string, sources: seq<(string, string)>)
    ensures BaseDirFor(ref, sources).None? <==>
            forall i :: 0 <= i < |sources| ==> !KeyMatches(ref, sources[i].0)
    decreases |sources|
  {
    if sources != [] {
      var init := sources[..|sources| - 1];
      BaseDirForNone(ref, init);
      assert forall i :: 0 <= i < |init| ==> init[i] == sources[i];
    }
  }

  /** When several keys match, the last one enumerated wins. */
  lemma {:induction false} LastMatchingKeyWins(ref: string, sources: seq<(string, string)>, i: int)
    requires IsLastMatch(ref, sources, i)
    ensures BaseDirFor(ref, sources) == Some(sources[i].1)
    decreases |sources|
  {
    if i < |sources| - 1 {
      var init := sources[..|sources| - 1];
      assert IsLastMatch(ref, init, i);
      LastMatchingKeyWins(ref, init, i);
    }
  }

  predicate IsLower(c: char) {
    'a' <= c <= 'z'
  }

  /** The end of the run of lower-case ASCII letters that starts at `i`. */
  function LowerRun(s: string, i: nat): (k: nat)
    requires i <= |s|
    ensures i <= k <= |s|
    ensures k < |s| ==> !IsLower(s[k])
    decreases |s| - i
  {
    if i < |s| && IsLower(s[i]) then LowerRun(s, i + 1) else i
  }

  /** The run holds only lower-case letters. */
  lemma {:induction false} LowerRunLetters(s: string, i: nat)
    requires i <= |s|
    ensures forall m :: i <= m < LowerRun(s, i) ==> IsLower(s[m])
    decreases |s| - i
  {
    if i < |s| && IsLower(s[i]) {
      LowerRunLetters(s, i + 1);
    }
  }

  /** `/^[a-z]+:\/\//.test(s)`, tested by scanning the leading letters. */
  predicate HasSchemePrefix(s: string) {
    var n := LowerRun(s, 0);
    n >= 1 && StartsWith(s[n..], "://")
  }

  /** The regular expression matches with `n` letters before `://`. */
  predicate SchemeAt(s: string, n: int) {
    1 <= n && n + 3 <= |s| && (forall m :: 0 <= m < n ==> IsLower(s[m])) && s[n..n + 3] == "://"
  }

  /** The scan agrees with the regular expression: some non-empty run of
      lower-case letters is followed by `://`. */
  lemma HasSchemePrefixMeaning(s: string)
    ensures HasSchemePrefix(s) <==> exists n :: SchemeAt(s, n)
  {
    var k := LowerRun(s, 0);
    LowerRunLetters(s, 0);
    if HasSchemePrefix(s) {
      assert s[k..][..3] == s[k..k + 3];
      assert SchemeAt(s, k);
    }
    if n :| SchemeAt(s, n) {
      assert s[n] == ':';
      assert k == n;
      assert s[k..][..3] == s[k..k + 3];
    }
  }

  /** References left alone when no base-map key matched: root-relative
      paths, data URIs, fragments and `scheme://` URLs (index.js:78-81). */
  predicate IsIgnoredUrl(ref: string) {
    StartsWith(ref, "/") || StartsWith(ref, "data:") || StartsWith(ref, "#") || HasSchemePrefix(ref)
  }

  /** A configured (truthy) `match` pattern that the glob matcher refuses
      (index.js:84). */
  predicate PatternRejects(ref: string, matchPattern: Option<string>, isMatch: (string, string) -> bool) {
    matchPattern.Some? && matchPattern.value != "" && !isMatch(ref, matchPattern.value)
  }

  /** Left as it is, or resolved with the base directory found (if any). */
  datatype Decision = Ignore | Resolve(baseDir: Option<string>)

  /** The filters run only when no key matched (`assetFromBaseDir === false`). */
  function Classify(ref: string, cfg: Config, isMatch: (string, string) -> bool): Decision {
    var baseDir := BaseDirFor(ref, cfg.absSources);
    if baseDir.None? && (IsIgnoredUrl(ref) || PatternRejects(ref, cfg.matchPattern, isMatch)) then Ignore
    else Resolve(baseDir)
  }

  /** A reference under a mapped `/key/` is resolved whatever it looks like;
      the base directory is the value of the last matching key. */
  lemma MappedReferenceSkipsFilters(ref: string, cfg: Config, isMatch: (string, string) -> bool, i: int)
    requires IsLastMatch(ref, cfg.absSources, i)
    ensures Classify(ref, cfg, isMatch) == Resolve(Some(cfg.absSources[i].1))
  {
    LastMatchingKeyWins(ref, cfg.absSources, i);
  }

  /** With no matching key, a root-relative, data, fragment or scheme
      reference is ignored. */
  lemma UnmappedIgnoredUrl(ref: string, cfg: Config, isMatch: (string, string) -> bool)
    requires forall i :: 0 <= i < |cfg.absSources| ==> !KeyMatches(ref, cfg.absSources[i].0)
    requires IsIgnoredUrl(ref)
    ensures Classify(ref, cfg, isMatch) == Ignore
  {
    BaseDirForNone(ref, cfg.absSources);
  }

  /** With no matching key, a reference the configured glob refuses is
      ignored. */
  lemma UnmappedPatternRejected(ref: string, cfg: Config, isMatch: (string, string) -> bool)
    requires forall i :: 0 <= i < |cfg.absSources| ==> !KeyMatches(ref, cfg.absSources[i].0)
    requires cfg.matchPattern.Some? && cfg.matchPattern.value != ""
    requires !isMatch(ref, cfg.matchPattern.value)
    ensures Classify(ref, cfg, isMatch) == Ignore
  {
    BaseDirForNone(ref, cfg.absSources);
  }

  /** With no matching key, a reference that passes every filter is resolved
      against the document's own directory. */
  lemma UnmappedEligibleResolves(ref: string, cfg: Config, isMatch: (string, string) -> bool)
    requires forall i :: 0 <= i < |cfg.absSources| ==> !KeyMatches(ref, cfg.absSources[i].0)
    requires !IsIgnoredUrl(ref) && !PatternRejects(ref, cfg.matchPattern, isMatch)
    ensures Classify(ref, cfg, isMatch) == Resolve(None)
  {
    BaseDirForNone(ref, cfg.absSources);
  }
}
