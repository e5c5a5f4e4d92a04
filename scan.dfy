/** The global replace `contents.replace(/url\((.*?)\)/g, callback)`
    (index.js:56-126), independent of what the callback does: where the
    regular expression matches, what the replace makes of the text for a
    given callback, and what the callback records along the way. */
module Scan {
  import opened CssTypes

  /** What the replace callback does with one match: hand back the matched
      text, or hand back a new URL and record an artifact. */
  datatype Replacement = Keep | Replace(newUrl: string, asset: Artifact)

  /** The characters the regular expression's `.` does not match. */
  predicate IsLineTerminator(c: char) {
    c == '\n' || c == '\r' || c == '\U{2028}' || c == '\U{2029}'
  }

  /** `s[j..k]` holds neither `)` nor a line terminator. */
  predicate ArgClean(s: string, j: int, k: int)
    requires 0 <= j <= k <= |s|
  {
    forall m :: j <= m < k ==> s[m] != ')' && !IsLineTerminator(s[m])
  }

  /** `s[i..i + 4]` is the text `url(`. */
  predicate OpensUrlAt(s: string, i: int) {
    0 <= i && i + 4 <= |s| && s[i] == 'u' && s[i + 1] == 'r' && s[i + 2] == 'l' && s[i + 3] == '('
  }

  /** `url\((.*?)\)` matches `s[i..k + 1]`: `url(`, then the shortest run of
      non-line-terminator characters up to the first `)`. */
  predicate MatchEndsAt(s: string, i: int, k: int) {
    OpensUrlAt(s, i) && i + 4 <= k < |s| && s[k] == ')' && ArgClean(s, i + 4, k)
  }

  /** The first `)` at or after `j`, provided no line terminator comes first. */
  function ArgumentEnd(s: string, j: nat): (r: Option<nat>)
    requires j <= |s|
    ensures r.Some? ==> j <= r.value < |s|
    decreases |s| - j
  {
    if j == |s| then None
    else if s[j] == ')' then Some(j)
    else if IsLineTerminator(s[j]) then None
    else ArgumentEnd(s, j + 1)
  }

  /** The end found is a `)` with a clean run before it; when none is found,
      no `)` is reachable through a clean run. */
  lemma {:induction false} ArgumentEndMeaning(s: string, j: nat)
    requires j <= |s|
    ensures ArgumentEnd(s, j).Some? ==>
      s[ArgumentEnd(s, j).value] == ')' && ArgClean(s, j, ArgumentEnd(s, j).value)
    ensures ArgumentEnd(s, j).None? ==>
      forall k {:trigger ArgClean(s, j, k)} :: j <= k < |s| && ArgClean(s, j, k) ==> s[k] != ')'
    decreases |s| - j
  {
    if j < |s| && s[j] != ')' && !IsLineTerminator(s[j]) {
      ArgumentEndMeaning(s, j + 1);
      assert forall k {:trigger ArgClean(s, j, k)} :: j + 1 <= k <= |s| && ArgClean(s, j, k) ==> ArgClean(s, j + 1, k);
    }
  }

  /** Where the match starting at `i` ends, if one starts there. */
  function UrlMatchAt(s: string, i: nat): (r: Option<nat>)
    requires i <= |s|
    ensures r.Some? ==> i + 4 <= r.value < |s|
  {
    if OpensUrlAt(s, i) then ArgumentEnd(s, i + 4) else None
  }

  /** The scan finds the match starting at `i` exactly when there is one. */
  lemma UrlMatchAtMeaning(s: string, i: nat)
    requires i <= |s|
    ensures UrlMatchAt(s, i).Some? ==> MatchEndsAt(s, i, UrlMatchAt(s, i).value)
    ensures UrlMatchAt(s, i).None? ==> forall k :: !MatchEndsAt(s, i, k)
  {
    if i + 4 <= |s| {
      ArgumentEndMeaning(s, i + 4);
    }
  }

  /** What the match `url(arg)` becomes: its own text when the callback
      keeps it, the new URL otherwise. */
  function Rendered(cb: string -> Replacement, arg: string): string {
    match cb(arg)
    case Keep => "url(" + arg + ")"
    case Replace(newUrl, _) => newUrl
  }

  /** The artifact the callback records for `url(arg)`, if any. */
  function Pushes(cb: string -> Replacement, arg: string): seq<Artifact> {
    match cb(arg)
    case Keep => []
    case Replace(_, asset) => [asset]
  }

  /** The text the global replace makes of `s[i..]`: wherever a match starts
      (leftmost first, so matches never overlap) the callback's answer
      replaces it, and any other character is copied. */
  function RenderFrom(s: string, i: nat, cb: string -> Replacement): string
    requires i <= |s|
    decreases |s| - i
  {
    if i == |s| then ""
    else match UrlMatchAt(s, i)
      case Some(k) => Rendered(cb, s[i + 4..k]) + RenderFrom(s, k + 1, cb)
      case None => [s[i]] + RenderFrom(s, i + 1, cb)
  }

  /** The artifacts the callback records while `s[i..]` is replaced, in the
      order of their matches. */
  function RecordedFrom(s: string, i: nat, cb: string -> Replacement): seq<Artifact>
    requires i <= |s|
    decreases |s| - i
  {
    if i == |s| then []
    else match UrlMatchAt(s, i)
      case Some(k) => Pushes(cb, s[i + 4..k]) + RecordedFrom(s, k + 1, cb)
      case None => RecordedFrom(s, i + 1, cb)
  }

  /** The number of matches in `s[i..]` whose argument satisfies `p`. */
  function MatchesWhere(s: string, i: nat, p: string -> bool): nat
    requires i <= |s|
    decreases |s| - i
  {
    if i == |s| then 0
    else match UrlMatchAt(s, i)
      case Some(k) => (if p(s[i + 4..k]) then 1 else 0) + MatchesWhere(s, k + 1, p)
      case None => MatchesWhere(s, i + 1, p)
  }

  /** The text of the match found at `i` is `url(`, its argument and `)`. */
  lemma MatchText(s: string, i: nat, k: nat)
    requires i <= |s| && UrlMatchAt(s, i) == Some(k)
    ensures s[i..k + 1] == "url(" + s[i + 4..k] + ")"
  {
    UrlMatchAtMeaning(s, i);
    assert s[i..i + 4] == "url(";
    assert s[i..k + 1] == s[i..i + 4] + s[i + 4..k] + [s[k]];
  }

  /** `p` holds of exactly the arguments the callback rewrites. */
  ghost predicate RewritesWhere(cb: string -> Replacement, p: string -> bool) {
    forall arg :: cb(arg).Replace? <==> p(arg)
  }

  /** A kept match is copied through as it stands. */
  lemma KeptMatchCopied(s: string, i: nat, k: nat, cb: string -> Replacement)
    requires i < |s| && UrlMatchAt(s, i) == Some(k) && cb(s[i + 4..k]).Keep?
    requires RenderFrom(s, k + 1, cb) == s[k + 1..]
    ensures RenderFrom(s, i, cb) == s[i..]
  {
    RenderAtMatch(s, i, k, cb);
    KeptRendersItself(s, i, k, cb);
    SuffixSplit(s, i, k + 1);
  }

  /** At a match, the replace emits the callback's rendering of it and then
      carries on after its `)`. */
  lemma RenderAtMatch(s: string, i: nat, k: nat, cb: string -> Replacement)
    requires i < |s| && UrlMatchAt(s, i) == Some(k)
    ensures RenderFrom(s, i, cb) == Rendered(cb, s[i + 4..k]) + RenderFrom(s, k + 1, cb)
  {
  }

  /** A kept match renders as its own text. */
  lemma KeptRendersItself(s: string, i: nat, k: nat, cb: string -> Replacement)
    requires i <= |s| && UrlMatchAt(s, i) == Some(k) && cb(s[i + 4..k]).Keep?
    ensures Rendered(cb, s[i + 4..k]) == s[i..k + 1]
  {
    MatchText(s, i, k);
  }

  /** A suffix splits at any index inside it. */
  lemma SuffixSplit(s: string, i: nat, j: nat)
    requires i <= j <= |s|
    ensures s[i..] == s[i..j] + s[j..]
  {
  }

  /** A character where no match starts is copied through. */
  lemma CharCopied(s: string, i: nat, cb: string -> Replacement)
    requires i < |s| && UrlMatchAt(s, i).None?
    requires RenderFrom(s, i + 1, cb) == s[i + 1..]
    ensures RenderFrom(s, i, cb) == s[i..]
  {
    assert s[i..] == [s[i]] + s[i + 1..];
  }

  /** When the callback keeps every match the scan visits from `i` on (no
      visited match satisfies `p`, the test for being rewritten), the
      replace gives back `s[i..]` unchanged. Text inside an earlier match's
      argument is never visited, so what the callback would say there does
      not matter. */
  lemma {:induction false} KeptIsIdentity(s: string, i: nat, cb: string -> Replacement, p: string -> bool)
    requires i <= |s| && RewritesWhere(cb, p) && MatchesWhere(s, i, p) == 0
    ensures RenderFrom(s, i, cb) == s[i..]
    decreases |s| - i
  {
    if i < |s| {
      match UrlMatchAt(s, i)
      case Some(k) =>
        KeptIsIdentity(s, k + 1, cb, p);
        KeptMatchCopied(s, i, k, cb);
      case None =>
        KeptIsIdentity(s, i + 1, cb, p);
        CharCopied(s, i, cb);
    }
  }

  /** When the callback keeps every match the scan visits from `i` on,
      nothing is recorded. */
  lemma KeptRecordsNothing(s: string, i: nat, cb: string -> Replacement, p: string -> bool)
    requires i <= |s| && RewritesWhere(cb, p) && MatchesWhere(s, i, p) == 0
    ensures RecordedFrom(s, i, cb) == []
  {
    RecordedCountsRewrites(s, i, cb, p);
  }

  /** Where no `url(` is closed by a `)` on the same line from `i` on, no
      match is visited, whatever is counted. */
  lemma {:induction false} NoMatchCountsNothing(s: string, i: nat, p: string -> bool)
    requires i <= |s|
    requires forall j, k :: !MatchEndsAt(s, j, k)
    ensures MatchesWhere(s, i, p) == 0
    decreases |s| - i
  {
    if i < |s| {
      UrlMatchAtMeaning(s, i);
      NoMatchCountsNothing(s, i + 1, p);
    }
  }

  /** Text in which no `url(` is closed by a `)` on the same line comes out
      unchanged, with nothing recorded, whatever the callback. */
  lemma NoMatchNoChange(s: string, cb: string -> Replacement)
    requires forall i, k :: !MatchEndsAt(s, i, k)
    ensures RenderFrom(s, 0, cb) == s
    ensures RecordedFrom(s, 0, cb) == []
  {
    var p := (arg: string) => cb(arg).Replace?;
    NoMatchCountsNothing(s, 0, p);
    KeptIsIdentity(s, 0, cb, p);
    KeptRecordsNothing(s, 0, cb, p);
    assert s[0..] == s;
  }

  /** One artifact is recorded per match the callback rewrites: when `p`
      holds of exactly the arguments the callback rewrites, the artifacts
      recorded are as many as the matches whose argument satisfies `p`. */
  lemma {:induction false} RecordedCountsRewrites(s: string, i: nat, cb: string -> Replacement, p: string -> bool)
    requires i <= |s|
    requires RewritesWhere(cb, p)
    ensures |RecordedFrom(s, i, cb)| == MatchesWhere(s, i, p)
    decreases |s| - i
  {
    if i < |s| {
      match UrlMatchAt(s, i)
      case Some(k) =>
        RecordedCountsRewrites(s, k + 1, cb, p);
      case None =>
        RecordedCountsRewrites(s, i + 1, cb, p);
    }
  }

  /** What the scan has produced once it reaches `i`: followed by what the
      rest of the text renders to and records, it gives the whole result
      (`total` and `totalFiles`). */
  ghost predicate ScannedUpTo(text: string, i: nat, cb: string -> Replacement, newText: string, files: seq<Artifact>,
                              total: string, totalFiles: seq<Artifact>)
    requires i <= |text|
  {
    newText + RenderFrom(text, i, cb) == total && files + RecordedFrom(text, i, cb) == totalFiles
  }

  /** The artifact list grown by the callback's optional push. */
  function Pushed(files: seq<Artifact>, asset: Option<Artifact>): seq<Artifact> {
    if asset.Some? then files + [asset.value] else files
  }

  /** Handing the match that ends at `k` to the callback keeps the scan's
      invariant, when the text returned and the artifact pushed are the
      callback's answer. */
  lemma UrlAdvance(text: string, i: nat, k: nat, cb: string -> Replacement, newText: string, files: seq<Artifact>,
                   replacement: string, asset: Option<Artifact>, total: string, totalFiles: seq<Artifact>)
    requires i < |text| && UrlMatchAt(text, i) == Some(k)
    requires ScannedUpTo(text, i, cb, newText, files, total, totalFiles)
    requires cb(text[i + 4..k]).Keep? ==> replacement == text[i..k + 1] && asset == None
    requires cb(text[i + 4..k]).Replace? ==>
      replacement == cb(text[i + 4..k]).newUrl && asset == Some(cb(text[i + 4..k]).asset)
    ensures ScannedUpTo(text, k + 1, cb, newText + replacement, Pushed(files, asset), total, totalFiles)
  {
    MatchText(text, i, k);
    var restText := RenderFrom(text, k + 1, cb);
    var restFiles := RecordedFrom(text, k + 1, cb);
    assert replacement == Rendered(cb, text[i + 4..k]);
    assert newText + (replacement + restText) == (newText + replacement) + restText;
    assert Pushed(files, asset) + restFiles == files + RecordedFrom(text, i, cb);
  }

  /** Copying a character where no match starts keeps the scan's invariant. */
  lemma CopyAdvance(text: string, i: nat, cb: string -> Replacement, newText: string, files: seq<Artifact>,
                    total: string, totalFiles: seq<Artifact>)
    requires i < |text| && UrlMatchAt(text, i).None?
    requires ScannedUpTo(text, i, cb, newText, files, total, totalFiles)
    ensures ScannedUpTo(text, i + 1, cb, newText + [text[i]], files, total, totalFiles)
  {
    var restText := RenderFrom(text, i + 1, cb);
    assert newText + ([text[i]] + restText) == (newText + [text[i]]) + restText;
  }
}
