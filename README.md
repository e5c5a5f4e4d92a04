# gulp-css-useref-abs: the stylesheet rewriter, modelled in Dafny

The plugin is a gulp stream transform (`index.js`). For each `.css` file
that carries a buffer, it rewrites every `url(...)` reference that passes
the filters and points at a readable asset. The reference is replaced by a generated URL, and the
asset's bytes are emitted as a new pipeline file under the stylesheet's root directory.
This project models that transform:

- `UrlValue` (`url_value.dfy`) cleans the argument of `url(...)`
  (`trimUrlValue`). It applies ECMAScript `trim`, then drops one `'` or `"`
  from each end, each end tested on its own, then trims again. The two
  quotes need not form a matching pair: `'abc"` becomes `abc`, and a lone
  quote becomes the empty string.
- `Eligibility` (`classify.dfy`) decides whether a cleaned reference is
  rewritten:
  - the `absSources` base map is looked up, and the last key `k` whose
    `/k/` prefixes the reference wins;
  - when no key matched, the filters for `/`, `data:`, `#` and
    `^[a-z]+://` apply, followed by the optional `match` glob.
- `Scan` (`scan.dfy`) specifies the global replace with `url\((.*?)\)`,
  independently of the callback:
  - where matches start and end (leftmost first, no line terminator inside,
    first `)` closes);
  - the text the replace produces;
  - the artifacts the callback records, in order.
- `Rewrite` (`rewrite.dfy`) holds the callback itself and `processUrlDecls`:
  - the falsy-but-not-`false` base directory `""`;
  - the `cssBaseDirAbs` prefix arithmetic;
  - the read;
  - the artifact pushed;
  - a left-to-right scan loop proved against `Scan`'s functions;
  - `_.uniqBy(files, 'relative')`.
- `Dedup` (`dedup.dfy`) holds the generic `uniqBy` and what it guarantees.
- `Plugin` (`plugin.dfy`) holds the per-file dispatch:
  - a null file, or one that is not `.css`, passes through;
  - a stream is refused with the plugin's error;
  - a buffer is rewritten and pushed after its deduplicated assets.
- `CssTypes` (`types.dfy`) holds the documents, artifacts, options and
  collaborators.

Collaborators whose code is not part of this model are fields of the `Env`
value and are left uninterpreted:

- `generateDirs`, with the options it reads already bound;
- `micromatch.isMatch`;
- `fs.readFileSync`, as `None` when the read throws;
- `path.resolve`, `path.dirname`, `path.join`, `path.extname` and
  `path.relative`.

No property depends on what they compute.

## Model

| member | source | states |
|---|---|---|
| UrlValue.Trim | index.js:43 | `String.prototype.trim`, characterized by TrimTrimmed, TrimIsInfix, TrimDropsWhitespace and TrimPadded |
| UrlValue.StripQuotes | index.js:44-48 | the `slice` that drops one quote at each end, characterized by StripQuotesIsInfix |
| UrlValue.TrimUrlValue | index.js:41-49 | `trimUrlValue`, characterized by TrimUrlValueTrimmed, TrimUrlValueIsInfix, TrimUrlValueQuoted, TrimUrlValueBare and TrimUrlValueLoneQuote |
| UrlValue.TrimTrimmed | index.js:43 | `trim` leaves no whitespace at either end |
| UrlValue.TrimIsInfix | index.js:43 | the trimmed string is a contiguous piece of the input, starting at the first non-whitespace character |
| UrlValue.TrimDropsWhitespace | index.js:43 | everything trimming drops, before and after the piece TrimIsInfix places, is whitespace |
| UrlValue.TrimPadded | index.js:43 | trimming an already trimmed string padded with whitespace on both sides gives back exactly that string |
| UrlValue.StripQuotesIsInfix | index.js:44-48 | the slice removes at most one character from each end, each removed character is a quote, and when the string has at least two characters a character is removed at an end exactly when that end is a quote; the string is unchanged exactly when neither end is a quote |
| UrlValue.TrimUrlValueTrimmed | index.js:41-49 | the cleaned value has no whitespace at either end |
| UrlValue.TrimUrlValueIsInfix | index.js:41-49 | the cleaned value is a contiguous piece of the raw argument |
| UrlValue.TrimUrlValueQuoted | index.js:41-49 | a trimmed value between two quotes (not necessarily the same character), padded with whitespace, comes back unchanged |
| UrlValue.TrimUrlValueBare | index.js:41-49 | a trimmed value with no quote at either end, padded with whitespace, comes back unchanged |
| UrlValue.TrimUrlValueLoneQuote | index.js:44-48 | a single quote with any padding cleans to the empty string, because the slice would begin after its end |
| UrlValue.SkippedForward | index.js:43 | the leading scan of `trim` passes over whitespace only |
| UrlValue.SkippedBackward | index.js:43 | the trailing scan of `trim` passes over whitespace only |
| Eligibility.Classify | index.js:67-86 | the decision for a cleaned reference, characterized by MappedReferenceSkipsFilters, UnmappedIgnoredUrl, UnmappedPatternRejected and UnmappedEligibleResolves |
| Eligibility.IsIgnoredUrl | index.js:78-81 | the four filters; the scheme test is characterized by HasSchemePrefixMeaning |
| Eligibility.FindBaseDir | index.js:67-74 | the loop over the base map ends with the value of the last key whose `/key/` prefixes the reference, or none |
| Eligibility.BaseDirForNone | index.js:67-76 | no base directory is found exactly when no key's `/key/` prefixes the reference |
| Eligibility.LastMatchingKeyWins | index.js:69-72 | when several keys match, the value of the last one enumerated is used |
| Eligibility.HasSchemePrefixMeaning | index.js:81 | the scan agrees with `/^[a-z]+:\/\//`: some non-empty run of lower-case ASCII letters at the start is followed by `://` |
| Eligibility.MappedReferenceSkipsFilters | index.js:67-86 | a reference under a mapped `/key/` is resolved with the last matching key's value, whatever the filters and the glob would say |
| Eligibility.UnmappedIgnoredUrl | index.js:76-83 | with no key matching, a reference starting with `/`, `data:` or `#`, or with a `scheme://` prefix, is left alone |
| Eligibility.UnmappedPatternRejected | index.js:84-85 | with no key matching, a reference that a configured non-empty `match` glob refuses is left alone |
| Eligibility.UnmappedEligibleResolves | index.js:76-97 | with no key matching, a reference that passes every filter is resolved with no base directory |
| Dedup.UniqBy | index.js:128 | `_.uniqBy`, characterized by UniqByFirstOccurrences |
| Dedup.UniqByFromDistinct | index.js:128 | the kept elements have pairwise distinct keys, none from the keys already seen |
| Dedup.UniqByFromCovers | index.js:128 | exactly the keys of the input not already seen are kept |
| Dedup.UniqByFromFirsts | index.js:128 | every kept element is the first element of the input with its key |
| Dedup.UniqByFromOrdered | index.js:128 | the kept elements appear in the input's order |
| Dedup.UniqByFirstOccurrences | index.js:128 | `_.uniqBy` gives pairwise distinct keys, covers every key of the input, keeps only first occurrences, and keeps the original order |
| Scan.RenderFrom | index.js:56-126 | the text the global replace produces, characterized by KeptIsIdentity, NoMatchNoChange and KeptMatchCopied, and computed by Rewrite.ReplaceAll |
| Scan.RecordedFrom | index.js:56-126 | the artifacts the callback pushes in match order, characterized by KeptRecordsNothing and RecordedCountsRewrites, and collected by Rewrite.ReplaceAll |
| Scan.ArgumentEnd | index.js:56 | the end found for the lazy group lies inside the text |
| Scan.ArgumentEndMeaning | index.js:56 | the end found is the first `)` reached without crossing a line terminator; when none is found, no `)` is reachable that way |
| Scan.UrlMatchAt | index.js:56 | a match starting at `i` ends after its `url(` and inside the text |
| Scan.UrlMatchAtMeaning | index.js:56 | the scan finds a match at `i` exactly when `url\((.*?)\)` matches there, and finds its end |
| Scan.MatchText | index.js:56-57 | the full match is `url(`, the captured argument, and `)` |
| Scan.KeptRendersItself | index.js:82-85 | a match the callback keeps renders as its own full text |
| Scan.KeptMatchCopied | index.js:56-126 | a kept match followed by unchanged text gives unchanged text |
| Scan.CharCopied | index.js:56 | a character where no match starts is copied unchanged |
| Scan.KeptIsIdentity | index.js:56-126 | when the callback keeps every match the replace visits (the count of visited matches it rewrites is zero), the replace gives back the text unchanged; occurrences of `url(` inside an earlier match's argument are never visited and do not matter |
| Scan.KeptRecordsNothing | index.js:56-126 | when the callback keeps every match the replace visits, no artifact is recorded |
| Scan.NoMatchCountsNothing | index.js:56 | where no `url(` is closed by a `)` on the same line, the replace visits no match |
| Scan.NoMatchNoChange | index.js:56-134 | text with no `url(` closed by `)` on the same line comes out unchanged with nothing recorded, whatever the callback |
| Scan.RecordedCountsRewrites | index.js:107-124 | the artifacts recorded are as many as the matches the callback rewrites |
| Scan.UrlAdvance | index.js:56-126 | handing a match to the callback and appending its answer keeps the scan's invariant |
| Scan.CopyAdvance | index.js:56 | copying a character where no match starts keeps the scan's invariant |
| Rewrite.CssBaseDirAbs | index.js:99 | the result is the prefix of `file.path` that is `file.relative`'s length shorter, or empty when `file.relative` is at least as long; when `file.relative` is a suffix of `file.path`, the result followed by `file.relative` is `file.path` |
| Rewrite.UrlCallback | index.js:57-125 | the replace callback as a function, characterized by RewrittenIffRead and UnmappedFilteredKept and computed by ReplaceUrl |
| Rewrite.AssetSource | index.js:93-97 | where the asset is read from, characterized by EmptyBaseDirResolvesRelative and BaseDirPrefixesAssetPath |
| Rewrite.RewrittenIffRead | index.js:57-125 | a match is rewritten exactly when its reference is eligible and its asset is read; it then becomes `newUrl`, and the artifact carries the document's `cwd` and `base`, the joined new asset path, and the bytes read |
| Rewrite.EmptyBaseDirResolvesRelative | index.js:76-94 | a base-map value of `""` skips the filters but resolves the asset against the document's directory |
| Rewrite.BaseDirPrefixesAssetPath | index.js:93-97 | a non-empty base-map value is prefixed to the asset path as it is |
| Rewrite.UnmappedFilteredKept | index.js:76-85 | with no key matching, an ignored or glob-refused reference keeps its text and records nothing |
| Rewrite.ReplaceUrl | index.js:57-125 | the callback returns the full match and pushes nothing when it keeps the match; otherwise it returns `newUrl` and pushes one artifact |
| Rewrite.CallbackRewritesWhereRead | index.js:57-125 | the callback rewrites exactly the arguments whose reference is eligible and whose asset is read |
| Rewrite.UnreadAssetsLeaveText | index.js:107-113 | when none of the matches the replace visits has an eligible, readable asset, the stylesheet is unchanged and nothing is recorded |
| Rewrite.RecordedCountsReads | index.js:107-124 | the artifacts recorded are exactly as many as the matches whose asset is eligible and read |
| Rewrite.ReplaceMatch | index.js:57-125 | one match handed to the callback keeps the scan's invariant |
| Rewrite.ScanStep | index.js:56-126 | one step of the replace advances and keeps the scan's invariant |
| Rewrite.ReplaceAll | index.js:53-126 | the loop produces the specified replaced text and records the specified artifacts in match order |
| Rewrite.ProcessUrlDecls | index.js:52-135 | `processUrlDecls` returns the replaced text and the deduplicated artifacts, with pairwise distinct relative paths and every recorded relative path kept |
| Plugin.TransformFile | index.js:15-31 | a null or non-`.css` file passes through untouched, a stream fails with `Streaming not supported`, and a buffer is rewritten and pushed after its deduplicated assets, which have pairwise distinct relative paths and include every relative path the callback recorded |
| Plugin.PlainStylesheetUnchanged | index.js:18-31 | a `.css` buffer with no `url(...)` match passes through unchanged with no asset |

## Left out

- `generateDirs` (index.js:88) is an uninterpreted function of the
  document's relative path and the cleaned reference. Its code is not part
  of this model, and so neither is its use of `options.base` (defaulted at
  index.js:13).
- `micromatch.isMatch` (index.js:84) is an uninterpreted predicate.
- `path.resolve`, `path.dirname`, `path.join`, `path.extname` and
  `path.relative` are uninterpreted functions.
- A pipeline file's `relative` is not a stored field: the file object
  computes it from its base and path on every read. The model does the same
  for the stylesheet and for the artifacts (`CssTypes.Relative`, by
  `env.relative(base, path)`), so the key `uniqBy` compares and the path
  `generateDirs` and `cssBaseDirAbs` use come from one definition.
- The collaborators are total functions. An exception thrown by
  `generateDirs` (index.js:88), `path.resolve` (index.js:94) or
  `micromatch.isMatch` (index.js:84) would abort the transform; that is not
  modelled.
- `fs.readFileSync` (index.js:108) is a function from path to optional
  bytes. Any exception it throws is `None`.
- `gutil.log` (index.js:109, 111) only logs, and is not modelled.
- Stream plumbing, `this.push` and the callback `cb` (index.js:15-31,
  130-132) are not modelled. The transform returns a value instead: the
  error, or the pushed assets in order followed by the stylesheet.
- The conversion between `Buffer` and string (index.js:25, 56) is not
  modelled. A buffered file carries its decoded text.
- Strings are sequences of Unicode characters, not UTF-16 code units. An
  astral character is one character here, where JavaScript sees two.
- `absSources` is a list of entries in the object's enumeration order. An
  absent map is the empty list, and non-string values are not modelled.
- `options.match` is optional text. A falsy value (absent or `""`) turns the
  glob off. An array of globs, which micromatch also accepts, is not
  modelled.
- `cssFromDirAbs` (index.js:103) is computed but never used, so it is left
  out.
- Regular expressions run only inside `url\((.*?)\)` and `^[a-z]+:\/\/`. Both
  are modelled as explicit scans, each proved equivalent to its pattern's
  meaning: `UrlMatchAtMeaning` and `HasSchemePrefixMeaning`. There is no
  general regex engine.
