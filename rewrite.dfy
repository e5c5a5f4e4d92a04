/** Rewriting the `url(...)` references of one stylesheet
    (`processUrlDecls`, index.js:52-135): the left-to-right scan for
    `url\((.*?)\)`, the replacement decided for each match, the artifacts
    recorded for the assets read, and their deduplication. */
module Rewrite {
  import opened CssTypes
  import opened UrlValue
  import opened Eligibility
  import opened Dedup
  import opened Scan

  /** The document's root directory, `file.path.substr(0, file.path.length
      - file.relative.length)` (index.js:99); a negative length gives the
      empty string. */
  function CssBaseDirAbs(path: string, relative: string): (r: string)
    ensures |r| <= |path| && r == path[..|r|]
    ensures |relative| <= |path| && path[|path| - |relative|..] == relative ==> r + relative == path
    ensures |r| == if |path| > |relative| then |path| - |relative| else 0
  {
    if |path| - |relative| <= 0 then "" else path[..|path| - |relative|]
  }

  /** Where the asset is read from (index.js:93-97): relative to the
      document's directory unless a truthy base directory was found. */
  function AssetSource(doc: Document, baseDir: Option<string>, assetPath: string, env: Env): string {
    if baseDir.None? || baseDir.value == "" then env.resolve(env.dirname(doc.path), assetPath)
    else baseDir.value + assetPath
  }

  /** Where the copied asset goes (index.js:99-100). */
  function NewAssetFileAbs(doc: Document, newAssetFile: string, env: Env): string {
    env.join(CssBaseDirAbs(doc.path, Relative(doc.base, doc.path, env)), newAssetFile)
  }

  /** The replace callback (index.js:57-125) on the argument `urlMatch`. */
  function UrlCallback(doc: Document, cfg: Config, env: Env, urlMatch: string): Replacement {
    var ref := TrimUrlValue(urlMatch);
    match Classify(ref, cfg, env.isMatch)
    case Ignore => Keep
    case Resolve(baseDir) =>
      var dirs := env.generateDirs(Relative(doc.base, doc.path, env), ref);
      match env.readFile(AssetSource(doc, baseDir, dirs.assetPath, env))
      case None => Keep
      case Some(contents) =>
        Replace(dirs.newUrl, Artifact(doc.cwd, doc.base, NewAssetFileAbs(doc, dirs.newAssetFile, env), contents))
  }

  /** The reference is eligible and its asset could be read. */
  predicate ReadSucceeds(doc: Document, cfg: Config, env: Env, urlMatch: string) {
    var ref := TrimUrlValue(urlMatch);
    var d := Classify(ref, cfg, env.isMatch);
    d.Resolve? &&
    env.readFile(AssetSource(doc, d.baseDir, env.generateDirs(Relative(doc.base, doc.path, env), ref).assetPath, env)).Some?
  }

  /** A match is rewritten exactly when its asset is eligible and read; the
      new text is then the generated URL and the artifact carries the bytes
      read, destined for the document's root joined with the new asset file. */
  lemma RewrittenIffRead(doc: Document, cfg: Config, env: Env, urlMatch: string)
    ensures UrlCallback(doc, cfg, env, urlMatch).Replace? <==> ReadSucceeds(doc, cfg, env, urlMatch)
    ensures UrlCallback(doc, cfg, env, urlMatch).Replace? ==>
      var ref := TrimUrlValue(urlMatch);
      var dirs := env.generateDirs(Relative(doc.base, doc.path, env), ref);
      var r := UrlCallback(doc, cfg, env, urlMatch);
      r.newUrl == dirs.newUrl &&
      r.asset.cwd == doc.cwd && r.asset.base == doc.base &&
      r.asset.path == env.join(CssBaseDirAbs(doc.path, Relative(doc.base, doc.path, env)), dirs.newAssetFile) &&
      Some(r.asset.contents) == env.readFile(AssetSource(doc, Classify(ref, cfg, env.isMatch).baseDir, dirs.assetPath, env))
  {
  }

  /** A base-map value of "" still skips the filters (it is not `false`) but,
      being falsy, resolves the asset against the document's directory. */
  lemma EmptyBaseDirResolvesRelative(doc: Document, cfg: Config, env: Env, urlMatch: string, i: int)
    requires IsLastMatch(TrimUrlValue(urlMatch), cfg.absSources, i)
    requires cfg.absSources[i].1 == ""
    ensures ReadSucceeds(doc, cfg, env, urlMatch) <==>
      env.readFile(env.resolve(env.dirname(doc.path),
                               env.generateDirs(Relative(doc.base, doc.path, env), TrimUrlValue(urlMatch)).assetPath)).Some?
  {
    MappedReferenceSkipsFilters(TrimUrlValue(urlMatch), cfg, env.isMatch, i);
  }

  /** A non-empty base-map value is prefixed to the asset path as it is. */
  lemma BaseDirPrefixesAssetPath(doc: Document, cfg: Config, env: Env, urlMatch: string, i: int)
    requires IsLastMatch(TrimUrlValue(urlMatch), cfg.absSources, i)
    requires cfg.absSources[i].1 != ""
    ensures ReadSucceeds(doc, cfg, env, urlMatch) <==>
      env.readFile(cfg.absSources[i].1 +
                   env.generateDirs(Relative(doc.base, doc.path, env), TrimUrlValue(urlMatch)).assetPath).Some?
  {
    MappedReferenceSkipsFilters(TrimUrlValue(urlMatch), cfg, env.isMatch, i);
  }

  /** With no base-map key matching, an ignored or glob-refused reference
      keeps its text and records nothing. */
  lemma UnmappedFilteredKept(doc: Document, cfg: Config, env: Env, urlMatch: string)
    requires var ref := TrimUrlValue(urlMatch);
      (forall i :: 0 <= i < |cfg.absSources| ==> !KeyMatches(ref, cfg.absSources[i].0)) &&
      (IsIgnoredUrl(ref) || PatternRejects(ref, cfg.matchPattern, env.isMatch))
    ensures UrlCallback(doc, cfg, env, urlMatch) == Keep
  {
    BaseDirForNone(TrimUrlValue(urlMatch), cfg.absSources);
  }

  /** The callback as the program runs it: the base-map loop, the filters,
      the directory generator, the read, and the artifact pushed. */
  method ReplaceUrl(doc: Document, cfg: Config, env: Env, fullMatch: string, urlMatch: string)
    returns (replacement: string, asset: Option<Artifact>)
    ensures UrlCallback(doc, cfg, env, urlMatch).Keep? ==> replacement == fullMatch && asset == None
    ensures UrlCallback(doc, cfg, env, urlMatch).Replace? ==>
      replacement == UrlCallback(doc, cfg, env, urlMatch).newUrl &&
      asset == Some(UrlCallback(doc, cfg, env, urlMatch).asset)
  {
    var ref := TrimUrlValue(urlMatch);
    var assetFromBaseDir := FindBaseDir(ref, cfg.absSources);
    if assetFromBaseDir.None? {
      if IsIgnoredUrl(ref) {
        return fullMatch, None;
      }
      if PatternRejects(ref, cfg.matchPattern, env.isMatch) {
        return fullMatch, None;
      }
    }
    var dirs := env.generateDirs(Relative(doc.base, doc.path, env), ref);
    var assetFromAbs := AssetSource(doc, assetFromBaseDir, dirs.assetPath, env);
    var newAssetFileAbs := NewAssetFileAbs(doc, dirs.newAssetFile, env);
    var contents := env.readFile(assetFromAbs);
    if contents.None? {
      return fullMatch, None;
    }
    asset := Some(Artifact(doc.cwd, doc.base, newAssetFileAbs, contents.value));
    replacement := dirs.newUrl;
  }

  /** The callback of `processUrlDecls` for one document, as a value. */
  function Callback(doc: Document, cfg: Config, env: Env): string -> Replacement {
    (urlMatch: string) => UrlCallback(doc, cfg, env, urlMatch)
  }

  /** `cb` answers every argument as the callback does. */
  ghost predicate AnswersLike(cb: string -> Replacement, doc: Document, cfg: Config, env: Env) {
    forall urlMatch {:trigger UrlCallback(doc, cfg, env, urlMatch)} :: cb(urlMatch) == UrlCallback(doc, cfg, env, urlMatch)
  }

  /** When none of the matches the replace visits in `s` has an eligible,
      readable asset, the stylesheet text is left as it is and nothing is
      recorded. */
  lemma UnreadAssetsLeaveText(s: string, doc: Document, cfg: Config, env: Env)
    requires MatchesWhere(s, 0, (urlMatch: string) => ReadSucceeds(doc, cfg, env, urlMatch)) == 0
    ensures RenderFrom(s, 0, Callback(doc, cfg, env)) == s
    ensures RecordedFrom(s, 0, Callback(doc, cfg, env)) == []
  {
    var cb := Callback(doc, cfg, env);
    var p := (urlMatch: string) => ReadSucceeds(doc, cfg, env, urlMatch);
    CallbackRewritesWhereRead(doc, cfg, env);
    KeptIsIdentity(s, 0, cb, p);
    KeptRecordsNothing(s, 0, cb, p);
    assert s[0..] == s;
  }

  /** The callback rewrites exactly the arguments whose asset is eligible
      and read. */
  lemma CallbackRewritesWhereRead(doc: Document, cfg: Config, env: Env)
    ensures RewritesWhere(Callback(doc, cfg, env), (urlMatch: string) => ReadSucceeds(doc, cfg, env, urlMatch))
  {
    forall arg
      ensures Callback(doc, cfg, env)(arg).Replace? <==> ReadSucceeds(doc, cfg, env, arg)
    {
      RewrittenIffRead(doc, cfg, env, arg);
    }
  }

  /** The artifacts recorded for a stylesheet are exactly as many as its
      matches whose asset is eligible and read. */
  lemma RecordedCountsReads(s: string, doc: Document, cfg: Config, env: Env)
    ensures |RecordedFrom(s, 0, Callback(doc, cfg, env))| ==
            MatchesWhere(s, 0, (urlMatch: string) => ReadSucceeds(doc, cfg, env, urlMatch))
  {
    CallbackRewritesWhereRead(doc, cfg, env);
    RecordedCountsRewrites(s, 0, Callback(doc, cfg, env), (urlMatch: string) => ReadSucceeds(doc, cfg, env, urlMatch));
  }

  /** The key `_.uniqBy(files, 'relative')` compares: the artifact's path
      relative to its base. */
  function RelativeKey(env: Env): Artifact -> string {
    (a: Artifact) => Relative(a.base, a.path, env)
  }

  /** The callback applied to the match `text[i..k + 1]`: its answer is
      appended to the new text and its artifact, if any, pushed. */
  method ReplaceMatch(doc: Document, text: string, cfg: Config, env: Env, i: nat, k: nat,
                      newText: string, files: seq<Artifact>,
                      ghost cb: string -> Replacement, ghost total: string, ghost totalFiles: seq<Artifact>)
    returns (newText': string, files': seq<Artifact>)
    requires i < |text| && UrlMatchAt(text, i) == Some(k) && AnswersLike(cb, doc, cfg, env)
    requires ScannedUpTo(text, i, cb, newText, files, total, totalFiles)
    ensures ScannedUpTo(text, k + 1, cb, newText', files', total, totalFiles)
  {
    var replacement, asset := ReplaceUrl(doc, cfg, env, text[i..k + 1], text[i + 4..k]);
    UrlAdvance(text, i, k, cb, newText, files, replacement, asset, total, totalFiles);
    newText', files' := newText + replacement, Pushed(files, asset);
  }

  /** One turn of the global replace at `i`: either a whole match, handed to
      the callback, or one character copied. */
  method ScanStep(doc: Document, text: string, cfg: Config, env: Env, i: nat, newText: string, files: seq<Artifact>,
                  ghost cb: string -> Replacement, ghost total: string, ghost totalFiles: seq<Artifact>)
    returns (i': nat, newText': string, files': seq<Artifact>)
    requires i < |text| && AnswersLike(cb, doc, cfg, env)
    requires ScannedUpTo(text, i, cb, newText, files, total, totalFiles)
    ensures i < i' <= |text| && ScannedUpTo(text, i', cb, newText', files', total, totalFiles)
  {
    var m := UrlMatchAt(text, i);
    if m.Some? {
      newText', files' := ReplaceMatch(doc, text, cfg, env, i, m.value, newText, files, cb, total, totalFiles);
      i' := m.value + 1;
    } else {
      CopyAdvance(text, i, cb, newText, files, total, totalFiles);
      i', newText', files' := i + 1, newText + [text[i]], files;
    }
  }

  /** The global replace: the text scanned left to right, each match handed
      to the callback, every artifact it records kept in order. */
  method ReplaceAll(doc: Document, text: string, cfg: Config, env: Env, ghost cb: string -> Replacement)
    returns (newText: string, files: seq<Artifact>)
    requires AnswersLike(cb, doc, cfg, env)
    ensures newText == RenderFrom(text, 0, cb)
    ensures files == RecordedFrom(text, 0, cb)
  {
    ghost var total := RenderFrom(text, 0, cb);
    ghost var totalFiles := RecordedFrom(text, 0, cb);
    files := [];
    newText := "";
    var i := 0;
    assert [] + totalFiles == totalFiles;
    while i < |text|
      invariant i <= |text| && ScannedUpTo(text, i, cb, newText, files, total, totalFiles)
      decreases |text| - i
    {
      i, newText, files := ScanStep(doc, text, cfg, env, i, newText, files, cb, total, totalFiles);
    }
    assert newText + "" == newText && files + [] == files;
  }

  /** `processUrlDecls`: the global replace, then the artifacts recorded
      collapsed to the first one for each relative path. */
  method ProcessUrlDecls(doc: Document, text: string, cfg: Config, env: Env)
    returns (newText: string, files: seq<Artifact>)
    ensures newText == RenderFrom(text, 0, Callback(doc, cfg, env))
    ensures files == UniqBy(RecordedFrom(text, 0, Callback(doc, cfg, env)), RelativeKey(env))
    ensures KeysDistinct(files, RelativeKey(env))
    ensures KeySet(files, RelativeKey(env)) == KeySet(RecordedFrom(text, 0, Callback(doc, cfg, env)), RelativeKey(env))
  {
    newText, files := ReplaceAll(doc, text, cfg, env, Callback(doc, cfg, env));
    UniqByFirstOccurrences(files, RelativeKey(env));
    files := UniqBy(files, RelativeKey(env));
  }
}
