/** The stream transform applied to each file (index.js:11-31): files with
    no contents or another extension pass through, streamed contents are
    refused, and a buffered stylesheet is rewritten, its copied assets
    pushed ahead of it. */
module Plugin {
  import opened CssTypes
  import opened Dedup
  import opened Scan
  import opened Rewrite

  /** What the transform hands on for one file: an error, or the assets it
      pushed followed by the file itself. */
  datatype Outcome = Failed(plugin: string, message: string) | Passed(assets: seq<Artifact>, file: Document)

  /** Only `.css` files that carry contents are touched. */
  predicate IsCssWithContents(file: Document, env: Env) {
    !file.contents.Null? && env.extname(Relative(file.base, file.path, env)) == ".css"
  }

  /** The transform callback for one file. The assets pushed ahead of a
      rewritten stylesheet have pairwise distinct relative paths, and every
      relative path the callback recorded is among them. */
  method TransformFile(file: Document, cfg: Config, env: Env) returns (out: Outcome)
    ensures !IsCssWithContents(file, env) ==> out == Passed([], file)
    ensures IsCssWithContents(file, env) && file.contents.Stream? ==>
      out == Failed("gulp-css-useref", "Streaming not supported")
    ensures IsCssWithContents(file, env) && file.contents.Buffer? ==>
      var text := file.contents.text;
      var cb := Callback(file, cfg, env);
      out == Passed(UniqBy(RecordedFrom(text, 0, cb), RelativeKey(env)),
                    file.(contents := Buffer(RenderFrom(text, 0, cb))))
    ensures out.Passed? ==> KeysDistinct(out.assets, RelativeKey(env))
    ensures IsCssWithContents(file, env) && file.contents.Buffer? ==>
      KeySet(out.assets, RelativeKey(env)) == KeySet(RecordedFrom(file.contents.text, 0, Callback(file, cfg, env)), RelativeKey(env))
  {
    if file.contents.Null? || env.extname(Relative(file.base, file.path, env)) != ".css" {
      return Passed([], file);
    }
    if file.contents.Stream? {
      return Failed("gulp-css-useref", "Streaming not supported");
    }
    var newContents, files := ProcessUrlDecls(file, file.contents.text, cfg, env);
    out := Passed(files, file.(contents := Buffer(newContents)));
  }

  /** A stylesheet with no `url(...)` on any line leaves the transform as it
      came, with no asset. */
  lemma PlainStylesheetUnchanged(file: Document, cfg: Config, env: Env)
    requires IsCssWithContents(file, env) && file.contents.Buffer?
    requires forall i, k :: !MatchEndsAt(file.contents.text, i, k)
    ensures var cb := Callback(file, cfg, env);
      Passed(UniqBy(RecordedFrom(file.contents.text, 0, cb), RelativeKey(env)),
             file.(contents := Buffer(RenderFrom(file.contents.text, 0, cb)))) == Passed([], file)
  {
    NoMatchNoChange(file.contents.text, Callback(file, cfg, env));
  }
}
