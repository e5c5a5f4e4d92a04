/** Values shared by the stylesheet rewriter: the documents it receives,
    the asset artifacts it emits, its options, and the collaborators it
    calls but whose code is not part of this model. */
module CssTypes {

  datatype Option<T> = None | Some(value: T)

  newtype byte = x: int | 0 <= x < 256

  /** What a pipeline file carries: nothing, a stream, or a complete buffer
      (its text, after decoding). */
  datatype Contents = Null | Stream | Buffer(text: string)

  /** A stylesheet document as the pipeline delivers it. */
  datatype Document = Document(
    cwd: string,
    base: string,
    path: string,
    contents: Contents)

  /** An asset discovered while rewriting one document: the bytes read from
      disk, to be written at `path` by the pipeline. */
  datatype Artifact = Artifact(
    cwd: string,
    base: string,
    path: string,
    contents: seq<byte>)

  /** Options. `absSources` lists the base-map entries in the order in
      which they are enumerated (an absent map is the empty list);
      `matchPattern` is the optional eligibility glob (the `match` option). */
  datatype Config = Config(
    absSources: seq<(string, string)>,
    matchPattern: Option<string>)

  /** The three paths computed for one reference by the directory generator. */
  datatype Dirs = Dirs(newUrl: string, assetPath: string, newAssetFile: string)

  /** Collaborators: the directory generator (with the options it reads
      already bound), the glob matcher, the file system read (None when the
      read throws), and the platform path functions. */
  datatype Env = Env(
    generateDirs: (string, string) -> Dirs,
    isMatch: (string, string) -> bool,
    readFile: string -> Option<seq<byte>>,
    resolve: (string, string) -> string,
    dirname: string -> string,
    join: (string, string) -> string,
    extname: string -> string,
    relative: (string, string) -> string)

  /** A pipeline file's `relative`: its path relative to its base, as the
      file object computes it on every read. */
  function Relative(base: string, path: string, env: Env): string {
    env.relative(base, path)
  }
}
