/**
 * Per-repository metadata: the file modes a listing recognises, and `Repo::open`,
 * which turns the repository's already-parsed `site.toml` into a `Repo`.
 */
module Repo {
  import opened Wrappers
  import opened Bytes
  import opened RepoPath

  /** Links handed to the templates. Their text is built by the web framework; here they are opaque values. */
  datatype Href =
    | HomeHref(repo: Str)
    | TreeHref(repo: Str, refs: Str, path: Path)
    | RefsHref(repo: Str, refs: Str, path: Path)

  /** The outcome of a request guard. */
  datatype Outcome<+T> = Success(value: T) | Forward | Failure(status: Status)

  datatype Status = BadRequest | InternalServerError

  datatype FileMode = File | Dir | Exe

  const MODE_FILE: int := 0x81A4  // octal 100644, a regular file
  const MODE_EXE: int := 0x81ED   // octal 100755, an executable file
  const MODE_DIR: int := 0x4000   // octal 040000, a tree

  /** The git mode code of each kind a listing shows. */
  function ModeCode(m: FileMode): int {
    match m
    case File => MODE_FILE
    case Exe => MODE_EXE
    case Dir => MODE_DIR
  }

  /** `FileMode::from_mode`: exactly the three codes above decode; any other code is dropped (with a warning). */
  function FromMode(mode: int): (r: Option<FileMode>)
    ensures r.Some? <==> mode in {MODE_FILE, MODE_EXE, MODE_DIR}
    ensures r.Some? ==> ModeCode(r.value) == mode
  {
    if mode == MODE_FILE then Some(FileMode.File)
    else if mode == MODE_EXE then Some(Exe)
    else if mode == MODE_DIR then Some(Dir)
    else None
  }

  /** Decoding inverts the code of every kind. */
  lemma FromModeCode(m: FileMode)
    ensures FromMode(ModeCode(m)) == Some(m)
  {
  }

  /** One entry of a directory listing. */
  datatype File = File(name: Str, path: Path, href: Href, mode: FileMode)

  /** A glob pattern that compiled; the text it was compiled from identifies it. */
  datatype Pattern = Pattern(source: Str)

  datatype Repo = Repo(
    name: Str,
    path: Str,
    href: Href,
    description: Option<Str>,
    defaultBranch: Str,
    readmePath: Option<Path>,
    langOverride: seq<(Pattern, Str)>)  // (pattern, language) in the order the config map yields them

  /** A path as written in the config: `rooted` when it starts at the root component `/`. */
  datatype ConfigPath = ConfigPath(rooted: bool, parts: Path)

  /**
   * The parsed `site.toml`. A missing `default_branch` is a deserialisation error, kept
   * here as `None` so that `Open` can report it. `langOverride` holds the
   * (language, pattern) pairs of the `lang_override` map in its iteration order, which
   * the source does not fix (it is a `HashMap`).
   */
  datatype Config = Config(
    defaultBranch: Option<Str>,
    description: Option<Str>,
    readme: Option<ConfigPath>,
    langOverride: seq<(Str, Str)>)

  /** What is found at `<repo>/site.toml`. */
  datatype Descriptor = Absent | Unreadable | Unparsable | Parsed(config: Config)

  datatype OpenError = ReadingConfig | ParsingConfig

  /** The `filter_map` over the override table: entries whose pattern compiles, as (pattern, language). */
  function Overrides(raw: seq<(Str, Str)>, compiles: Str -> bool): (r: seq<(Pattern, Str)>)
    ensures |r| <= |raw|
    ensures forall lang, patt :: (Pattern(patt), lang) in r <==> (lang, patt) in raw && compiles(patt)
  {
    if raw == [] then []
    else
      var rest := Overrides(raw[1..], compiles);
      assert forall e :: e in raw[1..] ==> e in raw;
      assert forall e :: e in raw ==> e == raw[0] || e in raw[1..];
      var (lang, patt) := raw[0];
      if compiles(patt) then [(Pattern(patt), lang)] + rest else rest
  }

  /** Number of override entries whose pattern compiles. */
  function CountCompiling(raw: seq<(Str, Str)>, compiles: Str -> bool): nat {
    if raw == [] then 0 else (if compiles(raw[0].1) then 1 else 0) + CountCompiling(raw[1..], compiles)
  }

  /** Bad patterns are dropped one by one: every compiling entry survives, none is merged away. */
  lemma {:induction false} OverridesKeepsEveryCompilingEntry(raw: seq<(Str, Str)>, compiles: Str -> bool)
    ensures |Overrides(raw, compiles)| == CountCompiling(raw, compiles)
  {
    if raw != [] {
      OverridesKeepsEveryCompilingEntry(raw[1..], compiles);
    }
  }

  /** Readme paths are relative to the repository root: a leading root component is stripped. */
  function NormaliseReadme(p: ConfigPath): (r: ConfigPath)
    ensures !r.rooted && r.parts == p.parts
    ensures !p.rooted ==> r == p
  {
    if p.rooted then ConfigPath(false, p.parts) else p
  }

  lemma NormaliseReadmeIdempotent(p: ConfigPath)
    ensures NormaliseReadme(NormaliseReadme(p)) == NormaliseReadme(p)
  {
  }

  /** `Repo::open` after the file has been read and parsed. */
  function Open(repoPath: Str, repoName: Str, d: Descriptor, compiles: Str -> bool): (r: Result<Option<Repo>, OpenError>)
    ensures r == Ok(None) <==> d.Absent?
    ensures r.Err? <==> d.Unreadable? || d.Unparsable? || (d.Parsed? && d.config.defaultBranch.None?)
    ensures d.Unreadable? ==> r == Err(ReadingConfig)
    ensures d.Unparsable? || (d.Parsed? && d.config.defaultBranch.None?) ==> r == Err(ParsingConfig)
    ensures r.Ok? && r.value.Some? ==>
      var repo := r.value.value;
      && repo.name == repoName && repo.path == repoPath && repo.href == HomeHref(repoName)
      && repo.description == d.config.description
      && Some(repo.defaultBranch) == d.config.defaultBranch
      && repo.langOverride == Overrides(d.config.langOverride, compiles)
      && (repo.readmePath.Some? <==> d.config.readme.Some?)
      && (repo.readmePath.Some? ==> repo.readmePath.value == d.config.readme.value.parts)
  {
    match d
    case Absent => Ok(None)
    case Unreadable => Err(ReadingConfig)
    case Unparsable => Err(ParsingConfig)
    case Parsed(config) =>
      if config.defaultBranch.None? then Err(ParsingConfig)
      else
        var readme := if config.readme.Some? then Some(NormaliseReadme(config.readme.value).parts) else None;
        Ok(Some(Repo(repoName, repoPath, HomeHref(repoName), config.description,
                     config.defaultBranch.value, readme, Overrides(config.langOverride, compiles))))
  }

  /** The `Repo` request guard: no repository name or no `site.toml` forwards; an open failure fails the request. */
  function FromRequest(repoName: Option<Str>, repoPath: Str, d: Descriptor, compiles: Str -> bool): (r: Outcome<Repo>)
    ensures r.Success? <==> repoName.Some? && Open(repoPath, repoName.value, d, compiles).Ok? && !d.Absent?
    ensures r.Failure? <==> repoName.Some? && Open(repoPath, repoName.value, d, compiles).Err?
    ensures r.Failure? ==> r.status == InternalServerError
    ensures r.Success? ==> Open(repoPath, repoName.value, d, compiles) == Ok(Some(r.value))
  {
    if repoName.None? then Forward
    else
      match Open(repoPath, repoName.value, d, compiles)
      case Ok(Some(repo)) => Success(repo)
      case Ok(None) => Forward
      case Err(_) => Failure(InternalServerError)
  }
}
