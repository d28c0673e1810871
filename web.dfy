/**
 * The rendering behind the web pages: the directory listing with its two sorts and its
 * readme, the file view, and the ordering of the index page. Templates, links as text
 * and HTTP are not modelled; each page is modelled by the values it hands its template.
 */
module Web {
  import opened Wrappers
  import opened Bytes
  import opened RepoPath
  import opened Repo
  import opened Sorting
  import Hexdump
  import GitRepo

  // ---------------------------------------------------------------------------
  // Directory listing

  /** An entry the listing can show: its name is UTF-8 and its mode is one of the three kinds. */
  predicate Listable(e: GitRepo.Entry) {
    ValidUtf8(e.name) && FromMode(e.filemode).Some?
  }

  /** The `File` an entry of directory `parent` becomes. */
  function FileOf(e: GitRepo.Entry, parent: Path, repoName: Str, refs: Str): (f: File)
    requires Listable(e)
    ensures f.name == e.name && f.path == parent + [e.name]
    ensures f.href == TreeHref(repoName, refs, f.path) && ModeCode(f.mode) == e.filemode
  {
    var path := parent + [e.name];
    File.File(e.name, path, TreeHref(repoName, refs, path), FromMode(e.filemode).value)
  }

  /** The `filter_map` over the tree: the listable entries, in tree order, each as its `File`. */
  function Listed(entries: seq<GitRepo.Entry>, parent: Path, repoName: Str, refs: Str): (r: seq<File>)
    ensures |r| <= |entries|
    ensures forall i :: 0 <= i < |r| ==> r[i].path == parent + [r[i].name] && ValidUtf8(r[i].name)
  {
    if entries == [] then []
    else
      var e := entries[|entries| - 1];
      Listed(entries[..|entries| - 1], parent, repoName, refs)
        + (if Listable(e) then [FileOf(e, parent, repoName, refs)] else [])
  }

  /** Every listable entry is shown, and everything shown comes from a listable entry. */
  lemma {:induction false} ListedExactly(entries: seq<GitRepo.Entry>, parent: Path, repoName: Str, refs: Str, f: File)
    ensures f in Listed(entries, parent, repoName, refs)
            <==> exists e :: e in entries && Listable(e) && FileOf(e, parent, repoName, refs) == f
  {
    if entries != [] {
      var init, e := entries[..|entries| - 1], entries[|entries| - 1];
      ListedExactly(init, parent, repoName, refs, f);
      assert entries == init + [e];
      if f in Listed(entries, parent, repoName, refs) && f !in Listed(init, parent, repoName, refs) {
        assert Listable(e) && FileOf(e, parent, repoName, refs) == f;
      }
    }
  }

  /** The key of the first sort: the ASCII-lower-cased name. */
  function FileKey(f: File): Str {
    Lower(f.name)
  }

  predicate IsDir(f: File) {
    f.mode == Dir
  }

  /** What the readme box of a listing shows. */
  datatype Readme = Readme(content: Str, isHtml: bool)

  /**
   * `render_ls_files`: the listable entries, sorted by lower-cased name and then stably
   * with directories first, and the readme rendered against that list.
   */
  method RenderLsFiles(entries: seq<GitRepo.Entry>, refs: Str, parent: Path, repo: Repo, s: GitRepo.Store,
                       conv: GitRepo.ForeachConvention, parseOid: Str -> Option<GitRepo.Oid>,
                       lossy: Str -> Str, markdown: Str -> Str)
    returns (files: seq<File>, readme: Option<Readme>)
    ensures multiset(files) == multiset(Listed(entries, parent, repo.name, refs))
    ensures forall i, j :: 0 <= i < j < |files| && !IsDir(files[i]) ==> !IsDir(files[j])
    ensures forall i, j :: 0 <= i < j < |files| && (IsDir(files[i]) <==> IsDir(files[j]))
                           ==> LexLeq(FileKey(files[i]), FileKey(files[j]))
    ensures readme == RenderReadme(refs, files, repo, s, conv, parseOid, lossy, markdown)
  {
    var listed := Listed(entries, parent, repo.name, refs);
    var a := new File[|listed|](i requires 0 <= i < |listed| => listed[i]);
    assert a[..] == listed;
    SortUnstableByKey(a, FileKey);
    ghost var byName := a[..];
    StablePartition(a, IsDir);
    FilterSplitsMultiset(IsDir, byName);
    PartitionGroupsFirst(IsDir, byName);
    PartitionKeepsGroupsSorted(IsDir, byName, FileKey);
    files := a[..];
    readme := RenderReadme(refs, files, repo, s, conv, parseOid, lossy, markdown);
  }

  /** `find` over the listing: the first file whose path is `path`. */
  function FindFile(files: seq<File>, path: Path): (r: Option<File>)
    ensures r.None? <==> forall i :: 0 <= i < |files| ==> files[i].path != path
    ensures r.Some? ==> exists k :: 0 <= k < |files| && files[k] == r.value && r.value.path == path
                                    && forall j :: 0 <= j < k ==> files[j].path != path
  {
    if files == [] then None
    else if files[0].path == path then Some(files[0])
    else
      var rest := FindFile(files[1..], path);
      assert rest.Some? ==> exists k :: 0 <= k < |files| && files[k] == rest.value
                                  && forall j :: 0 <= j < k ==> files[j].path != path by {
        if rest.Some? {
          var k :| 0 <= k < |files[1..]| && files[1..][k] == rest.value && forall j :: 0 <= j < k ==> files[1..][j].path != path;
          assert files[k + 1] == rest.value;
          assert forall j :: 1 <= j < k + 1 ==> files[j] == files[1..][j - 1];
        }
      }
      rest
  }

  /**
   * `render_readme`: a readme is shown only when the repository names one, it is in the
   * listing, it resolves to a blob without error and git does not think it binary.
   * Markdown (`.md`) is rendered to HTML; anything else is shown as text.
   */
  function RenderReadme(refs: Str, files: seq<File>, repo: Repo, s: GitRepo.Store,
                        conv: GitRepo.ForeachConvention, parseOid: Str -> Option<GitRepo.Oid>,
                        lossy: Str -> Str, markdown: Str -> Str): (r: Option<Readme>)
    ensures r.Some? ==> repo.readmePath.Some? && FindFile(files, repo.readmePath.value).Some?
    ensures r.Some? ==>
      var found := GitRepo.FindSubtreeObjectByPath(s, refs, repo.readmePath.value, conv, parseOid);
      && found.Ok? && found.value.Some? && found.value.value.Blob? && !found.value.value.binary
      && var text := lossy(found.value.value.content);
         r.value == (if EndsWith(FindFile(files, repo.readmePath.value).value.name, Ascii(".md"))
                     then Readme(markdown(text), true) else Readme(text, false))
  {
    if repo.readmePath.None? then None
    else
      var path := repo.readmePath.value;
      match FindFile(files, path)
      case None => None
      case Some(file) =>
        match GitRepo.FindSubtreeObjectByPath(s, refs, path, conv, parseOid)
        case Err(_) => None
        case Ok(None) => None
        case Ok(Some(found)) =>
          if found.Tree? || found.binary then None
          else
            var text := lossy(found.content);
            if EndsWith(file.name, Ascii(".md")) then Some(Readme(markdown(text), true))
            else Some(Readme(text, false))
  }

  /** The readme is shown only in the listing of the directory that holds it. */
  lemma ReadmeOnlyInItsDirectory(entries: seq<GitRepo.Entry>, files: seq<File>, refs: Str, parent: Path, repo: Repo,
                                 s: GitRepo.Store, conv: GitRepo.ForeachConvention, parseOid: Str -> Option<GitRepo.Oid>,
                                 lossy: Str -> Str, markdown: Str -> Str)
    requires multiset(files) == multiset(Listed(entries, parent, repo.name, refs))
    requires RenderReadme(refs, files, repo, s, conv, parseOid, lossy, markdown).Some?
    ensures var p := repo.readmePath.value; |p| == |parent| + 1 && p[..|parent|] == parent
  {
    var p := repo.readmePath.value;
    var f := FindFile(files, p).value;
    assert f in multiset(Listed(entries, parent, repo.name, refs));
    var listed := Listed(entries, parent, repo.name, refs);
    var k :| 0 <= k < |listed| && listed[k] == f;
    assert (parent + [f.name])[..|parent|] == parent;
  }

  /** With an error-free lookup of a text `.md` readme, the box holds its markdown rendered as HTML. */
  lemma MarkdownReadmeIsHtml(refs: Str, files: seq<File>, repo: Repo, s: GitRepo.Store,
                             conv: GitRepo.ForeachConvention, parseOid: Str -> Option<GitRepo.Oid>,
                             lossy: Str -> Str, markdown: Str -> Str, file: File, content: Str)
    requires repo.readmePath.Some? && FindFile(files, repo.readmePath.value) == Some(file)
    requires GitRepo.FindSubtreeObjectByPath(s, refs, repo.readmePath.value, conv, parseOid)
             == Ok(Some(GitRepo.Blob(content, false)))
    ensures var r := RenderReadme(refs, files, repo, s, conv, parseOid, lossy, markdown);
      && r.Some?
      && (r.value.isHtml <==> EndsWith(file.name, Ascii(".md")))
      && r.value.content == (if r.value.isHtml then markdown(lossy(content)) else lossy(content))
  {
  }

  /** A readme that fails to resolve, or resolves to a directory or a binary blob, is silently not shown. */
  lemma UnusableReadmeIsHidden(refs: Str, files: seq<File>, repo: Repo, s: GitRepo.Store,
                               conv: GitRepo.ForeachConvention, parseOid: Str -> Option<GitRepo.Oid>,
                               lossy: Str -> Str, markdown: Str -> Str)
    requires repo.readmePath.Some?
    requires var o := GitRepo.FindSubtreeObjectByPath(s, refs, repo.readmePath.value, conv, parseOid);
             o.Err? || o.value.None? || o.value.value.Tree? || o.value.value.binary
    ensures RenderReadme(refs, files, repo, s, conv, parseOid, lossy, markdown).None?
  {
  }

  // ---------------------------------------------------------------------------
  // File view

  /** The language the viewer is told for binary blobs, whose contents are the hex dump. */
  function Xxd(): Str { Ascii("xxd") }

  /** What the file template is given. */
  datatype BlobView = BlobView(name: Str, contents: Str, lang: Option<Str>)

  /** `lang_override.iter().find(..)`: the language of the first pattern, in list order, that matches. */
  function FirstLang(overrides: seq<(Pattern, Str)>, name: Str, globMatch: (Pattern, Str) -> bool): (r: Option<Str>)
    ensures r.None? <==> forall k :: 0 <= k < |overrides| ==> !globMatch(overrides[k].0, name)
    ensures r.Some? ==> exists k :: 0 <= k < |overrides| && globMatch(overrides[k].0, name) && r.value == overrides[k].1
                                    && forall j :: 0 <= j < k ==> !globMatch(overrides[j].0, name)
  {
    if overrides == [] then None
    else if globMatch(overrides[0].0, name) then Some(overrides[0].1)
    else
      var rest := FirstLang(overrides[1..], name, globMatch);
      assert rest.Some? ==> exists k :: 0 <= k < |overrides| && globMatch(overrides[k].0, name)
                                  && rest.value == overrides[k].1
                                  && forall j :: 0 <= j < k ==> !globMatch(overrides[j].0, name) by {
        if rest.Some? {
          var k :| 0 <= k < |overrides[1..]| && globMatch(overrides[1..][k].0, name) && rest.value == overrides[1..][k].1
                   && forall j :: 0 <= j < k ==> !globMatch(overrides[1..][j].0, name);
          assert overrides[k + 1] == overrides[1..][k];
          assert forall j :: 1 <= j < k + 1 ==> overrides[j] == overrides[1..][j - 1];
        }
      }
      rest
  }

  /**
   * `render_blob`: the file name is the last path component. A binary blob is shown as
   * its hex dump with the language `xxd`; a text blob is shown lossily decoded, with the
   * language of the first override whose pattern matches the name.
   */
  function RenderBlob(path: Path, content: Str, binary: bool, repo: Repo,
                      lossy: Str -> Str, globMatch: (Pattern, Str) -> bool): (r: BlobView)
    requires |path| > 0
    ensures r.name == path[|path| - 1]
    ensures binary ==> r.contents == Hexdump.Hexdump(content) && r.lang == Some(Xxd())
    ensures !binary ==> r.contents == lossy(content) && r.lang == FirstLang(repo.langOverride, r.name, globMatch)
  {
    var name := path[|path| - 1];
    if binary then BlobView(name, Hexdump.Hexdump(content), Some(Xxd()))
    else BlobView(name, lossy(content), FirstLang(repo.langOverride, name, globMatch))
  }

  /** Overrides are never consulted for binary blobs. */
  lemma BinaryIgnoresOverrides(path: Path, content: Str, repo: Repo, other: Repo,
                               lossy: Str -> Str, globMatch: (Pattern, Str) -> bool)
    requires |path| > 0
    ensures RenderBlob(path, content, true, repo, lossy, globMatch) == RenderBlob(path, content, true, other, lossy, globMatch)
  {
  }

  /** An earlier matching override shadows every later one. */
  lemma FirstOverrideWins(overrides: seq<(Pattern, Str)>, name: Str, globMatch: (Pattern, Str) -> bool, k: nat)
    requires k < |overrides| && globMatch(overrides[k].0, name)
    requires forall j :: 0 <= j < k ==> !globMatch(overrides[j].0, name)
    ensures FirstLang(overrides, name, globMatch) == Some(overrides[k].1)
  {
    var r := FirstLang(overrides, name, globMatch);
    var m :| 0 <= m < |overrides| && globMatch(overrides[m].0, name) && r.value == overrides[m].1
             && forall j :: 0 <= j < m ==> !globMatch(overrides[j].0, name);
    assert m == k;
  }

  // ---------------------------------------------------------------------------
  // Index page

  function RepoKey(r: Repo): Str {
    Lower(r.name)
  }

  /** `index`: the repositories, sorted by lower-cased name with `sort_unstable_by_key`. */
  method SortIndex(repos: seq<Repo>) returns (sorted: seq<Repo>)
    ensures SortedBy(sorted, RepoKey)
    ensures multiset(sorted) == multiset(repos)
  {
    var a := new Repo[|repos|](i requires 0 <= i < |repos| => repos[i]);
    assert a[..] == repos;
    SortUnstableByKey(a, RepoKey);
    sorted := a[..];
  }
}
