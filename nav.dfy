/**
 * The navigation guard: the breadcrumb trail from the repository root down to the
 * current path, and the link to the ref picker when the request names a ref.
 */
module Nav {
  import opened Wrappers
  import opened Bytes
  import opened RepoPath
  import opened Repo

  datatype Segment = Segment(name: Str, href: Href)

  datatype RefNav = RefNav(current: Str, href: Href)

  datatype NavView = NavView(segments: seq<Segment>, refs: Option<RefNav>)

  /** `Path::ancestors`: the path itself, then each shorter prefix, down to the empty root. */
  function Ancestors(path: Path): (r: seq<Path>)
    ensures |r| == |path| + 1 && r[0] == path && r[|path|] == []
  {
    seq(|path| + 1, i requires 0 <= i <= |path| => path[..|path| - i])
  }

  /** The crumb of one ancestor: named by its last component, or by the repository at the root. */
  function Crumb(repo: Repo, refs: Str, path: Path): Segment {
    Segment(if path == [] then repo.name else path[|path| - 1], TreeHref(repo.name, refs, path))
  }

  /** The trail as `ancestors().map(..).collect()` yields it: leaf first. */
  function LeafFirst(repo: Repo, refs: Str, path: Path): seq<Segment> {
    var ancestors := Ancestors(path);
    seq(|ancestors|, i requires 0 <= i < |ancestors| => Crumb(repo, refs, ancestors[i]))
  }

  function Reversed<T>(s: seq<T>): (r: seq<T>)
    ensures |r| == |s| && forall i :: 0 <= i < |s| ==> r[i] == s[|s| - 1 - i]
  {
    seq(|s|, i requires 0 <= i < |s| => s[|s| - 1 - i])
  }

  /** `Vec::reverse`: swaps from both ends towards the middle. */
  method ReverseInPlace<T>(a: array<T>)
    modifies a
    ensures a[..] == Reversed(old(a[..]))
  {
    var i, j := 0, a.Length - 1;
    while i < j
      invariant 0 <= i <= a.Length && i + j == a.Length - 1
      invariant forall k :: 0 <= k < i ==> a[k] == old(a[a.Length - 1 - k])
      invariant forall k :: j < k < a.Length ==> a[k] == old(a[a.Length - 1 - k])
      invariant forall k :: i <= k <= j ==> a[k] == old(a[k])
    {
      a[i], a[j] := a[j], a[i];
      i, j := i + 1, j - 1;
    }
  }

  /** Reversing the ancestors lists the prefixes of the path from the root down. */
  lemma RootFirstIsPrefixes(repo: Repo, refs: Str, path: Path)
    ensures var r := Reversed(LeafFirst(repo, refs, path));
      |r| == |path| + 1 && forall i :: 0 <= i < |r| ==> r[i] == Crumb(repo, refs, path[..i])
  {
    var r := Reversed(LeafFirst(repo, refs, path));
    forall i | 0 <= i < |r| ensures r[i] == Crumb(repo, refs, path[..i]) {
      assert Ancestors(path)[|path| - i] == path[..i];
    }
  }

  /**
   * `Nav::from_request`. `guard` is the outcome of the `Repo` guard, `refs` the ref
   * parameter if the route has one, and `segments` the request's segments from the
   * fourth on. A failing repository or a bad path fails the guard; a request without a
   * repository gets no breadcrumbs. The source unwraps the repository whenever a ref
   * is present, relying on its routes never to give a ref without a repository.
   */
  method FromRequest(guard: Outcome<Repo>, refs: Option<Str>, segments: seq<Str>) returns (r: Outcome<NavView>)
    requires refs.Some? ==> !guard.Forward?
    ensures guard.Failure? ==> r == Failure(guard.status)
    ensures !guard.Failure? ==>
      (r.Failure? <==> exists k :: 0 <= k < |segments| && !Allowed(segments[k]))
      && (r.Failure? ==> r.status == BadRequest)
    ensures r.Success? && guard.Forward? ==> r.value.segments == []
    ensures r.Success? && guard.Success? ==>
      var crumbs := r.value.segments;
      && |crumbs| == |segments| + 1
      && forall i :: 0 <= i < |crumbs| ==> crumbs[i] == Crumb(guard.value, if refs.Some? then refs.value else [], segments[..i])
    ensures r.Success? ==> (r.value.refs.Some? <==> refs.Some?)
    ensures r.Success? && refs.Some? ==>
      r.value.refs.value == RefNav(refs.value, RefsHref(guard.value.name, refs.value, segments))
    ensures !r.Forward?
  {
    if guard.Failure? {
      return Failure(guard.status);
    }
    var parsed := FromSegments(segments);
    if parsed.Err? {
      return Failure(BadRequest);
    }
    var path := parsed.value;
    var current := if refs.Some? then refs.value else [];
    var crumbs: seq<Segment> := [];
    if guard.Success? {
      var leafFirst := LeafFirst(guard.value, current, path);
      var a := new Segment[|leafFirst|](i requires 0 <= i < |leafFirst| => leafFirst[i]);
      assert a[..] == leafFirst;
      ReverseInPlace(a);
      RootFirstIsPrefixes(guard.value, current, path);
      crumbs := a[..];
    }
    var refNav := if refs.Some? then Some(RefNav(refs.value, RefsHref(guard.value.name, refs.value, path))) else None;
    return Success(NavView(crumbs, refNav));
  }

  /** The first crumb is the repository, the last the current path. */
  lemma TrailEnds(repo: Repo, refs: Str, path: Path)
    ensures var r := Reversed(LeafFirst(repo, refs, path));
      && r[0].name == repo.name && r[0].href == TreeHref(repo.name, refs, [])
      && r[|path|].href == TreeHref(repo.name, refs, path)
  {
    RootFirstIsPrefixes(repo, refs, path);
    assert path[..|path|] == path;
  }
}
