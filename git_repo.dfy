/**
 * `GitRepo`: resolving a ref string to a root tree, walking a path below it, and
 * listing the local branches. The object store behind it is a value: its local
 * branches and tag references in enumeration order, its objects, and the set of
 * operations that fail with a hard error (the error channel).
 */
module GitRepo {
  import opened Wrappers
  import opened Bytes
  import opened RepoPath
  import Repo

  datatype Oid = Oid(id: nat)

  /** A tree entry as stored: raw name bytes, git mode code, id of the child object. */
  datatype Entry = Entry(name: Str, filemode: int, id: Oid)

  datatype StoredObject =
    | StoredTree(entries: seq<Entry>)
    | StoredBlob(content: Str, binary: bool)  // `binary` is the store's own binary-content verdict
    | StoredCommit(tree: Oid)
    | StoredTag(target: Oid)

  datatype LocalBranch = LocalBranch(name: Str, target: Oid)

  /** A tag reference as the tag enumeration reports it: its reference name and the id it points at. */
  datatype TagRef = TagRef(name: Str, target: Oid)

  /** Store operations that fail with something other than "not found". */
  datatype Fault =
    | BranchLookup(name: Str)  // looking up the local branch of this name fails (invalid name, I/O)
    | BranchListing            // the local branch iterator cannot be created
    | BranchEntry(index: nat)  // reading the index-th local branch fails
    | BranchName(index: nat)   // reading the index-th local branch's name fails
    | TagListing               // the tag enumeration fails
    | ObjectRead(oid: Oid)     // reading this object fails (I/O error, corruption)

  datatype Store = Store(
    branches: seq<LocalBranch>,
    tags: seq<TagRef>,
    objects: map<Oid, StoredObject>,
    faults: set<Fault>)

  /** A loaded tree: its id and entries. */
  datatype TreeRef = TreeRef(id: Oid, entries: seq<Entry>)

  /** What a path resolves to. No other kind of object is representable. */
  datatype Object = Tree(entries: seq<Entry>) | Blob(content: Str, binary: bool)

  /** The hard failures, each naming the stage that failed (the source's error context). */
  datatype Error =
    | FindingBranch(ref: Str)
    | BranchTree(ref: Str)
    | IteratingTags
    | TagTree(ref: Str, oid: Oid)
    | FindingCommit(ref: Str)
    | CommitTree(ref: Str)
    | FindingTreePath
    | FindingPathObject
    | IteratingBranches
    | ReadingBranchInfo
    | ReadingBranchName

  /** Outcome of a store lookup that separates absence from failure. */
  datatype Lookup<+T> = Found(value: T) | NotFound | Failed

  /**
   * How the tag enumeration reads its callback's boolean: the value `continueOn` lets it
   * go on to the next tag, the other value stops it, and `stopFails` says whether a
   * stopped enumeration reports an error. The object-store binding that fixes this is not
   * part of this model, so it is a parameter.
   */
  datatype ForeachConvention = ForeachConvention(continueOn: bool, stopFails: bool)

  /** The reading the source's callback is written for: "true" means found, stop quietly. */
  const STOP_ON_MATCH := ForeachConvention(false, false)

  /** The C-callback reading: "true" continues and any stop is reported as an error. */
  const CONTINUE_ON_TRUE := ForeachConvention(true, true)

  // ---------------------------------------------------------------------------
  // Store primitives

  /** The local branch of exactly this name. */
  function FindBranch(s: Store, name: Str): (r: Lookup<Oid>)
    ensures r.Found? ==> LocalBranch(name, r.value) in s.branches && BranchLookup(name) !in s.faults
    ensures r == NotFound ==> BranchLookup(name) !in s.faults && forall b :: b in s.branches ==> b.name != name
  {
    if BranchLookup(name) in s.faults then Failed else FindBranchIn(s.branches, name)
  }

  function FindBranchIn(branches: seq<LocalBranch>, name: Str): (r: Lookup<Oid>)
    ensures r != Failed
    ensures r.Found? ==> LocalBranch(name, r.value) in branches
    ensures r == NotFound ==> forall b :: b in branches ==> b.name != name
  {
    if branches == [] then NotFound
    else if branches[0].name == name then Found(branches[0].target)
    else FindBranchIn(branches[1..], name)
  }

  /** Looking an id up as a tree: missing and wrong-kind objects are not found. */
  function FindTree(s: Store, oid: Oid): (r: Lookup<TreeRef>)
  {
    if ObjectRead(oid) in s.faults then Failed
    else if oid in s.objects && s.objects[oid].StoredTree? then Found(TreeRef(oid, s.objects[oid].entries))
    else NotFound
  }

  /** Looking an id up as a commit, giving the id of its tree. */
  function FindCommit(s: Store, oid: Oid): Lookup<Oid>
  {
    if ObjectRead(oid) in s.faults then Failed
    else if oid in s.objects && s.objects[oid].StoredCommit? then Found(s.objects[oid].tree)
    else NotFound
  }

  /** Peeling a branch target to a tree: a commit gives its tree, a tree itself; anything else fails. */
  function PeelToTree(s: Store, target: Oid): Option<TreeRef>
  {
    if ObjectRead(target) in s.faults || target !in s.objects then None
    else match s.objects[target]
      case StoredTree(entries) => Some(TreeRef(target, entries))
      case StoredCommit(tree) => if FindTree(s, tree).Found? then Some(FindTree(s, tree).value) else None
      case _ => None
  }

  /** Reading the object an entry names, whatever its kind. */
  function ToObject(s: Store, oid: Oid): Option<StoredObject>
  {
    if ObjectRead(oid) in s.faults || oid !in s.objects then None else Some(s.objects[oid])
  }

  /** The first entry of a tree with exactly this name. */
  function EntryNamed(entries: seq<Entry>, name: Str): (r: Option<Entry>)
    ensures r.Some? ==> r.value in entries && r.value.name == name
    ensures r.None? ==> forall e :: e in entries ==> e.name != name
  {
    if entries == [] then None
    else if entries[0].name == name then Some(entries[0])
    else EntryNamed(entries[1..], name)
  }

  /**
   * Descending a tree along a non-empty path to the entry it names. A missing
   * component, or an intermediate entry that is not a directory, is not found.
   */
  function GetPath(s: Store, entries: seq<Entry>, path: Path): (r: Lookup<Entry>)
    requires |path| > 0
    ensures r.Found? ==> r.value.name == path[|path| - 1]
    decreases |path|
  {
    match EntryNamed(entries, path[0])
    case None => NotFound
    case Some(e) =>
      if |path| == 1 then Found(e)
      else if e.filemode != Repo.MODE_DIR then NotFound
      else match FindTree(s, e.id)
        case Found(sub) => GetPath(s, sub.entries, path[1..])
        case NotFound => NotFound
        case Failed => Failed
  }

  // ---------------------------------------------------------------------------
  // Ref resolution

  /**
   * The tag enumeration with the source's callback: a tag whose reference name is
   * byte-equal to `ref` is recorded, and the callback answers whether it matched.
   */
  function TagScan(tags: seq<TagRef>, ref: Str, conv: ForeachConvention, found: Option<Oid>): (r: Result<Option<Oid>, Error>)
    ensures r.Err? ==> conv.stopFails && r.error == IteratingTags
    ensures tags == [] ==> r == Ok(found)
    decreases |tags|
  {
    if tags == [] then Ok(found)
    else
      var hit := tags[0].name == ref;
      var found' := if hit then Some(tags[0].target) else found;
      if hit == conv.continueOn then TagScan(tags[1..], ref, conv, found')
      else if conv.stopFails then Err(IteratingTags)
      else Ok(found')
  }

  /** `tag_foreach` over the repository's tags: a failing enumeration is an error before any callback. */
  function TagForeach(s: Store, ref: Str, conv: ForeachConvention): (r: Result<Option<Oid>, Error>)
    ensures r.Err? ==> r.error == IteratingTags
    ensures TagListing in s.faults ==> r.Err?
  {
    if TagListing in s.faults then Err(IteratingTags) else TagScan(s.tags, ref, conv, None)
  }

  /** The commit-id stage: a ref that does not parse as an id is not found, never a format error. */
  function CommitStage(s: Store, ref: Str, parseOid: Str -> Option<Oid>): Result<Option<TreeRef>, Error> {
    match parseOid(ref)
    case None => Ok(None)
    case Some(oid) =>
      match FindCommit(s, oid)
      case Found(tree) => if FindTree(s, tree).Found? then Ok(Some(FindTree(s, tree).value)) else Err(CommitTree(ref))
      case NotFound => Ok(None)
      case Failed => Err(FindingCommit(ref))
  }

  /** The tag stage and what follows it, once no local branch has the name. */
  function TagStage(s: Store, ref: Str, conv: ForeachConvention, parseOid: Str -> Option<Oid>): Result<Option<TreeRef>, Error> {
    match TagForeach(s, ref, conv)
    case Err(e) => Err(e)
    case Ok(Some(oid)) => if FindTree(s, oid).Found? then Ok(Some(FindTree(s, oid).value)) else Err(TagTree(ref, oid))
    case Ok(None) => CommitStage(s, ref, parseOid)
  }

  /** `find_ref_root_tree`: local branch, then tag name, then commit id. */
  function RefRootTree(s: Store, ref: Str, conv: ForeachConvention, parseOid: Str -> Option<Oid>): (r: Result<Option<TreeRef>, Error>)
    ensures r.Ok? && r.value.Some? ==> FindTree(s, r.value.value.id) == Found(r.value.value)
    ensures r.Err? ==> r.error in {FindingBranch(ref), BranchTree(ref), IteratingTags, FindingCommit(ref), CommitTree(ref)}
                       || (r.error.TagTree? && r.error.ref == ref)
  {
    match FindBranch(s, ref)
    case Found(target) => if PeelToTree(s, target).Some? then Ok(Some(PeelToTree(s, target).value)) else Err(BranchTree(ref))
    case Failed => Err(FindingBranch(ref))
    case NotFound => TagStage(s, ref, conv, parseOid)
  }

  /** `find_ref_root_tree` as the source runs it, with the tag callback updating a local. */
  method FindRefRootTree(s: Store, ref: Str, conv: ForeachConvention, parseOid: Str -> Option<Oid>)
    returns (r: Result<Option<TreeRef>, Error>)
    ensures r == RefRootTree(s, ref, conv, parseOid)
  {
    var branch := FindBranch(s, ref);
    if branch.Found? {
      var tree := PeelToTree(s, branch.value);
      if tree.Some? {
        return Ok(Some(tree.value));
      }
      return Err(BranchTree(ref));
    } else if branch.Failed? {
      return Err(FindingBranch(ref));
    }

    if TagListing in s.faults {
      return Err(IteratingTags);
    }
    var tag: Option<Oid> := None;
    var i := 0;
    var stopped := false;
    while i < |s.tags| && !stopped
      invariant 0 <= i <= |s.tags|
      invariant !stopped ==> TagScan(s.tags, ref, conv, None) == TagScan(s.tags[i..], ref, conv, tag)
      invariant stopped ==> !conv.stopFails && TagScan(s.tags, ref, conv, None) == Ok(tag)
      decreases |s.tags| - i, if stopped then 0 else 1
    {
      var hit := s.tags[i].name == ref;
      if hit {
        tag := Some(s.tags[i].target);
      }
      assert s.tags[i..][1..] == s.tags[i + 1..];
      if hit != conv.continueOn {
        if conv.stopFails {
          return Err(IteratingTags);
        }
        stopped := true;
      } else {
        i := i + 1;
      }
    }

    if tag.Some? {
      var tree := FindTree(s, tag.value);
      if tree.Found? {
        return Ok(Some(tree.value));
      }
      return Err(TagTree(ref, tag.value));
    }

    var oid := parseOid(ref);
    if oid.None? {
      return Ok(None);
    }
    var commit := FindCommit(s, oid.value);
    if commit.Found? {
      var tree := FindTree(s, commit.value);
      if tree.Found? {
        return Ok(Some(tree.value));
      }
      return Err(CommitTree(ref));
    } else if commit.Failed? {
      return Err(FindingCommit(ref));
    }
    return Ok(None);
  }

  /** `find_subtree_object_by_path`. */
  function FindSubtreeObjectByPath(s: Store, ref: Str, path: Path, conv: ForeachConvention, parseOid: Str -> Option<Oid>)
    : (r: Result<Option<Object>, Error>)
    ensures r.Ok? && r.value.Some? ==> RefRootTree(s, ref, conv, parseOid).Ok? && RefRootTree(s, ref, conv, parseOid).value.Some?
    ensures r.Err? ==> r.error in {FindingTreePath, FindingPathObject} || RefRootTree(s, ref, conv, parseOid) == Err(r.error)
  {
    match RefRootTree(s, ref, conv, parseOid)
    case Err(e) => Err(e)
    case Ok(None) => Ok(None)
    case Ok(Some(root)) =>
      if path == [] then Ok(Some(Tree(root.entries)))
      else match GetPath(s, root.entries, path)
        case NotFound => Ok(None)
        case Failed => Err(FindingTreePath)
        case Found(entry) =>
          match ToObject(s, entry.id)
          case None => Err(FindingPathObject)
          case Some(StoredTree(entries)) => Ok(Some(Tree(entries)))
          case Some(StoredBlob(content, binary)) => Ok(Some(Blob(content, binary)))
          case Some(_) => Ok(None)
  }

  // ---------------------------------------------------------------------------
  // Branch listing

  function CollectBranches(s: Store, lossy: Str -> Str, i: nat): (r: Result<seq<Str>, Error>)
    requires i <= |s.branches|
    ensures r.Ok? <==> forall j :: i <= j < |s.branches| ==> BranchEntry(j) !in s.faults && BranchName(j) !in s.faults
    ensures r.Ok? ==> |r.value| == |s.branches| - i
                      && forall j :: i <= j < |s.branches| ==> r.value[j - i] == lossy(s.branches[j].name)
    ensures r.Err? ==> r.error in {ReadingBranchInfo, ReadingBranchName}
    ensures r.Err? ==> exists j :: i <= j < |s.branches| && FirstBranchFault(s, i, j)
                                   && (if BranchEntry(j) in s.faults then r.error == ReadingBranchInfo
                                       else BranchName(j) in s.faults && r.error == ReadingBranchName)
    decreases |s.branches| - i
  {
    if i == |s.branches| then Ok([])
    else if BranchEntry(i) in s.faults then
      assert FirstBranchFault(s, i, i);
      Err(ReadingBranchInfo)
    else if BranchName(i) in s.faults then
      assert FirstBranchFault(s, i, i);
      Err(ReadingBranchName)
    else match CollectBranches(s, lossy, i + 1)
      case Ok(rest) => Ok([lossy(s.branches[i].name)] + rest)
      case Err(e) =>
        FirstBranchFaultStep(s, i);
        Err(e)
  }

  /** A first fault from `i + 1` on is also the first from `i` on when branch `i` reads. */
  lemma FirstBranchFaultStep(s: Store, i: nat)
    requires BranchEntry(i) !in s.faults && BranchName(i) !in s.faults
    ensures forall j :: FirstBranchFault(s, i + 1, j) ==> FirstBranchFault(s, i, j)
  {
  }

  /** Branch `j` is the first from `i` on whose entry or name fails to read. */
  predicate FirstBranchFault(s: Store, i: nat, j: nat) {
    && (BranchEntry(j) in s.faults || BranchName(j) in s.faults)
    && forall k :: i <= k < j ==> BranchEntry(k) !in s.faults && BranchName(k) !in s.faults
  }

  /** `branches`: every local branch name, lossily decoded, in order; any single failure fails the list. */
  function Branches(s: Store, lossy: Str -> Str): (r: Result<seq<Str>, Error>)
    ensures r.Ok? <==> BranchListing !in s.faults
                       && forall j :: 0 <= j < |s.branches| ==> BranchEntry(j) !in s.faults && BranchName(j) !in s.faults
    ensures r.Ok? ==> |r.value| == |s.branches| && forall j :: 0 <= j < |s.branches| ==> r.value[j] == lossy(s.branches[j].name)
    ensures BranchListing in s.faults ==> r == Err(IteratingBranches)
  {
    if BranchListing in s.faults then Err(IteratingBranches) else CollectBranches(s, lossy, 0)
  }

  // ---------------------------------------------------------------------------
  // Properties of resolution

  /** Whatever resolves is a tree the store can read. */
  lemma RootTreeIsStoredTree(s: Store, ref: Str, conv: ForeachConvention, parseOid: Str -> Option<Oid>)
    requires RefRootTree(s, ref, conv, parseOid).Ok? && RefRootTree(s, ref, conv, parseOid).value.Some?
    ensures var t := RefRootTree(s, ref, conv, parseOid).value.value;
      t.id in s.objects && s.objects[t.id] == StoredTree(t.entries) && ObjectRead(t.id) !in s.faults
  {
  }

  /** A local branch of that name decides the outcome; tags and commit ids are never consulted. */
  lemma BranchTakesPrecedence(s: Store, ref: Str, target: Oid, conv: ForeachConvention, parseOid: Str -> Option<Oid>,
                              otherTags: seq<TagRef>, otherConv: ForeachConvention, otherParse: Str -> Option<Oid>)
    requires FindBranch(s, ref) == Found(target)
    ensures RefRootTree(s, ref, conv, parseOid) == RefRootTree(s.(tags := otherTags), ref, otherConv, otherParse)
    ensures RefRootTree(s, ref, conv, parseOid) ==
      if PeelToTree(s, target).Some? then Ok(Some(PeelToTree(s, target).value)) else Err(BranchTree(ref))
  {
    assert FindBranch(s.(tags := otherTags), ref) == FindBranch(s, ref);
  }

  /** A failing branch lookup is a hard error, not a fall-through to tags. */
  lemma BranchLookupFailureIsError(s: Store, ref: Str, conv: ForeachConvention, parseOid: Str -> Option<Oid>)
    requires BranchLookup(ref) in s.faults
    ensures RefRootTree(s, ref, conv, parseOid) == Err(FindingBranch(ref))
  {
  }

  /** The first tag reference whose name is exactly `ref`. */
  function FirstTag(tags: seq<TagRef>, ref: Str): (r: Option<Oid>)
    ensures r.Some? ==> TagRef(ref, r.value) in tags
    ensures r.None? ==> forall t :: t in tags ==> t.name != ref
  {
    if tags == [] then None
    else if tags[0].name == ref then Some(tags[0].target)
    else FirstTag(tags[1..], ref)
  }

  /** Read as the callback is written ("true" = found, stop), the scan yields the first tag named exactly `ref`. */
  lemma {:induction false} StopOnMatchFindsFirstTag(tags: seq<TagRef>, ref: Str)
    ensures TagScan(tags, ref, STOP_ON_MATCH, None) == Ok(FirstTag(tags, ref))
  {
    if tags != [] && tags[0].name != ref {
      StopOnMatchFindsFirstTag(tags[1..], ref);
    }
  }

  /** Under any convention, a tag is recorded only when its enumerated name is byte-equal to `ref`. */
  lemma {:induction false} TagScanMatchesWholeName(tags: seq<TagRef>, ref: Str, conv: ForeachConvention, found: Option<Oid>)
    requires TagScan(tags, ref, conv, found).Ok? && TagScan(tags, ref, conv, found).value.Some?
    ensures var oid := TagScan(tags, ref, conv, found).value.value;
      found == Some(oid) || TagRef(ref, oid) in tags
  {
    if tags != [] {
      var hit := tags[0].name == ref;
      var found' := if hit then Some(tags[0].target) else found;
      if hit == conv.continueOn {
        TagScanMatchesWholeName(tags[1..], ref, conv, found');
        assert forall t :: t in tags[1..] ==> t in tags;
      }
    }
  }

  /**
   * Read the C-callback way ("true" = continue, any stop is an error), the first tag whose
   * name differs from `ref` stops the scan with an error.
   */
  lemma {:induction false} ContinueOnTrueFailsAtMismatch(tags: seq<TagRef>, ref: Str, found: Option<Oid>, k: nat)
    requires k < |tags| && tags[k].name != ref
    ensures TagScan(tags, ref, CONTINUE_ON_TRUE, found) == Err(IteratingTags)
  {
    if tags[0].name == ref {
      ContinueOnTrueFailsAtMismatch(tags[1..], ref, Some(tags[0].target), k - 1);
    }
  }

  /** With no branch of that name, a recorded tag id must itself be a tree, or resolution fails. */
  lemma MatchedTagMustBeTree(s: Store, ref: Str, conv: ForeachConvention, parseOid: Str -> Option<Oid>, oid: Oid)
    requires FindBranch(s, ref) == NotFound && TagForeach(s, ref, conv) == Ok(Some(oid))
    ensures FindTree(s, oid).Found? ==> RefRootTree(s, ref, conv, parseOid) == Ok(Some(TreeRef(oid, s.objects[oid].entries)))
    ensures !FindTree(s, oid).Found? ==> RefRootTree(s, ref, conv, parseOid) == Err(TagTree(ref, oid))
  {
  }

  /**
   * A tag scan that yields a commit (rather than a tree) fails resolution even though the
   * commit exists: the commit-id stage is never reached.
   */
  lemma TagOnCommitIsError(s: Store, ref: Str, conv: ForeachConvention, parseOid: Str -> Option<Oid>, commit: Oid, tree: Oid)
    requires FindBranch(s, ref) == NotFound && TagForeach(s, ref, conv) == Ok(Some(commit))
    requires commit in s.objects && s.objects[commit] == StoredCommit(tree)
    ensures RefRootTree(s, ref, conv, parseOid) == Err(TagTree(ref, commit))
  {
    MatchedTagMustBeTree(s, ref, conv, parseOid, commit);
  }

  /** Under stop-on-match: whenever the first tag named exactly `ref` points at a commit, resolution fails. */
  lemma FirstTagOnCommitIsError(s: Store, ref: Str, parseOid: Str -> Option<Oid>, commit: Oid, tree: Oid)
    requires FindBranch(s, ref) == NotFound && TagListing !in s.faults
    requires FirstTag(s.tags, ref) == Some(commit) && commit in s.objects && s.objects[commit] == StoredCommit(tree)
    ensures RefRootTree(s, ref, STOP_ON_MATCH, parseOid) == Err(TagTree(ref, commit))
  {
    StopOnMatchFindsFirstTag(s.tags, ref);
    TagOnCommitIsError(s, ref, STOP_ON_MATCH, parseOid, commit, tree);
  }

  /**
   * Under the C-callback reading, once no branch has the name, any tag in the repository
   * whose name differs from `ref` makes the whole resolution an error.
   */
  lemma ContinueOnTrueResolutionFails(s: Store, ref: Str, parseOid: Str -> Option<Oid>, k: nat)
    requires FindBranch(s, ref) == NotFound && TagListing !in s.faults
    requires k < |s.tags| && s.tags[k].name != ref
    ensures RefRootTree(s, ref, CONTINUE_ON_TRUE, parseOid) == Err(IteratingTags)
  {
    ContinueOnTrueFailsAtMismatch(s.tags, ref, None, k);
  }

  /** Under any convention, a failing tag scan fails the whole resolution once no branch has the name. */
  lemma TagScanFailureIsError(s: Store, ref: Str, conv: ForeachConvention, parseOid: Str -> Option<Oid>)
    requires FindBranch(s, ref) == NotFound && TagForeach(s, ref, conv).Err?
    ensures RefRootTree(s, ref, conv, parseOid) == Err(IteratingTags)
  {
  }

  /**
   * The remaining reading, "true" continues and a stop is quiet: the scan records the
   * leading run of tags named `ref` and stops quietly at the first other name.
   */
  lemma {:induction false} ContinueQuietlyStopsAtMismatch(tags: seq<TagRef>, ref: Str, found: Option<Oid>, k: nat)
    requires k < |tags| && tags[k].name != ref && forall j :: 0 <= j < k ==> tags[j].name == ref
    ensures TagScan(tags, ref, ForeachConvention(true, false), found) == Ok(if k == 0 then found else Some(tags[k - 1].target))
  {
    if k > 0 {
      ContinueQuietlyStopsAtMismatch(tags[1..], ref, Some(tags[0].target), k - 1);
      if k > 1 {
        assert tags[1..][k - 2] == tags[k - 1];
      }
    }
  }

  /** Stop-on-match where a stop is an error: any tag named `ref` fails the scan, and otherwise nothing is found. */
  lemma {:induction false} StopFailsOnMatch(tags: seq<TagRef>, ref: Str, found: Option<Oid>)
    ensures (exists k :: 0 <= k < |tags| && tags[k].name == ref) ==> TagScan(tags, ref, ForeachConvention(false, true), found) == Err(IteratingTags)
    ensures (forall k :: 0 <= k < |tags| ==> tags[k].name != ref) ==> TagScan(tags, ref, ForeachConvention(false, true), found) == Ok(found)
  {
    if tags != [] && tags[0].name != ref {
      StopFailsOnMatch(tags[1..], ref, found);
      assert forall k :: 1 <= k < |tags| ==> tags[1..][k - 1] == tags[k];
    }
  }

  /** A tag enumeration failure is a hard error. */
  lemma TagListingFailureIsError(s: Store, ref: Str, conv: ForeachConvention, parseOid: Str -> Option<Oid>)
    requires FindBranch(s, ref) == NotFound && TagListing in s.faults
    ensures RefRootTree(s, ref, conv, parseOid) == Err(IteratingTags)
  {
  }

  /** When neither a branch nor a tag matches, a ref that is not an object id is simply not found. */
  lemma UnparsableRefIsNotFound(s: Store, ref: Str, conv: ForeachConvention, parseOid: Str -> Option<Oid>)
    requires FindBranch(s, ref) == NotFound && TagForeach(s, ref, conv) == Ok(None) && parseOid(ref).None?
    ensures RefRootTree(s, ref, conv, parseOid) == Ok(None)
  {
  }

  /** The commit-id stage: a missing commit is not found; a failing lookup or an unreadable tree is an error. */
  lemma CommitIdStage(s: Store, ref: Str, conv: ForeachConvention, parseOid: Str -> Option<Oid>, oid: Oid)
    requires FindBranch(s, ref) == NotFound && TagForeach(s, ref, conv) == Ok(None) && parseOid(ref) == Some(oid)
    ensures FindCommit(s, oid) == NotFound ==> RefRootTree(s, ref, conv, parseOid) == Ok(None)
    ensures FindCommit(s, oid) == Failed ==> RefRootTree(s, ref, conv, parseOid) == Err(FindingCommit(ref))
    ensures FindCommit(s, oid).Found? ==>
      RefRootTree(s, ref, conv, parseOid) ==
        if FindTree(s, FindCommit(s, oid).value).Found? then Ok(Some(FindTree(s, FindCommit(s, oid).value).value))
        else Err(CommitTree(ref))
  {
  }

  // ---------------------------------------------------------------------------
  // Properties of the path walk

  /** An unresolved ref is not found whatever the path; an empty path is the root tree itself. */
  lemma RootOfEmptyPath(s: Store, ref: Str, path: Path, conv: ForeachConvention, parseOid: Str -> Option<Oid>)
    ensures RefRootTree(s, ref, conv, parseOid) == Ok(None) ==> FindSubtreeObjectByPath(s, ref, path, conv, parseOid) == Ok(None)
    ensures RefRootTree(s, ref, conv, parseOid).Err? ==>
      FindSubtreeObjectByPath(s, ref, path, conv, parseOid) == Err(RefRootTree(s, ref, conv, parseOid).error)
    ensures path == [] && RefRootTree(s, ref, conv, parseOid).Ok? && RefRootTree(s, ref, conv, parseOid).value.Some? ==>
      FindSubtreeObjectByPath(s, ref, path, conv, parseOid) == Ok(Some(Tree(RefRootTree(s, ref, conv, parseOid).value.value.entries)))
  {
  }

  /** Whatever the walk returns is an object the store holds, of the kind it says. */
  lemma ResolvedObjectIsStored(s: Store, ref: Str, path: Path, conv: ForeachConvention, parseOid: Str -> Option<Oid>)
    requires FindSubtreeObjectByPath(s, ref, path, conv, parseOid).Ok?
    requires FindSubtreeObjectByPath(s, ref, path, conv, parseOid).value.Some?
    ensures match FindSubtreeObjectByPath(s, ref, path, conv, parseOid).value.value
      case Tree(entries) => exists oid :: oid in s.objects && s.objects[oid] == StoredTree(entries)
      case Blob(content, binary) => exists oid :: oid in s.objects && s.objects[oid] == StoredBlob(content, binary)
  {
    RootTreeIsStoredTree(s, ref, conv, parseOid);
    var root := RefRootTree(s, ref, conv, parseOid).value.value;
    if path != [] {
      var entry := GetPath(s, root.entries, path).value;
      assert entry.id in s.objects;
    }
  }

  /**
   * The walk ends in not-found for a missing path and for an entry that is neither a
   * tree nor a blob (a submodule commit present in the store, a tag). An entry whose
   * object is absent from the store, as a submodule commit normally is, or cannot be
   * read, is an error, and so is any other traversal failure.
   */
  lemma WalkOutcomes(s: Store, ref: Str, path: Path, conv: ForeachConvention, parseOid: Str -> Option<Oid>, root: TreeRef)
    requires RefRootTree(s, ref, conv, parseOid) == Ok(Some(root)) && path != []
    ensures GetPath(s, root.entries, path) == NotFound ==> FindSubtreeObjectByPath(s, ref, path, conv, parseOid) == Ok(None)
    ensures GetPath(s, root.entries, path) == Failed ==> FindSubtreeObjectByPath(s, ref, path, conv, parseOid) == Err(FindingTreePath)
    ensures GetPath(s, root.entries, path).Found? ==>
      var id := GetPath(s, root.entries, path).value.id;
      && (ToObject(s, id).None? ==> FindSubtreeObjectByPath(s, ref, path, conv, parseOid) == Err(FindingPathObject))
      && (id !in s.objects ==> FindSubtreeObjectByPath(s, ref, path, conv, parseOid) == Err(FindingPathObject))
      && (ToObject(s, id).Some? && (ToObject(s, id).value.StoredCommit? || ToObject(s, id).value.StoredTag?) ==>
            FindSubtreeObjectByPath(s, ref, path, conv, parseOid) == Ok(None))
  {
  }

  /** The walk gives `..` no meaning: it is looked up as an entry name like any other. */
  lemma DotDotIsAnOrdinaryName(s: Store, ref: Str, rest: Path, conv: ForeachConvention, parseOid: Str -> Option<Oid>, root: TreeRef)
    requires RefRootTree(s, ref, conv, parseOid) == Ok(Some(root))
    requires forall e :: e in root.entries ==> e.name != [DOT, DOT]
    ensures FindSubtreeObjectByPath(s, ref, [[DOT, DOT]] + rest, conv, parseOid) == Ok(None)
  {
    assert ([[DOT, DOT]] + rest)[0] == [DOT, DOT];
  }
}
