# git-tools: a Dafny model of the repository browser and the restricted git shell

This project models the core of `git-tools`. That repository has two programs:

- A read-only web browser for bare git repositories ("git-site").
- `git-shell`, a restricted login shell that only runs git's transport services.

The model covers these parts:

- **Resolution** (`GitRepo`). A ref string resolves to a root tree in a fixed order: local branch, then tag name, then commit id. A path is then walked below that tree to a tree or a blob, and the local branches can be listed. The object store is a value. It holds:
  - the local branches and the tag references, in enumeration order;
  - the objects;
  - the set of store operations that fail with a hard error.
- **Repository metadata** (`Repo`). `FileMode::from_mode`, and `Repo::open` applied to a `site.toml` that has already been read and parsed. This covers dropping glob patterns that do not compile and making the readme path relative.
- **Request paths** (`RepoPath`). The segment validation of `RepoPath::from_segments`.
- **The pages** (`Web`, `Sorting`, `Hexdump`):
  - the directory listing, with its two sorts;
  - the readme selection;
  - the file view, including the byte-exact hex dump of a binary blob;
  - the order of the index page.
- **Navigation** (`Nav`). The breadcrumb trail, and the rule for when the link to the ref list appears.
- **The shell** (`Shell`):
  - git's single-quote dequoting;
  - the allow-list of services;
  - the decision `main` takes on its argument vector.

Strings are byte sequences (`Bytes.Str`). The source compares names byte by byte and lower-cases them with ASCII rules. UTF-8 validity (`Bytes.ValidUtf8`) follows the ranges of RFC 3629.

Four library services are parameters, because the model does not implement them:

- UTF-8 lossy decoding;
- glob compilation and matching;
- markdown to HTML;
- parsing a hex object id.

The callback convention of libgit2's tag enumeration is also a parameter (`GitRepo.ForeachConvention`).

Loops in the source stay methods with loop invariants:

- `RepoPath.FromSegments`;
- `GitRepo.FindRefRootTree`, whose tag callback updates a local variable;
- `Shell.GitShellDequote`;
- the sorts in `Sorting` and `Web`, and the reversal in `Nav`, which work in place on arrays.

Each of these methods is proved equal to a function, or to a property, stated separately.

## Model

| member | source | states |
|---|---|---|
| RepoPath.SegmentError | src/site/repo_path.rs:38-52 | no error exactly when the segment is allowed; `..` is a bad segment, and only `..` is; a leading `*` is a bad start even when other rules are also broken, and a bad start always is a leading `*`; a segment ending in `:`, `>` or `<` (and not `..` or starting with `*`) is a bad end naming that byte, even when it also holds `/`; a bad end only ever names `:`, `>` or `<`; a segment holding `/` that breaks no earlier rule is a bad char `/`, and a bad char is always `/` and occurs in the segment |
| RepoPath.SlashIsBadChar | src/site/repo_path.rs:48-49 | `a/b` is reported as a bad character `/` |
| RepoPath.FromSegments | src/site/repo_path.rs:30-56 | succeeds exactly when every segment is allowed, and then the path is the segments in order; on failure the error is the one of the first bad segment, all earlier segments being allowed |
| RepoPath.BadEndBeforeSlash | src/site/repo_path.rs:44-49 | the end is checked before `/`: `a/:` is reported as a bad end, not a bad character |
| RepoPath.StarColonIsBadStart | src/site/repo_path.rs:40-43 | the rules are tried in source order: `*:` is reported as a bad start, not a bad end |
| RepoPath.DotfilesAllowed | src/site/repo_path.rs:34 | prefixing an allowed name other than `.` with a dot keeps it allowed: dotfiles are accepted |
| Repo.FromMode | src/site/repo.rs:45-55 | a mode decodes exactly when it is 0o100644, 0o100755 or 0o040000, and the decoded kind's code is that mode |
| Repo.FromModeCode | src/site/repo.rs:46-49 | decoding inverts the code of each of the three kinds |
| Repo.Overrides | src/site/repo.rs:103-112 | (pattern, language) is in the result exactly when (language, pattern) is in the table and the pattern compiles |
| Repo.OverridesKeepsEveryCompilingEntry | src/site/repo.rs:103-112 | the result has one entry per compiling table entry: bad patterns are dropped one by one and nothing else is lost |
| Repo.NormaliseReadme | src/site/repo.rs:114-124 | the readme path becomes relative with the same components; a relative path is left as it is |
| Repo.NormaliseReadmeIdempotent | src/site/repo.rs:116-124 | normalising twice is normalising once |
| Repo.Open | src/site/repo.rs:90-135 | no repository exactly when `site.toml` is absent; an error exactly when it cannot be read, cannot be parsed or lacks `default_branch`; a read failure is a reading error and the other two are parsing errors; otherwise every field is copied from the config, the overrides are the compiling ones and the readme path is present exactly when configured |
| Repo.FromRequest | src/site/repo.rs:142-159 | success exactly when the request names a repository and `Repo::open` yields one; failure exactly when the request names a repository and `Repo::open` fails, and then it is an internal server error; the repository returned is the one `Repo::open` gives |
| GitRepo.TagScan | src/site/git_repo.rs:92-100 | the enumeration with the source's callback fails only under a convention in which a stop is an error, and then with the iteration error; no tags leave the recorded id unchanged |
| GitRepo.TagForeach | src/site/git_repo.rs:92-100 | a failing tag enumeration is an error, and the only error it gives is the iteration error |
| GitRepo.RefRootTree | src/site/git_repo.rs:79-128 | branch, then tag, then commit id; a resolved root is a tree the store finds under its own id; every error is one of the source's branch, tag-iteration, tag-tree (for this ref) or commit errors. Precedence and the outcomes of each stage are the lemmas below |
| GitRepo.FindRefRootTree | src/site/git_repo.rs:79-128 | the method, whose tag callback updates a local, returns exactly what the resolution function `RefRootTree` gives, for every store, ref and callback convention |
| GitRepo.RootTreeIsStoredTree | src/site/git_repo.rs:79-128 | a resolved root is a tree the store holds and can read, with those entries |
| GitRepo.BranchTakesPrecedence | src/site/git_repo.rs:80-87 | when a local branch has the name, tags, the callback convention and id parsing are irrelevant; the result is the branch's peeled tree, or a branch-tree error |
| GitRepo.BranchLookupFailureIsError | src/site/git_repo.rs:88-89 | a branch lookup that fails other than by not-found is a hard error, not a fall-through to tags |
| GitRepo.StopOnMatchFindsFirstTag | src/site/git_repo.rs:92-100 | read as the callback is written ("true" means found, stop), the tag scan yields the first tag whose name is exactly the ref |
| GitRepo.TagScanMatchesWholeName | src/site/git_repo.rs:93-96 | under any convention, a recorded tag id belongs to a tag whose enumerated name is byte-equal to the ref |
| GitRepo.ContinueOnTrueFailsAtMismatch | src/site/git_repo.rs:93-100 | read as libgit2's C callback ("true" continues, any stop is an error), a single tag whose name differs from the ref makes the tag scan fail with an iteration error |
| GitRepo.ContinueOnTrueResolutionFails | src/site/git_repo.rs:79-100 | under that reading, with no branch of the name, any tag in the repository whose name differs from the ref fails the whole resolution with an iteration error |
| GitRepo.MatchedTagMustBeTree | src/site/git_repo.rs:102-106 | a matched tag's id is used directly as a tree id: the tree if it is one, else a tag-tree error |
| GitRepo.TagOnCommitIsError | src/site/git_repo.rs:92-105 | under any callback convention, with no branch of the name, a tag scan that yields an existing commit fails resolution with a tag-tree error instead of reaching the commit's tree |
| GitRepo.FirstTagOnCommitIsError | src/site/git_repo.rs:92-105 | under stop-on-match, whenever the first tag named exactly the ref points at an existing commit, resolution fails with a tag-tree error |
| GitRepo.TagScanFailureIsError | src/site/git_repo.rs:92-100 | under any callback convention, a failing tag scan fails the resolution with the iteration error once no branch has the name |
| GitRepo.ContinueQuietlyStopsAtMismatch | src/site/git_repo.rs:93-100 | if "true" continues and a stop is quiet, the scan records the last of the leading tags named exactly the ref and stops at the first other name |
| GitRepo.StopFailsOnMatch | src/site/git_repo.rs:93-100 | if "true" stops and a stop is an error, any tag named exactly the ref fails the scan, and with none nothing is found |
| GitRepo.TagListingFailureIsError | src/site/git_repo.rs:93-100 | a failing tag enumeration is a hard error |
| GitRepo.UnparsableRefIsNotFound | src/site/git_repo.rs:108-115 | with no branch and no tag of that name, a ref that is not an object id is not found, never a format error |
| GitRepo.CommitIdStage | src/site/git_repo.rs:117-127 | a missing commit is not found; a failing lookup is a commit error; a found commit gives its tree or a commit-tree error |
| GitRepo.FindSubtreeObjectByPath | src/site/git_repo.rs:51-76 | a returned object needs a resolved root; every error is a resolution error passed on unchanged, a tree-path error or a path-object error. The outcomes of each case are the lemmas below |
| GitRepo.RootOfEmptyPath | src/site/git_repo.rs:52-60 | an unresolved ref is not found and a resolution error propagates, whatever the path; the empty path yields the root tree itself |
| GitRepo.ResolvedObjectIsStored | src/site/git_repo.rs:62-76 | a tree or blob returned by the walk is an object of that kind held in the store |
| GitRepo.WalkOutcomes | src/site/git_repo.rs:62-76 | a missing path is not found; a failing walk is a tree-path error; a target the store cannot read, or does not hold at all, is a path-object error, and this is the usual case of a submodule entry, whose commit lives in another repository; a commit or a tag that the store does hold is not found |
| GitRepo.DotDotIsAnOrdinaryName | src/site/git_repo.rs:62-68 | the walk gives `..` no meaning: with no entry of that name it is simply not found |
| GitRepo.CollectBranches | src/site/git_repo.rs:134-145 | succeeds exactly when no branch entry or name from index i on fails to read; then it holds each branch name lossily decoded, in order; a failure is reported for the first failing branch from i on, as a branch-info error when its entry fails and as a branch-name error when only its name does |
| GitRepo.Branches | src/site/git_repo.rs:130-148 | succeeds exactly when the iterator opens and every branch and name reads; then the names are the local branches', lossily decoded, in enumeration order; a failing iterator is the branch-iteration error |
| GitRepo.FindBranchIn | src/site/git_repo.rs:80 | the branch found carries exactly the name asked for; not found means no branch has that name |
| GitRepo.GetPath | src/site/git_repo.rs:62 | the entry a non-empty path walks to is named by the path's last component |
| Sorting.SortUnstableByKey | src/site/web.rs:108-111 | afterwards the array is ordered by the key, pairwise, and holds the same multiset of elements |
| Sorting.StablePartition | src/site/web.rs:112-117 | the comparator's stable sort leaves exactly the elements satisfying the predicate, in input order, followed by the others, in input order |
| Sorting.AdjacentSortedIsSorted | src/site/web.rs:108-111 | ordered neighbours give a pairwise order, by transitivity of byte-string order |
| Sorting.FilterKeepsSorted | src/site/web.rs:112-117 | keeping a subsequence of a sorted sequence keeps it sorted |
| Sorting.FilterSplitsMultiset | src/site/web.rs:112-117 | the two groups together hold every element of the input, with multiplicity |
| Sorting.PartitionGroupsFirst | src/site/web.rs:112-117 | after the partition, once an element outside the group appears every later one is outside too |
| Sorting.PartitionKeepsGroupsSorted | src/site/web.rs:112-117 | partitioning a sorted sequence leaves the elements of each group in key order |
| Web.FileOf | src/site/web.rs:100-104 | a listed file's name is the entry's, its path is the directory's path joined with it, its link is the tree link of that path, and its kind encodes the entry's mode |
| Web.Listed | src/site/web.rs:98-106 | the listing is no longer than the tree, and every file's path is its directory's path plus its UTF-8 name |
| Web.ListedExactly | src/site/web.rs:98-106 | a file is listed exactly when some entry of the tree has a UTF-8 name and a recognised mode and becomes that file: unrecognised entries are dropped, never failing the listing |
| Web.RenderLsFiles | src/site/web.rs:97-119 | the files are a permutation of the listable entries; all directories come before all other files; within each of the two groups the lower-cased names ascend; the readme is the one rendered against this list |
| Web.FindFile | src/site/web.rs:166 | none exactly when no file has the path; otherwise the first file, in listing order, with that path |
| Web.RenderReadme | src/site/web.rs:164-212 | a readme is shown only when one is configured, it is in the listing, and its path resolves without error to a blob that is not binary; a `.md` name is rendered from markdown as HTML, anything else shown as lossily decoded text |
| Web.ReadmeOnlyInItsDirectory | src/site/web.rs:164-166 | a readme rendered against a directory's listing lies directly in that directory |
| Web.MarkdownReadmeIsHtml | src/site/web.rs:191-211 | for a resolved text blob the box is HTML exactly when the listed name ends in `.md`, holding the markdown output, and otherwise the lossy text |
| Web.UnusableReadmeIsHidden | src/site/web.rs:168-182 | a readme whose lookup fails, or that resolves to nothing, a tree or a binary blob, is hidden rather than failing the page |
| Web.FirstLang | src/site/web.rs:144-146 | none exactly when no override's pattern matches the name; otherwise the language of the first matching override in list order |
| Web.FirstOverrideWins | src/site/web.rs:144-146 | an earlier matching override shadows every later one |
| Web.RenderBlob | src/site/web.rs:130-155 | the name is the path's last component; a binary blob shows its hex dump with the language `xxd`; a text blob shows its lossy decoding with the first matching override's language |
| Web.BinaryIgnoresOverrides | src/site/web.rs:138-140 | the view of a binary blob does not depend on the repository's overrides |
| Web.SortIndex | src/site/web.rs:42 | the repositories come out ordered by lower-cased name and as a permutation of the input |
| Hexdump.ChunkCount | src/site/web.rs:223 | `chunks(n)` gives one piece per started n elements |
| Hexdump.ChunkAt | src/site/web.rs:223 | piece i is the slice from i·n to the end or i·n+n, whichever comes first |
| Hexdump.ChunksFlatten | src/site/web.rs:223 | the pieces put back together are the input |
| Hexdump.HexPaddedValue | src/site/web.rs:240 | the zero-padded offset is lower-case hex digits that read back as the number |
| Hexdump.HexPaddedWidth | src/site/web.rs:240 | a number below 16^w takes exactly w digits when padded to w |
| Hexdump.Hex2Value | src/site/web.rs:227-228 | `{:02x}` of a byte is two hex digits that read back as the byte |
| Hexdump.WordLength | src/site/web.rs:226-230 | a pair and an odd trailing byte both render as four bytes |
| Hexdump.HexFieldLength | src/site/web.rs:225-232 | the hex field takes five bytes per started pair, the separator space included |
| Hexdump.WordAt | src/site/web.rs:225-232 | word k of the field occupies bytes 5k to 5k+5 and renders bytes 2k and 2k+1 of the chunk followed by a space |
| Hexdump.HexFieldShowsByte | src/site/web.rs:225-232 | byte j of a chunk appears as its two hex digits at offset 5·(j/2) + 2·(j mod 2) of the field |
| Hexdump.HexFieldOddTail | src/site/web.rs:229 | an odd trailing byte is followed by two spaces and then the separator space |
| Hexdump.JoinCountsSeparators | src/site/web.rs:215-221 | joining newline-free parts with `concat("\n")` gives one newline per part |
| Hexdump.JoinUniform | src/site/web.rs:215-221 | joining parts of equal width k gives part i followed by its separator at bytes i·k to i·k+k |
| Hexdump.JoinEndsWithSeparator | src/site/web.rs:215-221 | the fold appends the separator after the last part as well |
| Hexdump.JoinEmpty | src/site/web.rs:215-221 | the fold is empty exactly when there are no parts |
| Hexdump.Line | src/site/web.rs:225-238 | a line ends with a space and the gutter; its other parts are stated by the `Line…` lemmas that follow |
| Hexdump.LineLength | src/site/web.rs:240 | a line is 11 bytes plus the hex field padded to 39 plus the gutter; a full 16-byte line is 67 bytes |
| Hexdump.LinePrefix | src/site/web.rs:240 | a line starts with eight hex digits reading back as the chunk index, then `": "` |
| Hexdump.LineGutter | src/site/web.rs:234-236 | the line ends with the gutter: each graphic byte as itself, every other byte, space included, as `.` |
| Hexdump.LineAvoidsNewline | src/site/web.rs:225-240 | no line contains a newline, so newlines occur only as line terminators |
| Hexdump.LineShowsByte | src/site/web.rs:225-240 | byte j of a chunk appears in its line as two hex digits at offset 10 + 5·(j/2) + 2·(j mod 2) |
| Hexdump.LineOfChunk | src/site/web.rs:223-241 | line i of the dump renders bytes 16i to 16i+16 of the data and is numbered i |
| Hexdump.Hexdump | src/site/web.rs:214-241 | the dump is empty exactly when the data is, and a non-empty dump ends with a newline; its lines are stated by `LineOfChunk`, `HexdumpLineCount` and `HexdumpWholeChunks` |
| Hexdump.HexdumpLineCount | src/site/web.rs:223-241 | the dump holds one newline per started 16 bytes |
| Hexdump.HexdumpWholeChunks | src/site/web.rs:223-241 | data made of whole 16-byte chunks takes 68 bytes a line, the capacity the formatter reserves, with line i and its newline at bytes 68i to 68i+68 |
| Hexdump.ZeroOffset | src/site/web.rs:240 | the first line's offset is written `00000000` |
| Hexdump.LineOfA | src/site/web.rs:225-238 | golden vector: the line of the byte `A` is `00000000: 41`, 38 spaces and `A` |
| Hexdump.HexdumpOfSingleByte | src/site/web.rs:214-241 | golden vector: the byte `A` dumps as `00000000: 41`, 38 spaces, `A` and a newline |
| Hexdump.HexdumpOfSeventeenBytes | src/site/web.rs:223-241 | seventeen bytes make two lines, the second numbered 1 and holding only the last byte |
| Nav.ReverseInPlace | src/site/nav.rs:87 | afterwards the array holds its old contents reversed |
| Nav.RootFirstIsPrefixes | src/site/nav.rs:70-87 | the reversed trail lists the crumbs of the path's prefixes from the root down: crumb i is the crumb of the first i components |
| Nav.FromRequest | src/site/nav.rs:42-107 | a failing repository guard propagates; otherwise the guard fails exactly when a path segment is disallowed, as a bad request; a request without a repository gets no crumbs; with one there is one crumb per prefix of the path, root first; the ref link is present exactly when the route has a ref and links to the ref list at this path; the guard never forwards |
| Nav.TrailEnds | src/site/nav.rs:67-90 | the first crumb is named after the repository and links to its root; the last links to the current path |
| Shell.Dequote | src/shell.rs:15-59 | a dequoted argument comes only from input that is wrapped in single quotes, and is valid UTF-8 |
| Shell.GitShellDequote | src/shell.rs:15-59 | the byte loop with its four arms returns exactly `Dequote` of the input |
| Shell.UnescapeEscape | src/shell.rs:43-56 | the interior unescapes to the original for every NUL-free string quoted the way git's `sq_quote_buf` quotes it |
| Shell.DequoteSqQuote | src/shell.rs:15-59 | dequoting inverts git's quoting for every NUL-free UTF-8 string |
| Shell.EscapeUnescape | src/shell.rs:43-56 | every interior that unescapes is exactly the quoting of its result, so only canonical quoting is accepted |
| Shell.SqQuoteDequote | src/shell.rs:15-59 | whatever dequotes is the quoting of its result |
| Shell.NulIsRejected | src/shell.rs:29 | an argument holding a NUL byte is rejected |
| Shell.UnquotedIsRejected | src/shell.rs:16-18 | an argument not wrapped in single quotes is rejected |
| Shell.QuotingExamples | src/shell.rs:37-42 | the quoting table in the comment: git quotes `name`, `a b`, `a'b`, `a!b` as the table shows, and each quoted form dequotes back to its original |
| Shell.FirstSpace | src/shell.rs:88 | `split_once(" ")` splits at the first space: none exactly when there is no space |
| Shell.StripGit | src/shell.rs:84-86 | the prefix is stripped exactly when the command starts with `git-` or `git ` |
| Shell.ParseService | src/shell.rs:88-96 | an accepted service is on the allow-list and the rest is that service, a space and the canonical quoting of the argument; no space is a missing argument |
| Shell.ParseCommand | src/shell.rs:84-96 | an accepted command is `git-` or `git `, an allowed service, a space and the quoted argument; it is "not a git command" exactly when neither prefix is present; no space after the prefix is a missing argument |
| Shell.ParseArgs | src/shell.rs:82-104 | with exactly three arguments and `-c`, the outcome is the command parse's, its refusals included; nothing else is accepted; `cvs server` and the interactive call are refused with their own errors; every other argument vector is invalid |
| Shell.AllowedCommandIsAccepted | src/shell.rs:61-65 | every allowed service with any NUL-free UTF-8 argument, quoted as git quotes it, is accepted under either prefix |
| Shell.UnknownServiceIsRefused | src/shell.rs:91-93 | a service not on the allow-list is refused as disallowed, whatever its argument |
| Shell.ServiceIsDroppedAsWritten | src/shell.rs:98 | as written, an accepted `git-upload-pack '/srv/a.git'` runs git with `/srv/a.git`, which is not an allowed service, as its first argument |
| Shell.ExecRunsAllowedService | src/shell.rs:61-98 | with the correction, git only ever runs an allowed service, on the argument the client quoted |

## Left out

- I/O. The model does not cover reading `site.toml`, opening the repository, HTTP, templates, logging (`log::warn!`) or `exec`. The file's presence, its readability and its parsed content are an input (`Repo.Descriptor`). The object store is a value.
- Links. Links are opaque values (`Repo.Href`). How the web framework writes out their text is not modelled.
- `git-shell` startup. The checks that `GIT_EXECUTABLE` is absolute and exists are not modelled, because they are filesystem checks made before any argument is read.
- Library services. UTF-8 lossy decoding, glob compilation and matching, markdown rendering and object-id parsing are parameters. Which glob patterns compile, and what markdown becomes, is theirs to decide.
- The tag callback's convention. How libgit2's `tag_foreach` reads the callback's boolean is a parameter (`GitRepo.ForeachConvention`), because the binding is not part of this model. All four readings are proved about: `GitRepo.StopOnMatchFindsFirstTag`, `GitRepo.ContinueOnTrueFailsAtMismatch`, `GitRepo.ContinueQuietlyStopsAtMismatch` and `GitRepo.StopFailsOnMatch`. A failing scan under any of them fails the resolution (`GitRepo.TagScanFailureIsError`).
- Annotated tags. Peeling through an annotated tag object is not modelled. A branch target that is a commit gives its tree, a tree gives itself, and anything else is a branch-tree error.
- Override order. The order of `lang_override` is the iteration order of a `HashMap`, which the source does not fix. The model takes it as given.
- Path normalisation. `Path` is the sequence of segments. No `PathBuf` normalisation of `.` or empty segments is modelled.
- Other request guards and routes. The `GitRepo` and `Index` guards, the `home`, `tree`, `refs`, `favicon` and `statics` routes, and the error type are not modelled, beyond the three rendering functions and the index sort they call.
- Web.RenderBlob: the file name is the path's last component as bytes. The source converts it with `to_string_lossy`, which changes nothing for the UTF-8 segments a request path consists of.
- Nav.FromRequest: it requires that a request with a ref has a repository. The source unwraps the repository in that case and relies on its routes never to break this.
- Hexdump.HexdumpWholeChunks: it is stated for at most 2^32 lines. Beyond that the eight-digit offset grows and lines get longer.
- Hexdump.LineLength: it is stated for chunk indexes below 2^32, for the same reason.
- Hexdump.LinePrefix: it is stated for chunk indexes below 2^32, for the same reason.
- Hexdump.LineShowsByte: it is stated for chunk indexes below 2^32, for the same reason.

## Behaviour worth noting

- **Hex dump offset.** The hex dump numbers its lines by chunk index: 0, 1, 2, and so on. See `Hexdump.LinePrefix` and `Hexdump.LineOfChunk`.
- **Language of a binary blob.** It is `xxd`.
- **Line terminators.** Every line of the dump is followed by a newline, the last one included.
- **Hex field padding.** The hex field is padded to 39 bytes and followed by one space. A line with one byte therefore has 38 spaces between its digits and its gutter.
- **First sort.** The first sort of the listing is `sort_unstable_by`. It promises only that the output is ordered by lower-cased name and holds the same elements; it does not promise stability.
- **Tags on commits.** A tag's target id is looked up directly as a tree. A tag on a commit is therefore an error.
- **Submodules.** A submodule entry names a commit of another repository, which the store normally does not hold. Walking a path to it is then a path-object error, an internal server error on the page, rather than not-found.

## Findings

| source | as written | input that shows it | evidently intended | confidence | as-written member | corrected member |
|---|---|---|---|---|---|---|
| src/shell.rs:98 | git is executed with just the dequoted argument (`git.arg(arg)`), so the validated service name is never passed on | `git-shell -c "git-upload-pack '/srv/a.git'"` is accepted and runs `git /srv/a.git`, which names no git command | to run `git upload-pack /srv/a.git`: the allowed service, then its argument | not executed | Shell.ServiceIsDroppedAsWritten | Shell.ExecRunsAllowedService |
