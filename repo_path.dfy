/**
 * `RepoPath::from_segments`: the validation that turns the URL segments of a
 * request into a path inside a repository. Unlike a plain path parser it accepts
 * dotfiles and rejects `..` instead of interpreting it.
 */
module RepoPath {
  import opened Wrappers
  import opened Bytes

  /** A relative path inside a repository, as its sequence of normal components. */
  type Path = seq<Str>

  datatype RepoPathError =
    | BadStart(start: byte)
    | BadChar(bad: byte)
    | BadSegment(segment: Str)
    | BadEnd(end: byte)

  /** A segment that breaks none of the rules. */
  predicate Allowed(segment: Str) {
    && segment != [DOT, DOT]
    && (segment == [] || (segment[0] != STAR && segment[|segment| - 1] !in {COLON, GREATER, LESS}))
    && SLASH !in segment
  }

  /** The error of the first rule, in the order the source checks them, that `segment` breaks. */
  function SegmentError(segment: Str): (r: Option<RepoPathError>)
    ensures r == None <==> Allowed(segment)
    ensures segment == [DOT, DOT] ==> r == Some(BadSegment([DOT, DOT]))
    ensures segment != [DOT, DOT] && segment != [] && segment[0] == STAR ==> r == Some(BadStart(STAR))
    ensures r.Some? && r.value.BadChar? ==> r.value.bad == SLASH && SLASH in segment
    ensures r.Some? && r.value.BadEnd? ==> segment != [] && r.value.end == segment[|segment| - 1]
    ensures r.Some? && r.value.BadEnd? ==> r.value.end in {COLON, GREATER, LESS}
    ensures segment != [DOT, DOT] && segment != [] && segment[0] != STAR && segment[|segment| - 1] in {COLON, GREATER, LESS}
      ==> r == Some(BadEnd(segment[|segment| - 1]))
    ensures SLASH in segment && segment != [DOT, DOT] && segment[0] != STAR && segment[|segment| - 1] !in {COLON, GREATER, LESS}
      ==> r == Some(BadChar(SLASH))
    ensures r.Some? && r.value.BadSegment? ==> segment == [DOT, DOT]
    ensures r.Some? && r.value.BadStart? ==> segment != [] && segment[0] == STAR && r.value.start == STAR
  {
    if segment == [DOT, DOT] then Some(BadSegment([DOT, DOT]))
    else if segment != [] && segment[0] == STAR then Some(BadStart(STAR))
    else if segment != [] && segment[|segment| - 1] == COLON then Some(BadEnd(COLON))
    else if segment != [] && segment[|segment| - 1] == GREATER then Some(BadEnd(GREATER))
    else if segment != [] && segment[|segment| - 1] == LESS then Some(BadEnd(LESS))
    else if SLASH in segment then Some(BadChar(SLASH))
    else None
  }

  /**
   * The loop of `from_segments`: each segment is checked and pushed onto the path;
   * the first bad segment ends the parse with its error, so later ones are never examined.
   */
  method FromSegments(segments: seq<Str>) returns (r: Result<Path, RepoPathError>)
    ensures r.Ok? <==> forall k :: 0 <= k < |segments| ==> Allowed(segments[k])
    ensures r.Ok? ==> r.value == segments
    ensures r.Err? ==> exists k :: 0 <= k < |segments| && SegmentError(segments[k]) == Some(r.error)
                                   && forall j :: 0 <= j < k ==> Allowed(segments[j])
  {
    var buf: Path := [];
    for i := 0 to |segments|
      invariant buf == segments[..i]
      invariant forall j :: 0 <= j < i ==> Allowed(segments[j])
    {
      var e := SegmentError(segments[i]);
      if e.Some? {
        return Err(e.value);
      }
      buf := buf + [segments[i]];
    }
    assert buf == segments;
    return Ok(buf);
  }

  /** The rules are tried in source order: `*:` breaks two of them and is reported as a bad start. */
  lemma StarColonIsBadStart()
    ensures SegmentError([STAR, COLON]) == Some(BadStart(STAR))
  {
  }

  /** A `/` inside an otherwise good segment is a bad character. */
  lemma SlashIsBadChar()
    ensures SegmentError([0x61, SLASH, 0x62]) == Some(BadChar(SLASH))
  {
  }

  /** A bad end is checked before `/`: `a/:` is reported as a bad end, not a bad character. */
  lemma BadEndBeforeSlash()
    ensures SegmentError([0x61, SLASH, COLON]) == Some(BadEnd(COLON))
  {
  }

  /** Dotfiles and `.` itself are ordinary segments. */
  lemma DotfilesAllowed(name: Str)
    requires Allowed(name) && name != [DOT]
    ensures Allowed([DOT] + name)
  {
    var s := [DOT] + name;
    assert s[0] == DOT;
    if name != [] {
      assert s[|s| - 1] == name[|name| - 1];
    }
    assert SLASH !in s by {
      assert forall k :: 1 <= k < |s| ==> s[k] == name[k - 1];
    }
  }
}
