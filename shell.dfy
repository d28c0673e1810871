/**
 * `git-shell`: the login shell of the git user. It accepts only `-c <command>` where the
 * command runs one of three git transport services on a single argument quoted the
 * way git's own client quotes it (git's `sq_quote_buf`).
 */
module Shell {
  import opened Wrappers
  import opened Bytes

  // ---------------------------------------------------------------------------
  // Quoting

  /** git's quoting of one byte inside single quotes: `'` becomes `'\''` and `!` becomes `'\!'`. */
  function EscapeByte(b: byte): Str {
    if b == QUOTE || b == BANG then [QUOTE, BACKSLASH, b, QUOTE] else [b]
  }

  function Escape(s: Str): Str {
    if s == [] then [] else EscapeByte(s[0]) + Escape(s[1..])
  }

  /** `sq_quote_buf`: the escaped text enclosed in single quotes. */
  function SqQuote(s: Str): Str {
    [QUOTE] + Escape(s) + [QUOTE]
  }

  /**
   * The decoding of the quoted interior, read from the front: a NUL fails, an escape
   * yields its byte, any other `'` or `!` fails, and every other byte is copied.
   */
  function Unescape(s: Str): Option<Str>
    decreases |s|
  {
    if s == [] then Some([])
    else if s[0] == NUL then None
    else if |s| >= 4 && s[0] == QUOTE && s[1] == BACKSLASH && (s[2] == QUOTE || s[2] == BANG) && s[3] == QUOTE then
      Prepend([s[2]], Unescape(s[4..]))
    else if s[0] == QUOTE || s[0] == BANG then None
    else Prepend([s[0]], Unescape(s[1..]))
  }

  function Prepend(prefix: Str, rest: Option<Str>): Option<Str> {
    if rest.Some? then Some(prefix + rest.value) else None
  }

  lemma PrependTwice(x: Str, y: Str, rest: Option<Str>)
    ensures Prepend(x, Prepend(y, rest)) == Prepend(x + y, rest)
  {
    if rest.Some? {
      assert x + (y + rest.value) == (x + y) + rest.value;
    }
  }

  /** `git_shell_dequote`: the input must be enclosed in `'`; the decoded interior must be UTF-8. */
  function Dequote(input: Str): (r: Option<Str>)
    ensures r.Some? ==> |input| >= 2 && input[0] == QUOTE && input[|input| - 1] == QUOTE && ValidUtf8(r.value)
  {
    if |input| >= 2 && input[0] == QUOTE && input[|input| - 1] == QUOTE then
      var decoded := Unescape(input[1..|input| - 1]);
      if decoded.Some? && ValidUtf8(decoded.value) then decoded else None
    else None
  }

  /** The loop of `git_shell_dequote`, advancing through the interior and pushing onto `output`. */
  method GitShellDequote(input: Str) returns (r: Option<Str>)
    ensures r == Dequote(input)
  {
    if !(|input| >= 2 && input[0] == QUOTE && input[|input| - 1] == QUOTE) {
      return None;
    }
    var interior := input[1..|input| - 1];
    var output: Str := [];
    var i := 0;
    assert interior[0..] == interior;
    if Unescape(interior).Some? {
      assert [] + Unescape(interior).value == Unescape(interior).value;
    }
    while true
      invariant 0 <= i <= |interior|
      invariant Unescape(interior) == Prepend(output, Unescape(interior[i..]))
      decreases |interior| - i
    {
      var rest := interior[i..];
      if rest == [] {
        assert output + [] == output;
        if ValidUtf8(output) {
          return Some(output);
        }
        return None;
      } else if rest[0] == NUL {
        return None;
      } else if |rest| >= 4 && rest[0] == QUOTE && rest[1] == BACKSLASH && (rest[2] == QUOTE || rest[2] == BANG) && rest[3] == QUOTE {
        assert interior[i + 4..] == rest[4..];
        PrependTwice(output, [rest[2]], Unescape(rest[4..]));
        output := output + [rest[2]];
        i := i + 4;
      } else if rest[0] == QUOTE || rest[0] == BANG {
        return None;
      } else {
        assert interior[i + 1..] == rest[1..];
        PrependTwice(output, [rest[0]], Unescape(rest[1..]));
        output := output + [rest[0]];
        i := i + 1;
      }
    }
  }

  /** Quoting and then dequoting a NUL-free UTF-8 string gives it back. */
  lemma {:induction false} UnescapeEscape(s: Str)
    requires NUL !in s
    ensures Unescape(Escape(s)) == Some(s)
  {
    if s != [] {
      UnescapeEscape(s[1..]);
      var e := EscapeByte(s[0]);
      var x := e + Escape(s[1..]);
      assert s == [s[0]] + s[1..];
      if s[0] == QUOTE || s[0] == BANG {
        assert x[4..] == Escape(s[1..]);
      } else {
        assert x[1..] == Escape(s[1..]);
      }
    }
  }

  lemma DequoteSqQuote(s: Str)
    requires NUL !in s && ValidUtf8(s)
    ensures Dequote(SqQuote(s)) == Some(s)
  {
    UnescapeEscape(s);
    var q := SqQuote(s);
    assert q[1..|q| - 1] == Escape(s);
  }

  /** Conversely, whatever decodes was quoted exactly as git quotes it. */
  lemma {:induction false} EscapeUnescape(x: Str, o: Str)
    requires Unescape(x) == Some(o)
    ensures x == Escape(o) && NUL !in o
    decreases |x|
  {
    if x != [] {
      if |x| >= 4 && x[0] == QUOTE && x[1] == BACKSLASH && (x[2] == QUOTE || x[2] == BANG) && x[3] == QUOTE {
        var rest := Unescape(x[4..]).value;
        EscapeUnescape(x[4..], rest);
        assert o == [x[2]] + rest;
        assert o[1..] == rest;
        assert x == x[..4] + x[4..];
      } else {
        var rest := Unescape(x[1..]).value;
        EscapeUnescape(x[1..], rest);
        assert o == [x[0]] + rest;
        assert o[1..] == rest;
        assert x == [x[0]] + x[1..];
      }
    }
  }

  lemma SqQuoteDequote(x: Str, o: Str)
    requires Dequote(x) == Some(o)
    ensures x == SqQuote(o) && NUL !in o && ValidUtf8(o)
  {
    EscapeUnescape(x[1..|x| - 1], o);
    assert x == [x[0]] + x[1..|x| - 1] + [x[|x| - 1]];
  }

  /** A NUL anywhere inside the quotes fails the decoding. */
  lemma {:induction false} NulIsRejected(s: Str)
    requires NUL in s
    ensures Unescape(s) == None
    decreases |s|
  {
    if s[0] != NUL {
      if |s| >= 4 && s[0] == QUOTE && s[1] == BACKSLASH && (s[2] == QUOTE || s[2] == BANG) && s[3] == QUOTE {
        assert NUL in s[4..];
        NulIsRejected(s[4..]);
      } else if !(s[0] == QUOTE || s[0] == BANG) {
        assert NUL in s[1..];
        NulIsRejected(s[1..]);
      }
    }
  }

  /** Without the enclosing quotes nothing decodes. */
  lemma UnquotedIsRejected(input: Str)
    requires input == [] || input[0] != QUOTE || input[|input| - 1] != QUOTE || |input| == 1
    ensures Dequote(input) == None
  {
  }

  /** Bytes other than `'` and `!` are not escaped. */
  lemma {:induction false} EscapePlain(s: Str)
    requires forall i :: 0 <= i < |s| ==> s[i] != QUOTE && s[i] != BANG
    ensures Escape(s) == s
    decreases |s|
  {
    if s != [] {
      EscapePlain(s[1..]);
      assert s == [s[0]] + s[1..];
    }
  }

  /** An ASCII string without NUL dequotes back from its quoted form. */
  lemma AsciiExampleDequotes(s: Str, quoted: Str)
    requires forall i :: 0 <= i < |s| ==> s[i] != NUL && s[i] < 0x80
    requires SqQuote(s) == quoted
    ensures Dequote(quoted) == Some(s)
  {
    AsciiIsUtf8(s);
    DequoteSqQuote(s);
  }

  /** git's first example: `name` is quoted as `'name'` and dequotes back. */
  lemma QuotingName()
    ensures SqQuote(Ascii("name")) == Ascii("'name'")
    ensures Dequote(Ascii("'name'")) == Some(Ascii("name"))
  {
    var name: Str := [0x6E, 0x61, 0x6D, 0x65];
    assert Ascii("name") == name;
    assert Ascii("'name'") == [QUOTE] + name + [QUOTE];
    EscapePlain(name);
    AsciiExampleDequotes(name, [QUOTE] + name + [QUOTE]);
  }

  /** A space needs no escape: `a b` is quoted as `'a b'`. */
  lemma QuotingSpace()
    ensures SqQuote(Ascii("a b")) == Ascii("'a b'")
    ensures Dequote(Ascii("'a b'")) == Some(Ascii("a b"))
  {
    assert Ascii("a b") == [0x61, SPACE, 0x62];
    assert Escape([0x62]) == [0x62];
    assert Escape([SPACE, 0x62]) == [SPACE, 0x62];
    AsciiExampleDequotes(Ascii("a b"), Ascii("'a b'"));
  }

  /** A single quote is closed, escaped and reopened: `a'b` is quoted as `'a'\''b'`. */
  lemma QuotingQuote()
    ensures SqQuote(Ascii("a'b")) == Ascii("'a'\\''b'")
    ensures Dequote(Ascii("'a'\\''b'")) == Some(Ascii("a'b"))
  {
    assert Ascii("a'b") == [0x61, QUOTE, 0x62];
    assert Escape([0x62]) == [0x62];
    assert Escape([QUOTE, 0x62]) == [QUOTE, BACKSLASH, QUOTE, QUOTE, 0x62];
    AsciiExampleDequotes(Ascii("a'b"), Ascii("'a'\\''b'"));
  }

  /** So is an exclamation mark: `a!b` is quoted as `'a'\!'b'`. */
  lemma QuotingBang()
    ensures SqQuote(Ascii("a!b")) == Ascii("'a'\\!'b'")
    ensures Dequote(Ascii("'a'\\!'b'")) == Some(Ascii("a!b"))
  {
    assert Ascii("a!b") == [0x61, BANG, 0x62];
    assert Escape([0x62]) == [0x62];
    assert Escape([BANG, 0x62]) == [QUOTE, BACKSLASH, BANG, QUOTE, 0x62];
    AsciiExampleDequotes(Ascii("a!b"), Ascii("'a'\\!'b'"));
  }

  /** The examples of git's quoting, `name`, `a b`, `a'b` and `a!b`, in both directions. */
  lemma QuotingExamples()
    ensures SqQuote(Ascii("name")) == Ascii("'name'")
    ensures SqQuote(Ascii("a b")) == Ascii("'a b'")
    ensures SqQuote(Ascii("a'b")) == Ascii("'a'\\''b'")
    ensures SqQuote(Ascii("a!b")) == Ascii("'a'\\!'b'")
    ensures Dequote(Ascii("'name'")) == Some(Ascii("name"))
    ensures Dequote(Ascii("'a b'")) == Some(Ascii("a b"))
    ensures Dequote(Ascii("'a'\\''b'")) == Some(Ascii("a'b"))
    ensures Dequote(Ascii("'a'\\!'b'")) == Some(Ascii("a!b"))
  {
    QuotingName();
    QuotingSpace();
    QuotingQuote();
    QuotingBang();
  }

  // ---------------------------------------------------------------------------
  // Arguments

  /** `ALLOWED_GIT_COMMANDS`: the transport services a client may run. */
  const ALLOWED_GIT_COMMANDS: seq<Str> := [Ascii("receive-pack"), Ascii("upload-pack"), Ascii("upload-archive")]

  datatype ShellError =
    | NotGitCommand
    | MissingArgument
    | Disallowed(subcommand: Str)
    | BadQuoting
    | CvsServer
    | Interactive
    | InvalidArguments

  /** A service to run and its already dequoted argument. */
  datatype Invocation = Invocation(subcommand: Str, argument: Str)

  /** The index of the first space, as `split_once(" ")` finds it. */
  function FirstSpace(s: Str): (r: Option<nat>)
    ensures r.None? <==> SPACE !in s
    ensures r.Some? ==> r.value < |s| && s[r.value] == SPACE && SPACE !in s[..r.value]
  {
    if s == [] then None
    else if s[0] == SPACE then Some(0)
    else
      var rest := FirstSpace(s[1..]);
      if rest.None? then None
      else
        assert s[..rest.value + 1] == [s[0]] + s[1..][..rest.value];
        Some(rest.value + 1)
  }

  lemma {:induction false} FirstSpaceAfter(word: Str, rest: Str)
    requires SPACE !in word
    ensures FirstSpace(word + [SPACE] + rest) == Some(|word|)
  {
    if word != [] {
      FirstSpaceAfter(word[1..], rest);
      assert (word + [SPACE] + rest)[1..] == word[1..] + [SPACE] + rest;
    }
  }

  lemma AllowedHaveNoSpace()
    ensures forall c :: c in ALLOWED_GIT_COMMANDS ==> SPACE !in c
  {
    var a, b, c := Ascii("receive-pack"), Ascii("upload-pack"), Ascii("upload-archive");
    assert forall i :: 0 <= i < |a| ==> a[i] != SPACE;
    assert forall i :: 0 <= i < |b| ==> b[i] != SPACE;
    assert forall i :: 0 <= i < |c| ==> c[i] != SPACE;
  }

  /** `strip_prefix("git-")`, else `strip_prefix("git ")`. */
  function StripGit(cmd: Str): (r: Option<Str>)
    ensures r.Some? <==> StartsWith(cmd, Ascii("git-")) || StartsWith(cmd, Ascii("git "))
    ensures r.Some? ==> |cmd| >= 4 && r.value == cmd[4..] && cmd[..4] in {Ascii("git-"), Ascii("git ")}
  {
    if StartsWith(cmd, Ascii("git-")) || StartsWith(cmd, Ascii("git ")) then Some(cmd[4..]) else None
  }

  lemma SplitAround(s: Str, k: nat)
    requires k < |s| && s[k] == SPACE
    ensures s == s[..k] + [SPACE] + s[k + 1..]
  {
    assert s == s[..k] + s[k..] && s[k..] == [s[k]] + s[k + 1..];
  }

  /** The rest of the command: the service up to the first space, then the quoted argument. */
  function ParseService(rest: Str): (r: Result<Invocation, ShellError>)
    ensures r.Ok? ==> r.value.subcommand in ALLOWED_GIT_COMMANDS
                      && rest == r.value.subcommand + [SPACE] + SqQuote(r.value.argument)
    ensures SPACE !in rest ==> r == Err(MissingArgument)
    ensures r != Err(NotGitCommand)
  {
    match FirstSpace(rest)
    case None => Err(MissingArgument)
    case Some(k) =>
      var subcommand, argument := rest[..k], rest[k + 1..];
      if subcommand !in ALLOWED_GIT_COMMANDS then Err(Disallowed(subcommand))
      else match Dequote(argument)
        case None => Err(BadQuoting)
        case Some(decoded) =>
          SqQuoteDequote(argument, decoded);
          SplitAround(rest, k);
          Ok(Invocation(subcommand, decoded))
  }

  /** The `-c` command: `git-` or `git ` first, then the service, a space and the quoted argument. */
  function ParseCommand(cmd: Str): (r: Result<Invocation, ShellError>)
    ensures r.Ok? ==> r.value.subcommand in ALLOWED_GIT_COMMANDS
    ensures r.Ok? ==> && |cmd| >= 4 && cmd[..4] in {Ascii("git-"), Ascii("git ")}
                      && cmd[4..] == r.value.subcommand + [SPACE] + SqQuote(r.value.argument)
    ensures !(StartsWith(cmd, Ascii("git-")) || StartsWith(cmd, Ascii("git "))) <==> r == Err(NotGitCommand)
    ensures (StartsWith(cmd, Ascii("git-")) || StartsWith(cmd, Ascii("git "))) && SPACE !in cmd[4..]
            ==> r == Err(MissingArgument)
  {
    match StripGit(cmd)
    case None => Err(NotGitCommand)
    case Some(rest) => ParseService(rest)
  }

  /** The `match` of `main` on its argument vector (the program name first). */
  function ParseArgs(args: seq<Str>): (r: Result<Invocation, ShellError>)
    ensures |args| == 3 && args[1] == Ascii("-c") ==> r == ParseCommand(args[2])
    ensures r.Ok? ==> |args| == 3 && args[1] == Ascii("-c")
    ensures |args| == 2 && args[1] == Ascii("cvs server") ==> r == Err(CvsServer)
    ensures |args| == 1 <==> r == Err(Interactive)
    ensures |args| == 0 || |args| > 3 ==> r == Err(InvalidArguments)
    ensures |args| == 2 && args[1] != Ascii("cvs server") ==> r == Err(InvalidArguments)
    ensures |args| == 3 && args[1] != Ascii("-c") ==> r == Err(InvalidArguments)
  {
    if |args| == 3 && args[1] == Ascii("-c") then ParseCommand(args[2])
    else if |args| == 2 && args[1] == Ascii("cvs server") then Err(CvsServer)
    else if |args| == 1 then Err(Interactive)
    else Err(InvalidArguments)
  }

  lemma StripGitPrefix(prefix: Str, rest: Str)
    requires prefix in {Ascii("git-"), Ascii("git ")}
    ensures StripGit(prefix + rest) == Some(rest)
  {
    var cmd := prefix + rest;
    assert cmd[..4] == prefix && cmd[4..] == rest;
  }

  /** An allowed service followed by a space and a quoted argument parses back to both. */
  lemma ServiceOfQuoted(subcommand: Str, argument: Str)
    requires subcommand in ALLOWED_GIT_COMMANDS
    requires NUL !in argument && ValidUtf8(argument)
    ensures ParseService(subcommand + [SPACE] + SqQuote(argument)) == Ok(Invocation(subcommand, argument))
  {
    var rest := subcommand + [SPACE] + SqQuote(argument);
    AllowedHaveNoSpace();
    FirstSpaceAfter(subcommand, SqQuote(argument));
    assert rest[..|subcommand|] == subcommand && rest[|subcommand| + 1..] == SqQuote(argument);
    DequoteSqQuote(argument);
  }

  /** Every service on the allow-list, with any NUL-free UTF-8 argument quoted as git quotes it, is accepted. */
  lemma AllowedCommandIsAccepted(program: Str, prefix: Str, subcommand: Str, argument: Str)
    requires prefix in {Ascii("git-"), Ascii("git ")}
    requires subcommand in ALLOWED_GIT_COMMANDS
    requires NUL !in argument && ValidUtf8(argument)
    ensures ParseArgs([program, Ascii("-c"), prefix + subcommand + [SPACE] + SqQuote(argument)])
            == Ok(Invocation(subcommand, argument))
  {
    var rest := subcommand + [SPACE] + SqQuote(argument);
    assert prefix + subcommand + [SPACE] + SqQuote(argument) == prefix + rest;
    StripGitPrefix(prefix, rest);
    ServiceOfQuoted(subcommand, argument);
  }

  /** A service off the list is refused whatever its argument. */
  lemma UnknownServiceIsRefused(program: Str, subcommand: Str, argument: Str)
    requires subcommand !in ALLOWED_GIT_COMMANDS && SPACE !in subcommand
    ensures ParseArgs([program, Ascii("-c"), Ascii("git-") + subcommand + [SPACE] + argument]) == Err(Disallowed(subcommand))
  {
    var rest := subcommand + [SPACE] + argument;
    var cmd := Ascii("git-") + rest;
    assert cmd[..4] == Ascii("git-") && cmd[4..] == rest;
    assert StartsWith(cmd, Ascii("git-"));
    assert rest[..|subcommand|] == subcommand;
    FirstSpaceAfter(subcommand, argument);
    assert Ascii("git-") + subcommand + [SPACE] + argument == cmd;
    assert ParseCommand(cmd) == Err(Disallowed(subcommand));
  }

  // ---------------------------------------------------------------------------
  // Running the service

  /** The arguments `main` gives the git executable: only the dequoted argument. */
  function ExecArgvAsWritten(inv: Invocation): seq<Str> {
    [inv.argument]
  }

  /** Accepted and as written, `git-upload-pack '/srv/a.git'` runs git with `/srv/a.git` as its subcommand. */
  lemma ServiceIsDroppedAsWritten()
    ensures var args := [Ascii("git-shell"), Ascii("-c"), Ascii("git-") + Ascii("upload-pack") + [SPACE] + SqQuote(Ascii("/srv/a.git"))];
      && ParseArgs(args) == Ok(Invocation(Ascii("upload-pack"), Ascii("/srv/a.git")))
      && ExecArgvAsWritten(ParseArgs(args).value)[0] !in ALLOWED_GIT_COMMANDS
  {
    var argument := Ascii("/srv/a.git");
    assert forall i :: 0 <= i < |argument| ==> argument[i] != NUL && argument[i] < 0x80;
    AsciiIsUtf8(argument);
    AllowedCommandIsAccepted(Ascii("git-shell"), Ascii("git-"), Ascii("upload-pack"), argument);
  }

  /** The evidently intended arguments: the allowed service, then its argument. */
  function ExecArgv(inv: Invocation): seq<Str> {
    [inv.subcommand, inv.argument]
  }

  /** With the service passed on, git only ever runs an allowed service, on the client's argument. */
  lemma ExecRunsAllowedService(args: seq<Str>)
    requires ParseArgs(args).Ok?
    ensures var argv := ExecArgv(ParseArgs(args).value);
      argv[0] in ALLOWED_GIT_COMMANDS && SqQuote(argv[1]) == args[2][|args[2]| - |SqQuote(argv[1])|..]
  {
    var inv := ParseArgs(args).value;
    var tail := args[2][4..];
    assert tail == inv.subcommand + [SPACE] + SqQuote(inv.argument);
    assert tail[|tail| - |SqQuote(inv.argument)|..] == SqQuote(inv.argument);
  }

  lemma {:induction false} AsciiIsUtf8(s: Str)
    requires forall i :: 0 <= i < |s| ==> s[i] < 0x80
    ensures ValidUtf8(s)
    decreases |s|
  {
    if s != [] {
      AsciiIsUtf8(s[1..]);
    }
  }
}
