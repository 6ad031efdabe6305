/**
 * The command-line parser `parseArgs`: it walks the tokens after the
 * interpreter and script paths and fills in `{dir, limit}`, or stops the
 * process with an exit code at the first token it cannot accept.
 */
module CommandLine {
  import opened Wrappers
  import opened JsBuiltins

  /** What the parser borrows from the host: `process.cwd()`, `path.resolve` and `Number(string)`. */
  datatype Host = Host(cwd: string, resolve: string -> string, toNumber: string -> JsNumber)

  /** The parsed options: the directory git runs in and the number of branches to offer. */
  datatype Config = Config(dir: string, limit: JsNumber)

  /** Why the parser ends the process instead of returning options. */
  datatype Stop =
    | Help                         // -h or --help: usage text, exit 0
    | UnknownArgument(arg: string)  // any other token: message and usage text, exit 0
    | MissingDirectory             // -C without a non-empty value: exit 2
    | NonNumericLimit              // -n without a value, or one that is NaN as a number: exit 2

  datatype ParseResult = Parsed(config: Config) | Stopped(stop: Stop)

  const DEFAULT_LIMIT: real := 30.0

  function Defaults(host: Host): Config {
    Config(host.cwd, Finite(DEFAULT_LIMIT))
  }

  /** The exit code the parser ends the process with. */
  function ExitCode(stop: Stop): (code: int)
    ensures code == 0 || code == 2
    ensures code == 2 <==> stop.MissingDirectory? || stop.NonNumericLimit?
  {
    match stop
    case Help => 0
    case UnknownArgument(_) => 0
    case MissingDirectory => 2
    case NonNumericLimit => 2
  }

  /** A JavaScript value that is falsy: `undefined` (past the end of argv) or the empty string. */
  predicate Falsy(v: Option<string>) {
    v.None? || v.value == ""
  }

  /** The limit `-n v` sets, or nothing when the parser rejects `v`. */
  function LimitOf(v: Option<string>, host: Host): (r: Option<JsNumber>)
    ensures r.Some? ==> r.value != NaN
    ensures r.None? <==> Falsy(v) || host.toNumber(v.value).NaN?
    ensures r.Some? ==> r.value == host.toNumber(v.value)
  {
    if Falsy(v) || host.toNumber(v.value).NaN? then None else Some(host.toNumber(v.value))
  }

  /** `argv[i..]`, empty once `i` is past the end. */
  function Rest(argv: seq<string>, i: nat): seq<string> {
    if i <= |argv| then argv[i..] else []
  }

  /** The tokens the parser looks at: everything after the interpreter and the script path. */
  function Tokens(argv: seq<string>): seq<string> {
    Rest(argv, 2)
  }

  /**
   * The parser's meaning, token by token, starting from the options so far.
   * `-C` and `-n` take the next token as their value, whatever it looks like.
   */
  function ParseTokens(tokens: seq<string>, args: Config, host: Host): (r: ParseResult)
    ensures args.limit != NaN && r.Parsed? ==> r.config.limit != NaN
    decreases |tokens|
  {
    if tokens == [] then Parsed(args)
    else
      var arg := tokens[0];
      var next := if |tokens| > 1 then Some(tokens[1]) else None;
      if arg == "-h" || arg == "--help" then Stopped(Help)
      else if arg == "-C" then
        if Falsy(next) then Stopped(MissingDirectory)
        else ParseTokens(tokens[2..], args.(dir := host.resolve(next.value)), host)
      else if arg == "-n" then
        match LimitOf(next, host)
        case None => Stopped(NonNumericLimit)
        case Some(n) => ParseTokens(tokens[2..], args.(limit := n), host)
      else Stopped(UnknownArgument(arg))
  }

  /** The result of `parseArgs(argv)`. */
  function ParseArgv(argv: seq<string>, host: Host): (r: ParseResult)
    ensures r.Parsed? ==> r.config.limit != NaN
  {
    ParseTokens(Tokens(argv), Defaults(host), host)
  }

  /**
   * `parseArgs` as the script runs it: an index loop from 2 that steps over
   * the value of `-C` and `-n` and updates the options record in place;
   * every `process.exit` becomes a return of `Stopped`.
   */
  method ParseArgs(argv: seq<string>, host: Host) returns (r: ParseResult)
    ensures r == ParseArgv(argv, host)
  {
    var args := Defaults(host);
    var i := 2;
    while i < |argv|
      invariant 2 <= i && (i <= |argv| || i == 2)
      invariant ParseTokens(Rest(argv, i), args, host) == ParseArgv(argv, host)
      decreases |argv| - i
    {
      var arg := argv[i];
      ghost var tokens := argv[i..];
      assert Rest(argv, i) == tokens && tokens[0] == arg;
      assert i + 1 < |argv| ==> tokens[1] == argv[i + 1];
      if arg == "-h" || arg == "--help" {
        return Stopped(Help);
      } else if arg == "-C" {
        var next := if i + 1 < |argv| then Some(argv[i + 1]) else None;
        if Falsy(next) {
          return Stopped(MissingDirectory);
        }
        args := args.(dir := host.resolve(next.value));
        i := i + 1;
      } else if arg == "-n" {
        var next := if i + 1 < |argv| then Some(argv[i + 1]) else None;
        if Falsy(next) || host.toNumber(next.value).NaN? {
          return Stopped(NonNumericLimit);
        }
        args := args.(limit := host.toNumber(next.value));
        i := i + 1;
      } else {
        return Stopped(UnknownArgument(arg));
      }
      i := i + 1;
      assert Rest(argv, i) == tokens[2..];
    }
    return Parsed(args);
  }

  // ---------------------------------------------------------------------------
  // Properties of the parser

  /** With nothing after the script path the defaults stand: the current directory and 30. */
  lemma NoTokensGiveDefaults(argv: seq<string>, host: Host)
    requires |argv| <= 2
    ensures ParseArgv(argv, host) == Parsed(Config(host.cwd, Finite(30.0)))
  {
  }

  /** The first two entries of argv are never examined. */
  lemma FirstTwoIgnored(argv: seq<string>, other: seq<string>, host: Host)
    requires |argv| >= 2 && |other| >= 2 && argv[2..] == other[2..]
    ensures ParseArgv(argv, host) == ParseArgv(other, host)
  {
  }

  /**
   * Tokens that parse completely hand their options on to what follows them:
   * no value of `-C` or `-n` is left waiting for a later token.
   */
  lemma {:induction false} ParseTokensAppend(ts: seq<string>, more: seq<string>, args: Config, host: Host)
    requires ParseTokens(ts, args, host).Parsed?
    ensures ParseTokens(ts + more, args, host) == ParseTokens(more, ParseTokens(ts, args, host).config, host)
    decreases |ts|
  {
    if ts != [] {
      var all := ts + more;
      assert all[0] == ts[0];
      assert |ts| > 1 ==> all[1] == ts[1];
      if ts[0] == "-C" || ts[0] == "-n" {
        assert |ts| > 1;
        assert all[2..] == ts[2..] + more;
        var next := Some(ts[1]);
        var args' := if ts[0] == "-C" then args.(dir := host.resolve(ts[1])) else args.(limit := LimitOf(next, host).value);
        ParseTokensAppend(ts[2..], more, args', host);
      }
    } else {
      assert ts + more == more;
    }
  }

  /**
   * After tokens that parse completely, `-h`, `--help` or an unknown token
   * stops the parser with exit code 0 and nothing after it is looked at.
   */
  lemma StopsAtTerminator(ts: seq<string>, t: string, rest: seq<string>, args: Config, host: Host)
    requires ParseTokens(ts, args, host).Parsed?
    requires t != "-C" && t != "-n"
    ensures ParseTokens(ts + [t] + rest, args, host)
         == Stopped(if t == "-h" || t == "--help" then Help else UnknownArgument(t))
    ensures ExitCode(ParseTokens(ts + [t] + rest, args, host).stop) == 0
  {
    ParseTokensAppend(ts, [t] + rest, args, host);
    assert ts + [t] + rest == ts + ([t] + rest);
  }

  /** `-C` with no following token, or an empty one, stops the parser with exit code 2. */
  lemma MissingDirectoryExits(ts: seq<string>, v: Option<string>, rest: seq<string>, args: Config, host: Host)
    requires ParseTokens(ts, args, host).Parsed?
    requires Falsy(v)
    requires v.None? ==> rest == []
    ensures var tail := if v.Some? then [v.value] + rest else [];
            ParseTokens(ts + ["-C"] + tail, args, host) == Stopped(MissingDirectory)
  {
    var tail := if v.Some? then [v.value] + rest else [];
    ParseTokensAppend(ts, ["-C"] + tail, args, host);
    assert ts + ["-C"] + tail == ts + (["-C"] + tail);
  }

  /** `-n` with no following token, an empty one or one that is NaN as a number stops the parser with exit code 2. */
  lemma NonNumericLimitExits(ts: seq<string>, v: Option<string>, rest: seq<string>, args: Config, host: Host)
    requires ParseTokens(ts, args, host).Parsed?
    requires Falsy(v) || host.toNumber(v.value).NaN?
    requires v.None? ==> rest == []
    ensures var tail := if v.Some? then [v.value] + rest else [];
            ParseTokens(ts + ["-n"] + tail, args, host) == Stopped(NonNumericLimit)
  {
    var tail := if v.Some? then [v.value] + rest else [];
    ParseTokensAppend(ts, ["-n"] + tail, args, host);
    assert ts + ["-n"] + tail == ts + (["-n"] + tail);
  }

  /**
   * `-C v` consumes exactly the one token `v`, even one that looks like a flag,
   * and replaces the directory chosen so far: the last `-C` wins.
   */
  lemma DirectoryOptionConsumesValue(ts: seq<string>, v: string, rest: seq<string>, args: Config, host: Host)
    requires ParseTokens(ts, args, host).Parsed?
    requires v != ""
    ensures var c := ParseTokens(ts, args, host).config;
            ParseTokens(ts + ["-C", v] + rest, args, host) == ParseTokens(rest, c.(dir := host.resolve(v)), host)
  {
    ParseTokensAppend(ts, ["-C", v] + rest, args, host);
    assert ts + ["-C", v] + rest == ts + (["-C", v] + rest);
    assert (["-C", v] + rest)[2..] == rest;
  }

  /**
   * `-n v` with a numeric `v` consumes exactly the one token `v` and replaces
   * the limit chosen so far: the last `-n` wins.
   */
  lemma LimitOptionConsumesValue(ts: seq<string>, v: string, rest: seq<string>, args: Config, host: Host)
    requires ParseTokens(ts, args, host).Parsed?
    requires v != "" && !host.toNumber(v).NaN?
    ensures var c := ParseTokens(ts, args, host).config;
            ParseTokens(ts + ["-n", v] + rest, args, host) == ParseTokens(rest, c.(limit := host.toNumber(v)), host)
  {
    ParseTokensAppend(ts, ["-n", v] + rest, args, host);
    assert ts + ["-n", v] + rest == ts + (["-n", v] + rest);
    assert (["-n", v] + rest)[2..] == rest;
  }
}
