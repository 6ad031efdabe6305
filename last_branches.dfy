/**
 * `main` and the process-exit logic around it: parse the arguments, check
 * the directory, list the branches, let the user pick one and check it out.
 * Every `process.exit(...)` of the script and the final `.catch` become one
 * `Outcome`, and one dispatcher maps an outcome to the exit code.
 */
module LastBranches {
  import opened Wrappers
  import opened JsBuiltins
  import CommandLine
  import opened BranchList
  import opened Selection

  /** How the prompt's promise settles: the chosen value, or a rejection (escape, an error). */
  datatype Answer = Selected(name: string) | Aborted

  /**
   * Everything the script asks of the outside world, as functions of what it
   * passes: the host (`process.cwd`, `path.resolve`, `Number`), `existsSync`
   * (true for any existing path, a plain file included),
   * whether `git rev-parse --is-inside-work-tree` exits with status 0 in a
   * directory, the standard output of `git for-each-ref` in a directory
   * (nothing when it fails), the prompt's answer for the choices and window
   * height it is shown, and the status of `git checkout <branch>` (nothing
   * when the child has none, as when a signal ends it).
   */
  datatype Environment = Environment(
    host: CommandLine.Host,
    pathExists: string -> bool,
    repoCheckSucceeds: string -> bool,
    forEachRef: string -> Option<string>,
    prompt: (seq<string>, int) -> Answer,
    checkout: (string, string) -> Option<int>)

  /** The outside actions a run performs, in the order it performs them. */
  datatype Effect =
    | CheckRepository(dir: string)
    | ListRefs(dir: string)
    | Prompt(choices: seq<string>, height: int)
    | Checkout(dir: string, branch: string)

  /** How a run ends. */
  datatype Outcome =
    | UsageStop(stop: CommandLine.Stop)
    | DirectoryNotFound(dir: string)
    | NotARepository(dir: string)
    | ListingFailed
    | NoBranches
    | SelectionAborted
    | CheckedOut(branch: string, status: Option<int>)

  datatype Run = Run(effects: seq<Effect>, outcome: Outcome)

  /** The position of each kind of action in the fixed pipeline. */
  function Stage(e: Effect): nat {
    match e
    case CheckRepository(_) => 0
    case ListRefs(_) => 1
    case Prompt(_, _) => 2
    case Checkout(_, _) => 3
  }

  predicate Prompted(effects: seq<Effect>) {
    exists i :: 0 <= i < |effects| && effects[i].Prompt?
  }

  predicate CheckedOutAny(effects: seq<Effect>) {
    exists i :: 0 <= i < |effects| && effects[i].Checkout?
  }

  /**
   * The exit code of each outcome: 2 for usage and validation failures,
   * 1 for a failure caught by `main().catch`, 0 for help and for an empty
   * listing, and the checkout child's status (0 when it has none).
   */
  function ExitStatus(o: Outcome): (code: int)
    ensures !o.CheckedOut? ==>
      (code == 2 <==> o.DirectoryNotFound? || o.NotARepository? || (o.UsageStop? && CommandLine.ExitCode(o.stop) == 2))
    ensures !o.CheckedOut? ==> (code == 1 <==> o.ListingFailed? || o.SelectionAborted?)
    ensures !o.CheckedOut? ==> (code == 0 <==> o.NoBranches? || (o.UsageStop? && (o.stop.Help? || o.stop.UnknownArgument?)))
    ensures o.CheckedOut? && o.status.Some? ==> code == o.status.value
    ensures o.CheckedOut? && o.status.None? ==> code == 0
  {
    match o
    case UsageStop(s) => CommandLine.ExitCode(s)
    case DirectoryNotFound(_) => 2
    case NotARepository(_) => 2
    case ListingFailed => 1
    case NoBranches => 0
    case SelectionAborted => 1
    case CheckedOut(_, status) => status.GetOr(0)
  }

  /**
   * From the listed branches on: an empty listing ends the run before any
   * prompt; otherwise the prompt is shown the names of the first `limit`
   * branches, and only a selected name is checked out, in `dir`.
   */
  function Interact(dir: string, limit: JsNumber, branches: seq<Branch>, env: Environment): (run: Run)
    ensures forall i :: 0 <= i < |run.effects| ==> Stage(run.effects[i]) == i + 2
    ensures forall i :: 0 <= i < |run.effects| && !run.effects[i].Prompt? ==> run.effects[i].dir == dir
    ensures run.outcome.NoBranches? || run.outcome.SelectionAborted? || run.outcome.CheckedOut?
    ensures |branches| == 0 <==> run.outcome.NoBranches?
    ensures |branches| == 0 <==> !Prompted(run.effects)
    ensures Prompted(run.effects) ==>
      var p := run.effects[0];
      p.Prompt? &&
      |p.choices| == SliceEnd(|branches|, limit) &&
      (forall i :: 0 <= i < |p.choices| ==> p.choices[i] == branches[i].name) &&
      p.height == WindowHeight(|p.choices|) &&
      (match env.prompt(p.choices, p.height)
       case Aborted => run == Run([p], SelectionAborted)
       case Selected(name) => run == Run([p, Checkout(dir, name)], CheckedOut(name, env.checkout(dir, name))))
    ensures CheckedOutAny(run.effects) <==> run.outcome.CheckedOut?
    ensures run.outcome.CheckedOut? ==>
      |run.effects| == 2 &&
      env.prompt(run.effects[0].choices, run.effects[0].height) == Selected(run.outcome.branch) &&
      run.effects[1] == Checkout(dir, run.outcome.branch) &&
      run.outcome.status == env.checkout(dir, run.outcome.branch)
    ensures run.outcome.SelectionAborted? ==> env.prompt(run.effects[0].choices, run.effects[0].height) == Aborted
  {
    if |branches| == 0 then Run([], NoBranches)
    else
      var shown := Shown(branches, limit);
      var choices := Names(shown);
      var height := WindowHeight(|shown|);
      match env.prompt(choices, height)
      case Aborted =>
        var run := Run([Prompt(choices, height)], SelectionAborted);
        assert run.effects[0].Prompt?;
        run
      case Selected(name) =>
        var run := Run([Prompt(choices, height), Checkout(dir, name)], CheckedOut(name, env.checkout(dir, name)));
        assert run.effects[0].Prompt? && run.effects[1].Checkout?;
        run
  }

  /** `ensureGitRepo`, `fetchBranches` and what follows, for parsed options. */
  function Validate(config: CommandLine.Config, env: Environment): (run: Run)
    ensures forall i :: 0 <= i < |run.effects| ==> Stage(run.effects[i]) == i
    ensures !run.outcome.UsageStop?
    ensures forall i :: 0 <= i < |run.effects| && !run.effects[i].Prompt? ==> run.effects[i].dir == config.dir
    ensures run.outcome.DirectoryNotFound? <==> !env.pathExists(config.dir)
    ensures run.outcome.DirectoryNotFound? ==> run == Run([], DirectoryNotFound(config.dir))
    ensures run.outcome.NotARepository? ==> run == Run([CheckRepository(config.dir)], NotARepository(config.dir))
    ensures run.outcome.ListingFailed? ==> run.effects == [CheckRepository(config.dir), ListRefs(config.dir)]
    ensures run.outcome.NotARepository? <==> env.pathExists(config.dir) && !env.repoCheckSucceeds(config.dir)
    ensures run.outcome.ListingFailed? <==>
      env.pathExists(config.dir) && env.repoCheckSucceeds(config.dir) && env.forEachRef(config.dir).None?
    ensures env.pathExists(config.dir) && env.repoCheckSucceeds(config.dir) && env.forEachRef(config.dir).Some? ==>
      var rest := Interact(config.dir, config.limit, ParseBranches(env.forEachRef(config.dir).value), env);
      |run.effects| == 2 + |rest.effects| && run.effects[2..] == rest.effects && run.outcome == rest.outcome
    ensures run.outcome.NoBranches? ==> !Prompted(run.effects) && |run.effects| == 2
    ensures Prompted(run.effects) ==>
      |run.effects| >= 3 && env.forEachRef(config.dir).Some? &&
      ParseBranches(env.forEachRef(config.dir).value) != []
  {
    var dir := config.dir;
    if !env.pathExists(dir) then Run([], DirectoryNotFound(dir))
    else if !env.repoCheckSucceeds(dir) then Run([CheckRepository(dir)], NotARepository(dir))
    else
      match env.forEachRef(dir)
      case None => Run([CheckRepository(dir), ListRefs(dir)], ListingFailed)
      case Some(output) => Listed(dir, config.limit, ParseBranches(output), env)
  }

  /** The run once git has listed `branches` in `dir`. */
  function Listed(dir: string, limit: JsNumber, branches: seq<Branch>, env: Environment): (run: Run)
    ensures forall i :: 0 <= i < |run.effects| ==> Stage(run.effects[i]) == i
    ensures forall i :: 0 <= i < |run.effects| && !run.effects[i].Prompt? ==> run.effects[i].dir == dir
    ensures run.outcome.NoBranches? ==> !Prompted(run.effects) && |run.effects| == 2
    ensures Prompted(run.effects) ==> |run.effects| >= 3 && |branches| > 0
    ensures |run.effects| >= 2 && run.effects[2..] == Interact(dir, limit, branches, env).effects
    ensures run.outcome == Interact(dir, limit, branches, env).outcome
  {
    var rest := Interact(dir, limit, branches, env);
    var run := Run([CheckRepository(dir), ListRefs(dir)] + rest.effects, rest.outcome);
    assert forall i :: 2 <= i < |run.effects| ==> run.effects[i] == rest.effects[i - 2];
    assert run.effects[2..] == rest.effects;
    run
  }

  /** `main`: the whole run, from argv to the outcome. */
  function Execute(argv: seq<string>, env: Environment): (run: Run)
    ensures forall i :: 0 <= i < |run.effects| ==> Stage(run.effects[i]) == i
    ensures run.outcome.UsageStop? <==> CommandLine.ParseArgv(argv, env.host).Stopped?
    ensures run.outcome.UsageStop? ==> run.effects == [] && CommandLine.ParseArgv(argv, env.host).stop == run.outcome.stop
    ensures forall i :: 0 <= i < |run.effects| && !run.effects[i].Prompt? ==>
      run.effects[i].dir == CommandLine.ParseArgv(argv, env.host).config.dir
    ensures run.outcome.NoBranches? ==> !Prompted(run.effects) && |run.effects| == 2
    ensures Prompted(run.effects) ==>
      var p := CommandLine.ParseArgv(argv, env.host);
      p.Parsed? && env.forEachRef(p.config.dir).Some? && ParseBranches(env.forEachRef(p.config.dir).value) != []
    ensures var p := CommandLine.ParseArgv(argv, env.host);
      p.Parsed? ==>
        var dir := p.config.dir;
        (run.outcome.DirectoryNotFound? <==> !env.pathExists(dir)) &&
        (run.outcome.DirectoryNotFound? ==> run == Run([], DirectoryNotFound(dir))) &&
        (run.outcome.NotARepository? <==> env.pathExists(dir) && !env.repoCheckSucceeds(dir)) &&
        (run.outcome.NotARepository? ==> run == Run([CheckRepository(dir)], NotARepository(dir))) &&
        (run.outcome.ListingFailed? <==> env.pathExists(dir) && env.repoCheckSucceeds(dir) && env.forEachRef(dir).None?) &&
        (run.outcome.ListingFailed? ==> run.effects == [CheckRepository(dir), ListRefs(dir)])
    ensures var p := CommandLine.ParseArgv(argv, env.host);
      p.Parsed? ==>
        var dir := p.config.dir;
        env.pathExists(dir) && env.repoCheckSucceeds(dir) && env.forEachRef(dir).Some? ==>
          var rest := Interact(dir, p.config.limit, ParseBranches(env.forEachRef(dir).value), env);
          |run.effects| == 2 + |rest.effects| && run.effects[..2] == [CheckRepository(dir), ListRefs(dir)] &&
          run.effects[2..] == rest.effects && run.outcome == rest.outcome
  {
    match CommandLine.ParseArgv(argv, env.host)
    case Stopped(s) => Run([], UsageStop(s))
    case Parsed(config) => Validate(config, env)
  }

  /**
   * End to end from git's listing: for N well-formed refs and a non-negative
   * integer limit L, the prompt is shown the names of the first min(N, L)
   * refs in git's order, with a window of 5 to 20 rows.
   */
  lemma PromptShowsMostRecent(dir: string, limit: nat, refs: seq<Ref>, env: Environment)
    requires forall i :: 0 <= i < |refs| ==> WellFormed(refs[i])
    requires |refs| > 0
    ensures var run := Interact(dir, Finite(limit as real), ParseBranches(ForEachRefOutput(refs)), env);
      var n := Min(|refs|, limit);
      |run.effects| >= 1 &&
      run.effects[0] == Prompt(run.effects[0].choices, WindowHeight(n)) &&
      |run.effects[0].choices| == n &&
      (forall i :: 0 <= i < n ==> run.effects[0].choices[i] == refs[i].name)
  {
    var branches := ParseBranches(ForEachRefOutput(refs));
    ParseForEachRefOutput(refs);
    ShownFirstLimit(branches, limit);
    var n := Min(|refs|, limit);
    var shown := Shown(branches, Finite(limit as real));
    assert |shown| == n;
    var choices := Names(shown);
    forall i | 0 <= i < n
      ensures choices[i] == refs[i].name
    {
      assert shown[i] == branches[i] == ToBranches(refs)[i];
    }
    var run := Interact(dir, Finite(limit as real), branches, env);
    assert run.effects[0] == Prompt(choices, WindowHeight(n));
  }

  /** The process's exit code for a run. */
  function Main(argv: seq<string>, env: Environment): (code: int)
    ensures var p := CommandLine.ParseArgv(argv, env.host);
      p.Stopped? ==> code == CommandLine.ExitCode(p.stop)
    ensures var p := CommandLine.ParseArgv(argv, env.host);
      p.Parsed? && !(env.pathExists(p.config.dir) && env.repoCheckSucceeds(p.config.dir)) ==> code == 2
    ensures var p := CommandLine.ParseArgv(argv, env.host);
      p.Parsed? && env.pathExists(p.config.dir) && env.repoCheckSucceeds(p.config.dir) ==>
        match env.forEachRef(p.config.dir)
        case None => code == 1
        case Some(output) => ParseBranches(output) == [] ==> code == 0
    ensures var p := CommandLine.ParseArgv(argv, env.host);
      p.Parsed? ==>
        var dir := p.config.dir;
        env.pathExists(dir) && env.repoCheckSucceeds(dir) && env.forEachRef(dir).Some? &&
        ParseBranches(env.forEachRef(dir).value) != [] ==>
          var shown := Shown(ParseBranches(env.forEachRef(dir).value), p.config.limit);
          match env.prompt(Names(shown), WindowHeight(|shown|))
          case Aborted => code == 1
          case Selected(name) => code == env.checkout(dir, name).GetOr(0)
  {
    ExitStatus(Execute(argv, env).outcome)
  }
}
