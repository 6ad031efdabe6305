# last-branches, modelled in Dafny

`last-branches` is a small Node command that lists the local git branches
ordered by their last commit, lets the user pick one in a terminal prompt and
checks it out. This project models its logic: the command-line parser
(`parseArgs`), the parser of the `git for-each-ref` output inside
`fetchBranches`, the choice list and window height handed to the prompt in
`selectBranchInteractive`, and the way `main`, `ensureGitRepo`, `doCheckout`
and the final `.catch` decide the process's exit code. Git, the file system,
the prompt and the host's path and number conversions are inputs.

Modules, one per concern:

- `Wrappers` (`wrappers.dfy`): `Option`, standing for a value that may be `undefined`.
- `JsBuiltins` (`js_builtins.dfy`): the JavaScript built-ins the script leans on: `split` with a
  string separator (characterised completely: joining the pieces gives the string back, every
  piece but the last is cut exactly at the separator after it, the last holds none, and pieces of
  that shape are what splitting their join returns), `trim`, `filter(Boolean)`, the number values
  `Number(...)` can yield and the end index `slice(0, end)` computes from one.
- `CommandLine` (`command_line.dfy`): `parseArgs` as an imperative method (the index loop of the
  source, stepping over option values and updating the options record) proved equal to a
  token-by-token reference function, and the parser's properties stated on that function.
- `BranchList` (`branch_list.dfy`): the split / trim / filter / split-at-`||` pipeline, with the
  properties that it yields one record per non-blank line in order, that fields are positional,
  and that parsing what `git for-each-ref` prints for well-formed refs gives the refs back.
- `Selection` (`selection.dfy`): the first `limit` branches and the window height clamp.
- `LastBranches` (`last_branches.dfy`): the run as a pure function of argv and an `Environment`,
  returning the outside actions in order and an `Outcome`; one dispatcher maps the outcome to the
  exit code.

What the code does, in the places where it is easy to misread:

- `-n` accepts any token whose `Number` value is not NaN, so `-n 0`, `-n -3`, `-n 2.5` and
  `-n Infinity` all parse. The model keeps the number and applies `slice`'s own conversion
  (truncation toward zero, a negative end counted from the end of the list).
- Each line is destructured as `[name, rel, iso]` from its `||`-separated pieces: a line with
  fewer than three pieces leaves the missing fields `undefined`, and extra pieces are dropped.
- The repository check treats a directory as a repository when
  `git rev-parse --is-inside-work-tree` exits with status 0, whatever it prints.
- `existsSync` is true for any existing path, so a plain file passes the directory check and
  fails only at the repository check.
- A failure of `git for-each-ref` itself is not caught in `fetchBranches`; it rejects `main`'s
  promise and ends with exit code 1.
- Some branch names git accepts do not survive the parsing: a name holding `||` is cut there and
  its remainder shifts into the date fields (`BranchList.NameWithSeparatorIsCut`), and a name
  that starts with white space `trim` removes, such as a no-break space, comes back without it,
  so the script would check out a different branch (`BranchList.LeadingWhiteSpaceIsTrimmed`).
  A name ending in `|` is misread the same way. `BranchList.WellFormed` names the refs that
  round-trip.

`CommandLine.Defaults` (the options record of `bin/last-branches.js:27`), `CommandLine.Falsy`
(the `!next` tests of `bin/last-branches.js:34` and `:42`), `BranchList.FormatRef` and
`BranchList.ForEachRefOutput` (what git prints for the format string of `bin/last-branches.js:73`),
`BranchList.ToBranch` and `BranchList.WellFormed` are reference definitions without contracts of
their own; the lemmas below state what holds of them.

## Model

| member | source | states |
|---|---|---|
| `JsBuiltins.IndexOf` | bin/last-branches.js:81 | the result is the first occurrence of the separator at or after the start, or none exists |
| `JsBuiltins.Split` | bin/last-branches.js:81 | a split always has at least one piece, so a line's `name` is never `undefined` |
| `JsBuiltins.SplitJoin` | bin/last-branches.js:77 | joining the pieces of `s.split(sep)` with `sep` gives `s` back |
| `JsBuiltins.SplitHasShape` | bin/last-branches.js:81 | every piece but the last is cut exactly at the separator that follows it; the last piece holds no separator |
| `JsBuiltins.JoinSplit` | bin/last-branches.js:81 | pieces of that shape are exactly what splitting their join returns |
| `JsBuiltins.SplitAppend` | bin/last-branches.js:77 | with a one-character separator, splitting `a + sep + b` is splitting `a` then `b` |
| `JsBuiltins.TrimStart` | bin/last-branches.js:78 | removes exactly the leading white space: a suffix, all dropped characters white space, no white space left in front |
| `JsBuiltins.TrimEnd` | bin/last-branches.js:78 | removes exactly the trailing white space: a prefix, all dropped characters white space, none left at the end |
| `JsBuiltins.Trim` | bin/last-branches.js:78 | the result has no white space at either end; it is empty exactly when the line is white space only; a line already trimmed is unchanged |
| `JsBuiltins.TrimCutsEnds` | bin/last-branches.js:78 | the trimmed line is a slice of the line with only white space cut off in front of it and behind it |
| `JsBuiltins.NonEmpty` | bin/last-branches.js:79 | keeps exactly the non-empty strings: no empty one survives, none is invented, none is lost |
| `JsBuiltins.NonEmptyAppend` | bin/last-branches.js:79 | filtering keeps the order: filtering a concatenation concatenates the filtered halves |
| `JsBuiltins.Truncate` | bin/last-branches.js:88 | the limit is cut toward zero, as `slice` converts its argument |
| `JsBuiltins.SliceEnd` | bin/last-branches.js:88 | the end index of `slice(0, limit)`: never past the end; the whole limit for a limit above -1, counted from the end for a negative one, none for NaN or minus infinity |
| `CommandLine.ExitCode` | bin/last-branches.js:30-51 | the parser exits with 0 or 2, and with 2 exactly for a missing `-C` value or a missing or non-numeric `-n` value |
| `CommandLine.LimitOf` | bin/last-branches.js:41-46 | a `-n` value is rejected exactly when it is missing, empty or NaN as a number; an accepted limit is `Number(v)` of the value, never NaN |
| `CommandLine.ParseTokens` | bin/last-branches.js:28-52 | starting from a numeric limit, a completed parse never holds a NaN limit |
| `CommandLine.ParseArgv` | bin/last-branches.js:26-54 | the options `parseArgs` returns never hold a NaN limit |
| `CommandLine.ParseArgs` | bin/last-branches.js:26-54 | the index loop over argv from position 2, stepping over option values, returns exactly what the token-by-token reference function gives |
| `CommandLine.NoTokensGiveDefaults` | bin/last-branches.js:27-53 | with nothing after the script path the options are the current directory and 30 |
| `CommandLine.FirstTwoIgnored` | bin/last-branches.js:28 | the first two entries of argv are never examined |
| `CommandLine.ParseTokensAppend` | bin/last-branches.js:28-52 | tokens that parse completely pass their options on to whatever follows; no option value is left waiting for a later token |
| `CommandLine.StopsAtTerminator` | bin/last-branches.js:30-51 | after tokens that parse, `-h`, `--help` or an unknown token stops with exit code 0, whatever follows |
| `CommandLine.MissingDirectoryExits` | bin/last-branches.js:32-37 | `-C` with no following token or an empty one stops with the missing-directory error, whatever follows |
| `CommandLine.NonNumericLimitExits` | bin/last-branches.js:40-45 | `-n` with no following token, an empty one or one that is NaN stops with the numeric-limit error, whatever follows |
| `CommandLine.DirectoryOptionConsumesValue` | bin/last-branches.js:32-39 | `-C v` consumes exactly `v`, even one that looks like a flag, and replaces the directory so far: the last `-C` wins |
| `CommandLine.LimitOptionConsumesValue` | bin/last-branches.js:40-47 | `-n v` consumes exactly `v` and replaces the limit so far: the last `-n` wins |
| `BranchList.At` | bin/last-branches.js:81 | destructuring gives the piece at a position when there is one and `undefined` otherwise |
| `BranchList.ParseLine` | bin/last-branches.js:81-82 | the name is the part of the line before its first `||`, or the whole line with both dates undefined when it holds none; the ISO date is only present with the relative date |
| `BranchList.TrimAll` | bin/last-branches.js:78 | every line is trimmed, none added or lost, in place |
| `BranchList.ParseAll` | bin/last-branches.js:80-83 | every kept line gives one record, in place |
| `BranchList.ParseBranches` | bin/last-branches.js:76-83 | never more records than lines |
| `BranchList.ParseLinePositional` | bin/last-branches.js:80-83 | for a line of clean pieces joined by `||`, name, relative date and ISO date are the first, second and third pieces; extra pieces are ignored, missing ones `undefined` |
| `BranchList.ParseBranchesAppend` | bin/last-branches.js:76-83 | the records of `a + "\n" + b` are those of `a` followed by those of `b`: the line order is kept |
| `BranchList.ParseBranchesLine` | bin/last-branches.js:77-83 | a blank or white-space-only line gives no record; any other line gives exactly one, parsed from the trimmed line |
| `BranchList.ParseBranchesEmpty` | bin/last-branches.js:76-79 | empty output gives no branches |
| `BranchList.NameWithSeparatorIsCut` | bin/last-branches.js:81-82 | a ref named `a||b` is read as a branch `a` whose relative date is `b` and whose ISO date is the ref's relative date |
| `BranchList.LeadingWhiteSpaceIsTrimmed` | bin/last-branches.js:76-83 | a ref whose name is a white-space character in front of a well-formed name is listed under the name without it |
| `BranchList.ParseBranchesLeadingWhiteSpace` | bin/last-branches.js:77-79 | one white-space character in front of a trimmed single line does not change its record |
| `JsBuiltins.TrimLeadingWhiteSpace` | bin/last-branches.js:78 | white space in front of a string is lost to `trim` |
| `BranchList.FormatRefFields` | bin/last-branches.js:73-82 | a well-formed ref's formatted line parses to its own name, relative date and ISO date |
| `BranchList.ParseFormattedRef` | bin/last-branches.js:73-83 | one well-formed ref's line gives exactly that ref's record |
| `BranchList.ParseForEachRefOutput` | bin/last-branches.js:73-84 | parsing what `git for-each-ref` prints for N well-formed refs gives N records, in git's order, with every field in place |
| `Selection.Shown` | bin/last-branches.js:88 | the shown branches are a prefix of the listing, of the length `slice` computes |
| `Selection.Names` | bin/last-branches.js:89-93 | the choices are the shown branches' names, one each, in order |
| `Selection.WindowHeight` | bin/last-branches.js:97 | the height lies in [5, 20], equals the count inside that range, is 5 below it and 20 above it |
| `Selection.ShownFirstLimit` | bin/last-branches.js:88 | with a non-negative integer limit L and N branches, the first min(N, L) branches are shown, in order |
| `Selection.ShownFractionalLimit` | bin/last-branches.js:88 | a fractional non-negative limit is cut down to an integer before it bounds the list |
| `LastBranches.ExitStatus` | bin/last-branches.js:105-126 | exit code 2 exactly for usage errors, a missing directory or a non-repository; 1 exactly for a failed listing or a rejected prompt; 0 exactly for help, an unknown argument or no branches; a checkout exits with the child's status, or 0 when it has none |
| `LastBranches.Interact` | bin/last-branches.js:87-120 | ends with no branches, a rejected prompt or a checkout and nothing else; no branches means no prompt; otherwise the prompt gets the names of the first `limit` branches and a window of `WindowHeight` of their count; an `Aborted` answer ends the run there as a rejected selection, and `Selected(n)` checks out exactly `n` in the configured directory with the child's status as the outcome's |
| `LastBranches.Validate` | bin/last-branches.js:56-75 | actions happen in pipeline order and every git command runs in the configured directory; a missing path is reported exactly when `existsSync` fails, naming that directory, with no git command run; a non-repository exactly when the path exists but `rev-parse` fails, after that check alone; a failed listing exactly when the check passes but `for-each-ref` fails, after those two commands; after a successful listing the run continues as `Interact` on the parsed branches; the prompt is only reached after a listing with at least one branch |
| `LastBranches.Listed` | bin/last-branches.js:114-120 | after the repository check and the listing, the actions and the outcome are those of `Interact`; the prompt is only reached with at least one branch |
| `LastBranches.Execute` | bin/last-branches.js:111-121 | the run's actions come in the fixed order repository check, listing, prompt, checkout, each at most once; a usage stop happens exactly when the parser stops, with no action; once the options parse, a missing path, a non-repository and a failed listing happen exactly under `Validate`'s conditions with the same actions and the parsed directory, and after a successful listing the actions and outcome are the check and the listing in that directory followed by `Interact` on the parsed branches with the parsed limit |
| `LastBranches.PromptShowsMostRecent` | bin/last-branches.js:72-97 | from git's output for N well-formed refs and a limit L, the prompt shows the names of the first min(N, L) refs in git's order with a window of `WindowHeight(min(N, L))` rows |
| `LastBranches.Main` | bin/last-branches.js:101-126 | the exit code is the parser's on a usage stop, 2 when the directory is missing or not a repository, 1 when the listing fails, 0 when the listing is empty; with a non-empty listing, 1 when the prompt is rejected and, when it answers a name, the status of `git checkout` of that name in the directory, or 0 when the child has none |

## Left out

- Terminal output: the usage text, error messages, the colours and the prompt's messages and
  footer are not modelled; only which outcome (and so which exit code) a run reaches.
- `path.resolve`, `process.cwd()` and `Number(string)` are fields of `CommandLine.Host`; the
  model does not define path normalisation or JavaScript's string-to-number rules.
- `existsSync`, `git rev-parse`, `git for-each-ref`, the prompt and `git checkout` are functions
  in `LastBranches.Environment`; processes, their streams and the file system are not modelled.
- The prompt's filtering, key handling and rendering are not modelled: it is one answer,
  `Selected(name)` or `Aborted`, for the choices and height it is shown. What it does with no
  choices is part of that answer. The choice list is empty when `slice`'s end is 0: a limit
  above -1 and below 1, `-Infinity`, or a negative limit whose magnitude is at least the
  length of the listing.
- The one `await` is a plain function result; the promise plumbing is not modelled.
- Numbers are IEEE doubles in the script; the model keeps finite values as exact reals, so
  rounding and negative zero are not modelled.
- JavaScript strings are UTF-16 code units; the model's strings are Unicode scalar values, so
  unpaired surrogates are not modelled. `trim`'s white space is ECMAScript's WhiteSpace and
  LineTerminator with the space separators listed explicitly.
- The build configuration (`tsup.config.js`) has no behaviour to model.
