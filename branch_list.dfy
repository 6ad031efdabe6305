/**
 * The parsing half of `fetchBranches`: the text printed by
 * `git for-each-ref --format=%(refname:short)||%(committerdate:relative)||%(committerdate:iso)`
 * is cut into lines, each line trimmed, blank lines dropped, and every
 * remaining line cut at `||` into a branch record by position.
 */
module BranchList {
  import opened Wrappers
  import opened JsBuiltins

  const LINE_SEPARATOR: string := "\n"
  const FIELD_SEPARATOR: string := "||"

  /**
   * One listed branch. Destructuring `[name, rel, iso]` from the pieces of a
   * line leaves a field `undefined` when the line has too few pieces; the
   * name always exists, since a split has at least one piece.
   */
  datatype Branch = Branch(name: string, relative: Option<string>, iso: Option<string>)

  /** `parts[i]`, or `undefined` past the end. */
  function At(parts: seq<string>, i: nat): (r: Option<string>)
    ensures r.Some? <==> i < |parts|
    ensures r.Some? ==> r.value == parts[i]
  {
    if i < |parts| then Some(parts[i]) else None
  }

  /**
   * The record built from one trimmed line: the name is everything before
   * the first `||` (the whole line when there is none, and then both dates
   * are undefined), and the ISO date is only there when the relative one is.
   */
  function ParseLine(line: string): (b: Branch)
    ensures b.name <= line
    ensures IndexOf(line, FIELD_SEPARATOR, 0).None? <==> b.relative.None?
    ensures IndexOf(line, FIELD_SEPARATOR, 0).None? ==> b == Branch(line, None, None)
    ensures IndexOf(line, FIELD_SEPARATOR, 0).Some? ==> b.name == line[..IndexOf(line, FIELD_SEPARATOR, 0).value]
    ensures b.iso.Some? ==> b.relative.Some?
  {
    var parts := Split(line, FIELD_SEPARATOR);
    Branch(parts[0], At(parts, 1), At(parts, 2))
  }

  /** `lines.map((line) => line.trim())`. */
  function TrimAll(lines: seq<string>): (r: seq<string>)
    ensures |r| == |lines|
    ensures forall i :: 0 <= i < |lines| ==> r[i] == Trim(lines[i])
  {
    seq(|lines|, i requires 0 <= i < |lines| => Trim(lines[i]))
  }

  /** `lines.map(ParseLine)`. */
  function ParseAll(lines: seq<string>): (r: seq<Branch>)
    ensures |r| == |lines|
    ensures forall i :: 0 <= i < |lines| ==> r[i] == ParseLine(lines[i])
  {
    seq(|lines|, i requires 0 <= i < |lines| => ParseLine(lines[i]))
  }

  /** `output.split('\n').map(trim).filter(Boolean).map(ParseLine)`. */
  function ParseBranches(output: string): (branches: seq<Branch>)
    ensures |branches| <= |Split(output, LINE_SEPARATOR)|
  {
    ParseAll(NonEmpty(TrimAll(Split(output, LINE_SEPARATOR))))
  }

  // ---------------------------------------------------------------------------
  // Fields: positional, extra pieces dropped, missing pieces undefined

  /**
   * A field that `||` cuts off exactly where it ends: it holds no `||` and
   * does not end in `|` (otherwise its last `|` and the separator's first
   * would be read as the separator).
   */
  predicate CleanField(f: string) {
    (forall k :: 0 <= k < |f| - 1 ==> !(f[k] == '|' && f[k + 1] == '|')) &&
    (f == [] || f[|f| - 1] != '|')
  }

  lemma CleanFieldSeparated(f: string)
    requires CleanField(f)
    ensures Separated(f, FIELD_SEPARATOR)
  {
    forall k | 0 <= k < |f|
      ensures !OccursAt(f + FIELD_SEPARATOR, FIELD_SEPARATOR, k)
    {
      if k < |f| - 1 {
        assert (f + FIELD_SEPARATOR)[k..k + 2] == [f[k], f[k + 1]];
      } else {
        assert (f + FIELD_SEPARATOR)[k] == f[k];
      }
    }
  }

  lemma CleanFieldFree(f: string)
    requires CleanField(f)
    ensures Free(f, FIELD_SEPARATOR)
  {
    forall k | 0 <= k && k + 2 <= |f|
      ensures !OccursAt(f, FIELD_SEPARATOR, k)
    {
      assert f[k..k + 2] == [f[k], f[k + 1]];
    }
  }

  /**
   * A line made of clean pieces joined by `||` yields the first three pieces
   * as name, relative date and ISO date, in that order; pieces beyond the
   * third are ignored and missing ones are undefined.
   */
  lemma ParseLinePositional(parts: seq<string>)
    requires |parts| >= 1
    requires forall i :: 0 <= i < |parts| ==> CleanField(parts[i])
    ensures ParseLine(Join(parts, FIELD_SEPARATOR)) == Branch(parts[0], At(parts, 1), At(parts, 2))
  {
    forall i | 0 <= i < |parts| - 1
      ensures Separated(parts[i], FIELD_SEPARATOR)
    {
      CleanFieldSeparated(parts[i]);
    }
    CleanFieldFree(parts[|parts| - 1]);
    JoinSplit(parts, FIELD_SEPARATOR);
  }

  // ---------------------------------------------------------------------------
  // Lines: one record per non-blank line, in order

  lemma TrimAllAppend(a: seq<string>, b: seq<string>)
    ensures TrimAll(a + b) == TrimAll(a) + TrimAll(b)
  {
  }

  lemma ParseAllAppend(a: seq<string>, b: seq<string>)
    ensures ParseAll(a + b) == ParseAll(a) + ParseAll(b)
  {
  }

  /** Splitting the text at a newline splits the records: they keep the order of the lines. */
  lemma ParseBranchesAppend(a: string, b: string)
    ensures ParseBranches(a + LINE_SEPARATOR + b) == ParseBranches(a) + ParseBranches(b)
  {
    var la, lb := Split(a, LINE_SEPARATOR), Split(b, LINE_SEPARATOR);
    SplitAppend(a, b, LINE_SEPARATOR);
    TrimAllAppend(la, lb);
    NonEmptyAppend(TrimAll(la), TrimAll(lb));
    ParseAllAppend(NonEmpty(TrimAll(la)), NonEmpty(TrimAll(lb)));
  }

  /**
   * A single line gives no record when it is blank or white space only, and
   * otherwise exactly one record, parsed from the line without its
   * surrounding white space.
   */
  lemma ParseBranchesLine(line: string)
    requires Free(line, LINE_SEPARATOR)
    ensures ParseBranches(line) == if AllWhiteSpace(line) then [] else [ParseLine(Trim(line))]
  {
    SplitFree(line, LINE_SEPARATOR);
    var t := [Trim(line)];
    assert TrimAll([line]) == t;
    assert NonEmpty(t) == (if Trim(line) == "" then [] else [Trim(line)]) + NonEmpty([]);
  }

  lemma ParseBranchesEmpty()
    ensures ParseBranches("") == []
  {
    ParseBranchesLine("");
  }

  // ---------------------------------------------------------------------------
  // Round trip with git's output

  /** One branch as git describes it: short ref name, relative and ISO commit dates. */
  datatype Ref = Ref(name: string, relative: string, iso: string)

  /** The three fields as the format string lays them out. */
  function FormatRef(r: Ref): string {
    r.name + FIELD_SEPARATOR + r.relative + FIELD_SEPARATOR + r.iso
  }

  /** What `git for-each-ref` prints: each formatted ref on its own newline-terminated line. */
  function ForEachRefOutput(refs: seq<Ref>): string
    decreases |refs|
  {
    if refs == [] then "" else FormatRef(refs[0]) + LINE_SEPARATOR + ForEachRefOutput(refs[1..])
  }

  /**
   * A ref whose line survives parsing unchanged: no field holds a newline,
   * every field is clean for `||`, and the line neither starts nor ends
   * with white space.
   */
  predicate WellFormed(r: Ref) {
    '\n' !in r.name && '\n' !in r.relative && '\n' !in r.iso &&
    CleanField(r.name) && CleanField(r.relative) && CleanField(r.iso) &&
    (r.name == [] || !IsWhiteSpace(r.name[0])) &&
    (r.iso == [] || !IsWhiteSpace(r.iso[|r.iso| - 1]))
  }

  /**
   * Names git accepts but `WellFormed` excludes are mis-read by the script:
   * a name holding `||` is cut at it, and the piece after it shifts into the
   * relative date while the relative date shifts into the ISO date.
   */
  lemma {:induction false} NameWithSeparatorIsCut(a: string, b: string, r: Ref)
    requires CleanField(a) && CleanField(b) && CleanField(r.relative) && CleanField(r.iso)
    requires r.name == a + FIELD_SEPARATOR + b
    ensures ParseLine(FormatRef(r)) == Branch(a, Some(b), Some(r.relative))
  {
    var parts := [a, b, r.relative, r.iso];
    SplitNameJoin(a, b, r);
    assert forall i :: 0 <= i < |parts| ==> CleanField(parts[i]);
    ParseLinePositional(parts);
  }

  lemma SplitNameJoin(a: string, b: string, r: Ref)
    requires r.name == a + FIELD_SEPARATOR + b
    ensures Join([a, b, r.relative, r.iso], FIELD_SEPARATOR) == FormatRef(r)
  {
    var sep := FIELD_SEPARATOR;
    FormatRefJoin(Ref(b, r.relative, r.iso));
    JoinCons(a, [b, r.relative, r.iso], sep);
    assert [a, b, r.relative, r.iso] == [a] + [b, r.relative, r.iso];
  }

  /**
   * A name that starts with white space, such as a no-break space, loses it
   * to `trim`: the record names a different branch.
   */
  lemma LeadingWhiteSpaceIsTrimmed(c: char, r: Ref)
    requires WellFormed(r) && IsWhiteSpace(c) && c != '\n'
    ensures ParseBranches(FormatRef(Ref([c] + r.name, r.relative, r.iso))) == [ToBranch(r)]
  {
    var bare := FormatRef(r);
    assert FormatRef(Ref([c] + r.name, r.relative, r.iso)) == [c] + bare;
    FormatRefTrimmed(r);
    FormatRefOneLine(r);
    FormatRefFields(r);
    ParseBranchesLeadingWhiteSpace(c, bare);
  }

  /** A single trimmed line behind one white-space character parses as the line alone. */
  lemma ParseBranchesLeadingWhiteSpace(c: char, line: string)
    requires IsWhiteSpace(c) && c != '\n'
    requires Free(line, LINE_SEPARATOR) && Trimmed(line) && !AllWhiteSpace(line)
    ensures ParseBranches([c] + line) == [ParseLine(line)]
  {
    var s := [c] + line;
    TrimLeadingWhiteSpace(c, line);
    OneLineCons(c, line);
    assert !AllWhiteSpace(s) by {
      var k :| 0 <= k < |line| && !IsWhiteSpace(line[k]);
      assert s[k + 1] == line[k];
    }
    ParseBranchesLine(s);
  }

  lemma OneLineCons(c: char, s: string)
    requires c != '\n' && Free(s, LINE_SEPARATOR)
    ensures Free([c] + s, LINE_SEPARATOR)
  {
    var line := [c] + s;
    forall k | OccursAt(line, LINE_SEPARATOR, k)
      ensures false
    {
      if k > 0 {
        assert line[k..k + 1] == s[k - 1..k];
        assert OccursAt(s, LINE_SEPARATOR, k - 1);
      }
    }
  }

  function ToBranch(r: Ref): Branch {
    Branch(r.name, Some(r.relative), Some(r.iso))
  }

  lemma FormatRefOneLine(r: Ref)
    requires WellFormed(r)
    ensures Free(FormatRef(r), LINE_SEPARATOR)
  {
    var line := FormatRef(r);
    forall k | 0 <= k < |line|
      ensures !OccursAt(line, LINE_SEPARATOR, k)
    {
      assert line[k..k + 1] == [line[k]];
      assert line[k] in r.name || line[k] in r.relative || line[k] in r.iso || line[k] == '|';
    }
  }

  lemma FormatRefTrimmed(r: Ref)
    requires WellFormed(r)
    ensures Trimmed(FormatRef(r)) && !AllWhiteSpace(FormatRef(r))
  {
    var line := FormatRef(r);
    assert line[0] == (if r.name == [] then '|' else r.name[0]);
    assert line[|line| - 1] == (if r.iso == [] then '|' else r.iso[|r.iso| - 1]);
  }

  lemma FormatRefJoin(r: Ref)
    ensures FormatRef(r) == Join([r.name, r.relative, r.iso], FIELD_SEPARATOR)
  {
    var parts := [r.name, r.relative, r.iso];
    var sep := FIELD_SEPARATOR;
    assert parts[1..] == [r.relative, r.iso];
    assert [r.relative, r.iso][1..] == [r.iso];
    assert Join([r.relative, r.iso], sep) == r.relative + sep + r.iso;
    assert Join(parts, sep) == r.name + sep + (r.relative + sep + r.iso);
  }

  lemma FormatRefFields(r: Ref)
    requires WellFormed(r)
    ensures ParseLine(FormatRef(r)) == ToBranch(r)
  {
    var parts := [r.name, r.relative, r.iso];
    FormatRefJoin(r);
    assert forall i :: 0 <= i < |parts| ==> CleanField(parts[i]);
    ParseLinePositional(parts);
  }

  lemma ParseFormattedRef(r: Ref)
    requires WellFormed(r)
    ensures ParseBranches(FormatRef(r)) == [ToBranch(r)]
  {
    FormatRefOneLine(r);
    FormatRefTrimmed(r);
    ParseBranchesLine(FormatRef(r));
    FormatRefFields(r);
  }

  /** The records git's refs should give: one per ref, in the same order, every field present. */
  function ToBranches(refs: seq<Ref>): (branches: seq<Branch>)
    ensures |branches| == |refs|
    ensures forall i :: 0 <= i < |refs| ==> branches[i] == ToBranch(refs[i])
    decreases |refs|
  {
    if refs == [] then [] else [ToBranch(refs[0])] + ToBranches(refs[1..])
  }

  /**
   * Parsing what git prints for well-formed refs gives exactly one record
   * per ref, in git's order (most recent commit first), with the three
   * fields in place.
   */
  lemma {:induction false} ParseForEachRefOutput(refs: seq<Ref>)
    requires forall i :: 0 <= i < |refs| ==> WellFormed(refs[i])
    ensures ParseBranches(ForEachRefOutput(refs)) == ToBranches(refs)
    decreases |refs|
  {
    if refs == [] {
      ParseBranchesEmpty();
    } else {
      var head, tail := FormatRef(refs[0]), ForEachRefOutput(refs[1..]);
      assert ForEachRefOutput(refs) == head + LINE_SEPARATOR + tail;
      ParseForEachRefOutput(refs[1..]);
      ParseFormattedRef(refs[0]);
      ParseBranchesAppend(head, tail);
    }
  }
}
