/**
 * What `selectBranchInteractive` hands the prompt: the first `limit`
 * branches as choices and a window height clamped to [5, 20].
 */
module Selection {
  import opened JsBuiltins
  import opened BranchList

  const MIN_HEIGHT: int := 5
  const MAX_HEIGHT: int := 20

  function Min(a: int, b: int): int { if a < b then a else b }

  /** `branches.slice(0, limit)`: a prefix of the branches, in their order. */
  function Shown(branches: seq<Branch>, limit: JsNumber): (shown: seq<Branch>)
    ensures |shown| <= |branches| && shown == branches[..|shown|]
    ensures |shown| == SliceEnd(|branches|, limit)
  {
    branches[..SliceEnd(|branches|, limit)]
  }

  /** The choice values offered: the names of the shown branches. */
  function Names(shown: seq<Branch>): (names: seq<string>)
    ensures |names| == |shown|
    ensures forall i :: 0 <= i < |shown| ==> names[i] == shown[i].name
  {
    seq(|shown|, i requires 0 <= i < |shown| => shown[i].name)
  }

  /** `Math.max(5, Math.min(20, count))`: the number of rows the prompt shows at once. */
  function WindowHeight(count: nat): (h: int)
    ensures MIN_HEIGHT <= h <= MAX_HEIGHT
    ensures MIN_HEIGHT <= count <= MAX_HEIGHT ==> h == count
    ensures count < MIN_HEIGHT ==> h == MIN_HEIGHT
    ensures count > MAX_HEIGHT ==> h == MAX_HEIGHT
  {
    if MAX_HEIGHT < count then MAX_HEIGHT
    else if count < MIN_HEIGHT then MIN_HEIGHT
    else count
  }

  /** With a non-negative integer limit L the prompt offers the first min(N, L) of N branches, in order. */
  lemma ShownFirstLimit(branches: seq<Branch>, limit: nat)
    ensures Shown(branches, Finite(limit as real)) == branches[..Min(|branches|, limit)]
  {
    assert Truncate(limit as real) == limit;
  }

  /** A fractional limit is cut toward zero: `-n 2.7` offers the first two branches. */
  lemma ShownFractionalLimit(branches: seq<Branch>, limit: real)
    requires limit >= 0.0
    ensures Shown(branches, Finite(limit)) == branches[..Min(|branches|, limit.Floor)]
  {
  }
}
