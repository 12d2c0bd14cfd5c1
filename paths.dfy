/**
 * The cost/predecessor map `paths` and the rebuilding of a path from it by
 * following predecessor links back from the goal and reversing the result.
 */
module Paths {
  import opened Wrappers
  import opened Grid

  /** `paths[c]`: the cell `c` was last reached from `pred` at accumulated cost `cost`.
      The start cell has no predecessor. */
  datatype Record = Record(pred: Option<Cell>, cost: nat)

  type CostMap = map<Cell, Record>

  /** Every predecessor link leads to a recorded cell of strictly lower cost, so
      following links always ends at a cell without a predecessor. */
  ghost predicate Linked(paths: CostMap) {
    forall c :: c in paths && paths[c].pred.Some? ==>
      paths[c].pred.value in paths && paths[paths[c].pred.value].cost < paths[c].cost
  }

  /** The shape of `paths` throughout a search from `s`: the start is recorded with no
      predecessor and cost 0; every other recorded cell has a recorded predecessor it
      is adjacent to, whose cost is at least one lower. */
  ghost predicate PathsOk(grid: Grid, s: Cell, paths: CostMap)
    requires WellShaped(grid)
  {
    && s in paths && paths[s] == Record(None, 0)
    && Linked(paths)
    && forall c :: c in paths && c != s ==>
         paths[c].pred.Some? && Adjacent(grid, paths[c].pred.value, c)
  }

  /** The cells met following predecessor links back from `c`, in start-to-`c` order. */
  ghost function Trail(paths: CostMap, c: Cell): (t: seq<Cell>)
    requires Linked(paths) && c in paths
    decreases paths[c].cost
  {
    match paths[c].pred
    case None => [c]
    case Some(p) => Trail(paths, p) + [c]
  }

  /** The trail to a recorded cell is a walk from the start to it with at most as many
      moves as the recorded cost. */
  lemma {:induction false} TrailIsWalk(grid: Grid, s: Cell, paths: CostMap, c: Cell)
    requires WellShaped(grid) && PathsOk(grid, s, paths) && c in paths
    ensures WalkFrom(grid, Trail(paths, c), s, c)
    ensures |Trail(paths, c)| <= paths[c].cost + 1
    decreases paths[c].cost
  {
    match paths[c].pred
    case None =>
    case Some(p) =>
      TrailIsWalk(grid, s, paths, p);
      ExtendWalk(grid, Trail(paths, p), s, p, c);
  }

  /** `s` read backwards (Python's `s[::-1]`). */
  function Reversed(s: seq<Cell>): (r: seq<Cell>)
    ensures |r| == |s|
    ensures forall i :: 0 <= i < |s| ==> r[i] == s[|s| - 1 - i]
  {
    if s == [] then [] else [s[|s| - 1]] + Reversed(s[..|s| - 1])
  }

  /** Appending a cell and reading backwards puts that cell first. */
  lemma ReversedSnoc(s: seq<Cell>, c: Cell)
    ensures Reversed(s + [c]) == [c] + Reversed(s)
  {
    assert (s + [c])[..|s|] == s;
  }

  /** Rebuilds the path to `goal`: collects cells following predecessor links until
      the start (which has none), then reverses the collected list. */
  method RebuildPath(paths: CostMap, goal: Cell) returns (path: seq<Cell>)
    requires Linked(paths) && goal in paths
    ensures path == Trail(paths, goal)
  {
    var backwards: seq<Cell> := [];
    var current: Option<Cell> := Some(goal);
    while current.Some?
      invariant current.Some? ==> current.value in paths
      invariant (if current.Some? then Trail(paths, current.value) else []) + Reversed(backwards)
                == Trail(paths, goal)
      decreases if current.Some? then paths[current.value].cost + 1 else 0
    {
      var c := current.value;
      ReversedSnoc(backwards, c);
      backwards := backwards + [c];
      current := paths[c].pred;
    }
    path := Reversed(backwards);
  }

}
