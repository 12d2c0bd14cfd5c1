/**
 * The A* search `a_star(grid, start, goal)`: a best-first search over the grid
 * with unit step costs, a frontier with lazy deletion of stale entries, a closed
 * set, a cost/predecessor map and a trace of exploration events. It returns the
 * path rebuilt from the predecessor links and the trace, or two empty lists when
 * the frontier runs out.
 */
module Search {
  import opened Wrappers
  import opened Grid
  import opened Estimates
  import opened Frontier
  import opened Paths
  import opened Trace
  import opened SearchInvariants

  /** The neighbour loop of an expansion of `current`, with tentative cost g = the cost
      of `current` plus one: each of the distinct `cells` that is not yet recorded, or is
      recorded at a cost above g, is recorded with `current` as predecessor, pushed on
      the frontier with priority g plus heuristic, and gets an 'open_set' event, in the
      order of `cells`; nothing else changes. */
  method RelaxAll(h: Estimate, goal: Option<Cell>, current: Cell, cells: seq<Cell>,
                  paths: CostMap, open: seq<Entry>, changes: seq<Event>)
    returns (paths': CostMap, open': seq<Entry>, changes': seq<Event>)
    requires current in paths && current !in cells
    requires forall i, j :: 0 <= i < j < |cells| ==> cells[i] != cells[j]
    ensures var g := paths[current].cost + 1;
            var imp := Improved(paths, g, cells);
            && paths' == Recorded(paths, current, g, imp)
            && open' == open + Pushes(h, goal, g, imp)
            && changes' == changes + Opened(imp)
  {
    ghost var g := paths[current].cost + 1;
    paths', open', changes' := paths, open, changes;
    ghost var done: seq<Cell> := [];
    var i := 0;
    while i < |cells|
      invariant 0 <= i <= |cells|
      invariant done == Improved(paths, g, cells[..i])
      invariant paths' == Recorded(paths, current, g, done)
      invariant open' == open + Pushes(h, goal, g, done)
      invariant changes' == changes + Opened(done)
    {
      var neighbor := cells[i];
      RelaxStep(h, goal, current, g, cells, i, paths, open, changes, done);
      var tentative := paths'[current].cost + 1;
      if neighbor !in paths' || tentative < paths'[neighbor].cost {
        paths' := paths'[neighbor := Record(Some(current), tentative)];
        open' := open' + [Entry(tentative + Heuristic(h, neighbor, goal), neighbor)];
        changes' := changes' + [Event(neighbor, OpenSet)];
        done := done + [neighbor];
      }
      i := i + 1;
    }
    assert cells[..i] == cells;
  }

  /** One expansion of `current`: its neighbours, listed by `get_neighbors`, are relaxed.
      No recorded cost rises; a record that changes becomes (current, cost of current
      plus one) and is strictly cheaper than before; afterwards every cell adjacent to
      `current` is recorded at most one above it; the record of `current` is kept. */
  method Expand(grid: Grid, h: Estimate, goal: Option<Cell>, current: Cell,
                paths: CostMap, open: seq<Entry>, changes: seq<Event>)
    returns (paths': CostMap, open': seq<Entry>, changes': seq<Event>)
    requires WellShaped(grid) && current in paths
    ensures Relaxed(grid, h, goal, current, paths, open, changes, paths', open', changes')
    ensures forall c :: c in paths ==> c in paths' && paths'[c].cost <= paths[c].cost
    ensures forall c :: c in paths && paths'[c] != paths[c] ==>
              paths'[c] == Record(Some(current), paths[current].cost + 1) && paths'[c].cost < paths[c].cost
    ensures forall n :: Adjacent(grid, current, n) ==> n in paths' && paths'[n].cost <= paths[current].cost + 1
    ensures current in paths' && paths'[current] == paths[current]
  {
    var neighbors := GetNeighbors(grid, current);
    assert forall i, j :: 0 <= i < j < |neighbors| ==> neighbors[i] != neighbors[j] by {
      forall i, j | 0 <= i < j < |neighbors| ensures neighbors[i] != neighbors[j] {
        assert Direction(current, neighbors[i]) < Direction(current, neighbors[j]);
      }
    }
    paths', open', changes' := RelaxAll(h, goal, current, neighbors, paths, open, changes);
    RecordedIsRelaxed(h, goal, current, paths[current].cost + 1,
                      Improved(paths, paths[current].cost + 1, neighbors), paths, open, changes);
    RelaxedFacts(grid, h, goal, current, paths, open, changes, paths', open', changes');
  }

  /** A* from `start` to `goal`. Returns the path and the trace when the goal is popped,
      and two empty lists when the frontier runs out. */
  method AStar(grid: Grid, h: Estimate, start: Option<Cell>, goal: Option<Cell>)
    returns (path: seq<Cell>, trace: seq<Event>)
    requires WellShaped(grid)
    requires start.None? ==> goal.None?
    ensures start.None? ==> path == [] && trace == []
    ensures start.Some? && goal == start ==> path == [start.value] && trace == []
    ensures path != [] ==> start.Some? && goal.Some? && WalkFrom(grid, path, start.value, goal.value)
    ensures path == [] ==> trace == []
    ensures start.Some? && goal.Some? && path == [] ==>
              forall w :: !WalkFrom(grid, w, start.value, goal.value)
    ensures start.Some? && goal.Some? && path != [] && Consistent(grid, h, goal) ==>
              forall w :: WalkFrom(grid, w, start.value, goal.value) ==> |path| <= |w|
    ensures trace != [] ==> start.Some? && trace[0] == Event(start.value, ClosedSet)
    ensures ClosedOnce(trace)
    ensures goal.Some? ==> Event(goal.value, ClosedSet) !in trace
    ensures forall ev :: ev in trace && ev.phase == OpenSet ==> Passable(grid, ev.cell)
  {
    if start.None? {
      return [], [];
    }
    var s := start.value;
    var openSet := [Entry(0, s)];
    var closedSet: set<Cell> := {};
    var paths: CostMap := map[s := Record(None, 0)];
    var changes: seq<Event> := [];
    InitInv(grid, h, s, goal);
    while openSet != []
      invariant Inv(grid, h, s, goal, openSet, closedSet, paths, changes)
      decreases |Universe(grid, s) - closedSet|, |openSet|
    {
      var entry, rest := PopMin(openSet);
      var current := entry.cell;
      if Some(current) == goal {
        GoalPopped(grid, h, s, goal, openSet, closedSet, paths, changes, entry);
        path := RebuildPath(paths, current);
        trace := changes;
        return;
      }
      if current in closedSet {
        SkipKeepsInv(grid, h, s, goal, openSet, closedSet, paths, changes, entry, rest);
        RemovedOne(openSet, entry, rest);
        openSet := rest;
        continue;
      }
      ghost var open0, closed0, paths0, changes0 := openSet, closedSet, paths, changes;
      closedSet := closedSet + {current};
      changes := changes + [Event(current, ClosedSet)];
      paths, openSet, changes := Expand(grid, h, goal, current, paths, rest, changes);
      ExpandKeepsInv(grid, h, s, goal, open0, closed0, paths0, changes0, entry, rest, paths, openSet, changes);
    }
    if goal.Some? {
      ExhaustedIsUnreachable(grid, h, s, goal.value, closedSet, paths, changes);
    }
    return [], [];
  }

  /** A* with the Manhattan estimate on a grid without walls, between two cells inside
      it: the path is a walk from `a` to `b` of exactly Manhattan(a, b) moves. */
  method AStarOnOpenGrid(grid: Grid, a: Cell, b: Cell) returns (path: seq<Cell>, trace: seq<Event>)
    requires WellShaped(grid) && NoWalls(grid)
    requires InBounds(grid, a) && InBounds(grid, b)
    ensures WalkFrom(grid, path, a, b)
    ensures |path| == Distance(a, b) + 1
  {
    ManhattanIsConsistentAndAdmissible(grid, Some(b));
    path, trace := AStar(grid, Manhattan, Some(a), Some(b));
    StraightIsWalk(grid, a, b);
    OpenGridShortest(grid, a, b, path);
  }

}
