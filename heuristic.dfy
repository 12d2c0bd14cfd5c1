/**
 * The heuristic of the search. The application estimates the straight-line
 * distance to the goal in floating point; the model takes any integer-valued
 * estimate `h(cell, goal)` instead and keeps the rule that an unset goal is
 * estimated at 0. Consistency is what the optimality of the search rests on;
 * Manhattan distance is one estimate that has it.
 */
module Estimates {
  import opened Wrappers
  import opened Grid

  /** An integer estimate of the number of moves from a cell to a goal cell. */
  type Estimate = (Cell, Cell) -> int

  /** The heuristic value of `cell`: the estimate to the goal, or 0 with no goal. */
  function Heuristic(h: Estimate, cell: Cell, goal: Option<Cell>): (r: int)
    ensures goal.None? ==> r == 0
  {
    if goal.Some? then h(cell, goal.value) else 0
  }

  /** One move lowers the heuristic by at most one. */
  ghost predicate Consistent(grid: Grid, h: Estimate, goal: Option<Cell>)
    requires WellShaped(grid)
  {
    forall a, b :: Adjacent(grid, a, b) ==> Heuristic(h, a, goal) <= Heuristic(h, b, goal) + 1
  }

  /** The heuristic never exceeds the number of moves of any walk to the goal. */
  ghost predicate Admissible(grid: Grid, h: Estimate, goal: Option<Cell>)
    requires WellShaped(grid)
  {
    goal.Some? ==>
      forall c, w :: WalkFrom(grid, w, c, goal.value) ==> Heuristic(h, c, goal) <= |w| - 1
  }

  /** Along a walk a consistent heuristic drops by at most the number of moves. */
  lemma {:induction false} ConsistentAlongWalk(grid: Grid, h: Estimate, goal: Option<Cell>, w: seq<Cell>)
    requires WellShaped(grid) && Consistent(grid, h, goal)
    requires |w| > 0 && IsWalk(grid, w)
    ensures Heuristic(h, w[0], goal) <= |w| - 1 + Heuristic(h, w[|w| - 1], goal)
  {
    if |w| > 1 {
      var back := w[1..];
      assert IsWalk(grid, back) by {
        forall i | 0 <= i < |back| - 1 ensures Adjacent(grid, back[i], back[i + 1]) {
          assert Adjacent(grid, w[i + 1], w[i + 2]);
        }
      }
      ConsistentAlongWalk(grid, h, goal, back);
      assert Adjacent(grid, w[0], w[1]);
    }
  }

  /** A consistent heuristic that does not overestimate at the goal itself is admissible. */
  lemma ConsistentIsAdmissible(grid: Grid, h: Estimate, goal: Option<Cell>)
    requires WellShaped(grid) && Consistent(grid, h, goal)
    requires goal.Some? ==> h(goal.value, goal.value) <= 0
    ensures Admissible(grid, h, goal)
  {
    if goal.Some? {
      forall c, w | WalkFrom(grid, w, c, goal.value)
        ensures Heuristic(h, c, goal) <= |w| - 1
      {
        ConsistentAlongWalk(grid, h, goal, w);
      }
    }
  }

  /** Manhattan distance, as an estimate. */
  function Manhattan(cell: Cell, goal: Cell): (d: int) {
    Distance(cell, goal)
  }

  /** Manhattan distance is a consistent and admissible estimate for unit
      4-connected moves, on every grid and for every goal. */
  lemma ManhattanIsConsistentAndAdmissible(grid: Grid, goal: Option<Cell>)
    requires WellShaped(grid)
    ensures Consistent(grid, Manhattan, goal)
    ensures Admissible(grid, Manhattan, goal)
  {
    ConsistentIsAdmissible(grid, Manhattan, goal);
  }

}
