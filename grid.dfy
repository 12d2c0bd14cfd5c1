/**
 * The grid model: cells, the matrix of cell-state strings the application keeps,
 * and the bounds-checked 4-connected adjacency query `get_neighbors`.
 */
module Grid {

  /** A cell is a (row, column) pair, compared by value. */
  datatype Cell = Cell(row: int, col: int)

  /** A list of rows of cell states: "empty", "start", "goal" or "wall". */
  type Grid = seq<seq<string>>

  const Wall: string := "wall"

  /** Every row is at least as wide as the first one. The bounds test compares a
      column with the width of row 0 only, so this is what `grid[r][c]` needs to be
      defined; the rectangular grid the application builds satisfies it. */
  predicate WellShaped(grid: Grid) {
    forall r :: 0 <= r < |grid| ==> |grid[0]| <= |grid[r]|
  }

  /** Number of columns, as the bounds test measures it. */
  function Width(grid: Grid): (w: nat) {
    if |grid| == 0 then 0 else |grid[0]|
  }

  /** Inside the `len(grid)` rows and the `len(grid[0])` columns. */
  predicate InBounds(grid: Grid, c: Cell) {
    0 <= c.row < |grid| && 0 <= c.col < Width(grid)
  }

  /** The filter of `get_neighbors`: in bounds and not a wall. Start, goal and
      empty cells are all passable. */
  predicate Passable(grid: Grid, c: Cell)
    requires WellShaped(grid)
  {
    InBounds(grid, c) && grid[c.row][c.col] != Wall
  }

  function Abs(x: int): (r: nat) {
    if x < 0 then -x else x
  }

  /** Manhattan distance between two cells. */
  function Distance(a: Cell, b: Cell): (d: nat) {
    Abs(a.row - b.row) + Abs(a.col - b.col)
  }

  /** Reference definition of a move: `b` is one axis-aligned unit step away from
      `a` and may be entered. */
  predicate Adjacent(grid: Grid, a: Cell, b: Cell)
    requires WellShaped(grid)
  {
    Distance(a, b) == 1 && Passable(grid, b)
  }

  /** The position of `b` in the fixed enumeration order south, north, east, west
      around `a`; 4 when `b` is not one of those four cells. */
  function Direction(a: Cell, b: Cell): (d: nat) {
    if b == Cell(a.row + 1, a.col) then 0
    else if b == Cell(a.row - 1, a.col) then 1
    else if b == Cell(a.row, a.col + 1) then 2
    else if b == Cell(a.row, a.col - 1) then 3
    else 4
  }

  /** `[c]` when the candidate `c` passes the filter, `[]` otherwise. */
  function Keep(grid: Grid, c: Cell): (r: seq<Cell>)
    requires WellShaped(grid)
  {
    if Passable(grid, c) then [c] else []
  }

  /** The passable 4-connected neighbours of `cell`, listed south, north, east, west.
      Exactly the cells adjacent to `cell` are returned, each once, in that order. */
  function GetNeighbors(grid: Grid, cell: Cell): (r: seq<Cell>)
    requires WellShaped(grid)
    ensures |r| <= 4
    ensures forall n :: n in r <==> Adjacent(grid, cell, n)
    ensures forall i, j :: 0 <= i < j < |r| ==> Direction(cell, r[i]) < Direction(cell, r[j])
  {
    var south := Cell(cell.row + 1, cell.col);
    var north := Cell(cell.row - 1, cell.col);
    var east := Cell(cell.row, cell.col + 1);
    var west := Cell(cell.row, cell.col - 1);
    Keep(grid, south) + Keep(grid, north) + Keep(grid, east) + Keep(grid, west)
  }

  /** Every step of `w` is a move of `Adjacent`. */
  ghost predicate IsWalk(grid: Grid, w: seq<Cell>)
    requires WellShaped(grid)
  {
    forall i :: 0 <= i < |w| - 1 ==> Adjacent(grid, w[i], w[i + 1])
  }

  /** `w` is a walk that starts at `a` and ends at `b`; its length in moves is |w| - 1. */
  ghost predicate WalkFrom(grid: Grid, w: seq<Cell>, a: Cell, b: Cell)
    requires WellShaped(grid)
  {
    |w| > 0 && w[0] == a && w[|w| - 1] == b && IsWalk(grid, w)
  }

  /** A contiguous piece of a walk is a walk. */
  lemma SliceIsWalk(grid: Grid, w: seq<Cell>, i: nat, j: nat)
    requires WellShaped(grid) && IsWalk(grid, w) && i <= j <= |w|
    ensures IsWalk(grid, w[i..j])
  {
    var piece := w[i..j];
    forall k | 0 <= k < |piece| - 1 ensures Adjacent(grid, piece[k], piece[k + 1]) {
      assert piece[k] == w[i + k] && piece[k + 1] == w[i + k + 1];
    }
  }

  /** A walk to `b` followed by a move from `b` to `c` is a walk to `c`. */
  lemma ExtendWalk(grid: Grid, w: seq<Cell>, a: Cell, b: Cell, c: Cell)
    requires WellShaped(grid) && WalkFrom(grid, w, a, b) && Adjacent(grid, b, c)
    ensures WalkFrom(grid, w + [c], a, c)
  {
    var longer := w + [c];
    forall k | 0 <= k < |longer| - 1 ensures Adjacent(grid, longer[k], longer[k + 1]) {
      if k < |w| - 1 {
        assert longer[k] == w[k] && longer[k + 1] == w[k + 1];
      }
    }
  }

  /** A set of cells closed under `Adjacent` traps every walk that starts inside it. */
  lemma {:induction false} WalkStaysInside(grid: Grid, inside: set<Cell>, w: seq<Cell>)
    requires WellShaped(grid)
    requires |w| > 0 && IsWalk(grid, w) && w[0] in inside
    requires forall x, y :: x in inside && Adjacent(grid, x, y) ==> y in inside
    ensures w[|w| - 1] in inside
  {
    if |w| > 1 {
      SliceIsWalk(grid, w, 0, |w| - 1);
      WalkStaysInside(grid, inside, w[..|w| - 1]);
      assert Adjacent(grid, w[|w| - 2], w[|w| - 1]);
    }
  }

  /** Each move changes the Manhattan distance by at most one, so a walk from `a`
      to `b` has at least Distance(a, b) moves. */
  lemma {:induction false} WalkIsAtLeastDistance(grid: Grid, w: seq<Cell>)
    requires WellShaped(grid)
    requires |w| > 0 && IsWalk(grid, w)
    ensures Distance(w[0], w[|w| - 1]) <= |w| - 1
  {
    if |w| > 1 {
      SliceIsWalk(grid, w, 0, |w| - 1);
      WalkIsAtLeastDistance(grid, w[..|w| - 1]);
      assert Adjacent(grid, w[|w| - 2], w[|w| - 1]);
    }
  }

  /** No cell of the grid is a wall. */
  predicate NoWalls(grid: Grid)
    requires WellShaped(grid)
  {
    forall r, k :: 0 <= r < |grid| && 0 <= k < Width(grid) ==> grid[r][k] != Wall
  }

  /** One move from `a` towards `b`, along the rows first, then along the columns. */
  function Toward(a: Cell, b: Cell): (n: Cell)
    requires a != b
    ensures Distance(a, n) == 1 && Distance(n, b) == Distance(a, b) - 1
  {
    if a.row < b.row then Cell(a.row + 1, a.col)
    else if a.row > b.row then Cell(a.row - 1, a.col)
    else if a.col < b.col then Cell(a.row, a.col + 1)
    else Cell(a.row, a.col - 1)
  }

  /** The walk from `a` to `b` that repeats `Toward`. */
  function Straight(a: Cell, b: Cell): (w: seq<Cell>)
    decreases Distance(a, b)
  {
    if a == b then [a] else [a] + Straight(Toward(a, b), b)
  }

  /** In a grid without walls, `Straight` joins two cells in bounds with exactly
      Distance(a, b) moves. */
  lemma {:induction false} StraightIsWalk(grid: Grid, a: Cell, b: Cell)
    requires WellShaped(grid) && NoWalls(grid)
    requires InBounds(grid, a) && InBounds(grid, b)
    ensures WalkFrom(grid, Straight(a, b), a, b)
    ensures |Straight(a, b)| == Distance(a, b) + 1
    decreases Distance(a, b)
  {
    if a != b {
      var n := Toward(a, b);
      assert InBounds(grid, n);
      StraightIsWalk(grid, n, b);
      var rest := Straight(n, b);
      var w := [a] + rest;
      assert Adjacent(grid, a, n);
      forall k | 0 <= k < |w| - 1 ensures Adjacent(grid, w[k], w[k + 1]) {
        if k > 0 {
          assert w[k] == rest[k - 1] && w[k + 1] == rest[k];
        }
      }
    }
  }

  /** In a grid without walls, a walk between two cells in bounds that is no longer
      than any other has exactly Distance(a, b) moves: the Manhattan distance. */
  lemma OpenGridShortest(grid: Grid, a: Cell, b: Cell, path: seq<Cell>)
    requires WellShaped(grid) && NoWalls(grid)
    requires InBounds(grid, a) && InBounds(grid, b)
    requires WalkFrom(grid, path, a, b)
    requires forall w :: WalkFrom(grid, w, a, b) ==> |path| <= |w|
    ensures |path| == Distance(a, b) + 1
  {
    StraightIsWalk(grid, a, b);
    WalkIsAtLeastDistance(grid, path);
  }

}
