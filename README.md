# A* grid search, modelled and verified in Dafny

This project models the path finder of a small grid-editing application, `algorithm.py`.
The path finder has two parts:

- `get_neighbors` is a bounds-checked query. For a grid given as a list of rows of cell-state strings (`"empty"`, `"start"`, `"goal"`, `"wall"`), it lists the passable 4-connected neighbours of a cell in the order south, north, east, west.
- `a_star` is a best-first search with unit step costs. It keeps:
  - a heap-ordered frontier `open_set` of `(priority, cell)` entries, where stale entries are skipped when popped rather than removed;
  - a closed set;
  - a cost/predecessor map `paths`, with the start recorded as `(None, 0)`;
  - a trace `changes` of `(cell, 'closed_set' | 'open_set')` events.

  When it pops the goal, it rebuilds the path by following predecessor links and reversing the result, and returns the path with the trace. When the frontier runs out, it returns two empty lists.

Files, one module each:

- `grid.dfy` (`Grid`): cells, the grid and `GetNeighbors`. It also defines the reference relation `Adjacent` (a unit Manhattan step onto a passable cell) and walks made of such steps.
- `heuristic.dfy` (`Estimates`): the heuristic as an integer estimate, with the rule that no goal means 0. It defines consistency and admissibility, and shows that Manhattan distance has both.
- `frontier.dfy` (`Frontier`): frontier entries, the tuple order `heapq` uses, and `PopMin` (`heappop`).
- `paths.dfy` (`Paths`): the predecessor map, the trail of links back from a cell, and `RebuildPath`.
- `trace.dfy` (`Trace`): trace events.
- `search_invariants.dfy` (`SearchInvariants`): the loop invariant of `a_star` and the lemmas showing that each kind of iteration keeps it.
- `search.dfy` (`Search`): the search itself. `RelaxAll` is the neighbour loop, `Expand` is one expansion and `AStar` is `a_star`. `AStarOnOpenGrid` runs `AStar` with the Manhattan estimate on a grid without walls and proves the path length.

`AStar` is imperative, like the source: a `while` loop over the frontier, the closed set, the map and the trace. `PopMin`, `RelaxAll` and `RebuildPath` are methods with loops, each proved against a specification function or predicate. `GetNeighbors` and `Heuristic` are functions.

## Model

| member | source | states |
|---|---|---|
| Grid.GetNeighbors | algorithm.py:71-78 | The result contains a cell exactly when it is one Manhattan step from the argument, inside `len(grid)` × `len(grid[0])`, and not `"wall"`. There are at most 4 cells, each listed once, in the order south, north, east, west. |
| Grid.WalkIsAtLeastDistance | algorithm.py:58 | A walk of `get_neighbors` moves from `a` to `b` has at least Manhattan(a, b) moves. |
| Grid.WalkStaysInside | algorithm.py:58-66 | A set of cells that contains every neighbour of its members contains the end of every walk that starts inside it. |
| Grid.StraightIsWalk | algorithm.py:71-78 | In a grid without walls, any two in-bounds cells are joined by a walk of exactly Manhattan(a, b) moves. |
| Grid.OpenGridShortest | algorithm.py:31-33 | In a grid without walls, a walk between in-bounds cells that is no longer than any other walk has exactly Manhattan(a, b) moves. Combined with `Search.AStar` under a consistent estimate such as `Manhattan`, this gives the path length on an obstacle-free grid (`Search.AStarOnOpenGrid`). |
| Estimates.Heuristic | algorithm.py:26-30 | With no goal the heuristic is 0. |
| Estimates.ConsistentAlongWalk | algorithm.py:26-30 | Along any walk, a consistent heuristic drops by at most the number of moves. |
| Estimates.ConsistentIsAdmissible | algorithm.py:26-30 | A consistent heuristic that is at most 0 at the goal never overestimates the moves of any walk to the goal. |
| Estimates.ManhattanIsConsistentAndAdmissible | algorithm.py:26-30 | Manhattan distance to the goal, with 0 when there is no goal, is consistent and admissible on every grid. |
| Frontier.PopMin | algorithm.py:41 | Returns a least entry under the `(f, row, col)` tuple order, and the frontier with exactly one copy of that entry removed (as a multiset). |
| Frontier.LeastIsUnique | algorithm.py:41 | The least entry is unique, so the popped entry depends only on the frontier's contents and not on heap layout. |
| Paths.TrailIsWalk | algorithm.py:43-49 | Following predecessor links back from a recorded cell gives a walk from the start to that cell, with at most cost + 1 cells. |
| Paths.Reversed | algorithm.py:49 | `path[::-1]`: the same length, with element i equal to element n-1-i of the input. |
| Paths.RebuildPath | algorithm.py:44-49 | Collecting cells along predecessor links until `None`, then reversing, returns exactly the trail of links from the start to the goal. |
| SearchInvariants.Improved | algorithm.py:58-61 | A neighbour is among those the tentative cost improves exactly when it is not yet in `paths` or is recorded at a strictly higher cost. The list keeps neighbour order by its definition, a filter over the neighbours; the contract states membership only. |
| SearchInvariants.ImprovedPrefix | algorithm.py:58-61 | Looking at one more neighbour extends the improved list by that neighbour exactly when the tentative cost improves it, and otherwise leaves the list unchanged. |
| SearchInvariants.InitInv | algorithm.py:35-38 | The initial state satisfies the loop invariant: one entry for the start at priority 0, the start recorded at cost 0 with no predecessor, nothing closed, no events. |
| SearchInvariants.PoppedIsOptimal | algorithm.py:40-54 | With a consistent heuristic, the cell of a least entry that is not yet closed is recorded at a cost no greater than the moves of any walk from the start to it. |
| SearchInvariants.SkipKeepsInv | algorithm.py:51-52 | Popping an entry of an already closed cell and skipping it keeps the invariant. |
| SearchInvariants.GoalPopped | algorithm.py:43-49 | When the goal is popped:<br>the trail to it is a walk from the start;<br>it is `[start]` with an empty trace when start is the goal;<br>under a consistent heuristic it is no longer than any walk;<br>the trace so far closes each cell at most once, starts with the start, never closes the goal, and opens only passable cells. |
| SearchInvariants.ExhaustedIsUnreachable | algorithm.py:68 | If the frontier is empty and the goal was never popped, no walk leads from the start to the goal. |
| SearchInvariants.RelaxKeepsShape | algorithm.py:58-64 | Relaxing neighbours keeps the map well linked (start at `(None, 0)`, every other cell linked to an adjacent cheaper predecessor) and keeps every entry's cell recorded. No recorded cost rises. |
| SearchInvariants.RelaxKeepsFrontier | algorithm.py:62-64 | After an expansion, every open cell still has an entry carrying exactly its current priority, and no entry of an open cell is cheaper than its record. |
| SearchInvariants.RelaxKeepsTrace | algorithm.py:54-66 | After an expansion, the `'closed_set'` events are exactly the closed cells, each once, with the start's event first, and `'open_set'` events are only for passable cells. |
| SearchInvariants.RelaxKeepsOptimal | algorithm.py:58-62 | With a consistent heuristic, closing a cell keeps every closed cell's cost minimal and keeps each closed cell's neighbours at most one above it. |
| SearchInvariants.RelaxStep | algorithm.py:58-66 | One pass of the neighbour loop:<br>the record of `current` is untouched, so the tentative cost is its cost plus one;<br>the next neighbour joins the improved list exactly when it is unrecorded or recorded at a higher cost;<br>when it joins, the map gains `(current, tentative)` for it, and the frontier and the trace gain its entry and its `'open_set'` event at the end. |
| SearchInvariants.RecordedIsRelaxed | algorithm.py:61-66 | Recording the improved neighbours one after another leaves each of them at `(current, tentative)`, adds no other key and leaves every other record unchanged. |
| SearchInvariants.PushesAt | algorithm.py:63-64 | The k-th entry pushed is for the k-th improved neighbour, with priority tentative cost plus heuristic. |
| Trace.OpenedAt | algorithm.py:66 | The k-th `'open_set'` event is for the k-th improved neighbour. |
| SearchInvariants.FewerUnexpanded | algorithm.py:51-54 | Closing a cell that was not closed leaves strictly fewer unclosed cells in the finite universe, so the search terminates. |
| SearchInvariants.ExpandKeepsInv | algorithm.py:54-66 | Expanding the cell of a least entry that is neither closed nor the goal keeps the whole invariant, and shrinks the set of unclosed cells. |
| Search.RelaxAll | algorithm.py:58-66 | After the neighbour loop, where the improved neighbours are those not yet recorded or recorded above `cost + 1`:<br>the map is the old map with each improved neighbour recorded as `(current, cost + 1)`, in order; by `RecordedIsRelaxed` no other record changes;<br>the frontier is the old one followed by their entries, in order;<br>the trace is the old one followed by their `'open_set'` events, in order. |
| Search.Expand | algorithm.py:58-66 | After expanding `current`:<br>no recorded cost rises;<br>every changed record becomes `(current, cost(current) + 1)` and is strictly cheaper than before;<br>every neighbour of `current` is recorded at most one above it;<br>`current`'s own record is unchanged. |
| Search.AStar | algorithm.py:34-68 | Results:<br>a `None` start gives `([], [])`;<br>`start == goal` gives `([start], [])`;<br>a non-empty path is a walk of neighbour moves from start to goal;<br>an empty path means no such walk exists and the trace is empty;<br>with a consistent heuristic the path is no longer than any walk.<br>Trace:<br>it starts with the start's `'closed_set'` event;<br>it closes each cell at most once and never closes the goal;<br>it opens only passable cells.<br>Termination is proved. |
| Search.AStarOnOpenGrid | algorithm.py:34-68 | With the Manhattan estimate on a grid without walls, between two in-bounds cells, the returned path is a walk from start to goal of exactly Manhattan(start, goal) moves. |

## Left out

- The tkinter user interface is not modelled (algorithm.py:1-23, 83-134, 226-266): drawing, buttons and the event loop.
- `calculate_gradient_color` is not modelled. It is display-only colour arithmetic.
- The global-state editors are not modelled (`handle_mouse_click`, `set_start`, `set_goal`, `toggle_wall`, `restart`, `set_mode`). They edit module globals and redraw. The model takes the grid, start and goal as arguments.
- `generate_random_maze` is not modelled, because it depends on `random.random()`.
- Estimates.Heuristic: the source's Euclidean distance in floating point is replaced by an arbitrary integer estimate `h`, keeping the rule that no goal gives 0. Floating-point priorities, and the tie orders they produce, are not modelled. Euclidean distance is consistent for unit 4-connected moves, but that is not proved here because it is real-valued.
- Search.AStar: optimality is proved for consistent heuristics only. With a closed set and a heuristic that is admissible but not consistent, A* can return a longer path, and the model makes no claim for that case.
- Search.AStar: requires that a `None` start comes with a `None` goal. In the source, a `None` start with a set goal crashes on unpacking `None` inside `get_neighbors`.
- Search.AStar: requires every row to be at least as wide as row 0. The source indexes `grid[r][c]` after checking only `len(grid[0])`, so a ragged grid can make it raise an index error.
- Frontier.PopMin: the binary-heap layout of `heapq` is not modelled. The frontier is a sequence treated as a multiset, and the pop takes its least entry. Because the tuple order is total, that is the same entry `heappop` returns.
- Endpoints are not validated, because the source does not validate them. An out-of-bounds or wall start is searched from as given, and a wall goal other than the start is never reached (when start equals goal, `[start]` is returned before any wall test). No `OutOfBounds` or `InvalidEndpoint` error is modelled.
- An unreachable goal, including one enclosed by walls, returns `([], [])`, exactly as algorithm.py:68 does. The trace built up to that point is discarded, not returned.
