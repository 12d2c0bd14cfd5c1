/**
 * What the A* loop keeps true between iterations, and the proofs that each kind
 * of iteration (skipping a stale entry, expanding a cell) keeps it, that a popped
 * cell's recorded cost is optimal under a consistent heuristic, and that an
 * exhausted frontier means the goal is unreachable.
 */
module SearchInvariants {
  import opened Wrappers
  import opened Grid
  import opened Estimates
  import opened Frontier
  import opened Paths
  import opened Trace

  /** The cells of `cells`, in order, whose record a tentative cost `g` improves:
      those not yet recorded and those recorded at a strictly higher cost. */
  function Improved(paths: CostMap, g: nat, cells: seq<Cell>): (r: seq<Cell>)
    ensures forall c {:trigger c in r} :: c in r <==> c in cells && (c !in paths || g < paths[c].cost)
  {
    if cells == [] then []
    else
      var last := cells[|cells| - 1];
      Improved(paths, g, cells[..|cells| - 1])
        + (if last !in paths || g < paths[last].cost then [last] else [])
  }

  /** Extending the list of candidates by one cell extends `Improved` by that cell
      exactly when `g` improves it. */
  lemma ImprovedPrefix(paths: CostMap, g: nat, cells: seq<Cell>, i: nat)
    requires i < |cells|
    ensures cells[i] !in paths || g < paths[cells[i]].cost ==>
              Improved(paths, g, cells[..i + 1]) == Improved(paths, g, cells[..i]) + [cells[i]]
    ensures cells[i] in paths && paths[cells[i]].cost <= g ==>
              Improved(paths, g, cells[..i + 1]) == Improved(paths, g, cells[..i])
  {
    assert cells[..i + 1][..i] == cells[..i];
  }

  /** A candidate that occurs only once is not among the improved cells listed before it. */
  lemma NotImprovedBefore(paths: CostMap, g: nat, cells: seq<Cell>, i: nat)
    requires i < |cells|
    requires forall j, k :: 0 <= j < k < |cells| ==> cells[j] != cells[k]
    ensures cells[i] !in Improved(paths, g, cells[..i])
  {
  }

  /** The frontier entries pushed for `cells` reached at cost `g`: priority g + heuristic. */
  function Pushes(h: Estimate, goal: Option<Cell>, g: nat, cells: seq<Cell>): (r: seq<Entry>)
    ensures |r| == |cells|
  {
    if cells == [] then []
    else
      var last := cells[|cells| - 1];
      Pushes(h, goal, g, cells[..|cells| - 1]) + [Entry(g + Heuristic(h, last, goal), last)]
  }
  /** The k-th pushed entry is for the k-th cell, at priority g plus its heuristic. */
  lemma {:induction false} PushesAt(h: Estimate, goal: Option<Cell>, g: nat, cells: seq<Cell>)
    ensures forall k :: 0 <= k < |cells| ==>
              Pushes(h, goal, g, cells)[k] == Entry(g + Heuristic(h, cells[k], goal), cells[k])
  {
    if cells != [] {
      var front := cells[..|cells| - 1];
      PushesAt(h, goal, g, front);
      forall k | 0 <= k < |front| ensures cells[k] == front[k] { }
    }
  }


  /** The state after relaxing the cells `imp` from `cur` at cost `g`: each gets the
      record (cur, g), an entry in the frontier and an 'open_set' event, in order;
      every other record is unchanged. */
  ghost predicate RelaxedBy(h: Estimate, goal: Option<Cell>, cur: Cell, g: nat, imp: seq<Cell>,
                            paths: CostMap, open: seq<Entry>, changes: seq<Event>,
                            paths': CostMap, open': seq<Entry>, changes': seq<Event>)
  {
    && (forall c :: c in paths' <==> c in paths || c in imp)
    && (forall c :: c in paths' ==> paths'[c] == if c in imp then Record(Some(cur), g) else paths[c])
    && open' == open + Pushes(h, goal, g, imp)
    && changes' == changes + Opened(imp)
  }

  /** The cost map after recording each cell of `imp`, in order, with predecessor `cur`
      at cost `g`. */
  function Recorded(paths: CostMap, cur: Cell, g: nat, imp: seq<Cell>): (r: CostMap)
  {
    if imp == [] then paths
    else Recorded(paths, cur, g, imp[..|imp| - 1])[imp[|imp| - 1] := Record(Some(cur), g)]
  }

  /** A cell outside `imp` keeps its record, or its absence, in `Recorded`. */
  lemma {:induction false} RecordedElsewhere(paths: CostMap, cur: Cell, g: nat, imp: seq<Cell>, c: Cell)
    requires c !in imp
    ensures c in Recorded(paths, cur, g, imp) <==> c in paths
    ensures c in paths ==> Recorded(paths, cur, g, imp)[c] == paths[c]
    decreases |imp|
  {
    if imp != [] {
      assert c in imp[..|imp| - 1] ==> c in imp;
      RecordedElsewhere(paths, cur, g, imp[..|imp| - 1], c);
    }
  }

  /** A cell of `imp` is recorded with predecessor `cur` at cost `g`. */
  lemma {:induction false} RecordedHere(paths: CostMap, cur: Cell, g: nat, imp: seq<Cell>, c: Cell)
    requires c in imp
    ensures c in Recorded(paths, cur, g, imp) && Recorded(paths, cur, g, imp)[c] == Record(Some(cur), g)
    decreases |imp|
  {
    var last := imp[|imp| - 1];
    if c != last {
      assert imp == imp[..|imp| - 1] + [last];
      RecordedHere(paths, cur, g, imp[..|imp| - 1], c);
    }
  }

  /** Recording `imp` and pushing and announcing its cells is a relaxation by `imp`. */
  lemma RecordedIsRelaxed(h: Estimate, goal: Option<Cell>, cur: Cell, g: nat, imp: seq<Cell>,
                          paths: CostMap, open: seq<Entry>, changes: seq<Event>)
    ensures RelaxedBy(h, goal, cur, g, imp, paths, open, changes,
                      Recorded(paths, cur, g, imp), open + Pushes(h, goal, g, imp), changes + Opened(imp))
  {
    var r := Recorded(paths, cur, g, imp);
    forall c ensures (c in r <==> c in paths || c in imp)
                  && (c in r ==> r[c] == if c in imp then Record(Some(cur), g) else paths[c]) {
      if c in imp {
        RecordedHere(paths, cur, g, imp, c);
      } else {
        RecordedElsewhere(paths, cur, g, imp, c);
      }
    }
  }

  /** One step of the neighbour loop of an expansion of `cur` at tentative cost `g`,
      after the improved cells `done` among the first `i` candidates have been relaxed:
      the record of `cur` is untouched, and the next candidate is relaxed, extending
      `done`, exactly when it is unrecorded or recorded above `g`. */
  lemma RelaxStep(h: Estimate, goal: Option<Cell>, cur: Cell, g: nat, cells: seq<Cell>, i: nat,
                  paths: CostMap, open: seq<Entry>, changes: seq<Event>, done: seq<Cell>)
    requires cur in paths && cur !in cells
    requires forall j, k :: 0 <= j < k < |cells| ==> cells[j] != cells[k]
    requires i < |cells| && done == Improved(paths, g, cells[..i])
    ensures cur in Recorded(paths, cur, g, done) && Recorded(paths, cur, g, done)[cur] == paths[cur]
    ensures cells[i] !in Recorded(paths, cur, g, done) || g < Recorded(paths, cur, g, done)[cells[i]].cost ==>
              && Improved(paths, g, cells[..i + 1]) == done + [cells[i]]
              && Recorded(paths, cur, g, done + [cells[i]])
                 == Recorded(paths, cur, g, done)[cells[i] := Record(Some(cur), g)]
              && open + Pushes(h, goal, g, done + [cells[i]])
                 == (open + Pushes(h, goal, g, done)) + [Entry(g + Heuristic(h, cells[i], goal), cells[i])]
              && changes + Opened(done + [cells[i]]) == (changes + Opened(done)) + [Event(cells[i], OpenSet)]
    ensures cells[i] in Recorded(paths, cur, g, done) && Recorded(paths, cur, g, done)[cells[i]].cost <= g ==>
              Improved(paths, g, cells[..i + 1]) == done
  {
    var nb := cells[i];
    NotImprovedBefore(paths, g, cells, i);
    RecordedElsewhere(paths, cur, g, done, nb);
    RecordedElsewhere(paths, cur, g, done, cur);
    ImprovedPrefix(paths, g, cells, i);
    RecordedSnoc(paths, cur, g, done, nb);
    RelaxedSnoc(h, goal, g, done, nb, open, changes);
  }

  /** Recording one more cell updates the map at that cell. */
  lemma RecordedSnoc(paths: CostMap, cur: Cell, g: nat, done: seq<Cell>, nb: Cell)
    ensures Recorded(paths, cur, g, done + [nb]) == Recorded(paths, cur, g, done)[nb := Record(Some(cur), g)]
  {
    assert (done + [nb])[..|done|] == done;
  }

  /** Relaxing one more cell appends its entry and its 'open_set' event. */
  lemma RelaxedSnoc(h: Estimate, goal: Option<Cell>, g: nat, done: seq<Cell>, nb: Cell,
                    open: seq<Entry>, changes: seq<Event>)
    ensures open + Pushes(h, goal, g, done + [nb]) == (open + Pushes(h, goal, g, done)) + [Entry(g + Heuristic(h, nb, goal), nb)]
    ensures changes + Opened(done + [nb]) == (changes + Opened(done)) + [Event(nb, OpenSet)]
  {
    assert (done + [nb])[..|done|] == done;
  }

  /** The effect of expanding `cur`: its neighbours that the cost of `cur` plus one
      improves are relaxed. */
  ghost predicate Relaxed(grid: Grid, h: Estimate, goal: Option<Cell>, cur: Cell,
                          paths: CostMap, open: seq<Entry>, changes: seq<Event>,
                          paths': CostMap, open': seq<Entry>, changes': seq<Event>)
    requires WellShaped(grid) && cur in paths
  {
    var g := paths[cur].cost + 1;
    RelaxedBy(h, goal, cur, g, Improved(paths, g, GetNeighbors(grid, cur)),
              paths, open, changes, paths', open', changes')
  }

  /** The finitely many cells a search from `s` can ever record: the start and the
      cells in bounds. */
  ghost function Universe(grid: Grid, s: Cell): (u: set<Cell>) {
    (set r: int, k: int | 0 <= r < |grid| && 0 <= k < Width(grid) :: Cell(r, k)) + {s}
  }

  lemma InUniverse(grid: Grid, s: Cell, c: Cell)
    requires InBounds(grid, c)
    ensures c in Universe(grid, s)
  {
    assert Cell(c.row, c.col) == c;
  }

  /** The priority a recorded cell is pushed with: its cost plus its heuristic. */
  function Priority(h: Estimate, goal: Option<Cell>, paths: CostMap, c: Cell): (f: int)
    requires c in paths
  {
    paths[c].cost + Heuristic(h, c, goal)
  }

  /** Records, closed cells and frontier entries stay within the recorded, finite cells. */
  ghost predicate Shape(grid: Grid, s: Cell, open: seq<Entry>, closed: set<Cell>, paths: CostMap)
    requires WellShaped(grid)
  {
    && PathsOk(grid, s, paths)
    && closed <= paths.Keys
    && paths.Keys <= Universe(grid, s)
    && (forall e :: e in open ==> e.cell in paths)
  }

  /** Before the first expansion the state is the initial one; after it the start is closed. */
  ghost predicate Begun(s: Cell, open: seq<Entry>, closed: set<Cell>, paths: CostMap, changes: seq<Event>) {
    && (closed == {} ==> open == [Entry(0, s)] && paths == map[s := Record(None, 0)] && changes == [])
    && (closed != {} ==> s in closed)
  }

  /** Lazy deletion: once the start has been expanded, no entry of an unexpanded cell
      is cheaper than its current record, and every recorded, unexpanded cell has an
      entry carrying exactly its current priority. */
  ghost predicate FrontierOk(h: Estimate, goal: Option<Cell>, open: seq<Entry>, closed: set<Cell>, paths: CostMap)
    requires forall e :: e in open ==> e.cell in paths
  {
    closed != {} ==>
      && (forall e :: e in open && e.cell !in closed ==> Priority(h, goal, paths, e.cell) <= e.f)
      && (forall c :: c in paths && c !in closed ==> Entry(Priority(h, goal, paths, c), c) in open)
  }

  /** Every neighbour of an expanded cell is recorded, and the goal is never expanded. */
  ghost predicate ClosedOk(grid: Grid, goal: Option<Cell>, closed: set<Cell>, paths: CostMap)
    requires WellShaped(grid)
  {
    && (forall x, y :: x in closed && Adjacent(grid, x, y) ==> y in paths)
    && (goal.Some? ==> goal.value !in closed)
  }

  /** The trace records exactly the expanded cells as 'closed_set' events, once each,
      the start first; every 'open_set' event is for a passable cell. */
  ghost predicate TraceOk(grid: Grid, s: Cell, closed: set<Cell>, changes: seq<Event>)
    requires WellShaped(grid)
  {
    && (forall c :: c in closed <==> Event(c, ClosedSet) in changes)
    && ClosedOnce(changes)
    && (forall ev :: ev in changes && ev.phase == OpenSet ==> Passable(grid, ev.cell))
    && (changes != [] ==> changes[0] == Event(s, ClosedSet))
  }

  /** Expanded cells carry optimal costs, and their neighbours' costs are at most one more. */
  ghost predicate Optimal(grid: Grid, s: Cell, closed: set<Cell>, paths: CostMap)
    requires WellShaped(grid)
    requires closed <= paths.Keys
    requires forall x, y :: x in closed && Adjacent(grid, x, y) ==> y in paths
  {
    && (forall x, w :: x in closed && WalkFrom(grid, w, s, x) ==> paths[x].cost <= |w| - 1)
    && (forall x, y :: x in closed && Adjacent(grid, x, y) ==> paths[y].cost <= paths[x].cost + 1)
  }

  /** The loop invariant of the search from `s`. */
  ghost predicate Inv(grid: Grid, h: Estimate, s: Cell, goal: Option<Cell>,
                      open: seq<Entry>, closed: set<Cell>, paths: CostMap, changes: seq<Event>)
    requires WellShaped(grid)
  {
    && Shape(grid, s, open, closed, paths)
    && Begun(s, open, closed, paths, changes)
    && FrontierOk(h, goal, open, closed, paths)
    && ClosedOk(grid, goal, closed, paths)
    && TraceOk(grid, s, closed, changes)
    && (Consistent(grid, h, goal) ==> Optimal(grid, s, closed, paths))
  }

  /** The initial state: one entry for the start at priority 0, the start recorded at
      cost 0 with no predecessor, nothing closed, an empty trace. */
  lemma InitInv(grid: Grid, h: Estimate, s: Cell, goal: Option<Cell>)
    requires WellShaped(grid)
    ensures Inv(grid, h, s, goal, [Entry(0, s)], {}, map[s := Record(None, 0)], [])
  {
  }

  /** The index of the first cell of `w` outside `inside`. */
  lemma FirstOutside(w: seq<Cell>, inside: set<Cell>) returns (j: nat)
    requires |w| > 0 && w[0] in inside && w[|w| - 1] !in inside
    ensures 0 < j < |w| && w[j - 1] in inside && w[j] !in inside
  {
    j := 1;
    while w[j] in inside
      invariant 0 < j < |w| && w[j - 1] in inside
      decreases |w| - j
    {
      j := j + 1;
    }
  }

  /** With a consistent heuristic, the cell of a least frontier entry that is not yet
      expanded is recorded at a cost no greater than the number of moves of any walk
      from the start to it. */
  lemma PoppedIsOptimal(grid: Grid, h: Estimate, s: Cell, goal: Option<Cell>,
                        open: seq<Entry>, closed: set<Cell>, paths: CostMap,
                        e: Entry, w: seq<Cell>)
    requires WellShaped(grid) && Consistent(grid, h, goal)
    requires s in paths && paths[s].cost == 0 && closed <= paths.Keys
    requires forall x, y :: x in closed && Adjacent(grid, x, y) ==> y in paths
    requires Optimal(grid, s, closed, paths)
    requires Least(e, open) && e.cell in paths && e.cell !in closed
    requires e.cell != s ==> s in closed
    requires closed != {} ==> Priority(h, goal, paths, e.cell) <= e.f
    requires closed != {} ==>
               forall c :: c in paths && c !in closed ==> Entry(Priority(h, goal, paths, c), c) in open
    requires WalkFrom(grid, w, s, e.cell)
    ensures paths[e.cell].cost <= |w| - 1
  {
    var c := e.cell;
    if c != s {
      var j := FirstOutside(w, closed);
      var before, next := w[j - 1], w[j];
      SliceIsWalk(grid, w, 0, j);
      assert WalkFrom(grid, w[..j], s, before);
      assert Adjacent(grid, before, next);
      assert paths[before].cost <= j - 1;
      assert paths[next].cost <= paths[before].cost + 1;
      var x := Entry(Priority(h, goal, paths, next), next);
      assert x in open;
      assert EntryLe(e, x);
      assert Priority(h, goal, paths, c) <= e.f <= x.f;
      SliceIsWalk(grid, w, j, |w|);
      ConsistentAlongWalk(grid, h, goal, w[j..]);
      assert Heuristic(h, next, goal) <= |w| - j - 1 + Heuristic(h, c, goal);
    }
  }

  /** Popping a stale entry of an expanded cell and skipping it keeps the invariant. */
  lemma SkipKeepsInv(grid: Grid, h: Estimate, s: Cell, goal: Option<Cell>,
                     open: seq<Entry>, closed: set<Cell>, paths: CostMap, changes: seq<Event>,
                     e: Entry, rest: seq<Entry>)
    requires WellShaped(grid) && Inv(grid, h, s, goal, open, closed, paths, changes)
    requires e in open && multiset(rest) + multiset{e} == multiset(open)
    requires e.cell in closed
    ensures Inv(grid, h, s, goal, rest, closed, paths, changes)
  {
    RemovedOne(open, e, rest);
    assert Shape(grid, s, rest, closed, paths);
    forall c | c in paths && c !in closed
      ensures Entry(Priority(h, goal, paths, c), c) in rest
    {
      assert Entry(Priority(h, goal, paths, c), c) in open;
    }
    assert FrontierOk(h, goal, rest, closed, paths);
    assert Begun(s, rest, closed, paths, changes);
  }

  /** Popping the goal: the trail to it is a walk from the start; it is `[s]` with an
      empty trace when the start is the goal; and with a consistent heuristic no walk
      from the start to the goal is shorter. */
  lemma GoalPopped(grid: Grid, h: Estimate, s: Cell, goal: Option<Cell>,
                   open: seq<Entry>, closed: set<Cell>, paths: CostMap, changes: seq<Event>, e: Entry)
    requires WellShaped(grid) && Inv(grid, h, s, goal, open, closed, paths, changes)
    requires Least(e, open) && goal == Some(e.cell)
    ensures e.cell in paths && Linked(paths)
    ensures WalkFrom(grid, Trail(paths, e.cell), s, e.cell)
    ensures s == e.cell ==> Trail(paths, e.cell) == [s] && changes == []
    ensures Consistent(grid, h, goal) ==>
              forall w :: WalkFrom(grid, w, s, e.cell) ==> |Trail(paths, e.cell)| <= |w|
    ensures changes != [] ==> changes[0] == Event(s, ClosedSet)
    ensures ClosedOnce(changes) && Event(e.cell, ClosedSet) !in changes
    ensures forall ev :: ev in changes && ev.phase == OpenSet ==> Passable(grid, ev.cell)
  {
    TrailIsWalk(grid, s, paths, e.cell);
    if Consistent(grid, h, goal) {
      forall w | WalkFrom(grid, w, s, e.cell) ensures |Trail(paths, e.cell)| <= |w| {
        PoppedIsOptimal(grid, h, s, goal, open, closed, paths, e, w);
      }
    }
  }

  /** An empty frontier: every recorded cell has been expanded, the expanded cells are
      closed under moves, and the goal is not among them, so no walk reaches it. */
  lemma ExhaustedIsUnreachable(grid: Grid, h: Estimate, s: Cell, goal: Cell,
                               closed: set<Cell>, paths: CostMap, changes: seq<Event>)
    requires WellShaped(grid) && Inv(grid, h, s, Some(goal), [], closed, paths, changes)
    ensures forall w :: !WalkFrom(grid, w, s, goal)
  {
    assert s in closed;
    forall c, w | WalkFrom(grid, w, s, c) ensures c in closed {
      WalkStaysInside(grid, closed, w);
    }
  }


  /** What expanding the cell of a least entry `e` starts from: the invariant before the
      pop, `rest` the frontier after it, `e.cell` neither expanded nor the goal, and the
      new records, frontier and trace those of relaxing its neighbours after the
      'closed_set' event for it. */
  ghost predicate ExpandStep(grid: Grid, h: Estimate, s: Cell, goal: Option<Cell>,
                             open: seq<Entry>, closed: set<Cell>, paths: CostMap, changes: seq<Event>,
                             e: Entry, rest: seq<Entry>,
                             paths': CostMap, open': seq<Entry>, changes': seq<Event>)
    requires WellShaped(grid)
  {
    && Inv(grid, h, s, goal, open, closed, paths, changes)
    && Least(e, open) && multiset(rest) + multiset{e} == multiset(open)
    && e.cell !in closed && Some(e.cell) != goal && e.cell in paths
    && Relaxed(grid, h, goal, e.cell, paths, rest, changes + [Event(e.cell, ClosedSet)], paths', open', changes')
  }

  /** The records after relaxing `imp` from `cur`: old records only ever get cheaper,
      and the shape is kept with `cur` expanded. */
  lemma RelaxKeepsShape(grid: Grid, h: Estimate, s: Cell, goal: Option<Cell>, cur: Cell, g: nat, imp: seq<Cell>,
                        closed: set<Cell>, paths: CostMap, rest: seq<Entry>, changes: seq<Event>,
                        paths': CostMap, open': seq<Entry>, changes': seq<Event>)
    requires WellShaped(grid)
    requires PathsOk(grid, s, paths) && closed <= paths.Keys && paths.Keys <= Universe(grid, s)
    requires forall x :: x in rest ==> x.cell in paths
    requires cur in paths && g == paths[cur].cost + 1 && cur !in imp
    requires forall c :: c in imp ==> Adjacent(grid, cur, c) && (c !in paths || g < paths[c].cost)
    requires RelaxedBy(h, goal, cur, g, imp, paths, rest, changes, paths', open', changes')
    ensures Shape(grid, s, open', closed + {cur}, paths')
    ensures forall c :: c in paths ==> c in paths' && paths'[c].cost <= paths[c].cost
  {
    assert s !in imp;
    forall c | c in imp ensures c in Universe(grid, s) {
      InUniverse(grid, s, c);
    }
    assert Linked(paths');
    assert PathsOk(grid, s, paths');
    var pushed := Pushes(h, goal, g, imp);
    PushesAt(h, goal, g, imp);
    forall x | x in open' ensures x.cell in paths' {
      if x !in rest {
        var k :| 0 <= k < |pushed| && x == pushed[k];
      }
    }
  }

  /** The frontier after relaxing `imp` from `cur`: both halves of `FrontierOk` hold
      again once `cur` is expanded. */
  lemma RelaxKeepsFrontier(h: Estimate, s: Cell, goal: Option<Cell>, cur: Cell, g: nat, imp: seq<Cell>,
                           open: seq<Entry>, closed: set<Cell>, paths: CostMap, e: Entry, rest: seq<Entry>,
                           changes: seq<Event>, paths': CostMap, open': seq<Entry>, changes': seq<Event>)
    requires forall x :: x in open ==> x.cell in paths
    requires FrontierOk(h, goal, open, closed, paths)
    requires closed == {} ==> open == [Entry(0, s)] && paths == map[s := Record(None, 0)]
    requires e in open && e.cell == cur && cur !in closed
    requires multiset(rest) + multiset{e} == multiset(open)
    requires RelaxedBy(h, goal, cur, g, imp, paths, rest, changes, paths', open', changes')
    requires forall c :: c in paths ==> c in paths' && paths'[c].cost <= paths[c].cost
    requires forall x :: x in open' ==> x.cell in paths'
    ensures FrontierOk(h, goal, open', closed + {cur}, paths')
  {
    var closed' := closed + {cur};
    var pushed := Pushes(h, goal, g, imp);
    PushesAt(h, goal, g, imp);
    RemovedOne(open, e, rest);
    assert closed == {} ==> rest == [];
    forall x | x in open' && x.cell !in closed'
      ensures Priority(h, goal, paths', x.cell) <= x.f
    {
      if x in rest {
        assert Priority(h, goal, paths, x.cell) <= x.f;
      } else {
        var k :| 0 <= k < |imp| && x == pushed[k];
      }
    }
    forall c | c in paths' && c !in closed'
      ensures Entry(Priority(h, goal, paths', c), c) in open'
    {
      if c in imp {
        var k :| 0 <= k < |imp| && imp[k] == c;
        assert pushed[k] == Entry(Priority(h, goal, paths', c), c);
      } else {
        assert Entry(Priority(h, goal, paths, c), c) in open;
      }
    }
  }

  /** The trace after expanding `cur` and relaxing `imp`: `cur` gains its one
      'closed_set' event and the relaxed cells their 'open_set' events. */
  lemma RelaxKeepsTrace(grid: Grid, s: Cell, cur: Cell, imp: seq<Cell>,
                        closed: set<Cell>, changes: seq<Event>, changes': seq<Event>)
    requires WellShaped(grid)
    requires TraceOk(grid, s, closed, changes)
    requires closed == {} ==> cur == s
    requires cur !in closed
    requires forall c :: c in imp ==> Passable(grid, c)
    requires changes' == changes + [Event(cur, ClosedSet)] + Opened(imp)
    ensures TraceOk(grid, s, closed + {cur}, changes')
  {
    var events := Opened(imp);
    OpenedAt(imp);
    var closedEvent := Event(cur, ClosedSet);
    assert closedEvent !in changes;
    forall c | c in closed + {cur} ensures Event(c, ClosedSet) in changes' {
      if c != cur {
        assert Event(c, ClosedSet) in changes;
      } else {
        assert changes'[|changes|] == closedEvent;
      }
    }
    forall ev | ev in changes'
      ensures ev.phase == ClosedSet ==> ev.cell in closed + {cur}
      ensures ev.phase == OpenSet ==> Passable(grid, ev.cell)
    {
      if ev !in changes && ev != closedEvent {
        var k :| 0 <= k < |events| && events[k] == ev;
      }
    }
    forall i, j | 0 <= i < j < |changes'| && changes'[i].phase == ClosedSet
      ensures changes'[j] != changes'[i]
    {
      if j == |changes| {
        assert changes'[i] in changes;
      } else if j > |changes| {
        assert changes'[j] == events[j - |changes| - 1];
      }
    }
    assert changes == [] ==> closed == {};
  }

  /** With a consistent heuristic, expansion keeps every expanded cell's cost optimal:
      the expanded cell's cost is optimal when popped, and no expanded cell is
      improved later, since its cost is already at most that of any walk to it. */
  lemma RelaxKeepsOptimal(grid: Grid, s: Cell, cur: Cell, g: nat, imp: seq<Cell>,
                          closed: set<Cell>, paths: CostMap, paths': CostMap)
    requires WellShaped(grid)
    requires PathsOk(grid, s, paths) && closed <= paths.Keys
    requires forall x, y :: x in closed && Adjacent(grid, x, y) ==> y in paths
    requires Optimal(grid, s, closed, paths)
    requires cur in paths && g == paths[cur].cost + 1 && cur !in imp
    requires forall w :: WalkFrom(grid, w, s, cur) ==> paths[cur].cost <= |w| - 1
    requires forall c :: c in imp ==> Adjacent(grid, cur, c) && (c !in paths || g < paths[c].cost)
    requires forall n :: Adjacent(grid, cur, n) ==> n in paths' && paths'[n].cost <= g
    requires forall c :: c in paths' <==> c in paths || c in imp
    requires forall c :: c in paths' ==> paths'[c] == if c in imp then Record(Some(cur), g) else paths[c]
    ensures closed + {cur} <= paths'.Keys
    ensures forall x, y :: x in closed + {cur} && Adjacent(grid, x, y) ==> y in paths'
    ensures Optimal(grid, s, closed + {cur}, paths')
  {
    TrailIsWalk(grid, s, paths, cur);
    forall x | x in closed && Adjacent(grid, cur, x) ensures paths[x].cost <= g {
      ExtendWalk(grid, Trail(paths, cur), s, cur, x);
    }
    forall x | x in closed + {cur} ensures x in paths' && paths'[x] == paths[x] {
    }
    forall y | y in paths ensures y in paths' && paths'[y].cost <= paths[y].cost {
    }
    OptimalAfter(grid, s, cur, closed, paths, paths');
  }

  /** Adding `cur` to the expanded cells keeps them optimal when the records of the
      expanded cells are kept, no cost rises, `cur` is optimal and its neighbours are
      recorded at most one above it. */
  lemma OptimalAfter(grid: Grid, s: Cell, cur: Cell, closed: set<Cell>, paths: CostMap, paths': CostMap)
    requires WellShaped(grid)
    requires closed <= paths.Keys && cur in paths
    requires forall x, y :: x in closed && Adjacent(grid, x, y) ==> y in paths
    requires Optimal(grid, s, closed, paths)
    requires forall w :: WalkFrom(grid, w, s, cur) ==> paths[cur].cost <= |w| - 1
    requires forall n :: Adjacent(grid, cur, n) ==> n in paths' && paths'[n].cost <= paths[cur].cost + 1
    requires forall x :: x in closed + {cur} ==> x in paths' && paths'[x] == paths[x]
    requires forall y :: y in paths ==> y in paths' && paths'[y].cost <= paths[y].cost
    ensures closed + {cur} <= paths'.Keys
    ensures forall x, y :: x in closed + {cur} && Adjacent(grid, x, y) ==> y in paths'
    ensures Optimal(grid, s, closed + {cur}, paths')
  {
    forall x, y | x in closed + {cur} && Adjacent(grid, x, y)
      ensures y in paths' && paths'[y].cost <= paths'[x].cost + 1
    {
      if x != cur {
        assert paths[y].cost <= paths[x].cost + 1;
      }
    }
  }

  /** The relaxed neighbours of an expansion of `cur`: adjacent to it, each improved by
      the tentative cost, and afterwards every neighbour is recorded at most at that cost. */
  lemma RelaxedFacts(grid: Grid, h: Estimate, goal: Option<Cell>, cur: Cell,
                     paths: CostMap, open: seq<Entry>, changes: seq<Event>,
                     paths': CostMap, open': seq<Entry>, changes': seq<Event>)
    requires WellShaped(grid) && cur in paths
    requires Relaxed(grid, h, goal, cur, paths, open, changes, paths', open', changes')
    ensures var g := paths[cur].cost + 1;
            var imp := Improved(paths, g, GetNeighbors(grid, cur));
            && RelaxedBy(h, goal, cur, g, imp, paths, open, changes, paths', open', changes')
            && cur !in imp
            && (forall c :: c in imp ==> Adjacent(grid, cur, c) && (c !in paths || g < paths[c].cost))
            && (forall n :: Adjacent(grid, cur, n) ==> n in paths' && paths'[n].cost <= g)
  {
  }

  /** Expansion keeps the shape of the state, and only ever lowers recorded costs. */
  lemma ExpandKeepsShape(grid: Grid, h: Estimate, s: Cell, goal: Option<Cell>,
                         open: seq<Entry>, closed: set<Cell>, paths: CostMap, changes: seq<Event>,
                         e: Entry, rest: seq<Entry>,
                         paths': CostMap, open': seq<Entry>, changes': seq<Event>)
    requires WellShaped(grid)
    requires ExpandStep(grid, h, s, goal, open, closed, paths, changes, e, rest, paths', open', changes')
    ensures Shape(grid, s, open', closed + {e.cell}, paths')
    ensures forall c :: c in paths ==> c in paths' && paths'[c].cost <= paths[c].cost
  {
    var cur := e.cell;
    var g := paths[cur].cost + 1;
    var imp := Improved(paths, g, GetNeighbors(grid, cur));
    var changes1 := changes + [Event(cur, ClosedSet)];
    RelaxedFacts(grid, h, goal, cur, paths, rest, changes1, paths', open', changes');
    RemovedOne(open, e, rest);
    RelaxKeepsShape(grid, h, s, goal, cur, g, imp, closed, paths, rest, changes1, paths', open', changes');
  }

  /** Expansion keeps the lazy-deletion frontier invariant. */
  lemma ExpandKeepsFrontier(grid: Grid, h: Estimate, s: Cell, goal: Option<Cell>,
                            open: seq<Entry>, closed: set<Cell>, paths: CostMap, changes: seq<Event>,
                            e: Entry, rest: seq<Entry>,
                            paths': CostMap, open': seq<Entry>, changes': seq<Event>)
    requires WellShaped(grid)
    requires ExpandStep(grid, h, s, goal, open, closed, paths, changes, e, rest, paths', open', changes')
    requires Shape(grid, s, open', closed + {e.cell}, paths')
    requires forall c :: c in paths ==> c in paths' && paths'[c].cost <= paths[c].cost
    ensures FrontierOk(h, goal, open', closed + {e.cell}, paths')
  {
    var cur := e.cell;
    var g := paths[cur].cost + 1;
    var imp := Improved(paths, g, GetNeighbors(grid, cur));
    var changes1 := changes + [Event(cur, ClosedSet)];
    RelaxedFacts(grid, h, goal, cur, paths, rest, changes1, paths', open', changes');
    RelaxKeepsFrontier(h, s, goal, cur, g, imp, open, closed, paths, e, rest, changes1, paths', open', changes');
  }

  /** Expansion keeps the trace, the expanded set and the first-iteration facts right. */
  lemma ExpandKeepsTrace(grid: Grid, h: Estimate, s: Cell, goal: Option<Cell>,
                         open: seq<Entry>, closed: set<Cell>, paths: CostMap, changes: seq<Event>,
                         e: Entry, rest: seq<Entry>,
                         paths': CostMap, open': seq<Entry>, changes': seq<Event>)
    requires WellShaped(grid)
    requires ExpandStep(grid, h, s, goal, open, closed, paths, changes, e, rest, paths', open', changes')
    requires forall c :: c in paths ==> c in paths'
    ensures Begun(s, open', closed + {e.cell}, paths', changes')
    ensures ClosedOk(grid, goal, closed + {e.cell}, paths')
    ensures TraceOk(grid, s, closed + {e.cell}, changes')
  {
    var cur := e.cell;
    var g := paths[cur].cost + 1;
    var imp := Improved(paths, g, GetNeighbors(grid, cur));
    RelaxedFacts(grid, h, goal, cur, paths, rest, changes + [Event(cur, ClosedSet)], paths', open', changes');
    assert closed == {} ==> cur == s;
    RelaxKeepsTrace(grid, s, cur, imp, closed, changes, changes');
    ClosedKept(grid, goal, cur, closed, paths, paths');
  }

  /** Expanding `cur`, which is not the goal, after which all its neighbours are
      recorded, keeps `ClosedOk`. */
  lemma ClosedKept(grid: Grid, goal: Option<Cell>, cur: Cell, closed: set<Cell>, paths: CostMap, paths': CostMap)
    requires WellShaped(grid)
    requires ClosedOk(grid, goal, closed, paths)
    requires goal != Some(cur)
    requires forall c :: c in paths ==> c in paths'
    requires forall n :: Adjacent(grid, cur, n) ==> n in paths'
    ensures ClosedOk(grid, goal, closed + {cur}, paths')
  {
  }

  /** Expanding a cell of the finite universe that was not expanded before leaves
      fewer unexpanded cells. */
  lemma FewerUnexpanded(universe: set<Cell>, closed: set<Cell>, c: Cell)
    requires c in universe && c !in closed
    ensures |universe - (closed + {c})| < |universe - closed|
  {
    assert universe - closed == (universe - (closed + {c})) + {c};
  }

  /** With a consistent heuristic, expansion keeps the expanded costs optimal. */
  lemma ExpandKeepsOptimal(grid: Grid, h: Estimate, s: Cell, goal: Option<Cell>,
                           open: seq<Entry>, closed: set<Cell>, paths: CostMap, changes: seq<Event>,
                           e: Entry, rest: seq<Entry>,
                           paths': CostMap, open': seq<Entry>, changes': seq<Event>)
    requires WellShaped(grid) && Consistent(grid, h, goal)
    requires ExpandStep(grid, h, s, goal, open, closed, paths, changes, e, rest, paths', open', changes')
    ensures closed + {e.cell} <= paths'.Keys
    ensures forall x, y :: x in closed + {e.cell} && Adjacent(grid, x, y) ==> y in paths'
    ensures Optimal(grid, s, closed + {e.cell}, paths')
  {
    var cur := e.cell;
    var g := paths[cur].cost + 1;
    var imp := Improved(paths, g, GetNeighbors(grid, cur));
    RelaxedFacts(grid, h, goal, cur, paths, rest, changes + [Event(cur, ClosedSet)], paths', open', changes');
    forall w | WalkFrom(grid, w, s, cur) ensures paths[cur].cost <= |w| - 1 {
      PoppedIsOptimal(grid, h, s, goal, open, closed, paths, e, w);
    }
    RelaxKeepsOptimal(grid, s, cur, g, imp, closed, paths, paths');
  }

  /** Expanding the cell of a least entry keeps the invariant, and closes one more of
      the finitely many cells. */
  lemma ExpandKeepsInv(grid: Grid, h: Estimate, s: Cell, goal: Option<Cell>,
                       open: seq<Entry>, closed: set<Cell>, paths: CostMap, changes: seq<Event>,
                       e: Entry, rest: seq<Entry>,
                       paths': CostMap, open': seq<Entry>, changes': seq<Event>)
    requires WellShaped(grid)
    requires ExpandStep(grid, h, s, goal, open, closed, paths, changes, e, rest, paths', open', changes')
    ensures Inv(grid, h, s, goal, open', closed + {e.cell}, paths', changes')
    ensures |Universe(grid, s) - (closed + {e.cell})| < |Universe(grid, s) - closed|
  {
    FewerUnexpanded(Universe(grid, s), closed, e.cell);
    ExpandKeepsShape(grid, h, s, goal, open, closed, paths, changes, e, rest, paths', open', changes');
    ExpandKeepsFrontier(grid, h, s, goal, open, closed, paths, changes, e, rest, paths', open', changes');
    ExpandKeepsTrace(grid, h, s, goal, open, closed, paths, changes, e, rest, paths', open', changes');
    if Consistent(grid, h, goal) {
      ExpandKeepsOptimal(grid, h, s, goal, open, closed, paths, changes, e, rest, paths', open', changes');
    }
  }

}
