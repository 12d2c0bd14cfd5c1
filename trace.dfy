/**
 * The exploration trace (`changes`): an append-only list of (cell, phase) events,
 * emitted for display only and never read by the search.
 */
module Trace {
  import opened Grid

  /** 'closed_set': the cell was expanded; 'open_set': the cell was pushed with a better cost. */
  datatype Phase = ClosedSet | OpenSet

  datatype Event = Event(cell: Cell, phase: Phase)

  /** No cell has two 'closed_set' events: each cell is expanded at most once. */
  ghost predicate ClosedOnce(trace: seq<Event>) {
    forall i, j :: 0 <= i < j < |trace| && trace[i].phase == ClosedSet ==> trace[j] != trace[i]
  }

  /** The 'open_set' events for `cells`, in order. */
  function Opened(cells: seq<Cell>): (r: seq<Event>)
    ensures |r| == |cells|
  {
    if cells == [] then [] else Opened(cells[..|cells| - 1]) + [Event(cells[|cells| - 1], OpenSet)]
  }

  /** The k-th event opens the k-th cell. */
  lemma {:induction false} OpenedAt(cells: seq<Cell>)
    ensures forall k :: 0 <= k < |cells| ==> Opened(cells)[k] == Event(cells[k], OpenSet)
  {
    if cells != [] {
      var front := cells[..|cells| - 1];
      OpenedAt(front);
      forall k | 0 <= k < |front| ensures cells[k] == front[k] { }
    }
  }

}
