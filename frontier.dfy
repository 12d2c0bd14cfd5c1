/**
 * The frontier (`open_set`). The source keeps a binary heap of (priority, cell)
 * tuples; here it is a sequence used as a multiset, and `heappop` is an
 * extract-min under the order that tuple comparison gives: priority first, then
 * row, then column. Stale duplicates of a cell stay in the frontier.
 */
module Frontier {
  import opened Grid

  /** A frontier entry: priority `f` and the cell it was pushed for. */
  datatype Entry = Entry(f: int, cell: Cell)

  /** Lexicographic order on cells, as Python compares (row, col) tuples. */
  predicate CellLt(a: Cell, b: Cell) {
    a.row < b.row || (a.row == b.row && a.col < b.col)
  }

  /** Lexicographic order on entries, as Python compares (f, (row, col)) tuples. */
  predicate EntryLe(a: Entry, b: Entry) {
    a.f < b.f || (a.f == b.f && (a.cell == b.cell || CellLt(a.cell, b.cell)))
  }

  /** `e` is a least entry of the frontier. */
  ghost predicate Least(e: Entry, open: seq<Entry>) {
    e in open && forall x :: x in open ==> EntryLe(e, x)
  }

  /** The order on entries is total and antisymmetric, so the least entry of a
      frontier depends only on its multiset of entries and not on heap layout. */
  lemma LeastIsUnique(open: seq<Entry>, a: Entry, b: Entry)
    requires Least(a, open) && Least(b, open)
    ensures a == b
  {
    assert EntryLe(a, b) && EntryLe(b, a);
  }

  /** After removing one copy of `e`, the other entries are still there. */
  lemma RemovedOne(open: seq<Entry>, e: Entry, rest: seq<Entry>)
    requires multiset(rest) + multiset{e} == multiset(open)
    ensures forall x :: x in rest ==> x in open
    ensures forall x :: x in open && x != e ==> x in rest
    ensures |rest| == |open| - 1
  {
    forall x | x in rest ensures x in open {
      assert x in multiset(rest);
      assert x in multiset(open);
    }
    forall x | x in open && x != e ensures x in rest {
      assert x in multiset(open);
    }
  }

  /** Removes and returns a least entry of a non-empty frontier (`heapq.heappop`). */
  method PopMin(open: seq<Entry>) returns (e: Entry, rest: seq<Entry>)
    requires open != []
    ensures Least(e, open)
    ensures multiset(rest) + multiset{e} == multiset(open)
  {
    var k := 0;
    var i := 1;
    while i < |open|
      invariant 0 <= k < i <= |open|
      invariant forall j :: 0 <= j < i ==> EntryLe(open[k], open[j])
    {
      if !EntryLe(open[k], open[i]) {
        k := i;
      }
      i := i + 1;
    }
    e := open[k];
    rest := open[..k] + open[k + 1..];
    assert open == open[..k] + [e] + open[k + 1..];
  }

}
