/** One generation as a function: the row-major sweep of `updateSimulation`
    over the two buffers, followed by the swap. */
module Sweep {
  import opened Cells
  import opened Neighbors
  import opened Behaviors

  /** Every cell from (x, y) on, in sweep order, that is alive in `grid` still
      holds the same species in `nextGrid`: nothing has written it yet, since
      writes to other cells only ever land on Empty ones. */
  ghost predicate Intact(b: Buffers, w: nat, h: nat, y: int, x: int)
    requires WellShaped(b, w, h)
  {
    forall j, i :: InBounds(w, h, i, j) && (j > y || (j == y && i >= x)) && b.grid[j][i].kind != Empty ==>
      b.next[j][i].kind == b.grid[j][i].kind
  }

  lemma VisitKeepsIntact(r: Rules, b: Buffers, w: nat, h: nat, x: int, y: int, d: Draw)
    requires WellShaped(b, w, h) && InBounds(w, h, x, y) && ValidDraw(d)
    requires Intact(b, w, h, y, x)
    ensures Intact(Visit(r, b, w, h, x, y, d), w, h, y, x + 1)
  {
    var b' := Visit(r, b, w, h, x, y, d);
    forall j, i | InBounds(w, h, i, j) && (j > y || (j == y && i >= x + 1)) && b'.grid[j][i].kind != Empty
      ensures b'.next[j][i].kind == b'.grid[j][i].kind
    {
      assert b.grid[j][i].kind == b'.grid[j][i].kind;
      assert b.next[j][i].kind != Empty;
    }
  }

  /** Past the end of row y, what is left to visit starts at row y + 1. */
  lemma IntactNextRow(b: Buffers, w: nat, h: nat, y: int)
    requires WellShaped(b, w, h) && Intact(b, w, h, y, w)
    ensures Intact(b, w, h, y + 1, 0)
  {
  }

  /** One visit extends what the sweep so far has kept: the species of `grid`
      relative to the sweep's start `b`, and the Empty-cell invariant. */
  lemma VisitKeeps(r: Rules, b: Buffers, b1: Buffers, w: nat, h: nat, x: int, y: int, d: Draw)
    requires WellShaped(b1, w, h) && InBounds(w, h, x, y) && ValidDraw(d)
    requires Intact(b1, w, h, y, x)
    requires SameKinds(b.grid, b1.grid)
    requires Clean(b.grid) ==> Clean(b1.grid)
    requires Clean(b.next) ==> Clean(b1.next)
    ensures var b2 := Visit(r, b1, w, h, x, y, d);
      && SameKinds(b.grid, b2.grid)
      && (Clean(b.grid) ==> Clean(b2.grid))
      && (Clean(b.next) ==> Clean(b2.next))
  {
    var b2 := Visit(r, b1, w, h, x, y, d);
    SameKindsTrans(b.grid, b1.grid, b2.grid);
  }

  /** The inner loop: the buffers after visiting cells 0..x-1 of row y. */
  function SweepRow(r: Rules, b: Buffers, w: nat, h: nat, draws: seq<seq<Draw>>, y: int, x: int): (b': Buffers)
    requires WellShaped(b, w, h) && 0 <= y < h && 0 <= x <= w && DrawsFor(draws, w, h)
    ensures WellShaped(b', w, h)
    decreases x, 0
  {
    if x == 0 then b else SweepStep(r, b, w, h, draws, y, x - 1)
  }

  /** The buffers after visiting cells 0..x of row y. `SweepStep` and `VisitAt`
      are two members of the recursion so that unfolding the loop a couple of
      times does not yet expose the body of `Visit`. */
  function SweepStep(r: Rules, b: Buffers, w: nat, h: nat, draws: seq<seq<Draw>>, y: int, x: int): (b': Buffers)
    requires WellShaped(b, w, h) && 0 <= y < h && 0 <= x < w && DrawsFor(draws, w, h)
    ensures WellShaped(b', w, h)
    decreases x, 2
  {
    VisitAt(r, b, w, h, draws, y, x)
  }

  /** The visit of cell (x, y), with its own draws, on the buffers the row has reached. */
  function VisitAt(r: Rules, b: Buffers, w: nat, h: nat, draws: seq<seq<Draw>>, y: int, x: int): (b': Buffers)
    requires WellShaped(b, w, h) && 0 <= y < h && 0 <= x < w && DrawsFor(draws, w, h)
    ensures WellShaped(b', w, h)
    decreases x, 1
  {
    Visit(r, SweepRow(r, b, w, h, draws, y, x), w, h, x, y, draws[y][x])
  }

  /** What the first x visits of row y keep, relative to where the row started:
      the cells still to be visited are intact, no species in `grid` changes,
      and the Empty-cell invariant holds of both buffers. */
  lemma {:induction false} SweepRowKeeps(r: Rules, b: Buffers, w: nat, h: nat, draws: seq<seq<Draw>>, y: int, x: int)
    requires WellShaped(b, w, h) && 0 <= y < h && 0 <= x <= w && DrawsFor(draws, w, h)
    requires Intact(b, w, h, y, 0)
    ensures var b' := SweepRow(r, b, w, h, draws, y, x);
      && Intact(b', w, h, y, x)
      && SameKinds(b.grid, b'.grid)
      && (Clean(b.grid) ==> Clean(b'.grid))
      && (Clean(b.next) ==> Clean(b'.next))
    decreases x, 0
  {
    if x > 0 {
      SweepStepKeeps(r, b, w, h, draws, y, x - 1);
    }
  }

  lemma {:induction false} SweepStepKeeps(r: Rules, b: Buffers, w: nat, h: nat, draws: seq<seq<Draw>>, y: int, x: int)
    requires WellShaped(b, w, h) && 0 <= y < h && 0 <= x < w && DrawsFor(draws, w, h)
    requires Intact(b, w, h, y, 0)
    ensures var b' := SweepStep(r, b, w, h, draws, y, x);
      && Intact(b', w, h, y, x + 1)
      && SameKinds(b.grid, b'.grid)
      && (Clean(b.grid) ==> Clean(b'.grid))
      && (Clean(b.next) ==> Clean(b'.next))
    decreases x, 1
  {
    SweepRowKeeps(r, b, w, h, draws, y, x);
    var b0 := SweepRow(r, b, w, h, draws, y, x);
    VisitKeepsIntact(r, b0, w, h, x, y, draws[y][x]);
    VisitKeeps(r, b, b0, w, h, x, y, draws[y][x]);
  }

  /** The outer loop: the buffers after visiting rows 0..y-1. */
  function SweepRows(r: Rules, b0: Buffers, w: nat, h: nat, draws: seq<seq<Draw>>, y: int): (b': Buffers)
    requires WellShaped(b0, w, h) && 0 <= y <= h && DrawsFor(draws, w, h)
    ensures WellShaped(b', w, h)
    decreases y
  {
    if y == 0 then b0
    else SweepRow(r, SweepRows(r, b0, w, h, draws, y - 1), w, h, draws, y - 1, w)
  }

  /** After the first y rows, the cells still to be visited are intact. */
  lemma {:induction false} SweepRowsIntact(r: Rules, b0: Buffers, w: nat, h: nat, draws: seq<seq<Draw>>, y: int)
    requires WellShaped(b0, w, h) && 0 <= y <= h && DrawsFor(draws, w, h)
    requires Intact(b0, w, h, 0, 0)
    ensures Intact(SweepRows(r, b0, w, h, draws, y), w, h, y, 0)
    decreases y
  {
    if y > 0 {
      SweepRowsIntact(r, b0, w, h, draws, y - 1);
      var b1 := SweepRows(r, b0, w, h, draws, y - 1);
      SweepRowKeeps(r, b1, w, h, draws, y - 1, w);
      IntactNextRow(SweepRow(r, b1, w, h, draws, y - 1, w), w, h, y - 1);
    }
  }

  /** No species in `grid` changes during the first y rows of the sweep. */
  lemma {:induction false} SweepRowsKinds(r: Rules, b0: Buffers, w: nat, h: nat, draws: seq<seq<Draw>>, y: int)
    requires WellShaped(b0, w, h) && 0 <= y <= h && DrawsFor(draws, w, h)
    requires Intact(b0, w, h, 0, 0)
    ensures SameKinds(b0.grid, SweepRows(r, b0, w, h, draws, y).grid)
    decreases y
  {
    if y > 0 {
      SweepRowsKinds(r, b0, w, h, draws, y - 1);
      SweepRowsIntact(r, b0, w, h, draws, y - 1);
      var b1 := SweepRows(r, b0, w, h, draws, y - 1);
      SweepRowKeeps(r, b1, w, h, draws, y - 1, w);
      SameKindsTrans(b0.grid, b1.grid, SweepRow(r, b1, w, h, draws, y - 1, w).grid);
    }
  }

  /** The first y rows of the sweep keep the Empty-cell invariant of both buffers. */
  lemma {:induction false} SweepRowsClean(r: Rules, b0: Buffers, w: nat, h: nat, draws: seq<seq<Draw>>, y: int)
    requires WellShaped(b0, w, h) && 0 <= y <= h && DrawsFor(draws, w, h)
    requires Intact(b0, w, h, 0, 0)
    ensures var b' := SweepRows(r, b0, w, h, draws, y);
      && (Clean(b0.grid) ==> Clean(b'.grid))
      && (Clean(b0.next) ==> Clean(b'.next))
    decreases y
  {
    if y > 0 {
      SweepRowsClean(r, b0, w, h, draws, y - 1);
      SweepRowsIntact(r, b0, w, h, draws, y - 1);
      SweepRowKeeps(r, SweepRows(r, b0, w, h, draws, y - 1), w, h, draws, y - 1, w);
    }
  }

  /** `updateSimulation` when not paused: copy `grid` into `nextGrid`, sweep,
      swap. The result's `grid` is the new generation. */
  function Generation(r: Rules, g: Grid, w: nat, h: nat, draws: seq<seq<Draw>>): (b': Buffers)
    requires IsGrid(g, w, h) && DrawsFor(draws, w, h)
    ensures WellShaped(b', w, h)
    ensures SameKinds(g, b'.next)
    ensures Clean(g) ==> Clean(b'.grid) && Clean(b'.next)
  {
    var s := SweepRows(r, Buffers(g, g), w, h, draws, h);
    SweepRowsKinds(r, Buffers(g, g), w, h, draws, h);
    SweepRowsClean(r, Buffers(g, g), w, h, draws, h);
    Buffers(s.next, s.grid)
  }

  /** No species in `grid` changes during the sweep, so every neighbor count
      read at any point of it equals the count on the generation's starting
      grid: the count-based decisions (birth, survival, prey, crowding,
      growth) do not depend on the sweep order. Where offspring land does:
      reproduction and spreading only fill a target still Empty in
      `nextGrid`, and a birth overwrites its cell. */
  lemma SnapshotCounts(r: Rules, g: Grid, w: nat, h: nat, draws: seq<seq<Draw>>, y: int, x: int, i: int, j: int)
    requires IsGrid(g, w, h) && DrawsFor(draws, w, h) && 0 <= y < h && 0 <= x <= w
    ensures var b := SweepRow(r, SweepRows(r, Buffers(g, g), w, h, draws, y), w, h, draws, y, x);
      && SameKinds(g, b.grid)
      && SameCounts(CountNeighbors(b.grid, w, h, i, j), CountNeighbors(g, w, h, i, j))
  {
    var b1 := SweepRows(r, Buffers(g, g), w, h, draws, y);
    SweepRowsKinds(r, Buffers(g, g), w, h, draws, y);
    SweepRowsIntact(r, Buffers(g, g), w, h, draws, y);
    var b := SweepRow(r, b1, w, h, draws, y, x);
    SweepRowKeeps(r, b1, w, h, draws, y, x);
    SameKindsTrans(g, b1.grid, b.grid);
    CountsSeeOnlyKinds(b.grid, g, w, h, i, j);
  }
}
