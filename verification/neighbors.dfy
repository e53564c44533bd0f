/** `countNeighbors`: the per-type table of the up-to-eight cells around a
    coordinate, read from `grid` only. */
module Neighbors {
  import opened Cells

  /** One entry of the table: `{ count, totalEnergy }`. */
  datatype Entry = Entry(count: nat, totalEnergy: real)

  /** The table, indexed by species id 0..4. */
  type Tally = t: seq<Entry> | |t| == 5
    witness [Entry(0, 0.0), Entry(0, 0.0), Entry(0, 0.0), Entry(0, 0.0), Entry(0, 0.0)]

  const ZeroTally: Tally := [Entry(0, 0.0), Entry(0, 0.0), Entry(0, 0.0), Entry(0, 0.0), Entry(0, 0.0)]

  function Count(t: Tally, s: Species): nat {
    t[Id(s)].count
  }

  /** Live neighbors: the counts of every type but Empty. */
  function Live(t: Tally): nat {
    t[1].count + t[2].count + t[3].count + t[4].count
  }

  /** All neighbors that were looked at, Empty ones included. */
  function Total(t: Tally): nat {
    t[0].count + Live(t)
  }

  predicate SameCounts(t1: Tally, t2: Tally) {
    forall k :: 0 <= k < 5 ==> t1[k].count == t2[k].count
  }

  /** Record one neighbor in the table. */
  function Add(t: Tally, c: Cell): Tally {
    var k := Id(c.kind);
    t[k := Entry(t[k].count + 1, t[k].totalEnergy + c.energy)]
  }

  /** One iteration of the inner loop body: skip the centre and every
      coordinate outside the grid. */
  function ScanCell(g: Grid, w: nat, h: nat, x: int, y: int, dx: int, dy: int, t: Tally): Tally
    requires IsGrid(g, w, h)
  {
    if dx == 0 && dy == 0 then t
    else if InBounds(w, h, x + dx, y + dy) then Add(t, g[y + dy][x + dx])
    else t
  }

  /** The inner loop, `dx` from its current value up to 1. */
  function ScanRow(g: Grid, w: nat, h: nat, x: int, y: int, dy: int, dx: int, t: Tally): Tally
    requires IsGrid(g, w, h) && -1 <= dx <= 2
    decreases 2 - dx
  {
    if dx == 2 then t
    else ScanRow(g, w, h, x, y, dy, dx + 1, ScanCell(g, w, h, x, y, dx, dy, t))
  }

  /** The outer loop, `dy` from its current value up to 1. */
  function ScanRows(g: Grid, w: nat, h: nat, x: int, y: int, dy: int, t: Tally): Tally
    requires IsGrid(g, w, h) && -1 <= dy <= 2
    decreases 2 - dy
  {
    if dy == 2 then t
    else ScanRows(g, w, h, x, y, dy + 1, ScanRow(g, w, h, x, y, dy, -1, t))
  }

  /** The table of the cells around (x, y): at an in-grid coordinate it has
      looked at Span(x) * Span(y) - 1 cells, the 3 x 3 block clipped to the
      grid, less the centre. */
  function CountNeighbors(g: Grid, w: nat, h: nat, x: int, y: int): (t: Tally)
    requires IsGrid(g, w, h)
    ensures InBounds(w, h, x, y) ==> Total(t) == Span(x, w) * Span(y, h) - 1
  {
    var t1 := ScanRow(g, w, h, x, y, -1, -1, ZeroTally);
    var t2 := ScanRow(g, w, h, x, y, 0, -1, t1);
    var t3 := ScanRow(g, w, h, x, y, 1, -1, t2);
    assert ScanRows(g, w, h, x, y, 1, t2) == t3;
    assert ScanRows(g, w, h, x, y, 0, t1) == t3;
    if InBounds(w, h, x, y) then
      ScanRowTotal(g, w, h, x, y, -1, ZeroTally);
      ScanRowTotal(g, w, h, x, y, 0, t1);
      ScanRowTotal(g, w, h, x, y, 1, t2);
      BlockSize(w, h, x, y);
      ScanRows(g, w, h, x, y, -1, ZeroTally)
    else
      ScanRows(g, w, h, x, y, -1, ZeroTally)
  }

  // ---------------------------------------------------------------------------
  // What the scan reads.

  /** g1 and g2 hold the same cells around (x, y), the centre aside. */
  ghost predicate AgreeAround(g1: Grid, g2: Grid, w: nat, h: nat, x: int, y: int)
    requires IsGrid(g1, w, h) && IsGrid(g2, w, h)
  {
    forall i, j :: InBounds(w, h, i, j) && Adjacent(x, y, i, j) ==> g1[j][i] == g2[j][i]
  }

  /** g1 and g2 hold the same species around (x, y), the centre aside. */
  ghost predicate KindsAgreeAround(g1: Grid, g2: Grid, w: nat, h: nat, x: int, y: int)
    requires IsGrid(g1, w, h) && IsGrid(g2, w, h)
  {
    forall i, j :: InBounds(w, h, i, j) && Adjacent(x, y, i, j) ==> g1[j][i].kind == g2[j][i].kind
  }

  lemma {:induction false} ScanRowAgree(g1: Grid, g2: Grid, w: nat, h: nat, x: int, y: int, dy: int, dx: int, t: Tally)
    requires IsGrid(g1, w, h) && IsGrid(g2, w, h) && -1 <= dx <= 2 && -1 <= dy <= 1
    requires AgreeAround(g1, g2, w, h, x, y)
    ensures ScanRow(g1, w, h, x, y, dy, dx, t) == ScanRow(g2, w, h, x, y, dy, dx, t)
    decreases 2 - dx
  {
    if dx < 2 {
      var t' := ScanCell(g1, w, h, x, y, dx, dy, t);
      if (dx != 0 || dy != 0) && InBounds(w, h, x + dx, y + dy) {
        assert Adjacent(x, y, x + dx, y + dy);
      }
      assert t' == ScanCell(g2, w, h, x, y, dx, dy, t);
      ScanRowAgree(g1, g2, w, h, x, y, dy, dx + 1, t');
    }
  }

  lemma {:induction false} ScanRowsAgree(g1: Grid, g2: Grid, w: nat, h: nat, x: int, y: int, dy: int, t: Tally)
    requires IsGrid(g1, w, h) && IsGrid(g2, w, h) && -1 <= dy <= 2
    requires AgreeAround(g1, g2, w, h, x, y)
    ensures ScanRows(g1, w, h, x, y, dy, t) == ScanRows(g2, w, h, x, y, dy, t)
    decreases 2 - dy
  {
    if dy < 2 {
      ScanRowAgree(g1, g2, w, h, x, y, dy, -1, t);
      ScanRowsAgree(g1, g2, w, h, x, y, dy + 1, ScanRow(g1, w, h, x, y, dy, -1, t));
    }
  }

  /** The table depends on the eight surrounding cells only: neither the centre
      nor anything outside the grid is read. */
  lemma ReadsOnlyNeighbors(g1: Grid, g2: Grid, w: nat, h: nat, x: int, y: int)
    requires IsGrid(g1, w, h) && IsGrid(g2, w, h)
    requires AgreeAround(g1, g2, w, h, x, y)
    ensures CountNeighbors(g1, w, h, x, y) == CountNeighbors(g2, w, h, x, y)
  {
    ScanRowsAgree(g1, g2, w, h, x, y, -1, ZeroTally);
  }

  lemma {:induction false} ScanRowKinds(g1: Grid, g2: Grid, w: nat, h: nat, x: int, y: int, dy: int, dx: int, t1: Tally, t2: Tally)
    requires IsGrid(g1, w, h) && IsGrid(g2, w, h) && -1 <= dx <= 2 && -1 <= dy <= 1
    requires KindsAgreeAround(g1, g2, w, h, x, y) && SameCounts(t1, t2)
    ensures SameCounts(ScanRow(g1, w, h, x, y, dy, dx, t1), ScanRow(g2, w, h, x, y, dy, dx, t2))
    decreases 2 - dx
  {
    if dx < 2 {
      if (dx != 0 || dy != 0) && InBounds(w, h, x + dx, y + dy) {
        assert Adjacent(x, y, x + dx, y + dy);
      }
      ScanRowKinds(g1, g2, w, h, x, y, dy, dx + 1,
                   ScanCell(g1, w, h, x, y, dx, dy, t1), ScanCell(g2, w, h, x, y, dx, dy, t2));
    }
  }

  lemma {:induction false} ScanRowsKinds(g1: Grid, g2: Grid, w: nat, h: nat, x: int, y: int, dy: int, t1: Tally, t2: Tally)
    requires IsGrid(g1, w, h) && IsGrid(g2, w, h) && -1 <= dy <= 2
    requires KindsAgreeAround(g1, g2, w, h, x, y) && SameCounts(t1, t2)
    ensures SameCounts(ScanRows(g1, w, h, x, y, dy, t1), ScanRows(g2, w, h, x, y, dy, t2))
    decreases 2 - dy
  {
    if dy < 2 {
      ScanRowKinds(g1, g2, w, h, x, y, dy, -1, t1, t2);
      ScanRowsKinds(g1, g2, w, h, x, y, dy + 1,
                    ScanRow(g1, w, h, x, y, dy, -1, t1), ScanRow(g2, w, h, x, y, dy, -1, t2));
    }
  }

  /** The counts see only the species of the surrounding cells; energies and
      ages, which the sweep mutates in place, affect the energy sums alone. */
  lemma CountsSeeOnlyKinds(g1: Grid, g2: Grid, w: nat, h: nat, x: int, y: int)
    requires IsGrid(g1, w, h) && IsGrid(g2, w, h)
    requires KindsAgreeAround(g1, g2, w, h, x, y)
    ensures SameCounts(CountNeighbors(g1, w, h, x, y), CountNeighbors(g2, w, h, x, y))
  {
    ScanRowsKinds(g1, g2, w, h, x, y, -1, ZeroTally, ZeroTally);
  }

  // ---------------------------------------------------------------------------
  // What the scan counts.

  /** 1 when (i, j) is inside the grid and holds a cell of species s. */
  function Hit(g: Grid, w: nat, h: nat, i: int, j: int, s: Species): nat
    requires IsGrid(g, w, h)
  {
    if InBounds(w, h, i, j) && g[j][i].kind == s then 1 else 0
  }

  /** The number of the eight cells adjacent to (x, y), as far as they lie
      inside the grid, that hold species s. */
  function KindAround(g: Grid, w: nat, h: nat, x: int, y: int, s: Species): nat
    requires IsGrid(g, w, h)
  {
    Hit(g, w, h, x - 1, y - 1, s) + Hit(g, w, h, x, y - 1, s) + Hit(g, w, h, x + 1, y - 1, s)
    + Hit(g, w, h, x - 1, y, s) + Hit(g, w, h, x + 1, y, s)
    + Hit(g, w, h, x - 1, y + 1, s) + Hit(g, w, h, x, y + 1, s) + Hit(g, w, h, x + 1, y + 1, s)
  }

  lemma AddCount(t: Tally, c: Cell, s: Species)
    ensures Count(Add(t, c), s) == Count(t, s) + (if c.kind == s then 1 else 0)
  {
  }

  lemma ScanCellCount(g: Grid, w: nat, h: nat, x: int, y: int, dx: int, dy: int, t: Tally, s: Species)
    requires IsGrid(g, w, h)
    ensures Count(ScanCell(g, w, h, x, y, dx, dy, t), s)
         == Count(t, s) + (if dx == 0 && dy == 0 then 0 else Hit(g, w, h, x + dx, y + dy, s))
  {
    if (dx != 0 || dy != 0) && InBounds(w, h, x + dx, y + dy) {
      AddCount(t, g[y + dy][x + dx], s);
    }
  }

  /** One pass of the inner loop counts the cells of species s in row j = y + dy,
      the centre aside. */
  lemma ScanRowCount(g: Grid, w: nat, h: nat, x: int, y: int, dy: int, j: int, t: Tally, s: Species)
    requires IsGrid(g, w, h) && j == y + dy
    ensures Count(ScanRow(g, w, h, x, y, dy, -1, t), s)
         == Count(t, s) + Hit(g, w, h, x - 1, j, s)
            + (if dy == 0 then 0 else Hit(g, w, h, x, j, s)) + Hit(g, w, h, x + 1, j, s)
  {
    var t1 := ScanCell(g, w, h, x, y, -1, dy, t);
    var t2 := ScanCell(g, w, h, x, y, 0, dy, t1);
    var t3 := ScanCell(g, w, h, x, y, 1, dy, t2);
    ScanCellCount(g, w, h, x, y, -1, dy, t, s);
    ScanCellCount(g, w, h, x, y, 0, dy, t1, s);
    ScanCellCount(g, w, h, x, y, 1, dy, t2, s);
    assert ScanRow(g, w, h, x, y, dy, 1, t2) == t3;
    assert ScanRow(g, w, h, x, y, dy, 0, t1) == t3;
  }

  /** The scan is the inner loop run for the rows y - 1, y and y + 1. */
  lemma ThreeRows(g: Grid, w: nat, h: nat, x: int, y: int)
    requires IsGrid(g, w, h)
    ensures var t1 := ScanRow(g, w, h, x, y, -1, -1, ZeroTally);
            var t2 := ScanRow(g, w, h, x, y, 0, -1, t1);
      CountNeighbors(g, w, h, x, y) == ScanRow(g, w, h, x, y, 1, -1, t2)
  {
    var t1 := ScanRow(g, w, h, x, y, -1, -1, ZeroTally);
    var t2 := ScanRow(g, w, h, x, y, 0, -1, t1);
    var t3 := ScanRow(g, w, h, x, y, 1, -1, t2);
    assert ScanRows(g, w, h, x, y, 1, t2) == t3;
    assert ScanRows(g, w, h, x, y, 0, t1) == t3;
  }

  lemma ScanCounts(g: Grid, w: nat, h: nat, x: int, y: int, s: Species)
    requires IsGrid(g, w, h)
    ensures var t1 := ScanRow(g, w, h, x, y, -1, -1, ZeroTally);
            var t2 := ScanRow(g, w, h, x, y, 0, -1, t1);
      Count(ScanRow(g, w, h, x, y, 1, -1, t2), s) == KindAround(g, w, h, x, y, s)
  {
    var t1 := ScanRow(g, w, h, x, y, -1, -1, ZeroTally);
    var t2 := ScanRow(g, w, h, x, y, 0, -1, t1);
    ScanRowCount(g, w, h, x, y, -1, y - 1, ZeroTally, s);
    ScanRowCount(g, w, h, x, y, 0, y, t1, s);
    ScanRowCount(g, w, h, x, y, 1, y + 1, t2, s);
  }

  lemma CountAround(g: Grid, w: nat, h: nat, x: int, y: int, s: Species)
    requires IsGrid(g, w, h)
    ensures Count(CountNeighbors(g, w, h, x, y), s) == KindAround(g, w, h, x, y, s)
  {
    ThreeRows(g, w, h, x, y);
    ScanCounts(g, w, h, x, y, s);
  }

  /** Each count of the table is the number of adjacent in-grid cells of that
      species, so the table is the one `countNeighbors` promises. */
  lemma CountsAround(g: Grid, w: nat, h: nat, x: int, y: int)
    requires IsGrid(g, w, h)
    ensures forall s :: Count(CountNeighbors(g, w, h, x, y), s) == KindAround(g, w, h, x, y, s)
  {
    forall s ensures Count(CountNeighbors(g, w, h, x, y), s) == KindAround(g, w, h, x, y, s) {
      CountAround(g, w, h, x, y, s);
    }
  }

  // ---------------------------------------------------------------------------
  // How many cells the scan looks at.

  /** How many of the columns (or rows) c - 1, c, c + 1 lie inside 0..n-1. */
  function Span(c: int, n: nat): nat {
    (if c > 0 then 1 else 0) + 1 + (if c + 1 < n then 1 else 0)
  }

  /** The cells the row `y + dy` contributes. */
  function RowHits(w: nat, h: nat, x: int, y: int, dy: int): int {
    if 0 <= y + dy < h then Span(x, w) - (if dy == 0 then 1 else 0) else 0
  }

  lemma AddTotal(t: Tally, c: Cell)
    ensures Total(Add(t, c)) == Total(t) + 1
  {
    var k := Id(c.kind);
    assert Add(t, c)[k].count == t[k].count + 1;
    assert forall j :: 0 <= j < 5 && j != k ==> Add(t, c)[j] == t[j];
  }

  lemma ScanCellTotal(g: Grid, w: nat, h: nat, x: int, y: int, dx: int, dy: int, t: Tally)
    requires IsGrid(g, w, h)
    ensures Total(ScanCell(g, w, h, x, y, dx, dy, t))
         == Total(t) + (if (dx != 0 || dy != 0) && InBounds(w, h, x + dx, y + dy) then 1 else 0)
  {
    if (dx != 0 || dy != 0) && InBounds(w, h, x + dx, y + dy) {
      AddTotal(t, g[y + dy][x + dx]);
    }
  }

  lemma ScanRowTotal(g: Grid, w: nat, h: nat, x: int, y: int, dy: int, t: Tally)
    requires IsGrid(g, w, h) && InBounds(w, h, x, y) && -1 <= dy <= 1
    ensures Total(ScanRow(g, w, h, x, y, dy, -1, t)) == Total(t) + RowHits(w, h, x, y, dy)
  {
    var t1 := ScanCell(g, w, h, x, y, -1, dy, t);
    var t2 := ScanCell(g, w, h, x, y, 0, dy, t1);
    var t3 := ScanCell(g, w, h, x, y, 1, dy, t2);
    ScanCellTotal(g, w, h, x, y, -1, dy, t);
    ScanCellTotal(g, w, h, x, y, 0, dy, t1);
    ScanCellTotal(g, w, h, x, y, 1, dy, t2);
    assert ScanRow(g, w, h, x, y, dy, 1, t2) == t3;
    assert ScanRow(g, w, h, x, y, dy, 0, t1) == t3;
    assert ScanRow(g, w, h, x, y, dy, -1, t) == t3;
  }

  /** The three rows of the scan together hit the clipped 3 x 3 block less the centre. */
  lemma BlockSize(w: nat, h: nat, x: int, y: int)
    requires InBounds(w, h, x, y)
    ensures RowHits(w, h, x, y, -1) + RowHits(w, h, x, y, 0) + RowHits(w, h, x, y, 1) == Span(x, w) * Span(y, h) - 1
  {
    if y > 0 && y + 1 < h {
      assert Span(y, h) == 3;
    } else if y > 0 || y + 1 < h {
      assert Span(y, h) == 2;
    } else {
      assert Span(y, h) == 1;
    }
  }

  predicate OnEdge(w: nat, h: nat, x: int, y: int) {
    x == 0 || x == w - 1 || y == 0 || y == h - 1
  }

  predicate OnCorner(w: nat, h: nat, x: int, y: int) {
    (x == 0 || x == w - 1) && (y == 0 || y == h - 1)
  }

  /** At most 8 neighbors, exactly 8 inside, at most 5 on an edge and at most
      3 on a corner; the live ones are among them. */
  lemma NeighborBounds(g: Grid, w: nat, h: nat, x: int, y: int)
    requires IsGrid(g, w, h) && InBounds(w, h, x, y)
    ensures var t := CountNeighbors(g, w, h, x, y);
      && Live(t) <= Total(t) <= 8
      && (!OnEdge(w, h, x, y) ==> Total(t) == 8)
      && (OnEdge(w, h, x, y) ==> Total(t) <= 5)
      && (OnCorner(w, h, x, y) ==> Total(t) <= 3)
  {
    var sx, sy := Span(x, w), Span(y, h);
    assert (x == 0 || x == w - 1) ==> sx <= 2;
    assert (y == 0 || y == h - 1) ==> sy <= 2;
    assert !OnEdge(w, h, x, y) ==> sx == 3 && sy == 3;
    SpanProduct(sx, sy);
  }

  lemma SpanProduct(a: nat, b: nat)
    requires 1 <= a <= 3 && 1 <= b <= 3
    ensures a * b <= 9 && (a == 3 && b == 3 ==> a * b == 9)
    ensures (a <= 2 || b <= 2) ==> a * b <= 6
    ensures (a <= 2 && b <= 2) ==> a * b <= 4
  {
    if a == 1 { assert a * b == b; }
    else if a == 2 { assert a * b == b + b; }
    else { assert a * b == b + b + b; }
  }
}
