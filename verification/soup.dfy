/** The simulation object `PrimordialSoup`: the double-buffered grid, the rule
    set, the generation counter and the clock, with the methods that change
    them. Every `Math.random()` call is a parameter. */
module Soup {
  import opened Cells
  import opened Neighbors
  import opened Behaviors
  import opened Sweep

  // ---------------------------------------------------------------------------
  // Grid construction.

  function EmptyRow(w: nat, y: int, dna: (int, int) -> Dna): (row: seq<Cell>)
    ensures |row| == w && forall i :: 0 <= i < w ==> row[i] == Dead(dna(i, y))
  {
    seq(w, i => Dead(dna(i, y)))
  }

  lemma EmptyRowSnoc(x: nat, y: int, dna: (int, int) -> Dna)
    ensures EmptyRow(x + 1, y, dna) == EmptyRow(x, y, dna) + [Dead(dna(x, y))]
  {
    assert forall i :: 0 <= i <= x ==> EmptyRow(x + 1, y, dna)[i] == (EmptyRow(x, y, dna) + [Dead(dna(x, y))])[i];
  }

  /** A `w` x `h` grid of Empty cells, each with its own marker. */
  function EmptyGrid(w: nat, h: nat, dna: (int, int) -> Dna): (g: Grid)
    ensures IsGrid(g, w, h) && Clean(g)
    ensures forall j, i :: InBounds(w, h, i, j) ==> g[j][i].kind == Empty && g[j][i].dna == dna(i, j)
  {
    seq(h, j => EmptyRow(w, j, dna))
  }

  lemma EmptyGridSnoc(w: nat, h: nat, dna: (int, int) -> Dna)
    ensures EmptyGrid(w, h + 1, dna) == EmptyGrid(w, h, dna) + [EmptyRow(w, h, dna)]
  {
    assert forall j :: 0 <= j <= h ==> EmptyGrid(w, h + 1, dna)[j] == (EmptyGrid(w, h, dna) + [EmptyRow(w, h, dna)])[j];
  }

  // ---------------------------------------------------------------------------
  // The spawn brush.

  /** The draws of `spawnCells` at one brush offset: the 50% placement test and
      the newborn's marker. */
  datatype SpawnDraw = SpawnDraw(placeRoll: real, dna: Dna)

  const Radius: int := 3

  /** The brush test: offset (dx, dy) lies within distance 3. */
  predicate InDisc(dx: int, dy: int) {
    dx * dx + dy * dy <= Radius * Radius
  }

  /** Cell (i, j) after a spawn gesture centred on (gx, gy): the brush covers
      the offsets of the 7 x 7 square that pass the distance test. */
  function Spawned(c: Cell, s: Species, gx: int, gy: int, i: int, j: int, draw: (int, int) -> SpawnDraw): (c': Cell)
    ensures (i - gx) * (i - gx) + (j - gy) * (j - gy) > Radius * Radius ==> c' == c
    ensures c' == c || c' == Cell(s, BaseEnergy(s), 0, draw(i - gx, j - gy).dna)
  {
    var dx, dy := i - gx, j - gy;
    if -Radius <= dx <= Radius && -Radius <= dy <= Radius && InDisc(dx, dy) && draw(dx, dy).placeRoll < 0.5
    then Cell(s, BaseEnergy(s), 0, draw(dx, dy).dna)
    else c
  }

  // ---------------------------------------------------------------------------
  // The majority loop of `processBirth`.

  /** The loop over the counts of types 1..4, keeping the first strictly
      greater count. */
  method MajorityType(t: Tally) returns (maxType: Species)
    ensures maxType != Empty
    ensures forall q :: q != Empty ==> Count(t, q) <= Count(t, maxType)
    ensures forall q :: q != Empty && Id(q) < Id(maxType) ==> Count(t, q) < Count(t, maxType)
    ensures maxType == Majority(t)
  {
    maxType := Basic;
    var maxCount: nat := 0;
    var k := 1;
    while k <= 4
      invariant 1 <= k <= 5
      invariant 1 <= Id(maxType) && (Id(maxType) < k || maxType == Basic)
      invariant maxCount == if k == 1 then 0 else Count(t, maxType)
      invariant forall q :: 1 <= q < k ==> t[q].count <= maxCount
      invariant forall q :: 1 <= q < Id(maxType) ==> t[q].count < maxCount
    {
      if t[k].count > maxCount {
        maxCount := t[k].count;
        maxType := SpeciesOf(k);
      }
      k := k + 1;
    }
    forall q | q != Empty
      ensures Count(t, q) <= Count(t, maxType)
    {
      assert 1 <= Id(q) < 5;
    }
  }

  // ---------------------------------------------------------------------------

  class PrimordialSoup {
    var width: nat           // gridWidth
    var height: nat          // gridHeight
    var grid: Grid
    var nextGrid: Grid
    var currentType: Species // the type the brush places
    var generation: nat
    var paused: bool
    var updateInterval: real // milliseconds between generations
    var lastUpdate: real     // timestamp of the last generation
    var rules: Rules

    /** Both buffers are `height` rows of `width` cells. */
    ghost predicate Shaped()
      reads this
    {
      IsGrid(grid, width, height) && IsGrid(nextGrid, width, height)
    }

    /** The object invariant: the shape, the Empty-cell invariant in both
        buffers, and a brush type that is alive. */
    ghost predicate Valid()
      reads this
    {
      Shaped() && Clean(grid) && Clean(nextGrid) && currentType != Empty
    }

    constructor (w: nat, h: nat, gridDna: (int, int) -> Dna, nextDna: (int, int) -> Dna)
      ensures Valid()
      ensures width == w && height == h
      ensures grid == EmptyGrid(w, h, gridDna) && nextGrid == EmptyGrid(w, h, nextDna)
      ensures currentType == Basic && generation == 0 && !paused
      ensures updateInterval == 100.0 && lastUpdate == 0.0 && rules == DefaultRules
    {
      width, height := 0, 0;
      grid, nextGrid := [], [];
      currentType := Basic;
      generation := 0;
      paused := false;
      updateInterval := 100.0;
      lastUpdate := 0.0;
      rules := DefaultRules;
      new;
      Resize(w, h, gridDna, nextDna);
    }

    /** `resize` with the new grid size given: no clamping, every cell reset. */
    method Resize(w: nat, h: nat, gridDna: (int, int) -> Dna, nextDna: (int, int) -> Dna)
      modifies this`width, this`height, this`grid, this`nextGrid
      ensures width == w && height == h
      ensures grid == EmptyGrid(w, h, gridDna) && nextGrid == EmptyGrid(w, h, nextDna)
    {
      width, height := w, h;
      InitializeGrid(gridDna, nextDna);
    }

    /** `initializeGrid`: both buffers rebuilt row by row, all cells Empty. */
    method InitializeGrid(gridDna: (int, int) -> Dna, nextDna: (int, int) -> Dna)
      modifies this`grid, this`nextGrid
      ensures grid == EmptyGrid(width, height, gridDna) && nextGrid == EmptyGrid(width, height, nextDna)
    {
      grid := [];
      nextGrid := [];
      var y := 0;
      while y < height
        invariant 0 <= y <= height
        invariant grid == EmptyGrid(width, y, gridDna) && nextGrid == EmptyGrid(width, y, nextDna)
      {
        grid := grid + [[]];
        nextGrid := nextGrid + [[]];
        var x := 0;
        while x < width
          invariant 0 <= x <= width
          invariant grid == EmptyGrid(width, y, gridDna) + [EmptyRow(x, y, gridDna)]
          invariant nextGrid == EmptyGrid(width, y, nextDna) + [EmptyRow(x, y, nextDna)]
        {
          grid := grid[y := grid[y] + [Dead(gridDna(x, y))]];
          nextGrid := nextGrid[y := nextGrid[y] + [Dead(nextDna(x, y))]];
          EmptyRowSnoc(x, y, gridDna);
          EmptyRowSnoc(x, y, nextDna);
          x := x + 1;
        }
        EmptyGridSnoc(width, y, gridDna);
        EmptyGridSnoc(width, y, nextDna);
        y := y + 1;
      }
    }

    /** `spawnCells` from a grid coordinate: every in-bounds cell of the brush
        becomes a fresh organism of `currentType` when its draw is below 0.5. */
    method SpawnCells(gx: int, gy: int, draw: (int, int) -> SpawnDraw)
      requires Valid()
      requires forall dx, dy :: Unit(draw(dx, dy).placeRoll)
      modifies this`grid
      ensures Valid()
      ensures forall j, i :: InBounds(width, height, i, j) ==>
                grid[j][i] == Spawned(old(grid)[j][i], currentType, gx, gy, i, j, draw)
    {
      var dy := -Radius;
      while dy <= Radius
        invariant -Radius <= dy <= Radius + 1
        invariant Valid()
        invariant forall j, i :: InBounds(width, height, i, j) ==>
                    grid[j][i] == if j - gy < dy then Spawned(old(grid)[j][i], currentType, gx, gy, i, j, draw)
                                  else old(grid)[j][i]
      {
        var dx := -Radius;
        while dx <= Radius
          invariant -Radius <= dx <= Radius + 1
          invariant Valid()
          invariant forall j, i :: InBounds(width, height, i, j) ==>
                      grid[j][i] == if j - gy < dy || (j - gy == dy && i - gx < dx)
                                    then Spawned(old(grid)[j][i], currentType, gx, gy, i, j, draw)
                                    else old(grid)[j][i]
        {
          if InDisc(dx, dy) {
            var nx, ny := gx + dx, gy + dy;
            if InBounds(width, height, nx, ny) && draw(dx, dy).placeRoll < 0.5 {
              grid := Set(grid, width, height, nx, ny,
                          Cell(currentType, BaseEnergy(currentType), 0, draw(dx, dy).dna));
            }
          }
          dx := dx + 1;
        }
        dy := dy + 1;
      }
    }

    /** `clearSoup`: fresh Empty buffers and the generation counter back to 0. */
    method ClearSoup(gridDna: (int, int) -> Dna, nextDna: (int, int) -> Dna)
      requires Valid()
      modifies this`grid, this`nextGrid, this`generation
      ensures Valid()
      ensures grid == EmptyGrid(width, height, gridDna) && nextGrid == EmptyGrid(width, height, nextDna)
      ensures generation == 0
    {
      InitializeGrid(gridDna, nextDna);
      generation := 0;
    }

    /** `randomizeRules`. */
    method RandomizeRules(u1: real, u2: real, u3: real, u4: real, u5: real, u6: real)
      requires Unit(u1) && Unit(u2) && Unit(u3) && Unit(u4) && Unit(u5) && Unit(u6)
      modifies this`rules
      ensures rules == RandomizedRules(u1, u2, u3, u4, u5, u6)
    {
      rules := RandomizedRules(u1, u2, u3, u4, u5, u6);
    }

    // -------------------------------------------------------------------------
    // One generation.

    /** `updateSimulation`: nothing at all when paused; otherwise copy `grid`
        into `nextGrid`, visit every cell in row-major order, swap the two
        buffers and count the generation. */
    method UpdateSimulation(draws: seq<seq<Draw>>)
      requires Valid() && DrawsFor(draws, width, height)
      modifies this`grid, this`nextGrid, this`generation
      ensures Valid()
      ensures old(paused) ==> unchanged(this)
      ensures !old(paused) ==>
                && Buffers(grid, nextGrid) == Generation(rules, old(grid), width, height, draws)
                && generation == old(generation) + 1
    {
      if paused {
        return;
      }
      ghost var g0 := grid;
      CopyToNext();
      SweepCells(draws);
      grid, nextGrid := nextGrid, grid;
      generation := generation + 1;
      assert Buffers(grid, nextGrid) == Generation(rules, g0, width, height, draws);
    }

    /** The first phase of `updateSimulation`: a cell-by-cell copy of `grid`
        into `nextGrid`. */
    method CopyToNext()
      requires Shaped()
      modifies this`nextGrid
      ensures Shaped() && nextGrid == grid
    {
      var y := 0;
      while y < height
        invariant 0 <= y <= height
        invariant IsGrid(nextGrid, width, height)
        invariant forall j :: 0 <= j < y ==> nextGrid[j] == grid[j]
      {
        var x := 0;
        while x < width
          invariant 0 <= x <= width
          invariant IsGrid(nextGrid, width, height)
          invariant forall j :: 0 <= j < y ==> nextGrid[j] == grid[j]
          invariant forall i :: 0 <= i < x ==> nextGrid[y][i] == grid[y][i]
        {
          nextGrid := Set(nextGrid, width, height, x, y, grid[y][x]);
          x := x + 1;
        }
        assert nextGrid[y] == grid[y];
        y := y + 1;
      }
    }

    /** The second phase of `updateSimulation`: every cell visited in row-major
        order; `processBirth` for an Empty cell, `processCell` otherwise. */
    method SweepCells(draws: seq<seq<Draw>>)
      requires Shaped() && nextGrid == grid && DrawsFor(draws, width, height)
      modifies this`grid, this`nextGrid
      ensures Buffers(grid, nextGrid) == SweepRows(rules, Buffers(old(grid), old(grid)), width, height, draws, height)
    {
      ghost var g0 := grid;
      var y := 0;
      while y < height
        invariant 0 <= y <= height
        invariant Buffers(grid, nextGrid) == SweepRows(rules, Buffers(g0, g0), width, height, draws, y)
      {
        SweepRowCells(y, draws, g0);
        y := y + 1;
      }
    }

    /** One row of the sweep: one more step of `SweepRows`. */
    method SweepRowCells(y: int, draws: seq<seq<Draw>>, ghost g0: Grid)
      requires IsGrid(g0, width, height) && 0 <= y < height && DrawsFor(draws, width, height)
      requires Buffers(grid, nextGrid) == SweepRows(rules, Buffers(g0, g0), width, height, draws, y)
      modifies this`grid, this`nextGrid
      ensures Buffers(grid, nextGrid) == SweepRows(rules, Buffers(g0, g0), width, height, draws, y + 1)
    {
      ghost var b0 := Buffers(grid, nextGrid);
      var x := 0;
      while x < width
        invariant 0 <= x <= width
        invariant Buffers(grid, nextGrid) == SweepRow(rules, b0, width, height, draws, y, x)
      {
        VisitCell(x, y, draws, b0);
        x := x + 1;
      }
    }

    /** The body of the sweep at (x, y): one more step of `SweepRow`. */
    method VisitCell(x: int, y: int, draws: seq<seq<Draw>>, ghost b0: Buffers)
      requires WellShaped(b0, width, height) && 0 <= y < height && 0 <= x < width && DrawsFor(draws, width, height)
      requires Buffers(grid, nextGrid) == SweepRow(rules, b0, width, height, draws, y, x)
      modifies this`grid, this`nextGrid
      ensures Buffers(grid, nextGrid) == SweepRow(rules, b0, width, height, draws, y, x + 1)
    {
      VisitOnce(x, y, draws[y][x]);
      assert SweepStep(rules, b0, width, height, draws, y, x) == VisitAt(rules, b0, width, height, draws, y, x);
    }

    /** `processBirth` for an Empty cell, `processCell` otherwise. */
    method VisitOnce(x: int, y: int, d: Draw)
      requires Shaped() && InBounds(width, height, x, y) && ValidDraw(d)
      modifies this`grid, this`nextGrid
      ensures Buffers(grid, nextGrid) == Visit(rules, old(Buffers(grid, nextGrid)), width, height, x, y, d)
    {
      var cell := grid[y][x];
      if cell.kind == Empty {
        ProcessBirth(x, y, d);
      } else {
        ProcessCell(x, y, d);
      }
    }

    /** `processBirth` at an Empty cell (x, y). */
    method ProcessBirth(x: int, y: int, d: Draw)
      requires Shaped() && InBounds(width, height, x, y) && ValidDraw(d)
      modifies this`nextGrid
      ensures Buffers(grid, nextGrid) == BirthSpec(rules, old(Buffers(grid, nextGrid)), width, height, x, y, d)
    {
      var neighbors := CountNeighbors(grid, width, height, x, y);
      var totalNeighbors := Live(neighbors);
      if totalNeighbors == rules.birthCount {
        var maxType := MajorityType(neighbors);
        if d.mutationRoll < 0.05 {
          maxType := SpeciesOf(Pick(d.mutantRoll, 4) + 1);
        }
        nextGrid := Set(nextGrid, width, height, x, y, Cell(maxType, BaseEnergy(maxType), 0, d.birthDna));
      }
    }

    /** `processCell` at a live cell (x, y): the cell object is `grid[y][x]`,
        aged in place, then handed to its species. */
    method ProcessCell(x: int, y: int, d: Draw)
      requires Shaped() && InBounds(width, height, x, y) && ValidDraw(d)
      modifies this`grid, this`nextGrid
      ensures Buffers(grid, nextGrid) == CellSpec(rules, old(Buffers(grid, nextGrid)), width, height, x, y, d)
    {
      var neighbors := CountNeighbors(grid, width, height, x, y);
      var totalNeighbors := Live(neighbors);
      grid := Set(grid, width, height, x, y, grid[y][x].(age := grid[y][x].age + 1));
      match grid[y][x].kind {
        case Basic => ProcessBasicCell(x, y, totalNeighbors, d);
        case Predator => ProcessPredatorCell(x, y, neighbors, d);
        case Plant => ProcessPlantCell(x, y, neighbors, d);
        case Spore => ProcessSporeCell(x, y, d);
        case Empty =>
      }
    }

    /** `processBasicCell`; the cell is `grid[y][x]`. */
    method ProcessBasicCell(x: int, y: int, totalNeighbors: nat, d: Draw)
      requires Shaped() && InBounds(width, height, x, y)
      modifies this`nextGrid
      ensures Buffers(grid, nextGrid)
           == BasicSpec(rules, old(Buffers(grid, nextGrid)), width, height, x, y, totalNeighbors, d)
    {
      var cell := grid[y][x];
      if totalNeighbors < rules.survivalMin || totalNeighbors > rules.survivalMax {
        nextGrid := Set(nextGrid, width, height, x, y, Dead(d.deathDna));
      } else {
        nextGrid := Set(nextGrid, width, height, x, y, nextGrid[y][x].(energy := cell.energy, age := cell.age));
      }
    }

    /** `processPredatorCell`; the cell is `grid[y][x]` and its energy changes
        in place. */
    method ProcessPredatorCell(x: int, y: int, neighbors: Tally, d: Draw)
      requires Shaped() && InBounds(width, height, x, y) && ValidDraw(d)
      modifies this`grid, this`nextGrid
      ensures Buffers(grid, nextGrid)
           == PredatorSpec(rules, old(Buffers(grid, nextGrid)), width, height, x, y, neighbors, d)
    {
      var c0 := grid[y][x];
      var g0 := grid;
      var c1 := c0.(energy := c0.energy * rules.predatorHunger);
      grid := Set(grid, width, height, x, y, c1);
      var hunted := false;
      var k := 0;
      while k < 5
        invariant 0 <= k <= 5 && !hunted && Shaped()
        invariant grid == Set(g0, width, height, x, y, c1)
        invariant forall q :: 0 <= q < k ==> !((q == Id(Basic) || q == Id(Plant)) && neighbors[q].count > 0)
      {
        if (k == Id(Basic) || k == Id(Plant)) && neighbors[k].count > 0 {
          grid := Set(grid, width, height, x, y, grid[y][x].(energy := grid[y][x].energy + 2.0));
          SetTwice(g0, width, height, x, y, c1, c1.(energy := c1.energy + 2.0));
          hunted := true;
          break;
        }
        k := k + 1;
      }
      assert hunted == Prey(neighbors);
      var c2 := c0.(energy := PredatorEnergy(rules, c0.energy, neighbors));
      if hunted {
        assert c2 == c1.(energy := c1.energy + 2.0);
      } else {
        assert c2 == c1;
      }
      assert grid == Set(g0, width, height, x, y, c2);
      var cell := grid[y][x];
      if cell.energy < 1.0 {
        nextGrid := Set(nextGrid, width, height, x, y, Dead(d.deathDna));
      } else {
        nextGrid := Set(nextGrid, width, height, x, y, nextGrid[y][x].(energy := cell.energy, age := cell.age));
        if cell.energy > ReproduceThreshold(Predator) && !hunted {
          TryReproduce(x, y, Predator, cell.energy / 2.0, d);
        }
      }
    }

    /** `processPlantCell`; the cell is `grid[y][x]` and its energy changes in
        place, unclamped. */
    method ProcessPlantCell(x: int, y: int, neighbors: Tally, d: Draw)
      requires Shaped() && InBounds(width, height, x, y) && ValidDraw(d)
      modifies this`grid, this`nextGrid
      ensures Buffers(grid, nextGrid)
           == PlantSpec(rules, old(Buffers(grid, nextGrid)), width, height, x, y, neighbors, d)
    {
      var c0 := grid[y][x];
      ghost var c1 := c0.(energy := PlantEnergy(rules, c0.energy, neighbors));
      if neighbors[Id(Empty)].count > 0 {
        grid := Set(grid, width, height, x, y, c0.(energy := c0.energy * rules.plantGrowth));
      } else {
        SetSame(grid, width, height, x, y);
        assert c1 == c0;
      }
      assert grid == Set(old(grid), width, height, x, y, c1);
      var cell := grid[y][x];
      var totalNeighbors := Live(neighbors);
      if totalNeighbors > 6 {
        nextGrid := Set(nextGrid, width, height, x, y, Dead(d.deathDna));
      } else {
        nextGrid := Set(nextGrid, width, height, x, y, nextGrid[y][x].(energy := Min(cell.energy, 10.0), age := cell.age));
        if cell.energy > ReproduceThreshold(Plant) {
          TryReproduce(x, y, Plant, cell.energy / 2.0, d);
        }
      }
    }

    /** `processSporeCell`; the cell is `grid[y][x]`. */
    method ProcessSporeCell(x: int, y: int, d: Draw)
      requires Shaped() && InBounds(width, height, x, y) && ValidDraw(d)
      modifies this`nextGrid
      ensures Buffers(grid, nextGrid) == SporeSpec(rules, old(Buffers(grid, nextGrid)), width, height, x, y, d)
    {
      var cell := grid[y][x];
      if d.spreadRoll < rules.sporeSpread {
        var dx := Pick(d.dxRoll, 3) - 1;
        var dy := Pick(d.dyRoll, 3) - 1;
        var nx, ny := x + dx, y + dy;
        if InBounds(width, height, nx, ny) && nextGrid[ny][nx].kind == Empty {
          nextGrid := Set(nextGrid, width, height, nx, ny, Cell(Spore, BaseEnergy(Spore), 0, cell.dna));
        }
      }
      if cell.age > 10 {
        nextGrid := Set(nextGrid, width, height, x, y, Dead(d.deathDna));
      } else {
        nextGrid := Set(nextGrid, width, height, x, y, nextGrid[y][x].(age := cell.age));
      }
    }

    /** `tryReproduce`: one random neighbor, written only when inside the grid
        and Empty in `nextGrid`. */
    method TryReproduce(x: int, y: int, s: Species, energy: real, d: Draw)
      requires Shaped() && ValidDraw(d)
      modifies this`nextGrid
      ensures nextGrid == Reproduce(old(nextGrid), width, height, x, y, s, energy, d)
    {
      var offset := Offsets[Pick(d.reproduceRoll, 8)];
      var nx, ny := x + offset.0, y + offset.1;
      if InBounds(width, height, nx, ny) && nextGrid[ny][nx].kind == Empty {
        nextGrid := Set(nextGrid, width, height, nx, ny, Cell(s, energy, 0, d.reproduceDna));
      }
    }

    // -------------------------------------------------------------------------
    // The clock.

    /** One tick of `animate`: a generation is due once more than
        `updateInterval` has passed since the last one; `lastUpdate` moves on
        even while paused, because the pause test is inside
        `updateSimulation`. */
    method Animate(timestamp: real, draws: seq<seq<Draw>>)
      requires Valid() && DrawsFor(draws, width, height)
      modifies this`grid, this`nextGrid, this`generation, this`lastUpdate
      ensures Valid()
      ensures var due := timestamp - old(lastUpdate) > updateInterval;
        && lastUpdate == (if due then timestamp else old(lastUpdate))
        && (due && !paused ==>
              && Buffers(grid, nextGrid) == Generation(rules, old(grid), width, height, draws)
              && generation == old(generation) + 1)
        && (!due || paused ==>
              grid == old(grid) && nextGrid == old(nextGrid) && generation == old(generation))
    {
      if timestamp - lastUpdate > updateInterval {
        UpdateSimulation(draws);
        lastUpdate := timestamp;
      }
    }
  }
}
