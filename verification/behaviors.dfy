/** The per-cell transitions of one generation: the birth check for Empty
    cells, the four species behaviors and the reproduction resolver. Each is a
    function from the two buffers before the visit of (x, y) to the buffers
    after it; the class in soup.dfy runs them as methods. */
module Behaviors {
  import opened Cells
  import opened Neighbors

  // ---------------------------------------------------------------------------
  // Frames of one visit.

  /** `grid` changes only at the visited cell, only if that cell is alive, and
      never in species. */
  ghost predicate GridStep(g0: Grid, g1: Grid, w: nat, h: nat, x: int, y: int) {
    && IsGrid(g0, w, h) && IsGrid(g1, w, h) && SameKinds(g0, g1)
    && forall j, i :: InBounds(w, h, i, j) && g1[j][i] != g0[j][i] ==>
         i == x && j == y && g0[j][i].kind != Empty
  }

  /** `nextGrid` changes at the visited cell, and elsewhere only where an Empty
      neighbor becomes alive. */
  ghost predicate NextStep(n0: Grid, n1: Grid, w: nat, h: nat, x: int, y: int) {
    && IsGrid(n0, w, h) && IsGrid(n1, w, h)
    && forall j, i :: InBounds(w, h, i, j) && n1[j][i] != n0[j][i] ==>
         (i == x && j == y) || (Adjacent(x, y, i, j) && n0[j][i].kind == Empty && n1[j][i].kind != Empty)
  }

  // ---------------------------------------------------------------------------
  // Birth.

  /** The majority type of the birth check: among Basic, Predator, Plant and
      Spore, the greatest count, ties to the lowest id. */
  function Majority(t: Tally): (s: Species)
    ensures s != Empty
    ensures forall q :: q != Empty ==> Count(t, q) <= Count(t, s)
    ensures forall q :: q != Empty && Id(q) < Id(s) ==> Count(t, q) < Count(t, s)
    ensures Live(t) == 0 ==> s == Basic
  {
    var c1, c2, c3, c4 := t[1].count, t[2].count, t[3].count, t[4].count;
    if c1 >= c2 && c1 >= c3 && c1 >= c4 then Basic
    else if c2 >= c3 && c2 >= c4 then Predator
    else if c3 >= c4 then Plant
    else Spore
  }

  /** The type of a newborn: the majority, unless the 5% mutation draw
      replaces it by `floor(u * 4) + 1`. */
  function BirthKind(t: Tally, d: Draw): (s: Species)
    requires ValidDraw(d)
    ensures s != Empty
    ensures d.mutationRoll >= 0.05 ==> s == Majority(t)
  {
    if d.mutationRoll < 0.05 then SpeciesOf(Pick(d.mutantRoll, 4) + 1) else Majority(t)
  }

  /** `processBirth` at an Empty cell. */
  function BirthSpec(r: Rules, b: Buffers, w: nat, h: nat, x: int, y: int, d: Draw): (b': Buffers)
    requires WellShaped(b, w, h) && InBounds(w, h, x, y) && ValidDraw(d)
    ensures b'.grid == b.grid
    ensures NextStep(b.next, b'.next, w, h, x, y)
    ensures forall j, i :: InBounds(w, h, i, j) && (i != x || j != y) ==> b'.next[j][i] == b.next[j][i]
    ensures Clean(b.next) ==> Clean(b'.next)
  {
    var t := CountNeighbors(b.grid, w, h, x, y);
    if Live(t) == r.birthCount then
      var k := BirthKind(t, d);
      b.(next := Set(b.next, w, h, x, y, Cell(k, BaseEnergy(k), 0, d.birthDna)))
    else b
  }

  // ---------------------------------------------------------------------------
  // Placing a new organism next to its parent.

  /** Write `c` at (nx, ny) when that cell is inside the grid and Empty in
      `nextGrid`; otherwise the attempt silently fails. */
  function Place(n: Grid, w: nat, h: nat, nx: int, ny: int, c: Cell): (n': Grid)
    requires IsGrid(n, w, h)
    ensures IsGrid(n', w, h)
    ensures forall j, i :: InBounds(w, h, i, j) && n'[j][i] != n[j][i] ==>
              i == nx && j == ny && n[j][i].kind == Empty && n'[j][i] == c
    ensures InBounds(w, h, nx, ny) && n[ny][nx].kind == Empty ==> n'[ny][nx] == c
  {
    if InBounds(w, h, nx, ny) && n[ny][nx].kind == Empty then Set(n, w, h, nx, ny, c) else n
  }

  /** The eight offsets `tryReproduce` chooses from, in the source's order. */
  const Offsets: seq<(int, int)> := [(-1, -1), (0, -1), (1, -1), (-1, 0), (1, 0), (-1, 1), (0, 1), (1, 1)]

  /** The cell `tryReproduce` aims at: always one of the eight neighbors. */
  function ReproduceTarget(x: int, y: int, d: Draw): (p: (int, int))
    requires ValidDraw(d)
    ensures Adjacent(x, y, p.0, p.1)
  {
    var o := Offsets[Pick(d.reproduceRoll, 8)];
    (x + o.0, y + o.1)
  }

  /** `tryReproduce`: one attempt, no retry. */
  function Reproduce(n: Grid, w: nat, h: nat, x: int, y: int, s: Species, energy: real, d: Draw): (n': Grid)
    requires IsGrid(n, w, h) && ValidDraw(d)
    ensures IsGrid(n', w, h)
    ensures forall j, i :: InBounds(w, h, i, j) && n'[j][i] != n[j][i] ==>
              (i, j) == ReproduceTarget(x, y, d) && Adjacent(x, y, i, j) && n[j][i].kind == Empty
              && n'[j][i] == Cell(s, energy, 0, d.reproduceDna)
  {
    var p := ReproduceTarget(x, y, d);
    Place(n, w, h, p.0, p.1, Cell(s, energy, 0, d.reproduceDna))
  }

  /** The cell a spore spreads to: (x + dx, y + dy) with dx, dy in -1..1, the
      spore's own cell included. */
  function SpreadTarget(x: int, y: int, d: Draw): (p: (int, int))
    requires ValidDraw(d)
    ensures -1 <= p.0 - x <= 1 && -1 <= p.1 - y <= 1
  {
    (x + Pick(d.dxRoll, 3) - 1, y + Pick(d.dyRoll, 3) - 1)
  }

  function Spread(n: Grid, w: nat, h: nat, x: int, y: int, dna: Dna, d: Draw): (n': Grid)
    requires IsGrid(n, w, h) && ValidDraw(d)
    ensures IsGrid(n', w, h)
    ensures forall j, i :: InBounds(w, h, i, j) && n'[j][i] != n[j][i] ==>
              (i, j) == SpreadTarget(x, y, d) && n[j][i].kind == Empty
              && n'[j][i] == Cell(Spore, BaseEnergy(Spore), 0, dna)
  {
    var p := SpreadTarget(x, y, d);
    Place(n, w, h, p.0, p.1, Cell(Spore, BaseEnergy(Spore), 0, dna))
  }

  // ---------------------------------------------------------------------------
  // Species behaviors. Each receives the buffers after `cell.age++`, so the
  // visited cell of `b.grid` is the source's `cell`.

  /** `processBasicCell`. */
  function BasicSpec(r: Rules, b: Buffers, w: nat, h: nat, x: int, y: int, total: nat, d: Draw): (b': Buffers)
    requires WellShaped(b, w, h) && InBounds(w, h, x, y)
    ensures b'.grid == b.grid
    ensures NextStep(b.next, b'.next, w, h, x, y)
    ensures forall j, i :: InBounds(w, h, i, j) && (i != x || j != y) ==> b'.next[j][i] == b.next[j][i]
    ensures Clean(b.next) && b.next[y][x].kind != Empty ==> Clean(b'.next)
  {
    var cell := b.grid[y][x];
    if total < r.survivalMin || total > r.survivalMax then
      b.(next := Set(b.next, w, h, x, y, Dead(d.deathDna)))
    else
      b.(next := Set(b.next, w, h, x, y, b.next[y][x].(energy := cell.energy, age := cell.age)))
  }

  /** Whether a Basic or Plant cell is among the neighbors. */
  predicate Prey(t: Tally) {
    t[Id(Basic)].count > 0 || t[Id(Plant)].count > 0
  }

  /** A predator's energy after decay and, with prey around, one +2. */
  function PredatorEnergy(r: Rules, e: real, t: Tally): real {
    e * r.predatorHunger + (if Prey(t) then 2.0 else 0.0)
  }

  /** `processPredatorCell`: the energy update lands in `grid` (the cell object
      itself) as well as in `nextGrid`. */
  function PredatorSpec(r: Rules, b: Buffers, w: nat, h: nat, x: int, y: int, t: Tally, d: Draw): (b': Buffers)
    requires WellShaped(b, w, h) && InBounds(w, h, x, y) && ValidDraw(d)
    ensures b.grid[y][x].kind != Empty ==> GridStep(b.grid, b'.grid, w, h, x, y)
    ensures NextStep(b.next, b'.next, w, h, x, y)
    ensures Clean(b.next) && b.next[y][x].kind != Empty ==> Clean(b'.next)
  {
    var cell := b.grid[y][x];
    var e := PredatorEnergy(r, cell.energy, t);
    var g := Set(b.grid, w, h, x, y, cell.(energy := e));
    if e < 1.0 then
      Buffers(g, Set(b.next, w, h, x, y, Dead(d.deathDna)))
    else
      var n := Set(b.next, w, h, x, y, b.next[y][x].(energy := e, age := cell.age));
      if e > ReproduceThreshold(Predator) && !Prey(t) then
        Buffers(g, Reproduce(n, w, h, x, y, Predator, e / 2.0, d))
      else Buffers(g, n)
  }

  function Min(a: real, b: real): real {
    if a < b then a else b
  }

  /** A plant's energy after photosynthesis: grows only next to an Empty cell. */
  function PlantEnergy(r: Rules, e: real, t: Tally): real {
    if t[Id(Empty)].count > 0 then e * r.plantGrowth else e
  }

  /** `processPlantCell`: the stored energy is clamped to 10, the energy in
      `grid` and the reproduction test are not. */
  function PlantSpec(r: Rules, b: Buffers, w: nat, h: nat, x: int, y: int, t: Tally, d: Draw): (b': Buffers)
    requires WellShaped(b, w, h) && InBounds(w, h, x, y) && ValidDraw(d)
    ensures b.grid[y][x].kind != Empty ==> GridStep(b.grid, b'.grid, w, h, x, y)
    ensures NextStep(b.next, b'.next, w, h, x, y)
    ensures Clean(b.next) && b.next[y][x].kind != Empty ==> Clean(b'.next)
  {
    var cell := b.grid[y][x];
    var e := PlantEnergy(r, cell.energy, t);
    var g := Set(b.grid, w, h, x, y, cell.(energy := e));
    if Live(t) > 6 then
      Buffers(g, Set(b.next, w, h, x, y, Dead(d.deathDna)))
    else
      var n := Set(b.next, w, h, x, y, b.next[y][x].(energy := Min(e, 10.0), age := cell.age));
      if e > ReproduceThreshold(Plant) then
        Buffers(g, Reproduce(n, w, h, x, y, Plant, e / 2.0, d))
      else Buffers(g, n)
  }

  /** `processSporeCell`: maybe spread, then die once older than 10. */
  function SporeSpec(r: Rules, b: Buffers, w: nat, h: nat, x: int, y: int, d: Draw): (b': Buffers)
    requires WellShaped(b, w, h) && InBounds(w, h, x, y) && ValidDraw(d)
    ensures b'.grid == b.grid
    ensures NextStep(b.next, b'.next, w, h, x, y)
    ensures forall j, i :: InBounds(w, h, i, j) && (i != x || j != y) && b'.next[j][i] != b.next[j][i] ==>
              b.next[j][i].kind == Empty && b'.next[j][i] == Cell(Spore, BaseEnergy(Spore), 0, b.grid[y][x].dna)
    ensures Clean(b.next) && b.next[y][x].kind != Empty ==> Clean(b'.next)
  {
    var cell := b.grid[y][x];
    var n := if d.spreadRoll < r.sporeSpread then Spread(b.next, w, h, x, y, cell.dna, d) else b.next;
    if cell.age > 10 then
      b.(next := Set(n, w, h, x, y, Dead(d.deathDna)))
    else
      b.(next := Set(n, w, h, x, y, n[y][x].(age := cell.age)))
  }

  /** `processCell`: count the neighbors, age the cell in place, dispatch. */
  function CellSpec(r: Rules, b: Buffers, w: nat, h: nat, x: int, y: int, d: Draw): (b': Buffers)
    requires WellShaped(b, w, h) && InBounds(w, h, x, y) && ValidDraw(d)
    ensures b.grid[y][x].kind != Empty ==> GridStep(b.grid, b'.grid, w, h, x, y)
    ensures NextStep(b.next, b'.next, w, h, x, y)
    ensures Clean(b.next) && b.next[y][x].kind != Empty ==> Clean(b'.next)
  {
    var t := CountNeighbors(b.grid, w, h, x, y);
    var cell := b.grid[y][x];
    var b1 := b.(grid := Set(b.grid, w, h, x, y, cell.(age := cell.age + 1)));
    var b' := match cell.kind
      case Empty => b1
      case Basic => BasicSpec(r, b1, w, h, x, y, Live(t), d)
      case Predator => PredatorSpec(r, b1, w, h, x, y, t, d)
      case Plant => PlantSpec(r, b1, w, h, x, y, t, d)
      case Spore => SporeSpec(r, b1, w, h, x, y, d);
    if cell.kind != Empty then
      GridStepTrans(b.grid, b1.grid, b'.grid, w, h, x, y);
      b'
    else b'
  }

  /** Two steps that each change only the visited live cell make one. */
  lemma GridStepTrans(g0: Grid, g1: Grid, g2: Grid, w: nat, h: nat, x: int, y: int)
    requires GridStep(g0, g1, w, h, x, y) && InBounds(w, h, x, y)
    requires g1[y][x].kind != Empty ==> GridStep(g1, g2, w, h, x, y)
    requires g1[y][x].kind == Empty ==> g2 == g1
    ensures GridStep(g0, g2, w, h, x, y)
  {
  }

  /** One visit of the sweep: the birth check for an Empty cell, the species
      behavior otherwise. */
  function Visit(r: Rules, b: Buffers, w: nat, h: nat, x: int, y: int, d: Draw): (b': Buffers)
    requires WellShaped(b, w, h) && InBounds(w, h, x, y) && ValidDraw(d)
    ensures WellShaped(b', w, h)
    ensures GridStep(b.grid, b'.grid, w, h, x, y)
    ensures NextStep(b.next, b'.next, w, h, x, y)
    ensures Clean(b.grid) ==> Clean(b'.grid)
    ensures Clean(b.next) && (b.grid[y][x].kind != Empty ==> b.next[y][x].kind == b.grid[y][x].kind)
            ==> Clean(b'.next)
  {
    var b' := if b.grid[y][x].kind == Empty then BirthSpec(r, b, w, h, x, y, d) else CellSpec(r, b, w, h, x, y, d);
    GridStepKeepsClean(b.grid, b'.grid, w, h, x, y);
    b'
  }

  /** A visit of a live cell is `processCell`. */
  lemma VisitLive(r: Rules, b: Buffers, w: nat, h: nat, x: int, y: int, d: Draw)
    requires WellShaped(b, w, h) && InBounds(w, h, x, y) && ValidDraw(d)
    requires b.grid[y][x].kind != Empty
    ensures Visit(r, b, w, h, x, y, d) == CellSpec(r, b, w, h, x, y, d)
  {
  }

  /** `processCell` hands the aged cell and its neighbor table to the
      behavior of its species. */
  lemma CellBasic(r: Rules, b: Buffers, w: nat, h: nat, x: int, y: int, d: Draw)
    requires WellShaped(b, w, h) && InBounds(w, h, x, y) && ValidDraw(d)
    requires b.grid[y][x].kind == Basic
    ensures var cell := b.grid[y][x];
            var b1 := b.(grid := Set(b.grid, w, h, x, y, cell.(age := cell.age + 1)));
            var t := CountNeighbors(b.grid, w, h, x, y);
      CellSpec(r, b, w, h, x, y, d) == BasicSpec(r, b1, w, h, x, y, Live(t), d)
  {
  }

  lemma CellPredator(r: Rules, b: Buffers, w: nat, h: nat, x: int, y: int, d: Draw)
    requires WellShaped(b, w, h) && InBounds(w, h, x, y) && ValidDraw(d)
    requires b.grid[y][x].kind == Predator
    ensures var cell := b.grid[y][x];
            var b1 := b.(grid := Set(b.grid, w, h, x, y, cell.(age := cell.age + 1)));
            var t := CountNeighbors(b.grid, w, h, x, y);
      CellSpec(r, b, w, h, x, y, d) == PredatorSpec(r, b1, w, h, x, y, t, d)
  {
  }

  lemma CellPlant(r: Rules, b: Buffers, w: nat, h: nat, x: int, y: int, d: Draw)
    requires WellShaped(b, w, h) && InBounds(w, h, x, y) && ValidDraw(d)
    requires b.grid[y][x].kind == Plant
    ensures var cell := b.grid[y][x];
            var b1 := b.(grid := Set(b.grid, w, h, x, y, cell.(age := cell.age + 1)));
            var t := CountNeighbors(b.grid, w, h, x, y);
      CellSpec(r, b, w, h, x, y, d) == PlantSpec(r, b1, w, h, x, y, t, d)
  {
    var cell := b.grid[y][x];
    var b1 := b.(grid := Set(b.grid, w, h, x, y, cell.(age := cell.age + 1)));
    var t := CountNeighbors(b.grid, w, h, x, y);
    assert CellSpec(r, b, w, h, x, y, d) == PlantSpec(r, b1, w, h, x, y, t, d);
  }

  lemma GridStepKeepsClean(g0: Grid, g1: Grid, w: nat, h: nat, x: int, y: int)
    requires GridStep(g0, g1, w, h, x, y) || g1 == g0
    ensures Clean(g0) ==> Clean(g1)
  {
  }
  // ---------------------------------------------------------------------------
  // What one visit does, species by species.

  /** Birth check: `nextGrid` is written only at the visited cell and only when
      the live neighbors number exactly `birthCount`; the newborn is alive,
      has its profile energy and age 0, and is of the majority type unless
      the mutation draw fired. */
  lemma BirthRule(r: Rules, b: Buffers, w: nat, h: nat, x: int, y: int, d: Draw)
    requires WellShaped(b, w, h) && InBounds(w, h, x, y) && ValidDraw(d)
    requires b.grid[y][x].kind == Empty
    ensures var b' := Visit(r, b, w, h, x, y, d);
            var t := CountNeighbors(b.grid, w, h, x, y);
            var c := b'.next[y][x];
      && b'.grid == b.grid
      && (forall j, i :: InBounds(w, h, i, j) && (i != x || j != y) ==> b'.next[j][i] == b.next[j][i])
      && (Live(t) != r.birthCount ==> c == b.next[y][x])
      && (Live(t) == r.birthCount ==>
            && c.kind != Empty && c.energy == BaseEnergy(c.kind) && c.age == 0 && c.dna == d.birthDna
            && (d.mutationRoll >= 0.05 ==> c.kind == Majority(t)))
  {
  }

  /** Basic: survives iff survivalMin <= live neighbors <= survivalMax,
      keeping its energy with its age one higher; otherwise it dies. */
  lemma BasicRule(r: Rules, b: Buffers, w: nat, h: nat, x: int, y: int, d: Draw)
    requires WellShaped(b, w, h) && InBounds(w, h, x, y) && ValidDraw(d)
    requires b.grid[y][x].kind == Basic && b.next[y][x].kind == Basic
    ensures var b' := Visit(r, b, w, h, x, y, d);
            var n := Live(CountNeighbors(b.grid, w, h, x, y));
            var cell := b.grid[y][x];
            var survives := r.survivalMin <= n <= r.survivalMax;
      && b'.grid == Set(b.grid, w, h, x, y, cell.(age := cell.age + 1))
      && (forall j, i :: InBounds(w, h, i, j) && (i != x || j != y) ==> b'.next[j][i] == b.next[j][i])
      && (b'.next[y][x].kind != Empty <==> survives)
      && (survives ==> b'.next[y][x] == b.next[y][x].(energy := cell.energy, age := cell.age + 1))
      && (!survives ==> b'.next[y][x] == Dead(d.deathDna))
  {
    VisitLive(r, b, w, h, x, y, d);
    CellBasic(r, b, w, h, x, y, d);
  }

  lemma PredatorSpecFacts(r: Rules, b: Buffers, w: nat, h: nat, x: int, y: int, t: Tally, d: Draw)
    requires WellShaped(b, w, h) && InBounds(w, h, x, y) && ValidDraw(d)
    requires b.next[y][x].kind == Predator
    ensures var b' := PredatorSpec(r, b, w, h, x, y, t, d);
            var cell := b.grid[y][x];
            var e := PredatorEnergy(r, cell.energy, t);
            var p := ReproduceTarget(x, y, d);
            var seeds := e > ReproduceThreshold(Predator) && !Prey(t);
      && b'.grid == Set(b.grid, w, h, x, y, cell.(energy := e))
      && (b'.next[y][x].kind == Empty <==> e < 1.0)
      && (e < 1.0 ==> b'.next[y][x] == Dead(d.deathDna))
      && (!(e < 1.0) ==> b'.next[y][x] == b.next[y][x].(energy := e, age := cell.age))
      && (forall j, i :: InBounds(w, h, i, j) && (i != x || j != y) && b'.next[j][i] != b.next[j][i] ==>
            && seeds && (i, j) == p && b.next[j][i].kind == Empty
            && b'.next[j][i] == Cell(Predator, e / 2.0, 0, d.reproduceDna))
      && (seeds && InBounds(w, h, p.0, p.1) && b.next[p.1][p.0].kind == Empty ==>
            b'.next[p.1][p.0] == Cell(Predator, e / 2.0, 0, d.reproduceDna))
  {
    var cell := b.grid[y][x];
    var e := PredatorEnergy(r, cell.energy, t);
    var b' := PredatorSpec(r, b, w, h, x, y, t, d);
    if !(e < 1.0) {
      var n := Set(b.next, w, h, x, y, b.next[y][x].(energy := e, age := cell.age));
      if e > ReproduceThreshold(Predator) && !Prey(t) {
        assert b'.next == Reproduce(n, w, h, x, y, Predator, e / 2.0, d);
        var p := ReproduceTarget(x, y, d);
        if InBounds(w, h, p.0, p.1) && b.next[p.1][p.0].kind == Empty {
          assert n[p.1][p.0] == b.next[p.1][p.0];
        }
      } else {
        assert b'.next == n;
      }
    }
  }

  /** Predator: energy decays by `predatorHunger` and gains 2 once when prey is
      around, in `grid` as in `nextGrid`; it dies iff that energy is below 1;
      a survivor keeps the whole energy, and only one without prey and above
      the threshold 12 seeds a neighbor, with half of it. */
  lemma PredatorRule(r: Rules, b: Buffers, w: nat, h: nat, x: int, y: int, d: Draw)
    requires WellShaped(b, w, h) && InBounds(w, h, x, y) && ValidDraw(d)
    requires b.grid[y][x].kind == Predator && b.next[y][x].kind == Predator
    ensures var b' := Visit(r, b, w, h, x, y, d);
            var t := CountNeighbors(b.grid, w, h, x, y);
            var cell := b.grid[y][x];
            var e := PredatorEnergy(r, cell.energy, t);
            var p := ReproduceTarget(x, y, d);
            var seeds := e > ReproduceThreshold(Predator) && !Prey(t);
      && b'.grid == Set(b.grid, w, h, x, y, cell.(energy := e, age := cell.age + 1))
      && (b'.next[y][x].kind == Empty <==> e < 1.0)
      && (e < 1.0 ==> b'.next[y][x] == Dead(d.deathDna))
      && (e >= 1.0 ==> b'.next[y][x] == b.next[y][x].(energy := e, age := cell.age + 1))
      && (forall j, i :: InBounds(w, h, i, j) && (i != x || j != y) && b'.next[j][i] != b.next[j][i] ==>
            && seeds && (i, j) == p && b.next[j][i].kind == Empty
            && b'.next[j][i] == Cell(Predator, e / 2.0, 0, d.reproduceDna))
      && (seeds && InBounds(w, h, p.0, p.1) && b.next[p.1][p.0].kind == Empty ==>
            b'.next[p.1][p.0] == Cell(Predator, e / 2.0, 0, d.reproduceDna))
  {
    var t := CountNeighbors(b.grid, w, h, x, y);
    var cell := b.grid[y][x];
    var b1 := b.(grid := Set(b.grid, w, h, x, y, cell.(age := cell.age + 1)));
    VisitLive(r, b, w, h, x, y, d);
    CellPredator(r, b, w, h, x, y, d);
    PredatorSpecFacts(r, b1, w, h, x, y, t, d);
    SetTwice(b.grid, w, h, x, y, cell.(age := cell.age + 1),
             cell.(energy := PredatorEnergy(r, cell.energy, t), age := cell.age + 1));
  }


  lemma PlantSpecFacts(r: Rules, b: Buffers, w: nat, h: nat, x: int, y: int, t: Tally, d: Draw)
    requires WellShaped(b, w, h) && InBounds(w, h, x, y) && ValidDraw(d)
    requires b.next[y][x].kind == Plant
    ensures var b' := PlantSpec(r, b, w, h, x, y, t, d);
            var cell := b.grid[y][x];
            var e := PlantEnergy(r, cell.energy, t);
            var p := ReproduceTarget(x, y, d);
            var seeds := Live(t) <= 6 && e > ReproduceThreshold(Plant);
      && b'.grid == Set(b.grid, w, h, x, y, cell.(energy := e))
      && (b'.next[y][x].kind == Empty <==> Live(t) > 6)
      && (Live(t) > 6 ==> b'.next[y][x] == Dead(d.deathDna))
      && (!(Live(t) > 6) ==> b'.next[y][x] == b.next[y][x].(energy := Min(e, 10.0), age := cell.age))
      && (forall j, i :: InBounds(w, h, i, j) && (i != x || j != y) && b'.next[j][i] != b.next[j][i] ==>
            && seeds && (i, j) == p && b.next[j][i].kind == Empty
            && b'.next[j][i] == Cell(Plant, e / 2.0, 0, d.reproduceDna))
      && (seeds && InBounds(w, h, p.0, p.1) && b.next[p.1][p.0].kind == Empty ==>
            b'.next[p.1][p.0] == Cell(Plant, e / 2.0, 0, d.reproduceDna))
  {
    var cell := b.grid[y][x];
    var e := PlantEnergy(r, cell.energy, t);
    var b' := PlantSpec(r, b, w, h, x, y, t, d);
    if !(Live(t) > 6) {
      var n := Set(b.next, w, h, x, y, b.next[y][x].(energy := Min(e, 10.0), age := cell.age));
      if Live(t) <= 6 && e > ReproduceThreshold(Plant) {
        assert b'.next == Reproduce(n, w, h, x, y, Plant, e / 2.0, d);
        var p := ReproduceTarget(x, y, d);
        if InBounds(w, h, p.0, p.1) && b.next[p.1][p.0].kind == Empty {
          assert n[p.1][p.0] == b.next[p.1][p.0];
        }
      } else {
        assert b'.next == n;
      }
    }
  }

  /** Plant: grows by `plantGrowth` next to an Empty cell; dies when more than
      6 neighbors are alive, whatever its energy; a survivor stores the energy
      clamped to 10 and, when the unclamped energy exceeds 4, seeds a
      neighbor with half of the unclamped energy. */
  lemma PlantRule(r: Rules, b: Buffers, w: nat, h: nat, x: int, y: int, d: Draw)
    requires WellShaped(b, w, h) && InBounds(w, h, x, y) && ValidDraw(d)
    requires b.grid[y][x].kind == Plant && b.next[y][x].kind == Plant
    ensures var b' := Visit(r, b, w, h, x, y, d);
            var t := CountNeighbors(b.grid, w, h, x, y);
            var cell := b.grid[y][x];
            var e := PlantEnergy(r, cell.energy, t);
            var p := ReproduceTarget(x, y, d);
            var seeds := Live(t) <= 6 && e > ReproduceThreshold(Plant);
      && b'.grid == Set(b.grid, w, h, x, y, cell.(energy := e, age := cell.age + 1))
      && (b'.next[y][x].kind == Empty <==> Live(t) > 6)
      && (Live(t) > 6 ==> b'.next[y][x] == Dead(d.deathDna))
      && (Live(t) <= 6 ==> b'.next[y][x] == b.next[y][x].(energy := Min(e, 10.0), age := cell.age + 1))
      && (forall j, i :: InBounds(w, h, i, j) && (i != x || j != y) && b'.next[j][i] != b.next[j][i] ==>
            && seeds && (i, j) == p && b.next[j][i].kind == Empty
            && b'.next[j][i] == Cell(Plant, e / 2.0, 0, d.reproduceDna))
      && (seeds && InBounds(w, h, p.0, p.1) && b.next[p.1][p.0].kind == Empty ==>
            b'.next[p.1][p.0] == Cell(Plant, e / 2.0, 0, d.reproduceDna))
  {
    var t := CountNeighbors(b.grid, w, h, x, y);
    var cell := b.grid[y][x];
    var b1 := b.(grid := Set(b.grid, w, h, x, y, cell.(age := cell.age + 1)));
    VisitLive(r, b, w, h, x, y, d);
    CellPlant(r, b, w, h, x, y, d);
    PlantSpecFacts(r, b1, w, h, x, y, t, d);
    SetTwice(b.grid, w, h, x, y, cell.(age := cell.age + 1),
             cell.(energy := PlantEnergy(r, cell.energy, t), age := cell.age + 1));
  }


  /** Spore: when the spread draw is below `sporeSpread` it seeds the chosen
      cell, if Empty in `nextGrid`, with a spore of energy 1, age 0 and its own
      dna; independently it dies once its incremented age exceeds 10. */
  lemma SporeRule(r: Rules, b: Buffers, w: nat, h: nat, x: int, y: int, d: Draw)
    requires WellShaped(b, w, h) && InBounds(w, h, x, y) && ValidDraw(d)
    requires b.grid[y][x].kind == Spore && b.next[y][x].kind == Spore
    ensures var b' := Visit(r, b, w, h, x, y, d);
            var cell := b.grid[y][x];
            var p := SpreadTarget(x, y, d);
            var spreads := d.spreadRoll < r.sporeSpread;
      && b'.grid == Set(b.grid, w, h, x, y, cell.(age := cell.age + 1))
      && (b'.next[y][x].kind == Empty <==> cell.age + 1 > 10)
      && (cell.age + 1 > 10 ==> b'.next[y][x] == Dead(d.deathDna))
      && (cell.age + 1 <= 10 ==> b'.next[y][x] == b.next[y][x].(age := cell.age + 1))
      && (forall j, i :: InBounds(w, h, i, j) && (i != x || j != y) && b'.next[j][i] != b.next[j][i] ==>
            && spreads && (i, j) == p && b.next[j][i].kind == Empty
            && b'.next[j][i] == Cell(Spore, BaseEnergy(Spore), 0, cell.dna))
      && (spreads && InBounds(w, h, p.0, p.1) && b.next[p.1][p.0].kind == Empty ==>
            b'.next[p.1][p.0] == Cell(Spore, BaseEnergy(Spore), 0, cell.dna))
  {
  }
}
