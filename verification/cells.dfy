/** Cells, species profiles, rule sets and grid helpers of the primordial-soup
    cellular automaton (class PrimordialSoup in primordial.js). */
module Cells {

  /** The five cell types; the source stores them as the numeric ids 0..4. */
  datatype Species = Empty | Basic | Predator | Plant | Spore

  function Id(s: Species): nat {
    match s
    case Empty => 0
    case Basic => 1
    case Predator => 2
    case Plant => 3
    case Spore => 4
  }

  function SpeciesOf(id: nat): (s: Species)
    requires id <= 4
    ensures Id(s) == id
  {
    if id == 0 then Empty
    else if id == 1 then Basic
    else if id == 2 then Predator
    else if id == 3 then Plant
    else Spore
  }

  /** A cell's genetic marker: drawn at random, never consulted, only copied. */
  type Dna = real

  /** One grid cell; `kind` is the source's `type` field. */
  datatype Cell = Cell(kind: Species, energy: real, age: nat, dna: Dna)

  /** The `energy` entry of each species profile. */
  function BaseEnergy(s: Species): (e: real)
    ensures e > 0.0 <==> s != Empty
  {
    match s
    case Empty => 0.0
    case Basic => 3.0
    case Predator => 8.0
    case Plant => 2.0
    case Spore => 1.0
  }

  /** The `reproduceThreshold` entry of each profile; the Empty profile has none. */
  function ReproduceThreshold(s: Species): (t: real)
    requires s != Empty
    ensures t > BaseEnergy(s)
  {
    match s
    case Basic => 5.0
    case Predator => 12.0
    case Plant => 4.0
    case Spore => 3.0
  }

  /** What every death and every grid initialisation writes. */
  function Dead(dna: Dna): Cell {
    Cell(Empty, 0.0, 0, dna)
  }

  /** The tunable rule set (`this.rules`). */
  datatype Rules = Rules(survivalMin: int, survivalMax: int, birthCount: int,
                         predatorHunger: real, plantGrowth: real, sporeSpread: real)

  const DefaultRules := Rules(2, 3, 3, 0.95, 1.1, 0.3)

  // ---------------------------------------------------------------------------
  // Randomness: every `Math.random()` outcome is an explicit parameter; the
  // draws that steer a decision are reals in [0, 1).

  predicate Unit(u: real) {
    0.0 <= u < 1.0
  }

  /** `Math.floor(u * n)` for a draw `u` of `Math.random()`. */
  function Pick(u: real, n: nat): (k: nat)
    requires Unit(u) && n > 0
    ensures k < n
  {
    assert 0.0 <= u * n as real < n as real;
    (u * n as real).Floor
  }

  /** The draws one cell may consume during a generation, one per call site of
      `Math.random()`; a behavior reads only the ones its path calls for. */
  datatype Draw = Draw(
    mutationRoll: real,   // birth: mutation happens when below 0.05
    mutantRoll: real,     // birth: mutant type is floor(u * 4) + 1
    birthDna: Dna,
    deathDna: Dna,
    reproduceRoll: real,  // reproduction: offset index floor(u * 8)
    reproduceDna: Dna,
    spreadRoll: real,     // spore: spreads when below rules.sporeSpread
    dxRoll: real,         // spore: dx is floor(u * 3) - 1
    dyRoll: real)         // spore: dy is floor(u * 3) - 1

  predicate ValidDraw(d: Draw) {
    Unit(d.mutationRoll) && Unit(d.mutantRoll) && Unit(d.reproduceRoll)
    && Unit(d.spreadRoll) && Unit(d.dxRoll) && Unit(d.dyRoll)
  }

  /** Draws for a whole sweep, one per cell, indexed like the grid: `draws[y][x]`. */
  predicate DrawsFor(draws: seq<seq<Draw>>, w: nat, h: nat) {
    && |draws| == h
    && forall j :: 0 <= j < h ==> |draws[j]| == w && forall i :: 0 <= i < w ==> ValidDraw(draws[j][i])
  }

  /** `randomizeRules`: each field from one draw of `Math.random()`. */
  function RandomizedRules(u1: real, u2: real, u3: real, u4: real, u5: real, u6: real): (r: Rules)
    requires Unit(u1) && Unit(u2) && Unit(u3) && Unit(u4) && Unit(u5) && Unit(u6)
    ensures 1 <= r.survivalMin <= 3 && 3 <= r.survivalMax <= 5 && 2 <= r.birthCount <= 5
    ensures r.survivalMin <= r.survivalMax
    ensures 0.85 <= r.predatorHunger < 1.0
    ensures 1.05 <= r.plantGrowth < 1.15
    ensures 0.2 <= r.sporeSpread < 0.5
  {
    Rules(Pick(u1, 3) + 1, Pick(u2, 3) + 3, Pick(u3, 4) + 2,
          0.85 + u4 * 0.15, 1.05 + u5 * 0.1, 0.2 + u6 * 0.3)
  }

  // ---------------------------------------------------------------------------
  // Grids: `grid[y][x]`, `gridHeight` rows of `gridWidth` cells.

  type Grid = seq<seq<Cell>>

  predicate IsGrid(g: Grid, w: nat, h: nat) {
    |g| == h && forall j :: 0 <= j < h ==> |g[j]| == w
  }

  /** The bounds test every neighbor access makes before indexing. */
  predicate InBounds(w: nat, h: nat, x: int, y: int) {
    0 <= x < w && 0 <= y < h
  }

  /** One of the eight cells around (x, y). */
  predicate Adjacent(x: int, y: int, i: int, j: int) {
    -1 <= i - x <= 1 && -1 <= j - y <= 1 && (i != x || j != y)
  }

  /** Overwrite the cell at (x, y). */
  function Set(g: Grid, w: nat, h: nat, x: int, y: int, c: Cell): (g': Grid)
    requires IsGrid(g, w, h) && InBounds(w, h, x, y)
    ensures IsGrid(g', w, h) && g'[y][x] == c
    ensures forall j, i :: 0 <= j < h && 0 <= i < w && (i != x || j != y) ==> g'[j][i] == g[j][i]
  {
    g[y := g[y][x := c]]
  }

  lemma SetTwice(g: Grid, w: nat, h: nat, x: int, y: int, c1: Cell, c2: Cell)
    requires IsGrid(g, w, h) && InBounds(w, h, x, y)
    ensures Set(Set(g, w, h, x, y, c1), w, h, x, y, c2) == Set(g, w, h, x, y, c2)
  {
    assert g[y][x := c1][x := c2] == g[y][x := c2];
  }

  lemma SetSame(g: Grid, w: nat, h: nat, x: int, y: int)
    requires IsGrid(g, w, h) && InBounds(w, h, x, y)
    ensures Set(g, w, h, x, y, g[y][x]) == g
  {
    assert g[y][x := g[y][x]] == g[y];
  }

  lemma SameKindsTrans(g1: Grid, g2: Grid, g3: Grid)
    requires SameKinds(g1, g2) && SameKinds(g2, g3)
    ensures SameKinds(g1, g3)
  {
  }

  /** Two grids of one shape that agree on every cell are equal. */
  lemma GridsEqual(g1: Grid, g2: Grid, w: nat, h: nat)
    requires IsGrid(g1, w, h) && IsGrid(g2, w, h)
    requires forall j, i :: InBounds(w, h, i, j) ==> g1[j][i] == g2[j][i]
    ensures g1 == g2
  {
    forall j | 0 <= j < h
      ensures g1[j] == g2[j]
    {
      assert forall i :: 0 <= i < w ==> g1[j][i] == g2[j][i] by {
        forall i | 0 <= i < w ensures g1[j][i] == g2[j][i] {
          assert InBounds(w, h, i, j);
        }
      }
    }
  }

  /** The invariant of the data model: an Empty cell has energy 0 and age 0. */
  predicate CleanCell(c: Cell) {
    c.kind == Empty ==> c.energy == 0.0 && c.age == 0
  }

  predicate Clean(g: Grid) {
    forall j, i :: 0 <= j < |g| && 0 <= i < |g[j]| ==> CleanCell(g[j][i])
  }

  /** Two grids of the same shape holding the same species everywhere. */
  predicate SameKinds(g1: Grid, g2: Grid) {
    && |g1| == |g2|
    && (forall j :: 0 <= j < |g1| ==> |g1[j]| == |g2[j]|)
    && (forall j, i :: 0 <= j < |g1| && 0 <= i < |g1[j]| ==> g1[j][i].kind == g2[j][i].kind)
  }

  /** The two buffers: `grid` (read) and `nextGrid` (written). */
  datatype Buffers = Buffers(grid: Grid, next: Grid)

  predicate WellShaped(b: Buffers, w: nat, h: nat) {
    IsGrid(b.grid, w, h) && IsGrid(b.next, w, h)
  }
}
