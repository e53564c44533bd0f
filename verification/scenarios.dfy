/** Worked single-cell cases of one visit under concrete rule values. */
module Scenarios {
  import opened Cells
  import opened Neighbors
  import opened Behaviors

  /** A Basic cell with 3 live neighbors under the default rules survives:
      `nextGrid` changes only at the cell, which keeps its energy and is one
      generation older. */
  lemma BasicWithThreeNeighbors(b: Buffers, w: nat, h: nat, x: int, y: int, d: Draw)
    requires WellShaped(b, w, h) && InBounds(w, h, x, y) && ValidDraw(d)
    requires b.grid[y][x].kind == Basic && b.next[y][x].kind == Basic
    requires Live(CountNeighbors(b.grid, w, h, x, y)) == 3
    ensures var cell := b.grid[y][x];
      Visit(DefaultRules, b, w, h, x, y, d).next
        == Set(b.next, w, h, x, y, b.next[y][x].(energy := cell.energy, age := cell.age + 1))
  {
    var cell := b.grid[y][x];
    BasicRule(DefaultRules, b, w, h, x, y, d);
    GridsEqual(Visit(DefaultRules, b, w, h, x, y, d).next,
               Set(b.next, w, h, x, y, b.next[y][x].(energy := cell.energy, age := cell.age + 1)), w, h);
  }

  /** A predator of energy 8 without prey under the default rules ends with
      8 * 0.95 = 7.6, survives and, being below 12, does not reproduce. */
  lemma PredatorWithoutPrey(b: Buffers, w: nat, h: nat, x: int, y: int, d: Draw)
    requires WellShaped(b, w, h) && InBounds(w, h, x, y) && ValidDraw(d)
    requires b.grid[y][x].kind == Predator && b.next[y][x].kind == Predator
    requires b.grid[y][x].energy == 8.0
    requires !Prey(CountNeighbors(b.grid, w, h, x, y))
    ensures var b' := Visit(DefaultRules, b, w, h, x, y, d);
            var cell := b.grid[y][x];
      && b'.grid[y][x].energy == 7.6
      && b'.next == Set(b.next, w, h, x, y, b.next[y][x].(energy := 7.6, age := cell.age + 1))
  {
    var cell := b.grid[y][x];
    PredatorRule(DefaultRules, b, w, h, x, y, d);
    assert PredatorEnergy(DefaultRules, 8.0, CountNeighbors(b.grid, w, h, x, y)) == 7.6;
    GridsEqual(Visit(DefaultRules, b, w, h, x, y, d).next,
               Set(b.next, w, h, x, y, b.next[y][x].(energy := 7.6, age := cell.age + 1)), w, h);
  }

  /** A plant of energy 9 next to an Empty cell, with 2 live neighbors, under
      the default rules grows to 9 * 1.1 = 9.9, stores 9.9 and seeds its
      chosen neighbor, when that one is Empty, with 4.95. */
  lemma PlantBelowClamp(b: Buffers, w: nat, h: nat, x: int, y: int, d: Draw)
    requires WellShaped(b, w, h) && InBounds(w, h, x, y) && ValidDraw(d)
    requires b.grid[y][x].kind == Plant && b.next[y][x].kind == Plant
    requires b.grid[y][x].energy == 9.0
    requires Count(CountNeighbors(b.grid, w, h, x, y), Empty) > 0
    requires Live(CountNeighbors(b.grid, w, h, x, y)) == 2
    ensures var b' := Visit(DefaultRules, b, w, h, x, y, d);
            var p := ReproduceTarget(x, y, d);
      && b'.grid[y][x].energy == 9.9
      && b'.next[y][x].kind == Plant && b'.next[y][x].energy == 9.9
      && (InBounds(w, h, p.0, p.1) && b.next[p.1][p.0].kind == Empty ==>
            b'.next[p.1][p.0] == Cell(Plant, 4.95, 0, d.reproduceDna))
  {
    PlantRule(DefaultRules, b, w, h, x, y, d);
    assert PlantEnergy(DefaultRules, 9.0, CountNeighbors(b.grid, w, h, x, y)) == 9.9;
  }

  /** A spore that is 10 or older dies on its next visit when `sporeSpread`
      is 0: no spread, and its own slot in `nextGrid` becomes Empty. */
  lemma OldSporeDies(r: Rules, b: Buffers, w: nat, h: nat, x: int, y: int, d: Draw)
    requires WellShaped(b, w, h) && InBounds(w, h, x, y) && ValidDraw(d)
    requires b.grid[y][x].kind == Spore && b.next[y][x].kind == Spore
    requires b.grid[y][x].age >= 10 && r.sporeSpread == 0.0
    ensures Visit(r, b, w, h, x, y, d).next == Set(b.next, w, h, x, y, Dead(d.deathDna))
  {
    SporeRule(r, b, w, h, x, y, d);
    GridsEqual(Visit(r, b, w, h, x, y, d).next, Set(b.next, w, h, x, y, Dead(d.deathDna)), w, h);
  }
}
