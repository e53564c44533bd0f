# Primordial soup: a verified model of the cellular automaton

This project models the simulation core of `primordial.js`, the class
`PrimordialSoup`. It is a multi-species cellular automaton on a
double-buffered 2-D grid. Each cell holds:

- a species: Empty, Basic, Predator, Plant or Spore (ids 0..4);
- an energy and an age;
- an opaque `dna` marker.

One generation (`updateSimulation`) works in four steps:

1. It copies `grid` into `nextGrid`.
2. It visits every cell in row-major order:
   - an Empty cell gets the Conway-style birth check;
   - a live cell is aged in place and then handled by its species' behavior.
   
   These read the eight-neighbor counts of `grid` and write into `nextGrid`.
   Reproduction and spore spreading seed at most one neighboring cell, and only one that is Empty in `nextGrid`.
3. It swaps the two buffers.
4. It counts the generation.

The object also has grid construction and resizing, the spawn brush, clearing, rule randomisation and the interval gate of the animation loop.

Modules:

- `Cells` (cells.dfy): species, cells, the species profiles, the rule set, the random draws and grid helpers.
- `Neighbors` (neighbors.dfy): `countNeighbors` as a function over the grid, written as the source's two nested loops, with its properties.
- `Behaviors` (behaviors.dfy): specification functions, one per cell transition, from the two buffers before a visit to the two buffers after it. Lemmas state what each visit does.
- `Sweep` (sweep.dfy): one generation as a function, made of the row loop and the column loop followed by the swap.
- `Soup` (soup.dfy): the class `PrimordialSoup`:
  - its fields are `width`/`height` (gridWidth/gridHeight), `grid`, `nextGrid`, `currentType`, `generation`, `paused`, `updateInterval`, `lastUpdate` and `rules`;
  - its methods carry the source's loops, and each one is proved equal to the specification function for it.
- `Scenarios` (scenarios.dfy): single-cell cases worked out under concrete rule values.

Randomness: every `Math.random()` outcome is an explicit parameter. The draws that steer a decision are reals in [0, 1); the dna markers are arbitrary reals, since nothing reads them.

- A sweep takes a grid of `Draw` records, one per cell, indexed like the grid as `draws[y][x]`. The record holds one field per call site: the mutation test, the mutant type, the newborn's dna, the death dna, the reproduction offset, the offspring dna, the spread test and the spread offsets.
- `Math.floor(u * n)` is `Pick(u, n)`.
- The spawn brush takes a draw per brush offset.
- Grid construction takes a dna per cell and buffer.

Behavior of the code worth knowing:

- Resizing does not clamp to a 1x1 grid. A zero dimension gives an empty grid.
- Resizing is not idempotent: it always rebuilds both buffers with Empty cells and fresh markers.
- A plant reproduces when its unclamped energy exceeds 4. Only the value stored in `nextGrid` is clamped to 10, while its cell in `grid` keeps the unclamped energy.
- A surviving Basic cell is not stored unchanged. Its age in `nextGrid` is one higher, because `processCell` ages the cell before dispatching.
- The pause test is inside `updateSimulation`. So a due tick of `animate` moves `lastUpdate` on even while paused; it only skips the generation.
- Placement into `nextGrid` is first-come in row-major order. Reproduction and spreading only fill a target that is still Empty in `nextGrid`, so an earlier cell's offspring wins over a later one's; a birth, in contrast, overwrites its cell unconditionally, including an offspring placed there earlier in the same sweep. The count-based decisions read the unchanged `grid` and do not depend on the order, but which offspring lands where does.

## Model

| member | source | states |
|---|---|---|
| Cells.BaseEnergy | primordial.js:18-24 | a profile's base energy is positive exactly for the four live species; Empty has 0 |
| Cells.ReproduceThreshold | primordial.js:18-24 | each live profile's reproduction threshold exceeds its base energy |
| Cells.RandomizedRules | primordial.js:184-195 | the randomised rule set has survivalMin in 1..3, survivalMax in 3..5 (so survivalMin <= survivalMax), birthCount in 2..5, predatorHunger in [0.85, 1), plantGrowth in [1.05, 1.15) and sporeSpread in [0.2, 0.5) |
| Cells.Pick | primordial.js:186-188 | `Math.floor(u * n)` of a draw in [0, 1) is an index below n |
| Neighbors.ReadsOnlyNeighbors | primordial.js:402-423 | the neighbor table depends only on the eight cells around (x, y): the centre and out-of-grid coordinates are never read |
| Neighbors.CountsSeeOnlyKinds | primordial.js:402-423 | two grids with the same species around (x, y) give the same five counts, whatever the energies and ages |
| Neighbors.CountNeighbors | primordial.js:402-423 | at an in-grid coordinate the five counts sum to the size of the 3x3 block clipped to the grid, minus the centre |
| Neighbors.CountsAround | primordial.js:402-423 | each count of the table is the number of the eight adjacent cells, as far as they lie inside the grid, that hold that species; the centre is never counted |
| Neighbors.NeighborBounds | primordial.js:402-423 | live count <= sum of the five counts <= 8; exactly 8 away from the border, at most 5 on an edge, at most 3 on a corner |
| Behaviors.Majority | primordial.js:246-253 | the chosen type is live, has the greatest count of types 1..4, is strictly ahead of every lower id, and is Basic when all counts are 0 |
| Behaviors.BirthKind | primordial.js:246-258 | a newborn's type is live, and is the majority type whenever the 5% mutation draw does not fire |
| Behaviors.BirthSpec | primordial.js:227-267 | the birth check leaves `grid` alone, writes `nextGrid` only at the visited cell, and keeps every Empty cell of `nextGrid` at energy 0 and age 0 |
| Behaviors.Place | primordial.js:389-399 | a placement changes at most the target cell, only one that was Empty, to the new cell, and it does so whenever the target is inside the grid and Empty |
| Behaviors.ReproduceTarget | primordial.js:385-389 | the reproduction target is one of the eight neighbors |
| Behaviors.Reproduce | primordial.js:383-400 | `tryReproduce` changes at most one adjacent cell, which was Empty in `nextGrid` and now holds the given species and energy with age 0 |
| Behaviors.SpreadTarget | primordial.js:357-361 | a spread target is within one step of the spore in both directions |
| Behaviors.Spread | primordial.js:357-373 | spreading changes at most the target cell, which was Empty and now holds a Spore with energy 1, age 0 and the parent's dna |
| Behaviors.BasicSpec | primordial.js:292-302 | the Basic behavior leaves `grid` alone and changes `nextGrid` only at the cell |
| Behaviors.PredatorSpec | primordial.js:304-332 | the Predator behavior changes `grid` only at the cell, never its species; `nextGrid` changes only at the cell and at an Empty neighbor that becomes alive |
| Behaviors.PlantSpec | primordial.js:334-353 | the Plant behavior has the same frame as the Predator one |
| Behaviors.SporeSpec | primordial.js:355-381 | the Spore behavior leaves `grid` alone; `nextGrid` changes only at the cell and at an Empty neighbor that becomes a Spore |
| Behaviors.CellSpec | primordial.js:269-290 | `processCell` changes `grid` only at the cell, never its species, and `nextGrid` only at the cell and at Empty neighbors |
| Behaviors.Visit | primordial.js:209-218 | one visit keeps both shapes, never changes a species in `grid`, and keeps the invariant that Empty cells have energy 0 and age 0 in both buffers |
| Behaviors.BirthRule | primordial.js:242-265 | at an Empty cell, `nextGrid` changes only at the cell and only when the live neighbors number exactly `birthCount`; the newborn is live, has its profile energy, age 0 and a fresh dna, and has the majority type without mutation |
| Behaviors.BasicRule | primordial.js:269-302 | a Basic cell is aged by one in `grid`; it survives in `nextGrid` iff survivalMin <= live neighbors <= survivalMax, keeping its energy with the new age, and otherwise becomes Empty; nothing else in `nextGrid` changes |
| Behaviors.PredatorRule | primordial.js:304-332 | a predator's energy becomes e * predatorHunger, plus 2 once when a Basic or Plant neighbor exists, in `grid` and `nextGrid`; it dies iff that is below 1; a survivor keeps the whole energy; a neighbor changes only when there is no prey and the energy exceeds 12, and then only the Empty target, which gets a Predator with half the energy |
| Behaviors.PlantRule | primordial.js:334-353 | a plant's energy is multiplied by plantGrowth iff an Empty neighbor exists; it dies iff more than 6 neighbors are alive; a survivor stores min(e, 10) while `grid` keeps e; it seeds its Empty target with half of the unclamped e iff e > 4 |
| Behaviors.SporeRule | primordial.js:355-381 | a spore spreads, when the draw is below sporeSpread, to its target only if Empty, as a Spore of energy 1, age 0 and the parent's dna; it dies iff its incremented age exceeds 10, and otherwise stores the new age |
| Sweep.VisitKeepsIntact | primordial.js:207-220 | after each visit, every unvisited cell that is alive in `grid` still has its species in `nextGrid` |
| Sweep.VisitKeeps | primordial.js:210-218 | a visit after others keeps, relative to the start of the sweep, every species of `grid` and the Empty-cell invariant of both buffers |
| Sweep.SweepRow | primordial.js:209-219 | the column loop, cells 0..x-1 of a row visited in order, keeps the shape of both buffers |
| Sweep.SweepStep | primordial.js:209-219 | one more iteration of the column loop keeps the shape of both buffers |
| Sweep.VisitAt | primordial.js:210-218 | the visit of cell x with its own draws, after cells 0..x-1, keeps the shape of both buffers |
| Sweep.SweepRowKeeps | primordial.js:209-219 | after cells 0..x-1 of a row, the cells still to visit are intact, no species of `grid` has changed and the Empty-cell invariant holds of both buffers |
| Sweep.SweepStepKeeps | primordial.js:209-219 | the same facts after cells 0..x |
| Sweep.SweepRows | primordial.js:207-220 | the row loop, rows 0..y-1 visited in order, keeps the shape of both buffers |
| Sweep.SweepRowsIntact | primordial.js:207-220 | after rows 0..y-1, every cell of the later rows that is alive in `grid` still has its species in `nextGrid` |
| Sweep.SweepRowsKinds | primordial.js:207-220 | after rows 0..y-1, no species of `grid` has changed |
| Sweep.SweepRowsClean | primordial.js:207-220 | after rows 0..y-1, the Empty-cell invariant still holds of each buffer it held of at the start |
| Sweep.Generation | primordial.js:197-225 | after a generation the buffers keep their shape; the old grid, now `nextGrid`, has the same species as before; the Empty-cell invariant holds in both buffers |
| Sweep.SnapshotCounts | primordial.js:207-220 | at every point of the sweep, `grid` holds the starting species and every neighbor count equals the count on the starting grid, so the count-based decisions (birth, survival, prey, crowding, growth) are those of the starting grid whatever the order; placement of offspring is not covered |
| Soup.Spawned | primordial.js:155-170 | a brush cell outside radius 3 of the centre is unchanged; one inside either stays as it was or becomes a fresh organism of the brush type with profile energy, age 0 and its drawn dna |
| Soup.EmptyGrid | primordial.js:81-93 | a freshly built grid has the requested shape and holds only Empty cells with energy 0, age 0 and their own markers |
| Soup.MajorityType | primordial.js:246-253 | the majority loop returns `Majority`: the first strictly greatest count among types 1..4 |
| Soup.PrimordialSoup.constructor | primordial.js:10-47 | a new object has the default rules, generation 0, not paused, interval 100, last update 0, brush type Basic and an Empty grid of the given size |
| Soup.PrimordialSoup.Resize | primordial.js:71-79 | the new size is taken as given and both buffers are rebuilt Empty |
| Soup.PrimordialSoup.InitializeGrid | primordial.js:81-93 | both buffers become `height` rows of `width` Empty cells |
| Soup.PrimordialSoup.SpawnCells | primordial.js:150-176 | exactly the in-grid cells within distance 3 of the centre whose draw is below 0.5 become fresh organisms of the brush type with profile energy and age 0; every other cell is unchanged |
| Soup.PrimordialSoup.ClearSoup | primordial.js:178-182 | both buffers are rebuilt Empty and the generation is 0 |
| Soup.PrimordialSoup.RandomizeRules | primordial.js:184-195 | the rule set becomes `RandomizedRules` of the six draws |
| Soup.PrimordialSoup.UpdateSimulation | primordial.js:197-225 | when paused nothing changes; otherwise the buffers become `Generation` of the old grid, the generation count grows by exactly 1, and the Empty-cell invariant is kept |
| Soup.PrimordialSoup.CopyToNext | primordial.js:200-205 | after the copy loop `nextGrid` equals `grid` |
| Soup.PrimordialSoup.SweepCells | primordial.js:207-220 | the nested visiting loops, started on a copied grid, leave the buffers at `SweepRows` over all rows |
| Soup.PrimordialSoup.SweepRowCells | primordial.js:209-219 | the column loop over row y takes the buffers from `SweepRows` of y rows to `SweepRows` of y + 1 rows |
| Soup.PrimordialSoup.VisitCell | primordial.js:210-218 | the loop body takes the buffers from `SweepRow` of x cells to `SweepRow` of x + 1 cells |
| Soup.PrimordialSoup.VisitOnce | primordial.js:210-218 | the dispatch on the cell's type leaves the buffers at `Visit` of the old ones |
| Soup.PrimordialSoup.ProcessBirth | primordial.js:227-267 | the method computes `BirthSpec` |
| Soup.PrimordialSoup.ProcessCell | primordial.js:269-290 | the method computes `CellSpec` |
| Soup.PrimordialSoup.ProcessBasicCell | primordial.js:292-302 | the method computes `BasicSpec` |
| Soup.PrimordialSoup.ProcessPredatorCell | primordial.js:304-332 | the method, with its hunting loop and break, computes `PredatorSpec` |
| Soup.PrimordialSoup.ProcessPlantCell | primordial.js:334-353 | the method computes `PlantSpec` |
| Soup.PrimordialSoup.ProcessSporeCell | primordial.js:355-381 | the method computes `SporeSpec` |
| Soup.PrimordialSoup.TryReproduce | primordial.js:383-400 | the method computes `Reproduce` |
| Soup.PrimordialSoup.Animate | primordial.js:502-507 | a generation runs iff more than `updateInterval` has passed since `lastUpdate` and the object is not paused; `lastUpdate` becomes the timestamp whenever the interval has passed, paused or not; otherwise nothing changes |
| Scenarios.BasicWithThreeNeighbors | primordial.js:292-302 | under the default rules, a Basic cell with 3 live neighbors survives with its energy and its age plus one, and nothing else in `nextGrid` changes |
| Scenarios.PredatorWithoutPrey | primordial.js:304-332 | under the default rules, a predator of energy 8 with no prey ends at 7.6 in both buffers, survives, and does not reproduce |
| Scenarios.PlantBelowClamp | primordial.js:334-353 | under the default rules, a plant of energy 9 with an Empty neighbor and 2 live neighbors stores 9.9 and seeds a free target with 4.95 |
| Scenarios.OldSporeDies | primordial.js:355-381 | with sporeSpread 0, a spore aged 10 or more becomes Empty and nothing else in `nextGrid` changes |

## Left out

- Canvas rendering (`draw`) and the HUD (`updateHUD`, including its floating-point entropy figure). They only read the grid.
- Web Audio (the `AudioContext` setup and `playTone`, also called by `spawnCells`, `clearSoup` and `randomizeRules`). It is a browser API with no simulation logic.
- Event listeners and `setType`. `currentType` is a field, but no method changes it.
- The window and canvas measurement in `resize`. `Resize` takes the grid size as parameters.
- The pixel-to-grid division in `spawnCells`. `SpawnCells` starts from a grid coordinate.
- The `requestAnimationFrame` scheduling and the `setTimeout` title fade. `Animate` models one tick of the interval gate.
- The second `initializeGrid` call in `init`. It only redraws the dna markers of an already Empty grid, so the constructor builds the grid once.
- Ambient `Math.random()`. Every outcome is a parameter, and the `dna` values are never inspected.
- The energy sums of `countNeighbors` are modelled, but no rule consumes them. `processBirth` adds them up and never uses the result.
- Object identity. The buffers are values (`seq<seq<Cell>>` fields), and the swap exchanges the two fields. Writing `grid[y][x]` models the in-place mutation of `cell.age` and `cell.energy`. No two cells in the source share an object, so no aliasing is lost.
- JavaScript number semantics. Energies are exact reals, not IEEE doubles, so 8 * 0.95 is exactly 7.6 here. Ages and counts are unbounded integers.
- `synesthesia.js`, `dreamscape.js` and `quantum-poetry.js` are not part of this model. They hold floating-point particle animation, drawing and audio.
