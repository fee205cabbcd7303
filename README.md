# Sparse Game of Life

A model of a small Rust program that runs Conway's Game of Life on an
unbounded grid. A generation is stored sparsely as the set of its alive cells;
every other cell is dead. The engine has four parts:

- the eight neighbours of a cell;
- the neighbourhood of a generation: the alive cells plus all their neighbours,
  which is the only place a cell of the next generation can appear;
- the B3/S23 rule: a live cell survives with two or three live neighbours, and a
  dead cell is born with exactly three;
- the driver, which advances the generation synchronously. Every rule
  evaluation reads the old generation, and the result replaces it.

`life.dfy` (module `Life`) holds the data model and the operations. In the
Rust code, the neighbours, the neighbourhood, one advance step and the driver
loop are built up imperatively, so they are modelled as methods with loops.
Each method is proved equal to a specification function:

| method | specification function |
|---|---|
| `Neighbors` | `NeighborsOf` |
| `Neighborhood` | `NeighborhoodOf` |
| `Advance` | `NextGeneration` |
| `Run` | `Evolve` |

The properties are proved about those functions. The rule is a pure predicate.

`life_tests.dfy` (module `LifeTests`) restates the program's unit tests as
lemmas about the model, covering every cell and count they assert.

Coordinates are unbounded integers. The program uses `i64`, which can overflow
only at the edge of the 64-bit range.

The iteration order of a hash set is unspecified. The model therefore picks
elements with `:|`, so every proof holds for any order.

## Model

| member | source | states |
|---|---|---|
| Life.NeighborsOf | src/main.rs:10-22 | the neighbour set holds exactly the cells at Chebyshev distance 1 from the cell; it does not hold the cell itself and has exactly 8 elements |
| Life.Neighbors | src/main.rs:10-22 | the nested loops over offsets -1..2, which skip offset (0, 0), produce exactly `NeighborsOf(c)` |
| Life.NeighborsUnionMember | src/main.rs:50-52 | a cell is in the union of the alive cells' neighbour sets iff some alive cell is adjacent to it, whatever order the cells are taken in |
| Life.NeighborsUnionInsert | src/main.rs:50-52 | extending with one more cell's neighbours adds exactly that cell's neighbour set |
| Life.NeighborhoodOf | src/main.rs:47-55 | the neighbourhood contains every alive cell |
| Life.NeighborhoodMember | src/main.rs:47-55 | a cell is in the neighbourhood iff it is alive or adjacent to an alive cell |
| Life.Neighborhood | src/main.rs:47-55 | copying `alive` and then extending it with each alive cell's neighbours yields exactly `NeighborhoodOf(alive)` |
| Life.NeighborhoodOfSingleton | src/main.rs:47-55 | a single cell's neighbourhood is the cell plus its eight neighbours, 9 cells in all |
| Life.NeighborsUnionSize | src/main.rs:50-52 | the union of the neighbour sets has at most 8 cells per alive cell |
| Life.NeighborhoodSize | src/main.rs:47-55 | the neighbourhood has at most 9 cells per alive cell |
| Life.LiveNeighbors | src/main.rs:74 | the size of the intersection of the generation with the neighbour set equals the number of alive cells adjacent to the cell; it is 0 iff no alive cell is adjacent |
| Life.LiveNeighborsAtMostEight | src/main.rs:74 | the live-neighbour count is at most 8 |
| Life.IsAliveNext | src/main.rs:72-85 | an alive cell stays alive iff 2 or 3 alive cells are adjacent to it; a dead cell becomes alive iff exactly 3 are |
| Life.OutsideNeighborhoodDies | src/main.rs:72-85 | a cell outside the neighbourhood is dead, has no live neighbour and is not alive next |
| Life.RuleIsLocal | src/main.rs:72-85 | two generations that agree on a cell's 3x3 block give the same rule outcome for that cell |
| Life.NextGeneration | src/main.rs:124-132 | the next generation lies inside the neighbourhood of the current one |
| Life.NextGenerationExact | src/main.rs:124-132 | a cell is in the next generation iff the rule, evaluated on the current generation, keeps it alive; so evaluating only the neighbourhood misses no cell |
| Life.Advance | src/main.rs:124-132 | computing the neighbourhood and inserting into a fresh set each candidate the rule keeps yields exactly `NextGeneration(gen)`; the rule reads only the unchanged current generation |
| Life.EmptyStaysEmpty | src/main.rs:124-132 | advancing the empty generation yields the empty generation |
| Life.NextGenerationSize | src/main.rs:124-132 | one step grows a generation at most ninefold |
| Life.Run | src/main.rs:123-135 | replacing the current generation with the next one (clear, then extend) on each of `steps` iterations yields the `steps`-th generation of the seed |
| LifeTests.CellNeighborsTest | src/main.rs:26-45 | the origin has 8 neighbours; each of the eight listed cells is one of them; the origin is not |
| LifeTests.SingleCellNeighborhoodTest | src/main.rs:59-62 | the neighbourhood of {(0, 1)} has 9 cells |
| LifeTests.NeighborsUnionOfFive | src/main.rs:50-52 | taking five cells one at a time, the union equals the sum of their neighbour sets |
| LifeTests.GliderNeighborhoodWithin | src/main.rs:64-69 | the glider's neighbourhood lies inside the 5x5 box around the origin, minus three corners and the cell (2, -1) |
| LifeTests.GliderNeighborhoodCovers | src/main.rs:64-69 | every cell of that 21-cell region is alive in the glider or adjacent to a glider cell |
| LifeTests.GliderNeighborhoodSize | src/main.rs:64-69 | the region has 21 cells |
| LifeTests.GliderNeighborhoodTest | src/main.rs:58-69 | the glider's neighbourhood is exactly that region and has 21 cells |
| LifeTests.RuleIsolatedTest | src/main.rs:91-93 | (0, 0) alone dies of isolation |
| LifeTests.RuleOneNeighborTest | src/main.rs:94-95 | (0, 0) with the one neighbour (0, 1) dies |
| LifeTests.RuleTwoNeighborsTest | src/main.rs:97-99 | (0, 0) with two neighbours survives |
| LifeTests.RuleThreeNeighborsTest | src/main.rs:100-101 | (0, 0) with three neighbours survives |
| LifeTests.RuleOvercrowdedTest | src/main.rs:103-105 | in the glider, (0, 0) has four neighbours and dies of overcrowding |
| LifeTests.RuleBirthTest | src/main.rs:107-108 | in the glider, the dead cell (-1, 1) has exactly three neighbours and is born |

## Left out

- The greeting and the per-iteration line with the step number and the
  population (src/main.rs:113, src/main.rs:136) are output only. They are not
  modelled.
- The driver's fixed glider seed and its fixed 1103 iterations become the
  parameters `seed` and `steps` of `Run`. The glider itself appears in
  `LifeTests.Glider`.
- The `i64` coordinates are unbounded integers. The overflow of `self.x + x`
  at the edge of the 64-bit range is not modelled.
- Hashing, `clone` and the concrete iteration order of `HashSet` are left out.
  Sets are Dafny's mathematical sets, and loops pick elements in an arbitrary
  order.
- Life.Evolve: no lemma relates several calls, such as splitting `m + n` steps
  or showing that the empty generation stays empty for any number of steps.
  Each such proof unrolls the rule over many generations at once, beyond what
  the verifier handles here. The one-step facts are `EmptyStaysEmpty` and
  `NextGenerationExact`.
