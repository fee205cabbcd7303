/**
 * Conway's Game of Life on an unbounded integer grid, kept sparse: a
 * generation is the finite set of its alive cells, and every cell outside the
 * set is dead.  The engine has three operations (the neighbours of a cell, the
 * neighbourhood of a generation and the B3/S23 rule) and one step that
 * advances a generation synchronously.
 */
module Life {

  /** A grid position; two cells are equal iff both coordinates are. */
  datatype Cell = Cell(x: int, y: int)

  /** A generation: the alive cells. */
  type Generation = set<Cell>

  /** `d` is one of the eight cells at Chebyshev distance 1 from `c`. */
  predicate Adjacent(c: Cell, d: Cell) {
    d != c && -1 <= d.x - c.x <= 1 && -1 <= d.y - c.y <= 1
  }

  lemma AdjacentSymmetric(c: Cell, d: Cell)
    ensures Adjacent(c, d) <==> Adjacent(d, c)
  {
  }

  // ---------------------------------------------------------------------------
  // Neighbours of a cell
  // ---------------------------------------------------------------------------

  /**
   * The neighbours of `c`: one cell per offset (dx, dy) in {-1, 0, 1}^2 other
   * than (0, 0).  They are exactly the cells adjacent to `c`; there are eight
   * of them and `c` is not one.
   */
  function NeighborsOf(c: Cell): (r: set<Cell>)
    ensures forall d :: d in r <==> Adjacent(c, d)
    ensures c !in r
    ensures |r| == 8
  {
    {Cell(c.x - 1, c.y - 1), Cell(c.x - 1, c.y), Cell(c.x - 1, c.y + 1),
     Cell(c.x, c.y - 1), Cell(c.x, c.y + 1),
     Cell(c.x + 1, c.y - 1), Cell(c.x + 1, c.y), Cell(c.x + 1, c.y + 1)}
  }

  /**
   * `Cell::neighbors`: nested loops over the offsets -1..2 in each coordinate,
   * inserting every shifted cell except the cell itself.
   */
  method Neighbors(c: Cell) returns (r: set<Cell>)
    ensures r == NeighborsOf(c)
  {
    r := {};
    for dx := -1 to 2
      invariant forall d :: d in r <==> Adjacent(c, d) && d.x - c.x < dx
    {
      for dy := -1 to 2
        invariant forall d :: d in r <==>
          Adjacent(c, d) && (d.x - c.x < dx || (d.x - c.x == dx && d.y - c.y < dy))
      {
        if dx != 0 || dy != 0 {
          r := r + {Cell(c.x + dx, c.y + dy)};
        }
      }
    }
  }

  // ---------------------------------------------------------------------------
  // Neighbourhood of a generation
  // ---------------------------------------------------------------------------

  /**
   * The union of the neighbour sets of the cells of `s`, taken one cell at a
   * time in whatever order the set yields them.
   */
  ghost function NeighborsUnion(s: set<Cell>): set<Cell>
    decreases s
  {
    if s == {} then {} else
      var c :| c in s;
      NeighborsUnion(s - {c}) + NeighborsOf(c)
  }

  /** A cell is in the union iff some cell of `s` is adjacent to it. */
  lemma {:induction false} NeighborsUnionMember(s: set<Cell>, d: Cell)
    ensures d in NeighborsUnion(s) <==> exists c :: c in s && Adjacent(c, d)
    decreases s
  {
    if s != {} {
      var c :| c in s && NeighborsUnion(s) == NeighborsUnion(s - {c}) + NeighborsOf(c);
      var rest := s - {c};
      NeighborsUnionMember(rest, d);
      if d in NeighborsUnion(rest) {
        var e :| e in rest && Adjacent(e, d);
        assert e in s;
      } else if d in NeighborsOf(c) {
        assert Adjacent(c, d);
      } else {
        forall e | e in s
          ensures !Adjacent(e, d)
        {
          if e != c {
            assert e in rest;
          }
        }
      }
    }
  }

  /** Adding one cell to `s` adds exactly its neighbours to the union. */
  lemma NeighborsUnionInsert(s: set<Cell>, c: Cell)
    ensures NeighborsUnion(s + {c}) == NeighborsUnion(s) + NeighborsOf(c)
  {
    forall d
      ensures d in NeighborsUnion(s + {c}) <==> d in NeighborsUnion(s) + NeighborsOf(c)
    {
      NeighborsUnionMember(s + {c}, d);
      NeighborsUnionMember(s, d);
      if e :| e in s + {c} && Adjacent(e, d) {
        if e != c {
          assert e in s;
        }
      }
    }
  }

  /**
   * The candidate set for the next generation: the alive cells together with
   * every alive cell's neighbours.
   */
  ghost function NeighborhoodOf(alive: Generation): (r: set<Cell>)
    ensures alive <= r
  {
    alive + NeighborsUnion(alive)
  }

  /** A cell is in the neighbourhood iff it is alive or adjacent to an alive cell. */
  lemma NeighborhoodMember(alive: Generation, d: Cell)
    ensures d in NeighborhoodOf(alive) <==> d in alive || exists c :: c in alive && Adjacent(c, d)
  {
    NeighborsUnionMember(alive, d);
  }

  /**
   * `neighborhood`: starts from a copy of `alive` and extends it with the
   * neighbours of each alive cell in turn.
   */
  method Neighborhood(alive: Generation) returns (r: set<Cell>)
    ensures r == NeighborhoodOf(alive)
  {
    r := alive;
    var todo := alive;
    ghost var done: set<Cell> := {};
    while todo != {}
      invariant todo !! done && todo + done == alive
      invariant r == alive + NeighborsUnion(done)
      decreases |todo|
    {
      var c :| c in todo;
      var nb := Neighbors(c);
      ExtendStep(alive, done, c);
      r := r + nb;
      todo := todo - {c};
      done := done + {c};
    }
  }

  /** One iteration of `Neighborhood`'s loop keeps its invariant. */
  lemma ExtendStep(alive: Generation, done: set<Cell>, c: Cell)
    ensures alive + NeighborsUnion(done) + NeighborsOf(c) == alive + NeighborsUnion(done + {c})
  {
    NeighborsUnionInsert(done, c);
  }

  /** A single cell's neighbourhood is the cell and its eight neighbours. */
  lemma NeighborhoodOfSingleton(c: Cell)
    ensures NeighborhoodOf({c}) == {c} + NeighborsOf(c)
    ensures |NeighborhoodOf({c})| == 9
  {
    assert NeighborsUnion({}) == {};
    NeighborsUnionInsert({}, c);
    assert {} + {c} == {c};
    var n := NeighborsOf(c);
    assert c !in n;
    assert |{c} + n| == |n| + 1;
  }

  lemma {:induction false} NeighborsUnionSize(s: set<Cell>)
    ensures |NeighborsUnion(s)| <= 8 * |s|
    decreases |s|
  {
    if s != {} {
      var c :| c in s;
      var rest := s - {c};
      assert s == rest + {c};
      NeighborsUnionInsert(rest, c);
      NeighborsUnionSize(rest);
      UnionSize(NeighborsUnion(rest), NeighborsOf(c));
    }
  }

  lemma UnionSize(a: set<Cell>, b: set<Cell>)
    ensures |a + b| <= |a| + |b|
  {
    assert |a + b| + |a * b| == |a| + |b|;
  }

  /** The neighbourhood has at most nine cells per alive cell. */
  lemma NeighborhoodSize(alive: Generation)
    ensures |NeighborhoodOf(alive)| <= 9 * |alive|
  {
    NeighborsUnionSize(alive);
    UnionSize(alive, NeighborsUnion(alive));
  }

  // ---------------------------------------------------------------------------
  // The rule
  // ---------------------------------------------------------------------------

  /** The alive cells adjacent to `cell`. */
  function AliveAround(gen: Generation, cell: Cell): set<Cell> {
    set d | d in gen && Adjacent(cell, d)
  }

  /**
   * The number of live neighbours of `cell`, computed as the size of the
   * intersection of `gen` with the neighbour set.  It counts exactly the alive
   * cells adjacent to `cell`, is at most 8, and is 0 iff no alive cell is
   * adjacent.
   */
  function LiveNeighbors(gen: Generation, cell: Cell): (n: nat)
    ensures n == |AliveAround(gen, cell)|
    ensures n == 0 <==> forall d :: d in gen ==> !Adjacent(cell, d)
  {
    var live := gen * NeighborsOf(cell);
    assert live == AliveAround(gen, cell);
    assert forall d :: d in gen && Adjacent(cell, d) ==> d in NeighborsOf(cell) && d in live;
    |live|
  }

  /** A cell has at most eight live neighbours. */
  lemma LiveNeighborsAtMostEight(gen: Generation, cell: Cell)
    ensures LiveNeighbors(gen, cell) <= 8
  {
    var live := gen * NeighborsOf(cell);
    assert |live| + |NeighborsOf(cell) - gen| == |NeighborsOf(cell)|;
  }

  /**
   * `is_alive_in_next_generation`, the B3/S23 rule: an alive cell survives
   * iff two or three alive cells are adjacent to it, and a dead cell is born
   * iff exactly three are.
   */
  predicate IsAliveNext(gen: Generation, cell: Cell): (b: bool)
    ensures cell in gen ==> (b <==> 2 <= |AliveAround(gen, cell)| <= 3)
    ensures cell !in gen ==> (b <==> |AliveAround(gen, cell)| == 3)
  {
    var alive := cell in gen;
    var living := LiveNeighbors(gen, cell);
    if alive && living >= 2 && living < 4 then
      true
    else if !alive && living == 3 then
      true
    else
      false
  }

  /**
   * Restricting evaluation to the neighbourhood loses nothing: a cell outside
   * it is dead, has no live neighbour, and the rule rejects it.
   */
  lemma OutsideNeighborhoodDies(gen: Generation, cell: Cell)
    requires cell !in NeighborhoodOf(gen)
    ensures cell !in gen
    ensures LiveNeighbors(gen, cell) == 0
    ensures !IsAliveNext(gen, cell)
  {
    NeighborhoodMember(gen, cell);
    forall d | d in gen
      ensures !Adjacent(cell, d)
    {
      AdjacentSymmetric(cell, d);
    }
  }

  /** Whether a cell is alive next depends only on its 3x3 block in `gen`. */
  lemma RuleIsLocal(g1: Generation, g2: Generation, cell: Cell)
    requires forall d :: d == cell || Adjacent(cell, d) ==> (d in g1 <==> d in g2)
    ensures IsAliveNext(g1, cell) == IsAliveNext(g2, cell)
  {
    assert AliveAround(g1, cell) == AliveAround(g2, cell);
  }

  // ---------------------------------------------------------------------------
  // Advancing a generation
  // ---------------------------------------------------------------------------

  /**
   * The next generation: the cells of the neighbourhood that the rule keeps,
   * every rule evaluation reading `gen` itself.
   */
  ghost function NextGeneration(gen: Generation): (r: Generation)
    ensures r <= NeighborhoodOf(gen)
  {
    set c | c in NeighborhoodOf(gen) && IsAliveNext(gen, c)
  }

  /**
   * Evaluating only the neighbourhood is complete: a cell is alive in the next
   * generation iff the rule, applied to the current generation, says so.
   */
  lemma NextGenerationExact(gen: Generation, cell: Cell)
    ensures cell in NextGeneration(gen) <==> IsAliveNext(gen, cell)
  {
    if cell !in NeighborhoodOf(gen) {
      OutsideNeighborhoodDies(gen, cell);
    }
  }

  /**
   * The body of one iteration of the driver: compute the neighbourhood, then
   * insert into a fresh set every candidate the rule keeps, evaluating the
   * rule against the unmodified `gen`.
   */
  method Advance(gen: Generation) returns (next: Generation)
    ensures next == NextGeneration(gen)
  {
    var hood := Neighborhood(gen);
    next := {};
    var todo := hood;
    while todo != {}
      invariant todo <= hood
      invariant forall c :: c in next <==> c in hood && c !in todo && IsAliveNext(gen, c)
      decreases |todo|
    {
      var cell :| cell in todo;
      if IsAliveNext(gen, cell) {
        next := next + {cell};
      }
      todo := todo - {cell};
    }
  }

  /** The empty generation stays empty. */
  lemma EmptyStaysEmpty()
    ensures NextGeneration({}) == {}
  {
    assert NeighborhoodOf({}) == {};
  }

  /** The generation after `steps` synchronous advances of `seed`. */
  ghost function Evolve(seed: Generation, steps: nat): (r: Generation)
  {
    if steps == 0 then seed else NextGeneration(Evolve(seed, steps - 1))
  }

  /** A generation grows at most ninefold in one step. */
  lemma NextGenerationSize(gen: Generation)
    ensures |NextGeneration(gen)| <= 9 * |gen|
  {
    NeighborhoodSize(gen);
    SubsetSize(NextGeneration(gen), NeighborhoodOf(gen));
  }

  lemma SubsetSize(a: set<Cell>, b: set<Cell>)
    requires a <= b
    ensures |a| <= |b|
  {
    assert b == a + (b - a);
  }

  /**
   * The driver loop without its printing: advance `seed` `steps` times, each
   * time clearing the current generation and refilling it with the new one.
   */
  method Run(seed: Generation, steps: nat) returns (current: Generation)
    ensures current == Evolve(seed, steps)
  {
    current := seed;
    for i := 0 to steps
      invariant current == Evolve(seed, i)
    {
      var next := Advance(current);
      current := {};
      current := current + next;
    }
  }
}
