/**
 * The engine's unit tests, stated as lemmas about the model: the neighbours
 * of the origin, the sizes of two neighbourhoods, and the rule at the origin
 * for a growing generation that ends as the glider.
 */
module LifeTests {
  import opened Life

  /** The glider the driver starts from. */
  function Glider(): Generation {
    {Cell(0, 1), Cell(1, 1), Cell(-1, 0), Cell(0, 0), Cell(0, -1)}
  }

  /** The cells (x, y) with lo <= y < hi. */
  function Column(x: int, lo: int, hi: int): set<Cell> {
    set y | lo <= y < hi :: Cell(x, y)
  }

  lemma {:induction false} ColumnSize(x: int, lo: int, hi: int)
    requires lo <= hi
    ensures |Column(x, lo, hi)| == hi - lo
    decreases hi - lo
  {
    if lo < hi {
      ColumnSize(x, lo, hi - 1);
      assert Column(x, lo, hi) == Column(x, lo, hi - 1) + {Cell(x, hi - 1)};
    }
  }

  /**
   * The glider's neighbourhood: its 5x5 bounding box less the corners
   * (-2, 2), (-2, -2), (2, -2) and the cell (2, -1).
   */
  function GliderNeighborhood(): set<Cell> {
    Column(-2, -1, 2) + Column(-1, -2, 3) + Column(0, -2, 3) + Column(1, -2, 3) + Column(2, 0, 3)
  }

  /** The origin has eight neighbours, each listed, and is not its own. */
  lemma CellNeighborsTest()
    ensures |NeighborsOf(Cell(0, 0))| == 8
    ensures Cell(-1, -1) in NeighborsOf(Cell(0, 0))
    ensures Cell(-1, 0) in NeighborsOf(Cell(0, 0))
    ensures Cell(-1, 1) in NeighborsOf(Cell(0, 0))
    ensures Cell(0, -1) in NeighborsOf(Cell(0, 0))
    ensures Cell(0, 1) in NeighborsOf(Cell(0, 0))
    ensures Cell(1, -1) in NeighborsOf(Cell(0, 0))
    ensures Cell(1, 0) in NeighborsOf(Cell(0, 0))
    ensures Cell(1, 1) in NeighborsOf(Cell(0, 0))
    ensures Cell(0, 0) !in NeighborsOf(Cell(0, 0))
  {
  }

  /** A single cell's neighbourhood is the cell and its eight neighbours. */
  lemma SingleCellNeighborhoodTest()
    ensures |NeighborhoodOf({Cell(0, 1)})| == 9
  {
    NeighborhoodOfSingleton(Cell(0, 1));
  }

  /** The union of five cells' neighbour sets, added one cell at a time. */
  lemma NeighborsUnionOfFive(c1: Cell, c2: Cell, c3: Cell, c4: Cell, c5: Cell)
    ensures NeighborsUnion({c1} + {c2} + {c3} + {c4} + {c5}) == NeighborsOf(c1) + NeighborsOf(c2)
      + NeighborsOf(c3) + NeighborsOf(c4) + NeighborsOf(c5)
  {
    NeighborsUnionInsert({}, c1);
    assert {} + {c1} == {c1};
    NeighborsUnionInsert({c1}, c2);
    NeighborsUnionInsert({c1} + {c2}, c3);
    NeighborsUnionInsert({c1} + {c2} + {c3}, c4);
    NeighborsUnionInsert({c1} + {c2} + {c3} + {c4}, c5);
  }

  /** The five columns hold 3, 5, 5, 5 and 3 cells and do not overlap. */
  lemma GliderNeighborhoodSize()
    ensures |GliderNeighborhood()| == 21
  {
    ColumnSize(-2, -1, 2);
    ColumnSize(-1, -2, 3);
    ColumnSize(0, -2, 3);
    ColumnSize(1, -2, 3);
    ColumnSize(2, 0, 3);
    var s1 := Column(-2, -1, 2) + Column(-1, -2, 3);
    DisjointColumnsSize(Column(-2, -1, 2), Column(-1, -2, 3), -1);
    var s2 := s1 + Column(0, -2, 3);
    DisjointColumnsSize(s1, Column(0, -2, 3), 0);
    var s3 := s2 + Column(1, -2, 3);
    DisjointColumnsSize(s2, Column(1, -2, 3), 1);
    DisjointColumnsSize(s3, Column(2, 0, 3), 2);
  }

  /** Cells left of column `k` and cells from column `k` on are disjoint. */
  lemma DisjointColumnsSize(a: set<Cell>, b: set<Cell>, k: int)
    requires forall c :: c in a ==> c.x < k
    requires forall d :: d in b ==> d.x >= k
    ensures |a + b| == |a| + |b|
  {
    assert a * b == {};
  }

  /** Every cell of the glider's neighbourhood is a glider cell or a neighbour of one. */
  lemma GliderNeighborhoodWithin()
    ensures NeighborhoodOf(Glider()) <= GliderNeighborhood()
  {
    var expected := GliderNeighborhood();
    NeighborsUnionOfFive(Cell(0, 1), Cell(1, 1), Cell(-1, 0), Cell(0, 0), Cell(0, -1));
    assert Glider() == {Cell(0, 1)} + {Cell(1, 1)} + {Cell(-1, 0)} + {Cell(0, 0)} + {Cell(0, -1)};
    assert NeighborsOf(Cell(0, 1)) <= expected;
    assert NeighborsOf(Cell(1, 1)) <= expected;
    assert NeighborsOf(Cell(-1, 0)) <= expected;
    assert NeighborsOf(Cell(0, 0)) <= expected;
    assert NeighborsOf(Cell(0, -1)) <= expected;
    assert Glider() <= expected;
  }

  /** A glider cell adjacent to `d`, for each of the 21 cells. */
  function GliderWitness(d: Cell): (w: Cell)
    requires d in GliderNeighborhood()
    ensures w in Glider() && Adjacent(w, d)
  {
    if d.x == -2 then Cell(-1, 0)
    else if d.x == 2 then Cell(1, 1)
    else if d.x == 0 && -1 <= d.y <= 1 then Cell(-1, 0)
    else if d.y <= 0 then Cell(0, -1)
    else Cell(0, 1)
  }

  /** Every cell of the 21 is adjacent to some glider cell. */
  lemma GliderNeighborhoodCovers()
    ensures GliderNeighborhood() <= NeighborhoodOf(Glider())
  {
    forall d | d in GliderNeighborhood()
      ensures d in NeighborhoodOf(Glider())
    {
      var w := GliderWitness(d);
      NeighborhoodMember(Glider(), d);
    }
  }

  /** The glider's neighbourhood has 21 cells. */
  lemma GliderNeighborhoodTest()
    ensures NeighborhoodOf(Glider()) == GliderNeighborhood()
    ensures |NeighborhoodOf(Glider())| == 21
  {
    GliderNeighborhoodWithin();
    GliderNeighborhoodCovers();
    GliderNeighborhoodSize();
  }

  // The rule at (0, 0) for the generation the unit test grows cell by cell.

  /** Alone, (0, 0) dies of isolation. */
  lemma RuleIsolatedTest()
    ensures !IsAliveNext({Cell(0, 0)}, Cell(0, 0))
  {
    assert {Cell(0, 0)} * NeighborsOf(Cell(0, 0)) == {};
  }

  /** With one live neighbour, (0, 0) dies of isolation. */
  lemma RuleOneNeighborTest()
    ensures !IsAliveNext({Cell(0, 0), Cell(0, 1)}, Cell(0, 0))
  {
    assert {Cell(0, 0), Cell(0, 1)} * NeighborsOf(Cell(0, 0)) == {Cell(0, 1)};
  }

  /** With two live neighbours, (0, 0) survives. */
  lemma RuleTwoNeighborsTest()
    ensures IsAliveNext({Cell(0, 0), Cell(0, 1), Cell(1, 1)}, Cell(0, 0))
  {
    assert {Cell(0, 0), Cell(0, 1), Cell(1, 1)} * NeighborsOf(Cell(0, 0))
        == {Cell(0, 1), Cell(1, 1)};
  }

  /** With three live neighbours, (0, 0) survives. */
  lemma RuleThreeNeighborsTest()
    ensures IsAliveNext({Cell(0, 0), Cell(0, 1), Cell(1, 1), Cell(-1, 0)}, Cell(0, 0))
  {
    assert {Cell(0, 0), Cell(0, 1), Cell(1, 1), Cell(-1, 0)} * NeighborsOf(Cell(0, 0))
        == {Cell(0, 1), Cell(1, 1), Cell(-1, 0)};
  }

  /** In the glider, (0, 0) has four live neighbours and dies of overcrowding. */
  lemma RuleOvercrowdedTest()
    ensures !IsAliveNext(Glider(), Cell(0, 0))
  {
    assert Glider() * NeighborsOf(Cell(0, 0))
        == {Cell(0, 1), Cell(1, 1), Cell(-1, 0), Cell(0, -1)};
  }

  /** In the glider, the dead cell (-1, 1) has exactly three live neighbours and is born. */
  lemma RuleBirthTest()
    ensures IsAliveNext(Glider(), Cell(-1, 1))
  {
    assert Glider() * NeighborsOf(Cell(-1, 1)) == {Cell(0, 1), Cell(-1, 0), Cell(0, 0)};
  }
}
