/** One living lattice position and the survival rule (EfficientSolution/Cell.cs). */
module Cells {
  import opened Sequences

  /** A cell is its coordinate pair. Being a datatype value, `x` and `y` are
      fixed when it is built and nothing can assign them afterwards. */
  datatype Cell = Cell(x: int, y: int)

  /** A cell with at most this many living neighbours dies of solitude. */
  const SolitudeDeathCount := 1
  /** A cell with at least this many living neighbours dies of overpopulation. */
  const DeathByOverPopulation := 4

  /** `q` is one of the eight lattice positions around `p`
      (Chebyshev distance exactly 1). */
  predicate Adjacent(p: Cell, q: Cell) {
    p != q && -1 <= q.x - p.x <= 1 && -1 <= q.y - p.y <= 1
  }

  /** The eight positions around `c`, as a set. */
  function MooreSet(c: Cell): (m: set<Cell>)
    ensures forall q :: q in m <==> Adjacent(c, q)
  {
    var m := {Cell(c.x - 1, c.y - 1), Cell(c.x, c.y - 1), Cell(c.x + 1, c.y - 1),
              Cell(c.x - 1, c.y),                         Cell(c.x + 1, c.y),
              Cell(c.x - 1, c.y + 1), Cell(c.x, c.y + 1), Cell(c.x + 1, c.y + 1)};
    assert forall q :: Adjacent(c, q) ==> q in m by {
      forall q | Adjacent(c, q) ensures q in m {
        assert q == Cell(c.x + (q.x - c.x), c.y + (q.y - c.y));
      }
    }
    m
  }

  /** `getCellNeighboursLocations` of the sparse engine: the eight positions
      around `cell`, in the source's order: the row above,
      the two sides, the row below. */
  function GetCellNeighboursLocations(cell: Cell): (r: seq<Cell>)
    ensures |r| == 8 && Distinct(r)
    ensures forall q :: q in r <==> Adjacent(cell, q)
  {
    var r := [Cell(cell.x - 1, cell.y - 1), Cell(cell.x, cell.y - 1), Cell(cell.x + 1, cell.y - 1),
              Cell(cell.x - 1, cell.y),                               Cell(cell.x + 1, cell.y),
              Cell(cell.x - 1, cell.y + 1), Cell(cell.x, cell.y + 1), Cell(cell.x + 1, cell.y + 1)];
    assert forall q :: Adjacent(cell, q) ==> q in r by {
      forall q | Adjacent(cell, q) ensures q in r {
        assert q in MooreSet(cell);
      }
    }
    r
  }

  /** `d` lies in the 3x3 box centred on `cell` (the box includes `cell`). */
  predicate InBox(cell: Cell, d: Cell) {
    d.x >= cell.x - 1 && d.x <= cell.x + 1 && d.y >= cell.y - 1 && d.y <= cell.y + 1
  }

  /** The entries of `allLivingCells` inside the 3x3 box around `cell`, other
      than `cell` itself, in list order. The source compares `cell != this` by
      reference; here it is coordinate inequality (see FreshCellExcludesNothing). */
  function GetNeighbours(cell: Cell, allLivingCells: seq<Cell>): (r: seq<Cell>)
    ensures forall d :: d in r <==> d in allLivingCells && Adjacent(cell, d)
    ensures forall d :: multiset(r)[d] == if Adjacent(cell, d) then multiset(allLivingCells)[d] else 0
    ensures IsSubsequence(r, allLivingCells)
    ensures Distinct(allLivingCells) ==> Distinct(r)
  {
    var p := (d: Cell) => InBox(cell, d) && d != cell;
    FilterFacts(allLivingCells, p);
    Filter(allLivingCells, p)
  }

  /** Where the reference test `cell != this` can never fire (a freshly built
      cell whose coordinate is not in the list), coordinate inequality
      excludes nothing either: the result is the plain 3x3 box filter. */
  lemma FreshCellExcludesNothing(cell: Cell, allLivingCells: seq<Cell>)
    requires cell !in allLivingCells
    ensures GetNeighbours(cell, allLivingCells) == Filter(allLivingCells, (d: Cell) => InBox(cell, d))
  {
    FilterCongruent(allLivingCells, (d: Cell) => InBox(cell, d) && d != cell, (d: Cell) => InBox(cell, d));
  }

  /** The survival rule, to be asked of a living cell only: it lives on exactly
      when it has two or three living neighbours, whatever they are. */
  function DecideIfAlive(livingNeighbourCells: seq<Cell>): (alive: bool)
    ensures alive <==> |livingNeighbourCells| == 2 || |livingNeighbourCells| == 3
  {
    var livingNeighbours := |livingNeighbourCells|;
    if livingNeighbours <= SolitudeDeathCount then false
    else if livingNeighbours >= DeathByOverPopulation then false
    else true
  }
}
