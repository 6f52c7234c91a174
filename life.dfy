/** Conway's rule on the unbounded lattice, stated on the set of living
    coordinates: the reference both engines are measured against. */
module Life {
  import opened Sequences
  import opened Cells

  /** How many positions around `p` are in `alive`. */
  function LiveCount(alive: set<Cell>, p: Cell): nat {
    |set q | q in alive && Adjacent(p, q)|
  }

  /** Birth with exactly three living neighbours; survival with two or three. */
  predicate LifeRule(isAlive: bool, livingNeighbours: int) {
    if isAlive then livingNeighbours == 2 || livingNeighbours == 3
    else livingNeighbours == 3
  }

  /** Whether `p` is alive in the generation after `alive`. */
  predicate AliveNext(alive: set<Cell>, p: Cell) {
    LifeRule(p in alive, LiveCount(alive, p))
  }

  /** Conway's count around `cell` is the number of its neighbour locations
      that are alive. */
  lemma LiveCountByLocations(alive: set<Cell>, cell: Cell)
    ensures LiveCount(alive, cell) == CountIn(GetCellNeighboursLocations(cell), alive)
  {
    var around := GetCellNeighboursLocations(cell);
    CountInDistinct(around, alive);
    assert ToSet(around) * alive == set q | q in alive && Adjacent(cell, q);
  }
}
