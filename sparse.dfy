/** The sparse engine (EfficientSolution/CellsSystem.cs): the only state is
    the list of living cells, and one iteration rebuilds it from scratch. */
module Sparse {
  import opened Sequences
  import opened Cells
  import opened Life

  /** A dead position comes to life with exactly this many living neighbours. */
  const LivingNeighboursToCreateLife := 3

  /** The entries of `living` located at one of the eight positions around
      `cell`, in list order: the count `getCellsToKill` hands to `DecideIfAlive`. */
  function LivingNeighboursOf(living: seq<Cell>, cell: Cell): (r: seq<Cell>)
    ensures forall l :: l in r <==> l in living && Adjacent(cell, l)
    ensures Distinct(living) ==> Distinct(r)
  {
    var neighbours := GetCellNeighboursLocations(cell);
    FilterFacts(living, l => l in neighbours);
    Filter(living, l => l in neighbours)
  }

  /** One cell's contribution to the candidate list: its neighbour positions
      not already selected, then those of them not alive. */
  function NewCandidates(neighbours: seq<Cell>, selected: seq<Cell>, living: seq<Cell>): seq<Cell> {
    var candidatesNotAlreadySelected := Filter(neighbours, n => n !in selected);
    Filter(candidatesNotAlreadySelected, c => c !in living)
  }

  /** The candidate list after the `foreach` of `getCandidatesForNewLife`
      has visited the cells of `visited`, checking aliveness against `living`. */
  function CandidatesAfter(living: seq<Cell>, visited: seq<Cell>): seq<Cell>
    decreases |visited|
  {
    if visited == [] then []
    else
      var selected := CandidatesAfter(living, visited[..|visited| - 1]);
      selected + NewCandidates(GetCellNeighboursLocations(visited[|visited| - 1]), selected, living)
  }

  /** The cells of `cells` that the survival rule condemns, neighbours being
      counted in `living`. */
  function CellsToKill(cells: seq<Cell>, living: seq<Cell>): seq<Cell> {
    Filter(cells, c => !DecideIfAlive(LivingNeighboursOf(living, c)))
  }

  /** The cells of `cells` not in `cellsToKill`, in order. */
  function SurvivingCells(cells: seq<Cell>, cellsToKill: seq<Cell>): seq<Cell> {
    Filter(cells, c => c !in cellsToKill)
  }

  /** The candidates with exactly three neighbours in `living`. */
  function NewCells(candidates: seq<Cell>, living: seq<Cell>): seq<Cell> {
    Filter(candidates, c => |GetNeighbours(c, living)| == LivingNeighboursToCreateLife)
  }

  /** The list one `Iterate` leaves behind: the survivors in their original
      order, then the births in candidate order, all counted in `living`. */
  function Step(living: seq<Cell>): seq<Cell> {
    SurvivingCells(living, CellsToKill(living, living))
      + NewCells(CandidatesAfter(living, living), living)
  }

  /** One cell's contribution holds exactly its neighbour positions that are
      neither selected already nor alive, and none of them twice. */
  lemma NewCandidatesFacts(neighbours: seq<Cell>, selected: seq<Cell>, living: seq<Cell>)
    requires Distinct(neighbours)
    ensures Distinct(NewCandidates(neighbours, selected, living))
    ensures forall p :: p in NewCandidates(neighbours, selected, living)
               <==> p in neighbours && p !in selected && p !in living
  {
    var notSelected := Filter(neighbours, n => n !in selected);
    FilterDistinct(neighbours, n => n !in selected);
    FilterDistinct(notSelected, c => c !in living);
  }

  /** The candidate list holds no position twice, and holds exactly the dead
      positions next to a visited living cell. */
  lemma {:induction false} CandidatesFacts(living: seq<Cell>, visited: seq<Cell>)
    ensures Distinct(CandidatesAfter(living, visited))
    ensures forall p :: p in CandidatesAfter(living, visited)
               <==> p !in living && exists c :: c in visited && Adjacent(c, p)
    decreases |visited|
  {
    if visited != [] {
      var init, last := visited[..|visited| - 1], visited[|visited| - 1];
      var selected := CandidatesAfter(living, init);
      CandidatesFacts(living, init);
      var neighbours := GetCellNeighboursLocations(last);
      var added := NewCandidates(neighbours, selected, living);
      NewCandidatesFacts(neighbours, selected, living);
      DistinctConcat(selected, added);
      forall p
        ensures p in CandidatesAfter(living, visited)
            <==> p !in living && exists c :: c in visited && Adjacent(c, p)
      {
        if p in selected {
          var c :| c in init && Adjacent(c, p);
          assert c in visited;
        }
      }
    }
  }

  /** Survivors are the living cells the rule spares, in order: filtering by
      membership in the kill list gives the same list as filtering by the
      coordinate-only survival decision, so it does not matter that the
      source tests membership by reference. */
  lemma SurvivorsAreSpared(living: seq<Cell>)
    ensures SurvivingCells(living, CellsToKill(living, living))
         == Filter(living, c => DecideIfAlive(LivingNeighboursOf(living, c)))
  {
    var kill := CellsToKill(living, living);
    FilterCongruent(living, c => c !in kill, c => DecideIfAlive(LivingNeighboursOf(living, c)));
  }

  /** The box filter of `Cell.GetNeighbours` and the neighbour-position count
      of `getCellsToKill` pick out the same entries. */
  lemma GetNeighboursIsLivingNeighbours(living: seq<Cell>, cell: Cell)
    ensures GetNeighbours(cell, living) == LivingNeighboursOf(living, cell)
  {
    var neighbours := GetCellNeighboursLocations(cell);
    FilterCongruent(living, (d: Cell) => InBox(cell, d) && d != cell, l => l in neighbours);
  }

  /** Over a list without repeated coordinates, the neighbour count is the
      number of living positions around the cell. */
  lemma CountIsLiveCount(living: seq<Cell>, cell: Cell)
    requires Distinct(living)
    ensures |LivingNeighboursOf(living, cell)| == LiveCount(ToSet(living), cell)
  {
    var r := LivingNeighboursOf(living, cell);
    DistinctCardinality(r);
    assert ToSet(r) == set q | q in ToSet(living) && Adjacent(cell, q);
  }

  /** The births as the source computes them: every candidate is a freshly
      built cell whose coordinate is not alive, so its `GetNeighbours` count
      is the plain 3x3 box count, without the `cell != this` test. */
  lemma BirthsUseBoxCount(living: seq<Cell>)
    ensures NewCells(CandidatesAfter(living, living), living)
         == Filter(CandidatesAfter(living, living),
                   c => |Filter(living, (d: Cell) => InBox(c, d))| == LivingNeighboursToCreateLife)
  {
    var candidates := CandidatesAfter(living, living);
    CandidatesFacts(living, living);
    forall c | c in candidates
      ensures |GetNeighbours(c, living)| == |Filter(living, (d: Cell) => InBox(c, d))|
    {
      FreshCellExcludesNothing(c, living);
    }
    FilterCongruent(candidates, c => |GetNeighbours(c, living)| == LivingNeighboursToCreateLife,
                    c => |Filter(living, (d: Cell) => InBox(c, d))| == LivingNeighboursToCreateLife);
  }

  /** In a list without repeated coordinates a cell has at most eight neighbours. */
  lemma NeighbourCountAtMostEight(cell: Cell, living: seq<Cell>)
    requires Distinct(living)
    ensures |GetNeighbours(cell, living)| <= 8
  {
    GetNeighboursIsLivingNeighbours(living, cell);
    CountIsLiveCount(living, cell);
    LiveCountByLocations(ToSet(living), cell);
  }

  /** A position is born in a step exactly when it is dead and has exactly
      three living neighbours. */
  lemma BornIffThree(living: seq<Cell>, p: Cell)
    requires Distinct(living)
    ensures p in NewCells(CandidatesAfter(living, living), living)
        <==> p !in living && LiveCount(ToSet(living), p) == LivingNeighboursToCreateLife
  {
    CandidatesFacts(living, living);
    GetNeighboursIsLivingNeighbours(living, p);
    CountIsLiveCount(living, p);
    var alive := ToSet(living);
    if p !in living && LiveCount(alive, p) == LivingNeighboursToCreateLife {
      var around := set q | q in alive && Adjacent(p, q);
      assert |around| == 3;
      var q :| q in around;
      assert q in living && Adjacent(q, p);
    }
  }

  /** A living cell stays in a step exactly when it has two or three living
      neighbours. */
  lemma SurvivesIffTwoOrThree(living: seq<Cell>, p: Cell)
    requires Distinct(living)
    ensures p in SurvivingCells(living, CellsToKill(living, living))
        <==> p in living && (LiveCount(ToSet(living), p) == 2 || LiveCount(ToSet(living), p) == 3)
  {
    SurvivorsAreSpared(living);
    CountIsLiveCount(living, p);
  }

  /** One step over a list without repeated coordinates yields a list without
      repeated coordinates, and it holds exactly the positions that Conway's
      rule makes alive in the next generation. */
  lemma StepIsLife(living: seq<Cell>)
    requires Distinct(living)
    ensures Distinct(Step(living))
    ensures forall p :: p in Step(living) <==> AliveNext(ToSet(living), p)
  {
    var survivors := SurvivingCells(living, CellsToKill(living, living));
    var candidates := CandidatesAfter(living, living);
    var born := NewCells(candidates, living);
    CandidatesFacts(living, living);
    FilterFacts(living, c => c !in CellsToKill(living, living));
    FilterFacts(candidates, c => |GetNeighbours(c, living)| == LivingNeighboursToCreateLife);
    DistinctConcat(survivors, born);
    forall p
      ensures p in Step(living) <==> AliveNext(ToSet(living), p)
    {
      SurvivesIffTwoOrThree(living, p);
      BornIffThree(living, p);
    }
  }

  /** The simulation: the current generation as a list of living cells. */
  class CellsSystem {
    var livingCells: seq<Cell>

    /** Takes the starting cells as they are, repetitions included. */
    constructor (startingCells: seq<Cell>)
      ensures livingCells == startingCells
    {
      livingCells := startingCells;
    }

    /** Computes the next generation from the current list only and then
      replaces the list in one assignment. */
    method Iterate()
      modifies this
      ensures livingCells == Step(old(livingCells))
      ensures Distinct(old(livingCells)) ==>
                Distinct(livingCells)
                && forall p :: p in livingCells <==> AliveNext(ToSet(old(livingCells)), p)
    {
      var candidatesForNewLife := GetCandidatesForNewLife(livingCells);
      var cellsToKill := GetCellsToKill(livingCells);
      var newIterationLivingCells := GetCellsThatSurviveIteration(livingCells, cellsToKill);
      newIterationLivingCells := AddNewCellsForThisIteration(candidatesForNewLife, newIterationLivingCells);
      if Distinct(livingCells) {
        StepIsLife(livingCells);
      }
      livingCells := newIterationLivingCells;
    }

    /** The living cells in the inclusive window, in list order. */
    function GetVisibleCells(screenX: int, screenY: int, screenXMax: int, screenYMax: int): (r: seq<Cell>)
      reads this
      ensures forall c :: c in r <==>
                c in livingCells && screenX <= c.x <= screenXMax && screenY <= c.y <= screenYMax
      ensures forall c :: multiset(r)[c] ==
                if screenX <= c.x <= screenXMax && screenY <= c.y <= screenYMax
                then multiset(livingCells)[c] else 0
      ensures IsSubsequence(r, livingCells)
      ensures screenX > screenXMax || screenY > screenYMax ==> r == []
    {
      var inWindow := (c: Cell) => c.x >= screenX && c.x <= screenXMax && c.y >= screenY && c.y <= screenYMax;
      FilterFacts(livingCells, inWindow);
      Filter(livingCells, inWindow)
    }

    /** The dead positions next to a living cell, each once, in discovery order. */
    method GetCandidatesForNewLife(cells: seq<Cell>) returns (candidatesForNewLife: seq<Cell>)
      ensures candidatesForNewLife == CandidatesAfter(cells, cells)
      ensures Distinct(candidatesForNewLife)
      ensures forall p :: p in candidatesForNewLife <==> p !in cells && exists c :: c in cells && Adjacent(c, p)
    {
      candidatesForNewLife := [];
      for i := 0 to |cells|
        invariant candidatesForNewLife == CandidatesAfter(cells, cells[..i])
      {
        var neighbours := GetCellNeighboursLocations(cells[i]);
        var candidatesNotMatchForLivingCells := NewCandidates(neighbours, candidatesForNewLife, cells);
        assert cells[..i + 1][..i] == cells[..i];
        candidatesForNewLife := candidatesForNewLife + candidatesNotMatchForLivingCells;
      }
      assert cells[..|cells|] == cells;
      CandidatesFacts(cells, cells);
    }

    /** The cells of `cells` whose neighbours in the current generation
      condemn them, in order. */
    method GetCellsToKill(cells: seq<Cell>) returns (cellsToKill: seq<Cell>)
      ensures cellsToKill == CellsToKill(cells, livingCells)
      ensures forall c :: c in cellsToKill <==>
                c in cells && !DecideIfAlive(LivingNeighboursOf(livingCells, c))
    {
      cellsToKill := [];
      for i := 0 to |cells|
        invariant cellsToKill == CellsToKill(cells[..i], livingCells)
      {
        var cell := cells[i];
        var livingNeighbours := LivingNeighboursOf(livingCells, cell);
        assert cells[..i + 1] == cells[..i] + [cell];
        if !DecideIfAlive(livingNeighbours) {
          cellsToKill := cellsToKill + [cell];
        }
      }
      assert cells[..|cells|] == cells;
    }

    /** The cells of `cells` not in `cellsToKill`, in their original order. */
    method GetCellsThatSurviveIteration(cells: seq<Cell>, cellsToKill: seq<Cell>)
      returns (newIterationLivingCells: seq<Cell>)
      ensures newIterationLivingCells == SurvivingCells(cells, cellsToKill)
      ensures forall c :: c in newIterationLivingCells <==> c in cells && c !in cellsToKill
      ensures IsSubsequence(newIterationLivingCells, cells)
    {
      newIterationLivingCells := [];
      for i := 0 to |cells|
        invariant newIterationLivingCells == SurvivingCells(cells[..i], cellsToKill)
      {
        var cell := cells[i];
        assert cells[..i + 1] == cells[..i] + [cell];
        if cell !in cellsToKill {
          newIterationLivingCells := newIterationLivingCells + [cell];
        }
      }
      assert cells[..|cells|] == cells;
      FilterFacts(cells, c => c !in cellsToKill);
    }

    /** Appends to `newIterationLivingCells` every candidate with exactly
      three neighbours in the current generation, in candidate order. */
    method AddNewCellsForThisIteration(candidatesForNewLife: seq<Cell>, newIterationLivingCells: seq<Cell>)
      returns (result: seq<Cell>)
      ensures result == newIterationLivingCells + NewCells(candidatesForNewLife, livingCells)
      ensures forall c :: c in result <==>
                || c in newIterationLivingCells
                || (c in candidatesForNewLife && |GetNeighbours(c, livingCells)| == LivingNeighboursToCreateLife)
    {
      result := newIterationLivingCells;
      for i := 0 to |candidatesForNewLife|
        invariant result == newIterationLivingCells + NewCells(candidatesForNewLife[..i], livingCells)
      {
        var candidate := candidatesForNewLife[i];
        var cell := Cell(candidate.x, candidate.y);
        var livingNeighbours := |GetNeighbours(cell, livingCells)|;
        assert candidatesForNewLife[..i + 1] == candidatesForNewLife[..i] + [candidate];
        if livingNeighbours == LivingNeighboursToCreateLife {
          result := result + [cell];
        }
      }
      assert candidatesForNewLife[..|candidatesForNewLife|] == candidatesForNewLife;
    }
  }
}
