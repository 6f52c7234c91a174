/** The dense engine of the window class (Form1.cs): a fixed 100 x 100 grid
    of booleans, stepped into a fresh grid that is then swapped in. Painting,
    the timer and the buttons are not modelled. */
module Dense {
  import opened Sequences
  import Cells
  import Life

  const GameWidth := 100
  const GameHeight := 100

  const LivingNeighboursToCreateLife := 3
  const SolitudeDeathCount := 1
  const DeathByOverPopulation := 4

  /** The starting pattern: `PatternHeight` rows of `PatternWidth` characters,
      a `*` marking a living cell (a glider and a smaller shape). */
  const PatternWidth := 12
  const PatternHeight := 10
  const Pattern: string :=
    "            " +
    "            " +
    "  *         " +
    "* *         " +
    " **         " +
    "           *" +
    "         ** " +
    "          **" +
    "            " +
    "            "
  /** Where the pattern's top-left character lands on the grid. */
  const OffsetX := 20
  const OffsetY := 10

  /** Whether the string `s`, read as rows of `width` characters, has a `*`
      at column `col` of row `row`. */
  predicate Marked(s: string, width: int, col: int, row: int) {
    0 <= col < width && 0 <= row && row * width + col < |s| && s[row * width + col] == '*'
  }

  /** In a `width` x `height` rectangle stored row by row, (x, y) sits at
      index `y * width + x`, inside the storage. */
  lemma RowMajorIndex(x: int, y: int, width: int, height: int)
    requires 0 <= x < width && 0 <= y < height
    ensures 0 <= y * width + x < width * height
  {
    calc {
      y * width + x;
    <
      (y + 1) * width;
    <= { assert y + 1 <= height; }
      height * width;
    }
  }

  /** Whether `setup` leaves grid cell (x, y) alive: inside the pattern's
      window and marked `*` there. */
  predicate SetupAlive(x: int, y: int) {
    OffsetX <= x < OffsetX + PatternWidth && OffsetY <= y < OffsetY + PatternHeight
    && Marked(Pattern, PatternWidth, x - OffsetX, y - OffsetY)
  }

  class Form1 {
    var cells: array2<bool>
    var iterationCells: array2?<bool>
    var maxX: int
    var maxY: int

    ghost predicate Valid()
      reads this`cells, this`maxX, this`maxY
    {
      cells.Length0 == GameWidth && cells.Length1 == GameHeight
      && maxX == GameWidth - 1 && maxY == GameHeight - 1
    }

    /** A fresh grid holding the starting pattern. */
    constructor ()
      ensures Valid() && fresh(cells) && iterationCells == null
      ensures forall x, y | 0 <= x < GameWidth && 0 <= y < GameHeight :: cells[x, y] == SetupAlive(x, y)
    {
      cells := new bool[GameWidth, GameHeight];
      iterationCells := null;
      maxX := GameWidth - 1;
      maxY := GameHeight - 1;
      new;
      Setup();
    }

    /** Clears the grid, then copies the pattern into it at the offset. */
    method Setup()
      requires Valid()
      modifies cells
      ensures forall x, y | 0 <= x < GameWidth && 0 <= y < GameHeight :: cells[x, y] == SetupAlive(x, y)
    {
      var xx, yy, s := PatternWidth, PatternHeight, Pattern;
      var offsetX, offsetY := OffsetX, OffsetY;
      for y := 0 to GameHeight
        invariant forall i, j | 0 <= i < GameWidth && 0 <= j < y :: !cells[i, j]
      {
        for x := 0 to GameWidth
          invariant forall i, j | 0 <= i < GameWidth && 0 <= j < y :: !cells[i, j]
          invariant forall i | 0 <= i < x :: !cells[i, y]
        {
          cells[x, y] := false;
        }
      }
      PlacePattern(s, xx, yy, offsetX, offsetY);
    }

    /** The second half of `setup`: copies the `xx` x `yy` pattern `s`, stored
        row by row, into the grid with its top-left corner at
        (offsetX, offsetY); a `*` becomes a living cell, anything else a dead
        one. Cells outside that window keep their value. */
    method PlacePattern(s: string, xx: nat, yy: nat, offsetX: int, offsetY: int)
      requires Valid()
      requires |s| == xx * yy
      requires 0 <= offsetX && offsetX + xx <= GameWidth && 0 <= offsetY && offsetY + yy <= GameHeight
      modifies cells
      ensures forall i, j | 0 <= i < GameWidth && 0 <= j < GameHeight ::
                cells[i, j] == if offsetX <= i < offsetX + xx && offsetY <= j < offsetY + yy
                               then Marked(s, xx, i - offsetX, j - offsetY) else old(cells[i, j])
    {
      for y := 0 to yy
        invariant forall i, j | 0 <= i < GameWidth && 0 <= j < GameHeight ::
                    cells[i, j] == if offsetX <= i < offsetX + xx && offsetY <= j < offsetY + y
                                   then Marked(s, xx, i - offsetX, j - offsetY) else old(cells[i, j])
      {
        for x := 0 to xx
          invariant forall i, j | 0 <= i < GameWidth && 0 <= j < GameHeight ::
                      cells[i, j] == if (offsetX <= i < offsetX + xx && offsetY <= j < offsetY + y)
                                        || (j == offsetY + y && offsetX <= i < offsetX + x)
                                     then Marked(s, xx, i - offsetX, j - offsetY) else old(cells[i, j])
        {
          RowMajorIndex(x, y, xx, yy);
          cells[x + offsetX, y + offsetY] := s[(y * xx) + x] == '*';
        }
      }
    }

    /** The bounds-checked read of the step. Column `maxX` and row `maxY`
        are read as dead although they lie inside the grid. */
    function IsAlive(x: int, y: int): (alive: bool)
      requires Valid()
      reads this`cells, this`maxX, this`maxY, cells
      ensures alive <==> 0 <= x < maxX && 0 <= y < maxY && cells[x, y]
    {
      if x < 0 then false
      else if x >= maxX then false
      else if y < 0 then false
      else if y >= maxY then false
      else cells[x, y]
    }

    /** The number of the eight positions around (x, y) that `IsAlive` reports living. */
    function LivingNeighbours(x: int, y: int): (n: nat)
      requires Valid()
      reads this`cells, this`maxX, this`maxY, cells
      ensures n <= 8
    {
      (if IsAlive(x - 1, y - 1) then 1 else 0) + (if IsAlive(x, y - 1) then 1 else 0)
      + (if IsAlive(x + 1, y - 1) then 1 else 0) + (if IsAlive(x - 1, y) then 1 else 0)
      + (if IsAlive(x + 1, y) then 1 else 0) + (if IsAlive(x - 1, y + 1) then 1 else 0)
      + (if IsAlive(x, y + 1) then 1 else 0) + (if IsAlive(x + 1, y + 1) then 1 else 0)
    }

    /** The living cells as the step sees them: every grid cell that `IsAlive`
        reports living. */
    ghost function AliveAsRead(): set<Cells.Cell>
      requires Valid()
      reads this`cells, this`maxX, this`maxY, cells
    {
      set x, y | 0 <= x < maxX && 0 <= y < maxY && cells[x, y] :: Cells.Cell(x, y)
    }

    /** `IsAlive` reports exactly the members of `AliveAsRead`. */
    lemma AliveAsReadMatchesIsAlive(q: Cells.Cell)
      requires Valid()
      ensures q in AliveAsRead() <==> IsAlive(q.x, q.y)
    {
    }

    /** The grid's neighbour count is Conway's count on the cells the step sees. */
    lemma LivingNeighboursIsLiveCount(x: int, y: int)
      requires Valid()
      ensures LivingNeighbours(x, y) == Life.LiveCount(AliveAsRead(), Cells.Cell(x, y))
    {
      var c := Cells.Cell(x, y);
      var seen := AliveAsRead();
      var around := Cells.GetCellNeighboursLocations(c);
      Life.LiveCountByLocations(seen, c);
      CountInEight(around[0], around[1], around[2], around[3], around[4], around[5], around[6], around[7], seen);
      AliveAsReadMatchesIsAlive(around[0]);
      AliveAsReadMatchesIsAlive(around[1]);
      AliveAsReadMatchesIsAlive(around[2]);
      AliveAsReadMatchesIsAlive(around[3]);
      AliveAsReadMatchesIsAlive(around[4]);
      AliveAsReadMatchesIsAlive(around[5]);
      AliveAsReadMatchesIsAlive(around[6]);
      AliveAsReadMatchesIsAlive(around[7]);
    }

    /** Away from column `maxX` and row `maxY`, the value the step writes for
        (x, y) is Conway's rule on the cells the step sees. */
    lemma StepInsideIsLife(x: int, y: int)
      requires Valid()
      requires 0 <= x < maxX && 0 <= y < maxY
      ensures Life.LifeRule(cells[x, y], LivingNeighbours(x, y))
          == Life.AliveNext(AliveAsRead(), Cells.Cell(x, y))
    {
      LivingNeighboursIsLiveCount(x, y);
      AliveAsReadMatchesIsAlive(Cells.Cell(x, y));
    }

    /** The step's running count of the living positions around (x, y). */
    method CountLivingNeighbours(x: int, y: int) returns (livingNeightbours: nat)
      requires Valid()
      ensures livingNeightbours == LivingNeighbours(x, y)
    {
      livingNeightbours := 0;
      if IsAlive(x - 1, y - 1) { livingNeightbours := livingNeightbours + 1; }
      if IsAlive(x, y - 1) { livingNeightbours := livingNeightbours + 1; }
      if IsAlive(x + 1, y - 1) { livingNeightbours := livingNeightbours + 1; }
      if IsAlive(x - 1, y) { livingNeightbours := livingNeightbours + 1; }
      if IsAlive(x + 1, y) { livingNeightbours := livingNeightbours + 1; }
      if IsAlive(x - 1, y + 1) { livingNeightbours := livingNeightbours + 1; }
      if IsAlive(x, y + 1) { livingNeightbours := livingNeightbours + 1; }
      if IsAlive(x + 1, y + 1) { livingNeightbours := livingNeightbours + 1; }
    }

    /** The step's decision for one cell, from whether it is alive and how
        many living neighbours it has. */
    static method NextState(isAlive: bool, livingNeightbours: nat) returns (alive: bool)
      ensures alive == Life.LifeRule(isAlive, livingNeightbours)
    {
      if isAlive {
        if livingNeightbours <= SolitudeDeathCount {
          alive := false;
        } else if livingNeightbours >= DeathByOverPopulation {
          alive := false;
        } else {
          alive := true;
        }
      } else {
        alive := livingNeightbours == LivingNeighboursToCreateLife;
      }
    }

    /** Computes the next generation into a fresh grid from the current one,
        which it only reads, and swaps it in. */
    method Tick()
      requires Valid()
      modifies this
      ensures Valid() && fresh(cells) && iterationCells == cells
      ensures unchanged(old(cells))
      ensures forall x, y {:trigger cells[x, y]} | 0 <= x < GameWidth && 0 <= y < GameHeight ::
                cells[x, y] == Life.LifeRule(old(cells[x, y]), old(LivingNeighbours(x, y)))
    {
      var w, h := GameWidth, GameHeight;
      // `next` names the fresh grid that the field `iterationCells` holds
      var next := new bool[GameWidth, GameHeight];
      iterationCells := next;
      for y := 0 to h
        modifies next
        invariant cells == old(cells) && next != cells && next.Length0 == w && next.Length1 == h
        invariant forall i, j {:trigger next[i, j]} | 0 <= i < w && 0 <= j < y ::
                    next[i, j] == Life.LifeRule(old(cells[i, j]), old(LivingNeighbours(i, j)))
      {
        for x := 0 to w
          modifies next
          invariant cells == old(cells) && next != cells && next.Length0 == w && next.Length1 == h
          invariant unchanged(this`cells, this`maxX, this`maxY, cells)
          invariant forall i, j {:trigger next[i, j]} | 0 <= i < w && 0 <= j < y ::
                      next[i, j] == Life.LifeRule(old(cells[i, j]), old(LivingNeighbours(i, j)))
          invariant forall i {:trigger next[i, y]} | 0 <= i < x ::
                      next[i, y] == Life.LifeRule(old(cells[i, y]), old(LivingNeighbours(i, y)))
        {
          var livingNeightbours := CountLivingNeighbours(x, y);
          assert livingNeightbours == old(LivingNeighbours(x, y));
          var alive := NextState(cells[x, y], livingNeightbours);
          next[x, y] := alive;
        }
      }
      cells := iterationCells;
    }
  }


  /** The count over an eight-element list, summed term by term. */
  lemma CountInEight<T>(a0: T, a1: T, a2: T, a3: T, a4: T, a5: T, a6: T, a7: T, t: set<T>)
    ensures CountIn([a0, a1, a2, a3, a4, a5, a6, a7], t)
         == (if a0 in t then 1 else 0) + (if a1 in t then 1 else 0)
          + (if a2 in t then 1 else 0) + (if a3 in t then 1 else 0)
          + (if a4 in t then 1 else 0) + (if a5 in t then 1 else 0)
          + (if a6 in t then 1 else 0) + (if a7 in t then 1 else 0)
  {
    assert CountIn([a0], t) == (if a0 in t then 1 else 0) by {
      assert [a0][..0] == [];
    }
    assert CountIn([a0, a1], t) == CountIn([a0], t) + (if a1 in t then 1 else 0) by {
      assert [a0, a1][..1] == [a0];
    }
    assert CountIn([a0, a1, a2], t) == CountIn([a0, a1], t) + (if a2 in t then 1 else 0) by {
      assert [a0, a1, a2][..2] == [a0, a1];
    }
    assert CountIn([a0, a1, a2, a3], t) == CountIn([a0, a1, a2], t) + (if a3 in t then 1 else 0) by {
      assert [a0, a1, a2, a3][..3] == [a0, a1, a2];
    }
    assert CountIn([a0, a1, a2, a3, a4], t)
        == CountIn([a0, a1, a2, a3], t) + (if a4 in t then 1 else 0) by {
      assert [a0, a1, a2, a3, a4][..4] == [a0, a1, a2, a3];
    }
    assert CountIn([a0, a1, a2, a3, a4, a5], t)
        == CountIn([a0, a1, a2, a3, a4], t) + (if a5 in t then 1 else 0) by {
      assert [a0, a1, a2, a3, a4, a5][..5] == [a0, a1, a2, a3, a4];
    }
    assert CountIn([a0, a1, a2, a3, a4, a5, a6], t)
        == CountIn([a0, a1, a2, a3, a4, a5], t) + (if a6 in t then 1 else 0) by {
      assert [a0, a1, a2, a3, a4, a5, a6][..6] == [a0, a1, a2, a3, a4, a5];
    }
    assert [a0, a1, a2, a3, a4, a5, a6, a7][..7] == [a0, a1, a2, a3, a4, a5, a6];
  }
}
