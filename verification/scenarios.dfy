/** Small boards on which the rules can be followed by hand. */
module Scenarios {
  import opened Torus
  import opened Life
  import opened Rounds

  /** A 3x3 board with only the corner `(0, 0)` on. */
  const Corner: Grid := [[1, 0, 0], [0, 0, 0], [0, 0, 0]]

  /** Counting wraps across both edges at once: the opposite corner
      `(2, 2)` sees the on cell `(0, 0)` as its lower-right neighbour. */
  lemma CornerSeenDiagonally()
    ensures IsGrid(Corner, 3, 3)
    ensures Adjacent(Corner, 3, 3, 2, 2) == 1
  {
    AdjacentIsEightTerms(Corner, 3, 3, 2, 2);
  }

  /** A 3x3 board whose middle row is on: three cells in a line. */
  const Line: Grid := [[0, 1, 0], [0, 1, 0], [0, 1, 0]]

  const Full: Grid := [[1, 1, 1], [1, 1, 1], [1, 1, 1]]

  /** On a 3x3 torus every cell neighbours all eight others, so three
      cells in a line do not oscillate: every off cell sees three on
      cells and is born, every on cell sees two and stays. */
  lemma LineFillsSmallTorus()
    ensures IsGrid(Line, 3, 3)
    ensures Step(Line, 3, 3) == Full
  {
    var r := Step(Line, 3, 3);
    forall x, y | 0 <= x < 3 && 0 <= y < 3
      ensures r[x][y] == Full[x][y]
    {
      AdjacentIsEightTerms(Line, 3, 3, x, y);
    }
    SameGrid(r, Full, 3, 3);
  }

  /** A 2x2 block in the middle of a 4x4 board. */
  const Block: Grid := [[0, 0, 0, 0], [0, 1, 1, 0], [0, 1, 1, 0], [0, 0, 0, 0]]

  /** The block is a still life. */
  lemma BlockIsStill()
    ensures IsGrid(Block, 4, 4)
    ensures Step(Block, 4, 4) == Block
  {
    var r := Step(Block, 4, 4);
    forall x, y | 0 <= x < 4 && 0 <= y < 4
      ensures r[x][y] == Block[x][y]
    {
      AdjacentIsEightTerms(Block, 4, 4, x, y);
    }
    SameGrid(r, Block, 4, 4);
  }

  /** Three cells in a column, and in a row, in the middle of a 5x5 board. */
  const Upright: Grid := [[0, 0, 0, 0, 0], [0, 0, 0, 0, 0], [0, 1, 1, 1, 0], [0, 0, 0, 0, 0], [0, 0, 0, 0, 0]]
  const Flat: Grid := [[0, 0, 0, 0, 0], [0, 0, 1, 0, 0], [0, 0, 1, 0, 0], [0, 0, 1, 0, 0], [0, 0, 0, 0, 0]]

  lemma UprightCell(x: int, y: int)
    requires 0 <= x < 5 && 0 <= y < 5
    ensures IsGrid(Upright, 5, 5)
    ensures NextCell(Upright, 5, 5, x, y) == Flat[x][y]
  {
    AdjacentIsEightTerms(Upright, 5, 5, x, y);
  }

  lemma UprightTurnsFlat()
    ensures IsGrid(Upright, 5, 5)
    ensures Step(Upright, 5, 5) == Flat
  {
    var r := Step(Upright, 5, 5);
    forall x, y | 0 <= x < 5 && 0 <= y < 5
      ensures r[x][y] == Flat[x][y]
    {
      UprightCell(x, y);
    }
    SameGrid(r, Flat, 5, 5);
  }

  lemma FlatCell(x: int, y: int)
    requires 0 <= x < 5 && 0 <= y < 5
    ensures IsGrid(Flat, 5, 5)
    ensures NextCell(Flat, 5, 5, x, y) == Upright[x][y]
  {
    AdjacentIsEightTerms(Flat, 5, 5, x, y);
  }

  lemma FlatTurnsUpright()
    ensures IsGrid(Flat, 5, 5)
    ensures Step(Flat, 5, 5) == Upright
  {
    var r := Step(Flat, 5, 5);
    forall x, y | 0 <= x < 5 && 0 <= y < 5
      ensures r[x][y] == Upright[x][y]
    {
      FlatCell(x, y);
    }
    SameGrid(r, Upright, 5, 5);
  }

  /** Once the torus leaves room around it, the blinker turns from upright
      to flat and back: it oscillates with period two. */
  lemma BlinkerOscillates()
    ensures IsGrid(Upright, 5, 5)
    ensures StepN(Upright, 5, 5, 1) == Flat
    ensures StepN(Upright, 5, 5, 2) == Upright
  {
    UprightTurnsFlat();
    FlatTurnsUpright();
    assert StepN(Upright, 5, 5, 1) == Flat;
  }

  /** The middle row on and, above it, row 0 already advanced. */
  const TwoRows: Grid := [[1, 1, 0], [1, 1, 0], [1, 1, 0]]

  /** Each off cell of row 0 sees the three on cells of row 1. */
  lemma LineRowZeroBorn(x: int)
    requires 0 <= x < 3
    ensures IsGrid(Line, 3, 3)
    ensures NextCell(Line, 3, 3, x, 0) == 1
  {
    AdjacentIsEightTerms(Line, 3, 3, x, 0);
  }

  /** Task 0 of a round without the barrier: row 0 is born and published. */
  lemma FirstTaskPublishes()
    ensures IsGrid(Line, 3, 3)
    ensures CopyRow(Line, ComputeRow(Line, Line, 3, 3, 0), 3, 3, 0) == TwoRows
  {
    var c0 := ComputeRow(Line, Line, 3, 3, 0);
    var b1 := CopyRow(Line, c0, 3, 3, 0);
    forall x, y | 0 <= x < 3 && 0 <= y < 3
      ensures b1[x][y] == TwoRows[x][y]
    {
      if y == 0 {
        LineRowZeroBorn(x);
      }
    }
    SameGrid(b1, TwoRows, 3, 3);
  }

  /** Row 1 with row 0 already advanced: five on neighbours, so it dies. */
  lemma CrowdedRowDies()
    ensures IsGrid(TwoRows, 3, 3)
    ensures NextCell(TwoRows, 3, 3, 0, 1) == 0
  {
    AdjacentIsEightTerms(TwoRows, 3, 3, 0, 1);
  }

  /** Without the barrier, on a 3x3 board task 1 counts on the board that
      task 0 has already published, and task 2 leaves row 1 alone. */
  lemma RowOneWithoutBarrier(board: Grid, next: Grid)
    requires IsGrid(board, 3, 3) && IsGrid(next, 3, 3)
    ensures RowsOnBoard([0, 1, 2], 3)
    ensures RoundWithoutBarrier(board, next, 3, 3, [0, 1, 2])[0][1]
         == NextCell(CopyRow(board, ComputeRow(board, next, 3, 3, 0), 3, 3, 0), 3, 3, 0, 1)
  {
    var tasks := [0, 1, 2];
    assert tasks[1..] == [1, 2] && tasks[1..][1..] == [2];
    var c0 := ComputeRow(board, next, 3, 3, 0);
    var b1 := CopyRow(board, c0, 3, 3, 0);
    var c1 := ComputeRow(b1, c0, 3, 3, 1);
    var b2 := CopyRow(b1, c1, 3, 3, 1);
    assert RoundWithoutBarrier(board, next, 3, 3, tasks) == RoundWithoutBarrier(b2, c1, 3, 3, [2]);
  }

  /** Without the barrier the same board comes out differently: task 0
      publishes its new row before task 1 counts, so the cells of row 1
      see five on neighbours instead of two and die, where one generation
      keeps them on. */
  lemma BarrierNeeded()
    ensures IsGrid(Line, 3, 3) && RowsOnBoard(Tasks(3), 3)
    ensures RoundWithoutBarrier(Line, Line, 3, 3, Tasks(3))[0][1] == 0
    ensures Step(Line, 3, 3)[0][1] == 1
  {
    LineFillsSmallTorus();
    FirstTaskPublishes();
    CrowdedRowDies();
    RowOneWithoutBarrier(Line, Line);
    assert Tasks(3) == [0, 1, 2];
  }
}
