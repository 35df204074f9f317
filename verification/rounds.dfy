/** One round as the worker tasks perform it, sequentialised: every task
    first computes its row of `newboard` from the untouched board, and only
    after all have done so (the ordering the barrier enforces) does every
    task copy its row back. */
module Rounds {
  import opened Torus
  import opened Life

  /** The rows handed out by `main`: task `t` gets `colNumber == t`. */
  function Tasks(n: nat): (r: seq<int>)
    ensures |r| == n
    ensures forall t :: 0 <= t < n ==> r[t] == t
  {
    seq(n, t => t)
  }

  /** Every task's row lies on a board of height `h`. */
  predicate RowsOnBoard(tasks: seq<int>, h: int)
  {
    forall t :: 0 <= t < |tasks| ==> 0 <= tasks[t] < h
  }

  /** `THREADS == BOARD_HEIGHT`: the task rows are pairwise different and
      every row of the board is handed to some task, so each row is
      computed and copied by exactly one task. */
  lemma TasksPartitionRows()
    ensures |Tasks(Threads)| == BoardHeight
    ensures RowsOnBoard(Tasks(Threads), BoardHeight)
    ensures Distinct(Tasks(Threads))
    ensures forall y :: 0 <= y < BoardHeight ==> y in Tasks(Threads)
  {
    var ts := Tasks(Threads);
    forall y | 0 <= y < BoardHeight
      ensures y in ts
    {
      assert ts[y] == y;
    }
  }

  /** The first half of one task (`play`, gameoflife.c lines 103-109): row `i` of the
      new board computed from `board`; every other row of `next` kept. */
  function ComputeRow(board: Grid, next: Grid, w: int, h: int, i: int): (r: Grid)
    requires IsGrid(board, w, h) && IsGrid(next, w, h) && 0 <= i < h
    ensures IsGrid(r, w, h)
    ensures forall x :: 0 <= x < w ==> r[x][i] == NextCell(board, w, h, x, i)
    ensures forall x, y :: 0 <= x < w && 0 <= y < h && y != i ==> r[x][y] == next[x][y]
  {
    seq(w, x requires 0 <= x < w => next[x][i := NextCell(board, w, h, x, i)])
  }

  /** The second half of one task (gameoflife.c lines 115-117): row `i` of `next`
      copied into the board; every other row of the board kept. */
  function CopyRow(board: Grid, next: Grid, w: int, h: int, i: int): (r: Grid)
    requires IsGrid(board, w, h) && IsGrid(next, w, h) && 0 <= i < h
    ensures IsGrid(r, w, h)
    ensures forall x :: 0 <= x < w ==> r[x][i] == next[x][i]
    ensures forall x, y :: 0 <= x < w && 0 <= y < h && y != i ==> r[x][y] == board[x][y]
  {
    seq(w, x requires 0 <= x < w => board[x][i := next[x][i]])
  }

  /** All tasks' compute halves, in task order, against the same board. */
  function ComputeAll(board: Grid, next: Grid, w: int, h: int, tasks: seq<int>): (r: Grid)
    requires IsGrid(board, w, h) && IsGrid(next, w, h) && RowsOnBoard(tasks, h)
    ensures IsGrid(r, w, h)
    ensures forall x, y :: 0 <= x < w && 0 <= y < h ==>
      r[x][y] == if y in tasks then NextCell(board, w, h, x, y) else next[x][y]
    decreases |tasks|
  {
    if |tasks| == 0 then next
    else
      var front := tasks[..|tasks| - 1];
      assert RowsOnBoard(front, h);
      assert forall y :: y in tasks <==> y in front || y == tasks[|tasks| - 1] by {
        assert tasks == front + [tasks[|tasks| - 1]];
      }
      ComputeRow(board, ComputeAll(board, next, w, h, front), w, h, tasks[|tasks| - 1])
  }

  /** All tasks' copy halves, in task order. */
  function CopyAll(board: Grid, next: Grid, w: int, h: int, tasks: seq<int>): (r: Grid)
    requires IsGrid(board, w, h) && IsGrid(next, w, h) && RowsOnBoard(tasks, h)
    ensures IsGrid(r, w, h)
    ensures forall x, y :: 0 <= x < w && 0 <= y < h ==>
      r[x][y] == if y in tasks then next[x][y] else board[x][y]
    decreases |tasks|
  {
    if |tasks| == 0 then board
    else
      var front := tasks[..|tasks| - 1];
      assert RowsOnBoard(front, h);
      assert forall y :: y in tasks <==> y in front || y == tasks[|tasks| - 1] by {
        assert tasks == front + [tasks[|tasks| - 1]];
      }
      CopyRow(CopyAll(board, next, w, h, front), next, w, h, tasks[|tasks| - 1])
  }

  /** A round: every compute before any copy. `next` is whatever
      `newboard` held from the previous round. The round updates exactly
      the rows handed to some task, each to its next-generation value
      computed from the old board, whatever the stale contents of `next`. */
  function Round(board: Grid, next: Grid, w: int, h: int, tasks: seq<int>): (r: Grid)
    requires IsGrid(board, w, h) && IsGrid(next, w, h) && RowsOnBoard(tasks, h)
    ensures IsGrid(r, w, h)
    ensures forall x, y :: 0 <= x < w && 0 <= y < h ==>
      r[x][y] == if y in tasks then NextCell(board, w, h, x, y) else board[x][y]
  {
    CopyAll(board, ComputeAll(board, next, w, h, tasks), w, h, tasks)
  }

  /** The same tasks with the barrier taken away and the tasks run one
      after another: each copies its row back as soon as it has computed
      it, so a later task counts neighbours on a partly advanced board. */
  function RoundWithoutBarrier(board: Grid, next: Grid, w: int, h: int, tasks: seq<int>): (r: Grid)
    requires IsGrid(board, w, h) && IsGrid(next, w, h) && RowsOnBoard(tasks, h)
    ensures IsGrid(r, w, h)
    ensures forall x, y :: 0 <= x < w && 0 <= y < h && y !in tasks ==> r[x][y] == board[x][y]
    decreases |tasks|
  {
    if |tasks| == 0 then board
    else
      assert forall y :: y in tasks <==> y == tasks[0] || y in tasks[1..] by {
        assert tasks == [tasks[0]] + tasks[1..];
      }
      var computed := ComputeRow(board, next, w, h, tasks[0]);
      RoundWithoutBarrier(CopyRow(board, computed, w, h, tasks[0]), computed, w, h, tasks[1..])
  }

  /** With one task per row, a round is exactly one generation. */
  lemma RoundIsStep(board: Grid, next: Grid, w: int, h: int)
    requires IsGrid(board, w, h) && IsGrid(next, w, h)
    ensures Round(board, next, w, h, Tasks(h)) == Step(board, w, h)
  {
    var tasks := Tasks(h);
    var r := Round(board, next, w, h, tasks);
    var s := Step(board, w, h);
    forall x | 0 <= x < w
      ensures r[x] == s[x]
    {
      forall y | 0 <= y < h
        ensures r[x][y] == s[x][y]
      {
        assert tasks[y] == y;
      }
    }
  }

  /** The round `main` runs on the 79x24 board with `THREADS` tasks is
      one generation of the pure rule. */
  lemma GenerationIsStep(board: Grid, next: Grid)
    requires IsGrid(board, BoardWidth, BoardHeight) && IsGrid(next, BoardWidth, BoardHeight)
    ensures RowsOnBoard(Tasks(Threads), BoardHeight)
    ensures Round(board, next, BoardWidth, BoardHeight, Tasks(Threads)) == Step(board, BoardWidth, BoardHeight)
  {
    TasksPartitionRows();
    RoundIsStep(board, next, BoardWidth, BoardHeight);
  }
}
