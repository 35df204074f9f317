/** The imperative half of gameoflife.c on the fixed 79x24 arrays:
    `initialize_board`, `adjacent_to`, the two halves of each `play` task,
    and one round of `main` with every compute before every copy. */
module Play {
  import opened Torus
  import opened Life

  /** A board array of the program's fixed size, indexed `[x, y]`. */
  predicate IsBoardArray(a: array2<int>)
  {
    a.Length0 == BoardWidth && a.Length1 == BoardHeight
  }

  /** The contents of a board array as a grid. */
  function ToGrid(a: array2<int>): (g: Grid)
    reads a
    ensures |g| == a.Length0
    ensures forall x :: 0 <= x < a.Length0 ==> |g[x]| == a.Length1
    ensures forall x, y :: 0 <= x < a.Length0 && 0 <= y < a.Length1 ==> g[x][y] == a[x, y]
  {
    seq(a.Length0, x requires 0 <= x < a.Length0 reads a =>
      seq(a.Length1, y requires 0 <= y < a.Length1 reads a => a[x, y]))
  }

  /** `initialize_board`: every cell set to 0. */
  method InitializeBoard(board: array2<int>)
    requires IsBoardArray(board)
    modifies board
    ensures ToGrid(board) == Empty(BoardWidth, BoardHeight)
  {
    var i := 0;
    while i < BoardWidth
      invariant 0 <= i <= BoardWidth
      invariant forall x, y :: 0 <= x < i && 0 <= y < BoardHeight ==> board[x, y] == 0
    {
      var j := 0;
      while j < BoardHeight
        invariant 0 <= j <= BoardHeight
        invariant forall x, y :: 0 <= x < i && 0 <= y < BoardHeight ==> board[x, y] == 0
        invariant forall y :: 0 <= y < j ==> board[i, y] == 0
      {
        board[i, j] := 0;
        j := j + 1;
      }
      i := i + 1;
    }
    SameGrid(ToGrid(board), Empty(BoardWidth, BoardHeight), BoardWidth, BoardHeight);
  }

  /** The wrapped neighbour of the grid view is the array cell that
      `xadd`/`yadd` select. */
  lemma NeighbourInArray(board: array2<int>, i: int, j: int, k: int, l: int, x: int, y: int)
    requires IsBoardArray(board)
    requires 0 <= i < BoardWidth && 0 <= j < BoardHeight
    requires x == Wrap(i + k, BoardWidth) && y == Wrap(j + l, BoardHeight)
    ensures NeighbourAt(ToGrid(board), BoardWidth, BoardHeight, i, j, (k, l)) == board[x, y]
  {
  }

  /** The body of the inner loop of `adjacent_to`: 1 when `(k, l)` is not
      the centre and the cell `xadd`/`yadd` select is on, else 0. */
  method VisitOffset(board: array2<int>, i: int, j: int, k: int, l: int) returns (c: int)
    requires IsBoardArray(board)
    requires 0 <= i < BoardWidth && 0 <= j < BoardHeight
    ensures c == if (k != 0 || l != 0) && NeighbourAt(ToGrid(board), BoardWidth, BoardHeight, i, j, (k, l)) != 0 then 1 else 0
  {
    c := 0;
    if k != 0 || l != 0 {
      var x := XAdd(i, k);
      var y := YAdd(j, l);
      NeighbourInArray(board, i, j, k, l, x, y);
      if board[x, y] != 0 {
        c := 1;
      }
    }
  }

  /** `adjacent_to`: go around the cell with the two nested loops and
      count the on cells at the wrapped positions, skipping the centre. */
  method AdjacentTo(board: array2<int>, i: int, j: int) returns (count: int)
    requires IsBoardArray(board)
    requires 0 <= i < BoardWidth && 0 <= j < BoardHeight
    ensures count == Adjacent(ToGrid(board), BoardWidth, BoardHeight, i, j)
    ensures 0 <= count <= 8
  {
    ghost var g := ToGrid(board);
    ghost var n := 0;
    count := 0;
    var k := -1;
    while k <= 1
      invariant -1 <= k <= 2 && n == (k + 1) * 3
      invariant count == CountFirst(g, BoardWidth, BoardHeight, i, j, n)
    {
      var l := -1;
      while l <= 1
        invariant -1 <= l <= 2 && n == (k + 1) * 3 + (l + 1)
        invariant count == CountFirst(g, BoardWidth, BoardHeight, i, j, n)
      {
        CountFirstVisit(g, BoardWidth, BoardHeight, i, j, k, l);
        var c := VisitOffset(board, i, j, k, l);
        count := count + c;
        l := l + 1;
        n := n + 1;
      }
      k := k + 1;
    }
    assert count == Adjacent(g, BoardWidth, BoardHeight, i, j);
  }

  /** The compute half of `play` for row `i`: for every column the rule is
      applied to the neighbour count, by the four guarded assignments of
      `play` (gameoflife.c lines 105-108). Only `newboard` is written, and only its row `i`. */
  method ComputeRowInPlace(board: array2<int>, newboard: array2<int>, i: int)
    requires IsBoardArray(board) && IsBoardArray(newboard) && board != newboard
    requires 0 <= i < BoardHeight
    modifies newboard
    ensures forall x :: 0 <= x < BoardWidth ==>
      newboard[x, i] == NextCell(ToGrid(board), BoardWidth, BoardHeight, x, i)
    ensures forall x, y :: 0 <= x < BoardWidth && 0 <= y < BoardHeight && y != i ==>
      newboard[x, y] == old(newboard[x, y])
  {
    var j := 0;
    while j < BoardWidth
      invariant 0 <= j <= BoardWidth
      invariant forall x :: 0 <= x < j ==>
        newboard[x, i] == NextCell(ToGrid(board), BoardWidth, BoardHeight, x, i)
      invariant forall x, y :: 0 <= x < BoardWidth && 0 <= y < BoardHeight && (y != i || j <= x) ==>
        newboard[x, y] == old(newboard[x, y])
    {
      var a := AdjacentTo(board, j, i);
      if a == 2 { newboard[j, i] := board[j, i]; }
      if a == 3 { newboard[j, i] := 1; }
      if a < 2 { newboard[j, i] := 0; }
      if a > 3 { newboard[j, i] := 0; }
      j := j + 1;
    }
  }

  /** The copy half of `play` for row `i`: row `i` of `newboard` copied
      into the board, every other row of the board left alone. */
  method CopyRowInPlace(board: array2<int>, newboard: array2<int>, i: int)
    requires IsBoardArray(board) && IsBoardArray(newboard) && board != newboard
    requires 0 <= i < BoardHeight
    modifies board
    ensures forall x :: 0 <= x < BoardWidth ==> board[x, i] == newboard[x, i]
    ensures forall x, y :: 0 <= x < BoardWidth && 0 <= y < BoardHeight && y != i ==>
      board[x, y] == old(board[x, y])
  {
    var j := 0;
    while j < BoardWidth
      invariant 0 <= j <= BoardWidth
      invariant forall x :: 0 <= x < j ==> board[x, i] == newboard[x, i]
      invariant forall x, y :: 0 <= x < BoardWidth && 0 <= y < BoardHeight && (y != i || j <= x) ==>
        board[x, y] == old(board[x, y])
    {
      board[j, i] := newboard[j, i];
      j := j + 1;
    }
  }

  /** One round of `main`: tasks `0 .. THREADS-1` each compute their row,
      and only once all have (the barrier) each copies its row back. The
      board afterwards is one generation of the board before. */
  method PlayRound(board: array2<int>, newboard: array2<int>)
    requires IsBoardArray(board) && IsBoardArray(newboard) && board != newboard
    modifies board, newboard
    ensures ToGrid(board) == Step(old(ToGrid(board)), BoardWidth, BoardHeight)
  {
    ghost var g := ToGrid(board);
    var t := 0;
    while t < Threads
      invariant 0 <= t <= Threads
      invariant ToGrid(board) == g
      invariant forall x, y :: 0 <= x < BoardWidth && 0 <= y < t ==>
        newboard[x, y] == NextCell(g, BoardWidth, BoardHeight, x, y)
    {
      ComputeRowInPlace(board, newboard, t);
      t := t + 1;
    }
    t := 0;
    while t < Threads
      invariant 0 <= t <= Threads
      invariant forall x, y :: 0 <= x < BoardWidth && 0 <= y < BoardHeight ==>
        newboard[x, y] == NextCell(g, BoardWidth, BoardHeight, x, y)
      invariant forall x, y :: 0 <= x < BoardWidth && 0 <= y < t ==> board[x, y] == newboard[x, y]
      invariant forall x, y :: 0 <= x < BoardWidth && t <= y < BoardHeight ==> board[x, y] == g[x][y]
    {
      CopyRowInPlace(board, newboard, t);
      t := t + 1;
    }
    SameGrid(ToGrid(board), Step(g, BoardWidth, BoardHeight), BoardWidth, BoardHeight);
  }
}
