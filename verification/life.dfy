/** The pure rules of the game: the board, the neighbour count of
    `adjacent_to`, the per-cell rule inside `play`, and one generation. */
module Life {
  import opened Torus

  /** A board as the program stores it: column-first, `g[x][y]` is the
      cell in column `x` and row `y`; a nonzero cell is on. */
  type Grid = seq<seq<int>>

  /** `g` has `w` columns of `h` cells each, on a non-empty board. */
  predicate IsGrid(g: Grid, w: int, h: int)
  {
    w > 0 && h > 0 && |g| == w && forall x :: 0 <= x < w ==> |g[x]| == h
  }

  /** Every cell holds 0 or 1, as after `read_file`. */
  predicate IsBinary(g: Grid)
  {
    forall x, y :: 0 <= x < |g| && 0 <= y < |g[x]| ==> g[x][y] == 0 || g[x][y] == 1
  }

  /** The all-off board that `initialize_board` produces. */
  function Empty(w: int, h: int): (g: Grid)
    requires w > 0 && h > 0
    ensures IsGrid(g, w, h) && IsBinary(g)
    ensures forall x, y :: 0 <= x < w && 0 <= y < h ==> g[x][y] == 0
  {
    seq(w, x => seq(h, y => 0))
  }

  /** Two grids of the same shape that agree on every cell are equal. */
  lemma SameGrid(a: Grid, b: Grid, w: int, h: int)
    requires IsGrid(a, w, h) && IsGrid(b, w, h)
    requires forall x, y :: 0 <= x < w && 0 <= y < h ==> a[x][y] == b[x][y]
    ensures a == b
  {
    forall x | 0 <= x < w
      ensures a[x] == b[x]
    {
      assert forall y :: 0 <= y < h ==> a[x][y] == b[x][y];
    }
  }

  /** The nine offsets `(k, l)` in the order the two nested loops of
      `adjacent_to` visit them: `k` outer, `l` inner, each from -1 to 1. */
  const Ring: seq<(int, int)> :=
    [(-1, -1), (-1, 0), (-1, 1), (0, -1), (0, 0), (0, 1), (1, -1), (1, 0), (1, 1)]

  /** The cell at offset `o` from `(i, j)`, wrapped in both directions. */
  function NeighbourAt(g: Grid, w: int, h: int, i: int, j: int, o: (int, int)): int
    requires IsGrid(g, w, h) && 0 <= i < w && 0 <= j < h
  {
    g[Wrap(i + o.0, w)][Wrap(j + o.1, h)]
  }

  /** Offset `o` contributes to the count: it is not the cell itself
      (`k || l`) and the wrapped cell is on. */
  predicate Counted(g: Grid, w: int, h: int, i: int, j: int, o: (int, int))
    requires IsGrid(g, w, h) && 0 <= i < w && 0 <= j < h
  {
    o != (0, 0) && NeighbourAt(g, w, h, i, j, o) != 0
  }

  /** What offset `o` adds to the count: 1 if it is counted, else 0. */
  function Contribution(g: Grid, w: int, h: int, i: int, j: int, o: (int, int)): int
    requires IsGrid(g, w, h) && 0 <= i < w && 0 <= j < h
  {
    if Counted(g, w, h, i, j, o) then 1 else 0
  }

  /** How many of the first `n` offsets the loops visit are counted. */
  function CountFirst(g: Grid, w: int, h: int, i: int, j: int, n: int): (r: nat)
    requires IsGrid(g, w, h) && 0 <= i < w && 0 <= j < h && 0 <= n <= |Ring|
    ensures r <= n
    ensures n > 4 ==> r < n
    decreases n
  {
    if n == 0 then 0
    else CountFirst(g, w, h, i, j, n - 1) + Contribution(g, w, h, i, j, Ring[n - 1])
  }

  /** `adjacent_to(board, i, j)`: the number of on cells among the eight
      toroidal neighbours of `(i, j)`. */
  function Adjacent(g: Grid, w: int, h: int, i: int, j: int): (r: nat)
    requires IsGrid(g, w, h) && 0 <= i < w && 0 <= j < h
    ensures r <= 8
  {
    CountFirst(g, w, h, i, j, |Ring|)
  }

  /** The set of neighbour offsets whose wrapped cell is on. */
  function LiveNeighbours(g: Grid, w: int, h: int, i: int, j: int): set<(int, int)>
    requires IsGrid(g, w, h) && 0 <= i < w && 0 <= j < h
  {
    set k, l | -1 <= k <= 1 && -1 <= l <= 1 && (k != 0 || l != 0) && NeighbourAt(g, w, h, i, j, (k, l)) != 0 :: (k, l)
  }

  /** No element of `s` occurs twice. */
  predicate Distinct<T(==)>(s: seq<T>)
  {
    forall a, b :: 0 <= a < b < |s| ==> s[a] != s[b]
  }

  /** Counting along the first `n` offsets gives the size of the set of
      counted offsets among them (the offsets are all different). */
  lemma {:induction false} CountFirstIsCard(g: Grid, w: int, h: int, i: int, j: int, n: int)
    requires IsGrid(g, w, h) && 0 <= i < w && 0 <= j < h && 0 <= n <= |Ring|
    ensures CountFirst(g, w, h, i, j, n) == |set o | o in Ring[..n] && Counted(g, w, h, i, j, o)|
    decreases n
  {
    if n > 0 {
      CountFirstIsCard(g, w, h, i, j, n - 1);
      RingGrows(n);
      CountedSetGrows(g, w, h, i, j, Ring[..n - 1], Ring[n - 1]);
    }
  }

  /** The first `n` offsets are the first `n - 1` and one not among them. */
  lemma RingGrows(n: int)
    requires 0 < n <= |Ring|
    ensures Ring[..n] == Ring[..n - 1] + [Ring[n - 1]]
    ensures Ring[n - 1] !in Ring[..n - 1]
  {
    assert Distinct(Ring);
    var front := Ring[..n - 1];
    forall k | 0 <= k < |front|
      ensures front[k] != Ring[n - 1]
    {
      assert front[k] == Ring[k];
    }
  }

  /** Adding an offset not yet listed adds its contribution to the number
      of counted offsets. */
  lemma CountedSetGrows(g: Grid, w: int, h: int, i: int, j: int, front: seq<(int, int)>, last: (int, int))
    requires IsGrid(g, w, h) && 0 <= i < w && 0 <= j < h
    requires last !in front
    ensures |set o | o in front + [last] && Counted(g, w, h, i, j, o)|
         == |set o | o in front && Counted(g, w, h, i, j, o)| + Contribution(g, w, h, i, j, last)
  {
    var sf := set o | o in front && Counted(g, w, h, i, j, o);
    var s := set o | o in front + [last] && Counted(g, w, h, i, j, o);
    if Counted(g, w, h, i, j, last) {
      assert s == sf + {last};
    } else {
      assert s == sf;
    }
  }

  /** The neighbour count is exactly the number of the eight offsets
      `(k, l) != (0, 0)` whose wrapped cell is on. */
  lemma AdjacentCountsLiveNeighbours(g: Grid, w: int, h: int, i: int, j: int)
    requires IsGrid(g, w, h) && 0 <= i < w && 0 <= j < h
    ensures Adjacent(g, w, h, i, j) == |LiveNeighbours(g, w, h, i, j)|
  {
    CountFirstIsCard(g, w, h, i, j, |Ring|);
    assert Ring[..|Ring|] == Ring;
    var s := set o | o in Ring && Counted(g, w, h, i, j, o);
    var n := LiveNeighbours(g, w, h, i, j);
    forall o | o in n
      ensures o in s
    {
      RingHoldsAllOffsets(o.0, o.1);
    }
    forall o | o in s
      ensures o in n
    {
      assert o.0 in {-1, 0, 1} && o.1 in {-1, 0, 1};
    }
    assert n == s;
  }

  /** Every offset of the 3x3 square around a cell is visited. */
  lemma RingHoldsAllOffsets(k: int, l: int)
    requires -1 <= k <= 1 && -1 <= l <= 1
    ensures (k, l) in Ring
  {
    assert Ring[(k + 1) * 3 + (l + 1)] == (k, l);
  }

  /** 1 for an on cell, 0 for an off one. */
  function On(c: int): (r: int)
    ensures r == 0 || r == 1
    ensures r == 1 <==> c != 0
  {
    if c != 0 then 1 else 0
  }

  /** The loops of `adjacent_to` unrolled: the count is the sum of the
      contributions of the nine offsets. */
  lemma AdjacentIsRingSum(g: Grid, w: int, h: int, i: int, j: int)
    requires IsGrid(g, w, h) && 0 <= i < w && 0 <= j < h
    ensures Adjacent(g, w, h, i, j)
      == Contribution(g, w, h, i, j, (-1, -1)) + Contribution(g, w, h, i, j, (-1, 0)) + Contribution(g, w, h, i, j, (-1, 1))
       + Contribution(g, w, h, i, j, (0, -1)) + Contribution(g, w, h, i, j, (0, 0)) + Contribution(g, w, h, i, j, (0, 1))
       + Contribution(g, w, h, i, j, (1, -1)) + Contribution(g, w, h, i, j, (1, 0)) + Contribution(g, w, h, i, j, (1, 1))
  {
    assert CountFirst(g, w, h, i, j, 1) == Contribution(g, w, h, i, j, (-1, -1));
    assert CountFirst(g, w, h, i, j, 2) == CountFirst(g, w, h, i, j, 1) + Contribution(g, w, h, i, j, (-1, 0));
    assert CountFirst(g, w, h, i, j, 3) == CountFirst(g, w, h, i, j, 2) + Contribution(g, w, h, i, j, (-1, 1));
    assert CountFirst(g, w, h, i, j, 4) == CountFirst(g, w, h, i, j, 3) + Contribution(g, w, h, i, j, (0, -1));
    assert CountFirst(g, w, h, i, j, 5) == CountFirst(g, w, h, i, j, 4) + Contribution(g, w, h, i, j, (0, 0));
    assert CountFirst(g, w, h, i, j, 6) == CountFirst(g, w, h, i, j, 5) + Contribution(g, w, h, i, j, (0, 1));
    assert CountFirst(g, w, h, i, j, 7) == CountFirst(g, w, h, i, j, 6) + Contribution(g, w, h, i, j, (1, -1));
    assert CountFirst(g, w, h, i, j, 8) == CountFirst(g, w, h, i, j, 7) + Contribution(g, w, h, i, j, (1, 0));
    assert CountFirst(g, w, h, i, j, 9) == CountFirst(g, w, h, i, j, 8) + Contribution(g, w, h, i, j, (1, 1));
  }

  /** The neighbour count written out as the sum over the eight
      surrounding cells, from the upper-left one to the lower-right one,
      with the row and column before the first being the last and the
      one after the last being the first. */
  lemma AdjacentIsEightTerms(g: Grid, w: int, h: int, i: int, j: int)
    requires IsGrid(g, w, h) && 0 <= i < w && 0 <= j < h
    ensures Adjacent(g, w, h, i, j)
      == On(g[Prev(i, w)][Prev(j, h)]) + On(g[Prev(i, w)][j]) + On(g[Prev(i, w)][Next(j, h)])
       + On(g[i][Prev(j, h)])                                + On(g[i][Next(j, h)])
       + On(g[Next(i, w)][Prev(j, h)]) + On(g[Next(i, w)][j]) + On(g[Next(i, w)][Next(j, h)])
  {
    AdjacentIsRingSum(g, w, h, i, j);
    WrapInRange(i, w);
    WrapInRange(j, h);
    var pi, ni, pj, nj := Prev(i, w), Next(i, w), Prev(j, h), Next(j, h);
    ContributionAt(g, w, h, i, j, (-1, -1), pi, pj);
    ContributionAt(g, w, h, i, j, (-1, 0), pi, j);
    ContributionAt(g, w, h, i, j, (-1, 1), pi, nj);
    ContributionAt(g, w, h, i, j, (0, -1), i, pj);
    ContributionAt(g, w, h, i, j, (0, 1), i, nj);
    ContributionAt(g, w, h, i, j, (1, -1), ni, pj);
    ContributionAt(g, w, h, i, j, (1, 0), ni, j);
    ContributionAt(g, w, h, i, j, (1, 1), ni, nj);
  }

  /** A neighbour offset contributes 1 exactly when the cell it wraps to is on. */
  lemma ContributionAt(g: Grid, w: int, h: int, i: int, j: int, o: (int, int), x: int, y: int)
    requires IsGrid(g, w, h) && 0 <= i < w && 0 <= j < h && o != (0, 0)
    requires x == Wrap(i + o.0, w) && y == Wrap(j + o.1, h)
    ensures Contribution(g, w, h, i, j, o) == On(g[x][y])
  {
  }

  /** Visiting offset `(k, l)`, at position `(k + 1) * 3 + (l + 1)` of
      the loop order, adds one exactly when it is not the centre and its
      wrapped cell is on. */
  lemma CountFirstVisit(g: Grid, w: int, h: int, i: int, j: int, k: int, l: int)
    requires IsGrid(g, w, h) && 0 <= i < w && 0 <= j < h
    requires -1 <= k <= 1 && -1 <= l <= 1
    ensures CountFirst(g, w, h, i, j, (k + 1) * 3 + (l + 1) + 1)
         == CountFirst(g, w, h, i, j, (k + 1) * 3 + (l + 1))
            + (if (k != 0 || l != 0) && NeighbourAt(g, w, h, i, j, (k, l)) != 0 then 1 else 0)
  {
    assert Ring[(k + 1) * 3 + (l + 1)] == (k, l);
  }

  /** On a board at least two cells wide and high, none of the eight
      neighbours of a cell is the cell itself. */
  lemma NeighbourNeverSelf(w: int, h: int, i: int, j: int, o: (int, int))
    requires w >= 2 && h >= 2 && 0 <= i < w && 0 <= j < h
    requires o in Ring && o != (0, 0)
    ensures (Wrap(i + o.0, w), Wrap(j + o.1, h)) != (i, j)
  {
    if o.0 != 0 {
      StepAwayDiffers(i, o.0, w);
    } else {
      StepAwayDiffers(j, o.1, h);
    }
  }

  /** Moving one place left or right on a ring of at least two cells
      always changes the index. */
  lemma StepAwayDiffers(i: int, d: int, n: int)
    requires n >= 2 && 0 <= i < n && (d == 1 || d == -1)
    ensures Wrap(i + d, n) != i
  {
    if 0 <= i + d < n {
      WrapInRange(i + d, n);
    } else {
      WrapEdges(n);
    }
  }

  /** The rule applied to a cell whose current value is `cur` and which
      has `a` on neighbours: three gives on, two keeps the cell as it is,
      anything else gives off. */
  function Rule(a: int, cur: int): (r: int)
    ensures cur == 0 || cur == 1 ==> r == 0 || r == 1
  {
    if a == 3 then 1 else if a == 2 then cur else 0
  }

  /** The outcome for each count: three neighbours give on, two keep the
      cell, any other number gives off. On a 0/1 cell this is the
      birth/survival rule of the file header: an
      off cell is born with exactly three neighbours, an on cell survives
      with two or three and dies of loneliness or overcrowding otherwise. */
  lemma RuleCases(a: int, cur: int)
    ensures a == 3 ==> Rule(a, cur) == 1
    ensures a == 2 ==> Rule(a, cur) == cur
    ensures a < 2 || a > 3 ==> Rule(a, cur) == 0
    ensures cur == 0 ==> (Rule(a, cur) != 0 <==> a == 3)
    ensures cur == 1 ==> (Rule(a, cur) != 0 <==> a == 2 || a == 3)
  {
  }

  /** The next value of cell `(x, y)`. */
  function NextCell(g: Grid, w: int, h: int, x: int, y: int): int
    requires IsGrid(g, w, h) && 0 <= x < w && 0 <= y < h
  {
    Rule(Adjacent(g, w, h, x, y), g[x][y])
  }

  /** One generation: every cell updated from the unchanged old board. */
  function Step(g: Grid, w: int, h: int): (r: Grid)
    requires IsGrid(g, w, h)
    ensures IsGrid(r, w, h)
    ensures forall x, y :: 0 <= x < w && 0 <= y < h ==> r[x][y] == NextCell(g, w, h, x, y)
  {
    seq(w, x requires 0 <= x < w => seq(h, y requires 0 <= y < h => NextCell(g, w, h, x, y)))
  }

  /** A 0/1 board stays a 0/1 board. */
  lemma StepPreservesBinary(g: Grid, w: int, h: int)
    requires IsGrid(g, w, h) && IsBinary(g)
    ensures IsBinary(Step(g, w, h))
  {
    var r := Step(g, w, h);
    forall x, y | 0 <= x < |r| && 0 <= y < |r[x]|
      ensures r[x][y] == 0 || r[x][y] == 1
    {
      assert r[x][y] == Rule(Adjacent(g, w, h, x, y), g[x][y]);
    }
  }

  /** An all-off board has no live neighbours anywhere. */
  lemma {:induction false} CountFirstOnEmpty(w: int, h: int, i: int, j: int, n: int)
    requires w > 0 && h > 0 && 0 <= i < w && 0 <= j < h && 0 <= n <= |Ring|
    ensures CountFirst(Empty(w, h), w, h, i, j, n) == 0
    decreases n
  {
    if n > 0 {
      CountFirstOnEmpty(w, h, i, j, n - 1);
    }
  }

  /** The empty board is a still life. */
  lemma EmptyIsStill(w: int, h: int)
    requires w > 0 && h > 0
    ensures Step(Empty(w, h), w, h) == Empty(w, h)
  {
    var e := Empty(w, h);
    var r := Step(e, w, h);
    forall x | 0 <= x < w
      ensures r[x] == e[x]
    {
      forall y | 0 <= y < h
        ensures r[x][y] == e[x][y]
      {
        CountFirstOnEmpty(w, h, x, y, |Ring|);
      }
    }
  }

  /** `n` generations in a row. */
  function StepN(g: Grid, w: int, h: int, n: nat): (r: Grid)
    requires IsGrid(g, w, h)
    ensures IsGrid(r, w, h)
    decreases n
  {
    if n == 0 then g else Step(StepN(g, w, h, n - 1), w, h)
  }

  /** Any number of generations keeps a 0/1 board a 0/1 board. */
  lemma {:induction false} StepNPreservesBinary(g: Grid, w: int, h: int, n: nat)
    requires IsGrid(g, w, h) && IsBinary(g)
    ensures IsBinary(StepN(g, w, h, n))
  {
    if n > 0 {
      StepNPreservesBinary(g, w, h, n - 1);
      StepPreservesBinary(StepN(g, w, h, n - 1), w, h);
    }
  }
}
