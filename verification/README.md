# Conway's Game of Life on a 79x24 torus, modelled in Dafny

`gameoflife.c` plays Life on a fixed board of 79 columns and 24 rows whose
edges wrap around in both directions. Each round, `main` starts one thread
per row (`THREADS == BOARD_HEIGHT == 24`). The thread for row `i` runs
`play`: it first computes row `i` of the global `newboard` from the shared
board, then waits at a two-phase barrier, then copies its row back into
the board. The initial pattern is read from a text file (`'x'` is on,
anything else is off). After each round the board is printed with `'x'`
and `' '`.

This project models that core as pure functions over `seq<seq<int>>`, plus
one imperative version on `array2<int>`:

- `torus.dfy` (module `Torus`): `xadd`/`yadd` and the board constants. The
  wrap-around loops are a method, and `Wrap(v, n) = v % n` is their meaning.
- `life.dfy` (module `Life`): the board, the neighbour count of
  `adjacent_to`, the per-cell rule, and one generation `Step`.
- `rounds.dfy` (module `Rounds`): one round as its tasks perform it. Every
  task's compute half runs before any task's copy half, which is the
  ordering the barrier guarantees. The module also has the same tasks
  without that ordering, as a contrast.
- `play.dfy` (module `Play`): `initialize_board`, `adjacent_to`, the two
  loops of `play` and a whole round, on `array2<int>` with loop invariants.
  The round is proved equal to `Step`.
- `text.dfy` (module `Text`): `read_file` over the file contents, with
  `fgets` and its 100-character buffer modelled, and the text `print`
  writes.
- `scenarios.dfy` (module `Scenarios`): small boards worked through the
  rules.

As in the source, boards are indexed column-first: `g[x][y]` is column `x`,
row `y`. Cells are `int`s and any nonzero value counts as on. Width and
height are parameters of the pure model, and 79 and 24 are the program's
instance. Integers are mathematical, so there is no overflow anywhere.

Facts about the program that the model makes explicit:
- Cells are `int`s, not booleans. With exactly two neighbours a cell's own
  value is copied through, so a board holding other values than 0 and 1
  keeps them. Each task copies its own row back after the barrier. In
  the program the 24 copies run concurrently on disjoint rows; the model
  runs them in task order.
- `read_file` copies character `i` of the `fgets` buffer for every
  `i < W`, and after a read the buffer holds the line followed by its NUL.
  A line of `W - 1` characters (for example, the last line of a file
  without a final newline) therefore fills a whole row. A line longer
  than 99 characters is split across two `fgets` calls, so its tail is
  read as the next row.
- On a 3x3 torus every cell neighbours all eight others, so three cells
  in a line fill the whole board in one generation
  (`Scenarios.LineFillsSmallTorus`). On a 5x5 torus the same line is the
  period-two blinker (`Scenarios.BlinkerOscillates`).

## Model

| member | source | states |
|---|---|---|
| Torus.AddWrapped | gameoflife.c:49-63 | the two correction loops of `xadd`/`yadd` return a value in `[0, n)` equal to `(i + a) mod n`, for negative offsets too, and return `i + a` unchanged when it is already in range |
| Torus.XAdd | gameoflife.c:49-54 | `xadd` returns a column index in `[0, 79)` congruent to `i + a` modulo the board width |
| Torus.YAdd | gameoflife.c:58-63 | `yadd` returns a row index in `[0, 24)` congruent to `i + a` modulo the board height |
| Torus.WrapCongruent | gameoflife.c:49-53 | the wrapped index differs from `i + a` by a multiple of the dimension |
| Torus.WrapInRange | gameoflife.c:50-53 | an index already on the board comes back unchanged |
| Torus.WrapEdges | gameoflife.c:47-63 | stepping left off column/row 0 lands on the last one, and stepping right off the last lands on 0 |
| Torus.Prev | gameoflife.c:49-53 | the index before `i`, by cases (`n - 1` before 0, otherwise `i - 1`), is the wrapped sum `xadd(i, -1)` |
| Torus.Next | gameoflife.c:49-53 | the index after `i`, by cases (0 after `n - 1`, otherwise `i + 1`), is the wrapped sum `xadd(i, 1)` |
| Life.Adjacent | gameoflife.c:67-81 | the neighbour count is between 0 and 8 |
| Life.CountFirst | gameoflife.c:74-79 | after the first `n` iterations of the nested loops the count is at most `n`, and once the centre has been passed it is below `n`, since the centre is never counted |
| Life.CountFirstIsCard | gameoflife.c:74-79 | after the first `n` iterations the count is the number of distinct visited offsets that are not the centre and whose wrapped cell is on |
| Life.AdjacentIsRingSum | gameoflife.c:74-80 | the count is the sum over the nine offsets of 1 for each non-centre offset whose wrapped cell is on |
| Life.AdjacentCountsLiveNeighbours | gameoflife.c:67-81 | the count equals the number of the eight offsets `(k, l) != (0, 0)` whose wrapped cell is on |
| Life.AdjacentIsEightTerms | gameoflife.c:72-79 | the count is the sum over the eight surrounding wrapped cells of "is on" |
| Life.NeighbourNeverSelf | gameoflife.c:76-79 | on a board at least 2x2 none of the eight wrapped neighbours is the cell itself |
| Life.Rule | gameoflife.c:105-108 | the rule keeps a 0/1 cell 0/1 |
| Life.RuleCases | gameoflife.c:86-96 | the outcome for every count: 3 gives on, 2 keeps the old value, fewer than 2 or more than 3 gives off; on a 0/1 cell a cell is on afterwards exactly when it is off with three neighbours (birth) or on with two or three (survival) |
| Life.StepPreservesBinary | gameoflife.c:99-109 | one generation of a 0/1 board is a 0/1 board |
| Life.StepNPreservesBinary | gameoflife.c:183-201 | any number of rounds keeps a 0/1 board a 0/1 board |
| Life.EmptyIsStill | gameoflife.c:94-95 | the all-off board stays all off |
| Life.Empty | gameoflife.c:40-45 | the initial board has every cell 0 |
| Rounds.TasksPartitionRows | gameoflife.c:186-191 | the `THREADS` tasks get pairwise different rows, all on the board, and every one of the `BOARD_HEIGHT` rows goes to some task |
| Rounds.ComputeRow | gameoflife.c:101-109 | the compute half of task `i` sets every cell of row `i` to the rule applied to the old board's count and cell, and leaves every other row of `newboard` as it was |
| Rounds.CopyRow | gameoflife.c:115-117 | the copy half of task `i` sets row `i` of the board to row `i` of `newboard` and leaves every other row of the board as it was |
| Rounds.ComputeAll | gameoflife.c:101-109 | after all compute halves, every row handed to a task holds its next value computed from the old board, and all other rows keep the stale `newboard` values |
| Rounds.CopyAll | gameoflife.c:112-117 | after all copy halves, exactly the rows handed to a task are taken from `newboard` |
| Rounds.Round | gameoflife.c:101-117 | with all computes before any copy, a round sets exactly the task rows to their next-generation values from the old board, whatever `newboard` held before |
| Rounds.RoundIsStep | gameoflife.c:112-117 | with one task per row, a round equals one pure generation `Step` |
| Rounds.GenerationIsStep | gameoflife.c:183-200 | the round `main` runs on the 79x24 board with `THREADS` tasks is one generation |
| Rounds.RoundWithoutBarrier | gameoflife.c:112-113 | with the barrier removed, rows that no task owns are still never touched |
| Play.InitializeBoard | gameoflife.c:40-45 | `initialize_board` leaves the array equal to the all-off board |
| Play.VisitOffset | gameoflife.c:78-79 | one iteration of the inner loop adds 1 exactly when `(k, l)` is not the centre and the cell at `xadd(i, k)`, `yadd(j, l)` is on |
| Play.AdjacentTo | gameoflife.c:67-81 | the nested loops over `k` and `l` return exactly the pure neighbour count of the array's contents, between 0 and 8 |
| Play.ComputeRowInPlace | gameoflife.c:101-109 | the compute loop writes every cell of row `i` of `newboard`, with the rule's value from the unchanged board, and changes no other row (the board itself is outside its frame) |
| Play.CopyRowInPlace | gameoflife.c:115-117 | the copy loop sets `board[j][i] = newboard[j][i]` for every column and changes no other row |
| Play.PlayRound | gameoflife.c:183-200 | running the 24 compute halves and then the 24 copy halves turns the board into `Step` of the board before |
| Text.Fgets | gameoflife.c:156 | `fgets` stores a prefix of the input of at most 99 characters, with no newline except possibly the last character; it stops only at a newline, a full buffer or the end of the file |
| Text.ReadLines | gameoflife.c:152-156 | one stored line per row: the lines are consecutive pieces of the file from its start, each at most 99 characters, with a newline only as the last character |
| Text.ReadLinesStop | gameoflife.c:152-156 | each stored line ends where `fgets` stops: at 99 characters, after its newline, or at the end of the file; with the prefix clause of `ReadLines` this fixes every line |
| Text.ReadLineStops | gameoflife.c:152-156 | the same for a single line `j`: it has 99 characters, ends with its newline, or the lines up to it are the whole file |
| Text.ParseLines | gameoflife.c:160-162 | cell `(i, j)` is 1 exactly when buffer character `i` of line `j` is `'x'` and 0 otherwise, whenever every stored line is nonempty and at least `W - 1` characters long, so that the line and its NUL cover the first `W` buffer positions; otherwise the first row whose line is not is reported as `ShortLine` |
| Text.ReadFile | gameoflife.c:146-165 | a board read from text has the board's shape and holds only 0 and 1 |
| Text.Render | gameoflife.c:125-142 | the printed board is the `h` printed rows laid end to end, row `j` first to last: character `i` of row `j` is at position `j * (w + 1) + i`, and the text is `h * (w + 1)` characters long |
| Text.RenderLines | gameoflife.c:130-141 | there is one printed line per row, and line `j` is row `j` as `print` writes it |
| Text.ConcatLayout | gameoflife.c:130-141 | writing lines of the same length `m` one after another puts character `i` of line `j` at position `j * m + i`, for `|ls| * m` characters in all |
| Text.RenderLine | gameoflife.c:130-141 | a printed row has `'x'` for each nonzero cell and `' '` for each zero cell, followed by one newline |
| Text.FgetsWholeLine | gameoflife.c:156 | `fgets` on a newline-terminated line that fits the buffer returns exactly that line |
| Text.ReadConcat | gameoflife.c:152-156 | reading back printed rows yields those rows |
| Text.ReadRender | gameoflife.c:125-165 | reading back a printed board gives the board with every nonzero cell made 1 |
| Text.BinaryRoundTrip | gameoflife.c:125-165 | printing a 0/1 board whose rows fit the buffer and reading it back gives the same board |
| Text.BoardRoundTrip | gameoflife.c:146-163 | printing a 0/1 79x24 board and reading it back gives the same board |
| Scenarios.CornerSeenDiagonally | gameoflife.c:67-81 | on a 3x3 board with only `(0, 0)` on, the count at `(2, 2)` is 1, wrapping across both edges |
| Scenarios.LineFillsSmallTorus | gameoflife.c:99-109 | three cells in a line on a 3x3 torus turn every cell on |
| Scenarios.BlockIsStill | gameoflife.c:99-109 | a 2x2 block on a 4x4 torus is unchanged by a generation |
| Scenarios.BlinkerOscillates | gameoflife.c:99-109 | three cells in a column on a 5x5 torus turn into a row and back |
| Scenarios.BarrierNeeded | gameoflife.c:112-113 | without the barrier the 3x3 line comes out differently from one generation: task 1 counts on a board task 0 has already changed |

## Left out

- Threads and the barrier: `pthread_create`, `pthread_join` and `pthread_exit` are left out, and so are `init`, `phase1` and `phase2`. `barrier.h` is not part of this model. Only the ordering the barrier guarantees is modelled: every compute half runs before any copy half. The tasks run one after another.
- The `pthread_create` failure branch (print an error and return -1) is left out. It depends on the thread library, and as written it never runs: `pthread_create` returns 0 or a positive error number, so the `< 0` test never holds, a failed create goes unnoticed and `pthread_join` is later called on an id that was never set.
- File handling: `fopen`, `fclose` and the command-line argument are left out. `read_file` is modelled on the file contents as a string with one `char` per byte of the file, so buffer positions match `s`; a multi-byte character counts as several. A missing file is not modelled.
- Text.ParseLines: reports `ShortLine` for a row whose stored line is empty (the file has ended) or shorter than `W - 1` characters, where the program copies whatever `s` still holds. When the file has ended, `fgets` returns NULL and leaves `s` as it was, so the row repeats the previous line. After a short line, the positions past its NUL still hold the tail of an earlier, longer line. Only positions no earlier `fgets` reached are uninitialised. Modelling the stale buffer would tie each row to the history of reads, and a board read this way is not the file's picture.
- Terminal output: `printf` is modelled only as the text it writes (`Text.Render`). The VT100 clear sequence and `sleep(1)` are left out.
- `malloc` and `free` of the board are left out. The fixed 100-round loop is covered by `Life.StepN` for any number of rounds.
- Torus.AddWrapped: does not model the 32-bit overflow of `i += a` for extreme arguments, because integers here are unbounded. The loops and their result are exact for every offset that does not overflow.
- Life.NeighbourNeverSelf: stated for boards at least 2x2, because on a board one cell wide the wrapped neighbours include the cell itself. The program's board is 79x24.
- Text.BoardRoundTrip: holds for 0/1 boards only, because printing maps every nonzero value to `'x'`. `Text.ReadRender` states the general case.
