/** The text encoding of a board: `read_file`, which reads the pattern
    file line by line with `fgets` into a 100-character buffer, and
    `print`, which writes one line of `'x'` / `' '` per row. */
module Text {
  import Torus
  import opened Life

  datatype Result<+T, +E> = Ok(value: T) | Err(error: E)

  /** The line read for row `row` does not reach column `w - 1`: the file
      ended before it, or it is shorter than `w - 1` characters. The
      program then copies what the buffer still holds from earlier reads
      (or never-written bytes); the model reports the row instead. */
  datatype ReadError = ShortLine(row: int)

  /** Size of the line buffer `s` of `read_file`. */
  const LineBuffer: int := 100

  /** `fgets(s, size, f)` on the unread rest `input` of the file: the
      characters stored into `s` (before the terminating NUL) and what is
      left of the file. */
  function Fgets(input: string, size: int): (r: (string, string))
    requires size >= 1
    ensures r.0 + r.1 == input
    ensures |r.0| <= size - 1
    ensures forall k :: 0 <= k < |r.0| - 1 ==> r.0[k] != '\n'
    ensures |r.0| == size - 1 || r.1 == [] || (|r.0| > 0 && r.0[|r.0| - 1] == '\n')
    decreases size
  {
    if size == 1 || |input| == 0 then ([], input)
    else if input[0] == '\n' then ([input[0]], input[1..])
    else
      var rest := Fgets(input[1..], size - 1);
      ([input[0]] + rest.0, rest.1)
  }

  /** The lines stored by `n` successive `fgets` calls: consecutive
      pieces of the file from its start, each at most 99 characters and
      with a newline only as its last character. */
  function ReadLines(input: string, n: nat): (lines: seq<string>)
    ensures |lines| == n
    ensures Concat(lines) <= input
    ensures forall j :: 0 <= j < n ==> |lines[j]| <= LineBuffer - 1
    ensures forall j, k :: 0 <= j < n && 0 <= k < |lines[j]| - 1 ==> lines[j][k] != '\n'
    decreases n
  {
    if n == 0 then []
    else
      var first := Fgets(input, LineBuffer);
      var rest := ReadLines(first.1, n - 1);
      var lines := [first.0] + rest;
      assert lines[0] == first.0 && lines[1..] == rest;
      assert Concat(lines) == first.0 + Concat(rest);
      PrefixExtend(first.0, Concat(rest), first.1);
      lines
  }

  /** A stored `line` ends where `fgets` stops: the buffer is full, the
      line ends with its newline, or `consumed`, everything read up to and
      including it, is the whole of `input`. */
  predicate FgetsStopped(line: string, consumed: string, input: string)
  {
    || |line| == LineBuffer - 1
    || (|line| > 0 && line[|line| - 1] == '\n')
    || consumed == input
  }

  /** Each stored line ends where `fgets` stops. With `Concat(lines) <=
      input` this fixes every line. */
  lemma ReadLinesStop(input: string, n: nat)
    ensures forall j :: 0 <= j < n ==>
      FgetsStopped(ReadLines(input, n)[j], Concat(ReadLines(input, n)[..j + 1]), input)
  {
    forall j | 0 <= j < n
      ensures FgetsStopped(ReadLines(input, n)[j], Concat(ReadLines(input, n)[..j + 1]), input)
    {
      ReadLineStops(input, n, j);
    }
  }

  /** Where line `j` of `n` stops, by induction on `j`. */
  lemma {:induction false} ReadLineStops(input: string, n: nat, j: int)
    requires 0 <= j < n
    ensures FgetsStopped(ReadLines(input, n)[j], Concat(ReadLines(input, n)[..j + 1]), input)
    decreases n
  {
    var first := Fgets(input, LineBuffer);
    var rest := ReadLines(first.1, n - 1);
    var lines := ReadLines(input, n);
    assert lines == [first.0] + rest;
    ConcatCons(first.0, rest[..j]);
    assert lines[..j + 1] == [first.0] + rest[..j];
    if j == 0 {
      assert rest[..0] == [];
    } else {
      ReadLineStops(first.1, n - 1, j - 1);
      assert rest[..j] == rest[..(j - 1) + 1];
      StoppedAfter(rest[j - 1], Concat(rest[..j]), first.1, first.0);
      assert lines[j] == rest[j - 1];
    }
  }

  /** Reading `a` first shifts what has been consumed by `a`. */
  lemma StoppedAfter(line: string, consumed: string, input: string, a: string)
    requires FgetsStopped(line, consumed, input)
    ensures FgetsStopped(line, a + consumed, a + input)
  {
    if consumed == input {
      assert a + consumed == a + input;
    }
  }

  /** Concatenating a line in front. */
  lemma ConcatCons(a: string, ls: seq<string>)
    ensures Concat([a] + ls) == a + Concat(ls)
  {
    assert ([a] + ls)[1..] == ls;
  }

  /** A prefix of `b` stays a prefix after putting `a` in front of both. */
  lemma PrefixExtend(a: string, p: string, b: string)
    requires p <= b
    ensures a + p <= a + b
  {
    assert (a + b)[..|a + p|] == a + p;
  }

  /** Every one of the first `w` buffer positions is defined: the line
      itself, then the NUL that `fgets` appends. */
  predicate LineUsable(line: string, w: int)
  {
    |line| > 0 && w <= |line| + 1
  }

  /** Character `i` of the buffer after `fgets` stored `line`. */
  function BufferChar(line: string, i: int): char
    requires 0 <= i <= |line|
  {
    if i < |line| then line[i] else 0 as char
  }

  /** The first row from `from` on whose line is not usable, or `|lines|`. */
  function FirstUnusable(lines: seq<string>, w: int, from: nat): (r: int)
    requires from <= |lines|
    ensures from <= r <= |lines|
    ensures r < |lines| ==> !LineUsable(lines[r], w)
    ensures forall j :: from <= j < r ==> LineUsable(lines[j], w)
    decreases |lines| - from
  {
    if from == |lines| then from
    else if !LineUsable(lines[from], w) then from
    else FirstUnusable(lines, w, from + 1)
  }

  /** The copy loop of `read_file`: cell `(i, j)` is 1 exactly when
      character `i` of line `j` is `'x'`, and 0 otherwise. */
  function ParseLines(lines: seq<string>, w: int): (r: Result<Grid, ReadError>)
    requires w > 0 && |lines| > 0
    ensures r.Ok? <==> forall j :: 0 <= j < |lines| ==> LineUsable(lines[j], w)
    ensures r.Ok? ==> IsGrid(r.value, w, |lines|) && IsBinary(r.value)
    ensures r.Ok? ==> forall i, j :: 0 <= i < w && 0 <= j < |lines| ==>
      (r.value[i][j] == 1 <==> BufferChar(lines[j], i) == 'x')
    ensures r.Err? ==> 0 <= r.error.row < |lines| && !LineUsable(lines[r.error.row], w)
    ensures r.Err? ==> forall j :: 0 <= j < r.error.row ==> LineUsable(lines[j], w)
  {
    var bad := FirstUnusable(lines, w, 0);
    if bad < |lines| then Err(ShortLine(bad))
    else
      Ok(seq(w, i requires 0 <= i < w =>
        seq(|lines|, j requires 0 <= j < |lines| => if BufferChar(lines[j], i) == 'x' then 1 else 0)))
  }

  /** `read_file` on the contents of the pattern file, for a `w` x `h`
      board. `input` is the file's bytes, one `char` per byte, so that
      positions in a line are the positions of the buffer `s`. */
  function ReadFile(input: string, w: int, h: int): (r: Result<Grid, ReadError>)
    requires w > 0 && h > 0
    ensures r.Ok? ==> IsGrid(r.value, w, h) && IsBinary(r.value)
  {
    ParseLines(ReadLines(input, h), w)
  }

  /** One row as `print` writes it: `'x'` for an on cell, `' '` for an off
      one, then a newline. */
  function RenderLine(g: Grid, w: int, h: int, j: int): (line: string)
    requires IsGrid(g, w, h) && 0 <= j < h
    ensures |line| == w + 1 && line[w] == '\n'
    ensures forall i :: 0 <= i < w ==> line[i] == (if g[i][j] != 0 then 'x' else ' ')
  {
    seq(w, i requires 0 <= i < w => if g[i][j] != 0 then 'x' else ' ') + "\n"
  }

  function Concat(ls: seq<string>): string
  {
    if |ls| == 0 then [] else ls[0] + Concat(ls[1..])
  }

  /** The rows of the printed board, top to bottom. */
  function RenderLines(g: Grid, w: int, h: int): (ls: seq<string>)
    requires IsGrid(g, w, h)
    ensures |ls| == h
    ensures forall j :: 0 <= j < h ==> ls[j] == RenderLine(g, w, h, j)
  {
    seq(h, j requires 0 <= j < h => RenderLine(g, w, h, j))
  }

  /** Where character `i` of line `j` lands when lines of length `m` are
      written one after another. */
  function Position(j: int, m: int, i: int): int
  {
    j * m + i
  }

  /** `s` is the lines `ls`, each of length `m`, laid end to end:
      character `i` of line `j` sits at position `j * m + i`. */
  predicate LaidOut(s: string, ls: seq<string>, m: int)
  {
    && (forall k :: 0 <= k < |ls| ==> |ls[k]| == m)
    && |s| == |ls| * m
    && forall j, i :: 0 <= j < |ls| && 0 <= i < m ==>
         0 <= Position(j, m, i) < |s| && s[Position(j, m, i)] == ls[j][i]
  }

  /** Everything `print` writes for one board: the printed rows, top to
      bottom, each `w + 1` characters long. */
  function Render(g: Grid, w: int, h: int): (s: string)
    requires IsGrid(g, w, h)
    ensures LaidOut(s, RenderLines(g, w, h), w + 1)
  {
    ConcatLayout(RenderLines(g, w, h), w + 1);
    Concat(RenderLines(g, w, h))
  }

  /** Lines of the same length `m` concatenated are laid out row after row. */
  lemma ConcatLayout(ls: seq<string>, m: nat)
    requires forall k :: 0 <= k < |ls| ==> |ls[k]| == m
    ensures LaidOut(Concat(ls), ls, m)
  {
    ConcatLength(ls, m);
    ConcatPositions(ls, m);
  }

  /** Every character of every line is at its row's offset. */
  lemma ConcatPositions(ls: seq<string>, m: nat)
    requires forall k :: 0 <= k < |ls| ==> |ls[k]| == m
    ensures forall j, i :: 0 <= j < |ls| && 0 <= i < m ==>
      0 <= Position(j, m, i) < |Concat(ls)| && Concat(ls)[Position(j, m, i)] == ls[j][i]
  {
    forall j, i | 0 <= j < |ls| && 0 <= i < m
      ensures 0 <= Position(j, m, i) < |Concat(ls)| && Concat(ls)[Position(j, m, i)] == ls[j][i]
    {
      ConcatAt(ls, m, j, i);
    }
  }

  /** Lines of the same length `m` laid end to end have length `|ls| * m`. */
  lemma {:induction false} ConcatLength(ls: seq<string>, m: nat)
    requires forall k :: 0 <= k < |ls| ==> |ls[k]| == m
    ensures |Concat(ls)| == |ls| * m
    decreases |ls|
  {
    if |ls| > 0 {
      ConcatLength(ls[1..], m);
      RowsBelow(|ls|, m);
    }
  }

  /** Lines of the same length `m` laid end to end put character `i` of
      line `j` at position `j * m + i`. */
  lemma {:induction false} ConcatAt(ls: seq<string>, m: nat, j: int, i: int)
    requires forall k :: 0 <= k < |ls| ==> |ls[k]| == m
    requires 0 <= j < |ls| && 0 <= i < m
    ensures 0 <= Position(j, m, i) < |Concat(ls)| && Concat(ls)[Position(j, m, i)] == ls[j][i]
    decreases j
  {
    var rest := ls[1..];
    assert Concat(ls) == ls[0] + Concat(rest);
    if j > 0 {
      ConcatAt(rest, m, j - 1, i);
      ShiftRow(j, m, i);
    }
  }

  /** `n` rows of `m` are one row followed by `n - 1` rows. */
  lemma RowsBelow(n: int, m: int)
    requires n > 0
    ensures n * m == m + (n - 1) * m
  {
  }

  /** Position `i` of row `j > 0` lies one row past position `i` of row
      `j - 1`. */
  lemma ShiftRow(j: int, m: int, i: int)
    ensures j * m + i == m + ((j - 1) * m + i)
  {
  }

  /** The board with every nonzero cell made 1. */
  function Normalize(g: Grid, w: int, h: int): (r: Grid)
    requires IsGrid(g, w, h)
    ensures IsGrid(r, w, h) && IsBinary(r)
    ensures forall i, j :: 0 <= i < w && 0 <= j < h ==> (r[i][j] == 1 <==> g[i][j] != 0)
  {
    seq(w, i requires 0 <= i < w => seq(h, j requires 0 <= j < h => if g[i][j] != 0 then 1 else 0))
  }

  /** A newline-terminated line with no other newline that fits the buffer. */
  predicate WholeLine(line: string)
  {
    && 1 <= |line| <= LineBuffer - 1
    && line[|line| - 1] == '\n'
    && forall k :: 0 <= k < |line| - 1 ==> line[k] != '\n'
  }

  /** `fgets` stops exactly after the newline of a line that fits. */
  lemma {:induction false} FgetsWholeLine(line: string, rest: string, size: int)
    requires 1 <= |line| < size
    requires line[|line| - 1] == '\n'
    requires forall k :: 0 <= k < |line| - 1 ==> line[k] != '\n'
    ensures Fgets(line + rest, size) == (line, rest)
    decreases |line|
  {
    var s := line + rest;
    if |line| == 1 {
      assert s[0] == '\n';
      assert s[1..] == rest;
    } else {
      assert s[0] == line[0] && line[0] != '\n';
      assert s[1..] == line[1..] + rest;
      FgetsWholeLine(line[1..], rest, size - 1);
      assert line == [line[0]] + line[1..];
    }
  }

  /** Reading back the concatenation of whole lines gives those lines. */
  lemma {:induction false} ReadConcat(ls: seq<string>)
    requires forall k :: 0 <= k < |ls| ==> WholeLine(ls[k])
    ensures ReadLines(Concat(ls), |ls|) == ls
  {
    if |ls| > 0 {
      FgetsWholeLine(ls[0], Concat(ls[1..]), LineBuffer);
      ReadConcat(ls[1..]);
    }
  }

  /** Printing a board and reading the text back gives the board with its
      nonzero cells made 1, provided a printed row fits the buffer. */
  lemma ReadRender(g: Grid, w: int, h: int)
    requires IsGrid(g, w, h) && w + 1 <= LineBuffer - 1
    ensures ReadFile(Render(g, w, h), w, h) == Ok(Normalize(g, w, h))
  {
    var ls := RenderLines(g, w, h);
    forall k | 0 <= k < |ls|
      ensures WholeLine(ls[k])
    {
      assert ls[k] == RenderLine(g, w, h, k);
    }
    ReadConcat(ls);
    var r := ParseLines(ls, w);
    assert r.Ok?;
    SameGrid(r.value, Normalize(g, w, h), w, h);
  }

  /** On the program's own 79x24 board, a 0/1 board survives being
      printed and read back unchanged. */
  lemma BoardRoundTrip(g: Grid)
    requires IsGrid(g, Torus.BoardWidth, Torus.BoardHeight) && IsBinary(g)
    ensures ReadFile(Render(g, Torus.BoardWidth, Torus.BoardHeight), Torus.BoardWidth, Torus.BoardHeight) == Ok(g)
  {
    BinaryRoundTrip(g, Torus.BoardWidth, Torus.BoardHeight);
  }

  /** A 0/1 board whose printed rows fit the buffer is read back as itself. */
  lemma BinaryRoundTrip(g: Grid, w: int, h: int)
    requires IsGrid(g, w, h) && IsBinary(g) && w + 1 <= LineBuffer - 1
    ensures ReadFile(Render(g, w, h), w, h) == Ok(g)
  {
    ReadRender(g, w, h);
    SameGrid(Normalize(g, w, h), g, w, h);
  }
}
