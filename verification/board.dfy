/** The 3x3 board: cell addressing, the eight winning lines, and counting. */
module Board {
  import opened Marks

  /** A row or column number of the grid. */
  type Coord = i: int | 0 <= i <= 2

  /** A position in the nine-cell results array. */
  type CellIndex = i: int | 0 <= i < 9

  /** The nine cells, row by row. */
  type Cells = c: seq<Mark> | |c| == 9
    witness [Free, Free, Free, Free, Free, Free, Free, Free, Free]

  /** The array position of the button at (row, column): column + row * 3,
      with the product written as a sum to keep the arithmetic linear.
      Division and remainder by 3 recover the row and the column. */
  function Index(row: Coord, column: Coord): (i: CellIndex)
    ensures i / 3 == row && i % 3 == column
  {
    column + row + row + row
  }

  /** The sum form of Index is the product form the window computes. */
  lemma IndexIsSource(r: Coord, c: Coord)
    ensures Index(r, c) == c + r * 3
  {
  }

  /** Index is a bijection from the 3x3 grid onto the nine cells: it is
      injective, and every cell is the index of its own row (i / 3) and
      column (i % 3). */
  lemma IndexBijective()
    ensures forall r1: Coord, c1: Coord, r2: Coord, c2: Coord ::
      Index(r1, c1) == Index(r2, c2) ==> r1 == r2 && c1 == c2
    ensures forall i: CellIndex :: Index(i / 3, i % 3) == i
  {
  }

  /** Three cells that win when uniformly marked. */
  datatype Line = Line(a: CellIndex, b: CellIndex, c: CellIndex)

  /** The eight lines in the order the window code tests them:
      rows 0..2, columns 0..2, then the two diagonals. */
  const Lines: seq<Line> := [
    Line(0, 1, 2), Line(3, 4, 5), Line(6, 7, 8),
    Line(0, 3, 6), Line(1, 4, 7), Line(2, 5, 8),
    Line(0, 4, 8), Line(2, 4, 6)
  ]

  /** The constant table is exactly the three rows, the three columns and the
      two diagonals of the grid as addressed by Index. */
  lemma LinesAreGridLines()
    ensures |Lines| == 8
    ensures Lines[0] == Line(Index(0, 0), Index(0, 1), Index(0, 2))
    ensures Lines[1] == Line(Index(1, 0), Index(1, 1), Index(1, 2))
    ensures Lines[2] == Line(Index(2, 0), Index(2, 1), Index(2, 2))
    ensures Lines[3] == Line(Index(0, 0), Index(1, 0), Index(2, 0))
    ensures Lines[4] == Line(Index(0, 1), Index(1, 1), Index(2, 1))
    ensures Lines[5] == Line(Index(0, 2), Index(1, 2), Index(2, 2))
    ensures Lines[6] == Line(Index(0, 0), Index(1, 1), Index(2, 2))
    ensures Lines[7] == Line(Index(0, 2), Index(1, 1), Index(2, 0))
  {
  }

  /** A line holding three equal marks that are not Free. */
  predicate Uniform(cells: Cells, l: Line)
  {
    cells[l.a] != Free && cells[l.a] == cells[l.b] && cells[l.b] == cells[l.c]
  }

  /** Some line of the board is uniformly marked. */
  predicate HasWinningLine(cells: Cells)
  {
    exists k :: 0 <= k < |Lines| && Uniform(cells, Lines[k])
  }

  /** No cell is free. */
  predicate IsFull(cells: Cells)
  {
    forall i :: 0 <= i < 9 ==> cells[i] != Free
  }

  /** Number of cells holding mark m. */
  function Count(cells: seq<Mark>, m: Mark): nat
  {
    if |cells| == 0 then 0
    else (if cells[0] == m then 1 else 0) + Count(cells[1..], m)
  }

  /** A mark that appears nowhere counts zero. */
  lemma {:induction false} CountAbsent(cells: seq<Mark>, m: Mark)
    requires forall i :: 0 <= i < |cells| ==> cells[i] != m
    ensures Count(cells, m) == 0
  {
    if |cells| > 0 {
      CountAbsent(cells[1..], m);
    }
  }

  /** Overwriting one cell moves one unit of count from the old mark to the new. */
  lemma {:induction false} CountUpdate(cells: seq<Mark>, i: nat, v: Mark, m: Mark)
    requires i < |cells|
    ensures Count(cells[i := v], m)
      == Count(cells, m) - (if cells[i] == m then 1 else 0) + (if v == m then 1 else 0)
  {
    if i > 0 {
      assert cells[i := v][1..] == cells[1..][i - 1 := v];
      CountUpdate(cells[1..], i - 1, v, m);
    } else {
      assert cells[i := v][1..] == cells[1..];
    }
  }

  /** b extends a: every filled cell of a keeps its mark in b. */
  predicate Grows(a: Cells, b: Cells)
  {
    forall i :: 0 <= i < 9 && a[i] != Free ==> b[i] == a[i]
  }
}
