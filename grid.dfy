/** The maze: a rectangular grid of booleans (true = corridor, false = wall)
    and the (row, col) locations on it. */
module MazeGrid {

  /** A grid location; rows and columns are unbounded integers, so a
      location may lie outside the grid. */
  datatype Loc = Loc(row: int, col: int)

  /** Number of columns of a grid given as a sequence of rows. */
  function Cols(g: seq<seq<bool>>): nat {
    if |g| == 0 then 0 else |g[0]|
  }

  predicate Rectangular(g: seq<seq<bool>>) {
    forall r :: 0 <= r < |g| ==> |g[r]| == Cols(g)
  }

  /** A maze of |g| rows and Cols(g) columns. */
  type Grid = g: seq<seq<bool>> | Rectangular(g) witness []

  /** The entry is always the top-left corner. */
  const Entry: Loc := Loc(0, 0)

  /** The exit is always the bottom-right corner. */
  function Exit(g: Grid): Loc {
    Loc(|g| - 1, Cols(g) - 1)
  }

  predicate InBounds(g: Grid, l: Loc) {
    0 <= l.row < |g| && 0 <= l.col < Cols(g)
  }

  /** An in-bounds corridor cell. */
  predicate IsOpen(g: Grid, l: Loc) {
    InBounds(g, l) && g[l.row][l.col]
  }

  /** The ordering of grid locations: by row, then by column. */
  predicate Before(a: Loc, b: Loc) {
    a.row < b.row || (a.row == b.row && a.col < b.col)
  }

  /** One orthogonal step apart. */
  predicate Adjacent(a: Loc, b: Loc) {
    (a.row == b.row && (a.col == b.col + 1 || b.col == a.col + 1)) ||
    (a.col == b.col && (a.row == b.row + 1 || b.row == a.row + 1))
  }
}
