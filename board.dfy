/** The board state shared by the move-search engine and the game: an N×N
    grid of cell markers, 0 for an empty cell, 1 for the human's (black)
    stones and 2 for the computer's (white) stones. The game uses N = 15;
    the engine only ever looks at the board's own length. */
module Board {

  const EMPTY: int := 0
  const HUMAN: int := 1
  const COMPUTER: int := 2

  /** The side length of the game's board. */
  const BOARD_SIZE: nat := 15

  datatype Option<+T> = None | Some(value: T)

  /** A cell coordinate, the `{ row, col }` object the engine answers with. */
  datatype Move = Move(row: int, col: int)

  /** A board value, read as `g[row][col]`. */
  type Grid = seq<seq<int>>

  predicate IsSquare(g: Grid)
  {
    forall i :: 0 <= i < |g| ==> |g[i]| == |g|
  }

  predicate InBounds(g: Grid, r: int, c: int)
  {
    0 <= r < |g| && 0 <= c < |g|
  }

  /** The board with the single cell (r, c) set to v. */
  function Place(g: Grid, r: int, c: int, v: int): (h: Grid)
    requires IsSquare(g) && InBounds(g, r, c)
    ensures IsSquare(h) && |h| == |g|
    ensures forall i, j :: InBounds(g, i, j) ==> h[i][j] == if i == r && j == c then v else g[i][j]
  {
    g[r := g[r][c := v]]
  }

  /** Make/unmake at the level of values: writing a cell and then writing
      back what it held gives the board that was there before. */
  lemma PlaceUndo(g: Grid, r: int, c: int, v: int)
    requires IsSquare(g) && InBounds(g, r, c)
    ensures Place(Place(g, r, c, v), r, c, g[r][c]) == g
  {
    var h := Place(Place(g, r, c, v), r, c, g[r][c]);
    forall i | 0 <= i < |g| ensures h[i] == g[i] {
      assert |h[i]| == |g[i]|;
      forall j | 0 <= j < |g| ensures h[i][j] == g[i][j] {
        assert InBounds(g, i, j);
      }
    }
  }

  /** The all-empty board of side n. */
  function EmptyGrid(n: nat): (g: Grid)
    ensures |g| == n && IsSquare(g)
    ensures forall i, j :: InBounds(g, i, j) ==> g[i][j] == EMPTY
  {
    seq(n, i => seq(n, j => EMPTY))
  }

  /** An array that can hold a board: as many rows as columns. */
  predicate IsBoard(a: array2<int>)
  {
    a.Length0 == a.Length1
  }

  /** The value of the board an array currently holds. */
  ghost function Cells(a: array2<int>): (g: Grid)
    reads a
    ensures |g| == a.Length0
    ensures forall i :: 0 <= i < |g| ==> |g[i]| == a.Length1
    ensures IsBoard(a) ==> IsSquare(g)
    ensures forall i, j :: 0 <= i < a.Length0 && 0 <= j < a.Length1 ==> g[i][j] == a[i, j]
  {
    seq(a.Length0, i requires 0 <= i < a.Length0 reads a =>
      seq(a.Length1, j requires 0 <= j < a.Length1 reads a => a[i, j]))
  }

  /** An array that agrees cell by cell with a board value holds that value. */
  lemma CellsOf(a: array2<int>, g: Grid)
    requires IsBoard(a) && |g| == a.Length0 && IsSquare(g)
    requires forall i, j :: 0 <= i < |g| && 0 <= j < |g| ==> a[i, j] == g[i][j]
    ensures Cells(a) == g
  {
    var h := Cells(a);
    forall i | 0 <= i < |g| ensures h[i] == g[i] {
      assert |h[i]| == |g[i]|;
      forall j | 0 <= j < |g| ensures h[i][j] == g[i][j] {
      }
    }
  }
}
