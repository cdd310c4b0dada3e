/** The Web Worker's move-search engine as it runs: loops over a mutable
    board that every search step writes to and puts back. Each method is
    proved against the function of Primitives or Search that says what it
    computes, and the searching methods are proved to leave the board as
    they found it. */
module Engine {
  import opened Board
  import opened Primitives
  import opened Search

  /** `board[i][j] = v`. */
  method Put(board: array2<int>, i: int, j: int, v: int)
    requires IsBoard(board) && 0 <= i < board.Length0 && 0 <= j < board.Length1
    modifies board
    ensures Cells(board) == Place(old(Cells(board)), i, j, v)
  {
    ghost var g := Cells(board);
    board[i, j] := v;
    CellsOf(board, Place(g, i, j, v));
  }

  /** `hasNeighbor(board, row, col)`: scans the rows and columns within two
      of (row, col), clipped to the board, for a stone. */
  method HasNeighbor(board: array2<int>, row: int, col: int) returns (b: bool)
    requires IsBoard(board)
    ensures b == Neighboured(Cells(board), row, col)
  {
    ghost var g := Cells(board);
    var n := board.Length0;
    var iLo := if row - 2 > 0 then row - 2 else 0;
    var iHi := if n - 1 < row + 2 then n - 1 else row + 2;
    var jLo := if col - 2 > 0 then col - 2 else 0;
    var jHi := if n - 1 < col + 2 then n - 1 else col + 2;
    var i := iLo;
    while i <= iHi
      invariant iLo <= i && (i <= iHi + 1 || i == iLo)
      invariant forall x, y | iLo <= x < i && jLo <= y <= jHi :: g[x][y] == EMPTY
    {
      var j := jLo;
      while j <= jHi
        invariant jLo <= j && (j <= jHi + 1 || j == jLo)
        invariant forall x, y | iLo <= x < i && jLo <= y <= jHi :: g[x][y] == EMPTY
        invariant forall y | jLo <= y < j :: g[i][y] == EMPTY
      {
        if board[i, j] != EMPTY {
          assert Near(i, row) && Near(j, col) && g[i][j] != EMPTY;
          return true;
        }
        j := j + 1;
      }
      i := i + 1;
    }
    return false;
  }

  /** The `while` walk of the win test: counts p's stones from (x, y) on
      along (dx, dy) until the edge or another marker. */
  method CountRun(board: array2<int>, x: int, y: int, dx: int, dy: int, p: int) returns (n: nat)
    requires IsBoard(board) && IsUnit(dx, dy)
    ensures n == Run(Cells(board), x, y, dx, dy, p)
  {
    ghost var g := Cells(board);
    var size := board.Length0;
    var r, c := x, y;
    n := 0;
    while 0 <= r < size && 0 <= c < size && board[r, c] == p
      invariant n + Run(g, r, c, dx, dy, p) == Run(g, x, y, dx, dy, p)
      decreases Reach(g, r, c, dx, dy)
    {
      RunStep(g, r, c, dx, dy, p);
      n := n + 1;
      r := r + dx;
      c := c + dy;
    }
  }

  /** One pass of the win test's `for (const direction of directions)`
      loop: the stone at (row, col) plus the runs on both sides of it along
      axis a. */
  method AxisCount(board: array2<int>, row: int, col: int, a: Axis) returns (count: int)
    requires IsBoard(board) && 0 <= row < board.Length0 && 0 <= col < board.Length0
    ensures count == LineLength(Cells(board), row, col, a)
  {
    ghost var g := Cells(board);
    var player := board[row, col];
    var (dx, dy) := Step(a);
    count := 1;
    var forward := CountRun(board, row + dx, col + dy, dx, dy, player);
    var backward := CountRun(board, row - dx, col - dy, -dx, -dy, player);
    count := count + forward + backward;
    LineLengthOf(g, row, col, a, forward, backward);
  }

  /** The worker's `checkWin(board, row, col)`: some axis through the stone
      at (row, col) holds a line of exactly five. */
  method CheckWin(board: array2<int>, row: int, col: int) returns (win: bool)
    requires IsBoard(board) && 0 <= row < board.Length0 && 0 <= col < board.Length0
    ensures win == FiveExactly(Cells(board), row, col)
  {
    var k := 0;
    while k < |Axes|
      invariant 0 <= k <= |Axes|
      invariant forall m | 0 <= m < k :: LineLength(Cells(board), row, col, Axes[m]) != 5
    {
      var count := AxisCount(board, row, col, Axes[k]);
      if count == 5 {
        return true;
      }
      k := k + 1;
    }
    return false;
  }

  /** What the forward scan still has to find from its i-th cell,
      `(row + dx * i, col + dy * i)`, on. */
  ghost function ForeRest(g: Grid, row: int, col: int, dx: int, dy: int, p: int, i: int, limit: nat): Tally
    requires IsSquare(g) && 0 <= i <= limit
  {
    Scan(g, Along(row, dx, i), Along(col, dy, i), dx, dy, p, limit - i)
  }

  /** The i-th cell of the forward scan decides ForeRest(i), as BackCell
      does for the backward scan. */
  lemma ForeCell(g: Grid, row: int, col: int, dx: int, dy: int, p: int, i: int, limit: nat)
    requires IsSquare(g) && 0 <= i < limit
    ensures !InBounds(g, row + dx * i, col + dy * i) ==> ForeRest(g, row, col, dx, dy, p, i, limit) == Tally(0, 0)
    ensures InBounds(g, row + dx * i, col + dy * i) && g[row + dx * i][col + dy * i] == p ==>
      ForeRest(g, row, col, dx, dy, p, i, limit) ==
      Tally(ForeRest(g, row, col, dx, dy, p, i + 1, limit).count + 1, ForeRest(g, row, col, dx, dy, p, i + 1, limit).open)
    ensures InBounds(g, row + dx * i, col + dy * i) && g[row + dx * i][col + dy * i] != p ==>
      ForeRest(g, row, col, dx, dy, p, i, limit) == Tally(0, if g[row + dx * i][col + dy * i] == EMPTY then 1 else 0)
  {
    assert dx * (i + 1) == dx * i + dx;
    assert dy * (i + 1) == dy * i + dy;
  }

  /** The forward loop of `evaluateDirection`: up to `limit` cells from
      (row, col) on, at `row + dx * i`, `col + dy * i`, counting p's stones
      until the edge, an empty cell (counted as open) or another marker. */
  method ScanForward(board: array2<int>, row: int, col: int, dx: int, dy: int, player: int, limit: nat) returns (count: nat, open: nat)
    requires IsBoard(board)
    ensures Tally(count, open) == Scan(Cells(board), row, col, dx, dy, player, limit)
  {
    ghost var g := Cells(board);
    var n := board.Length0;
    count, open := 0, 0;
    var i := 0;
    AlongZero(row, dx);
    AlongZero(col, dy);
    ghost var goal := ForeRest(g, row, col, dx, dy, player, 0, limit);
    while i < limit
      invariant 0 <= i <= limit && count == i && open == 0
      invariant goal == Tally(count + ForeRest(g, row, col, dx, dy, player, i, limit).count, ForeRest(g, row, col, dx, dy, player, i, limit).open)
    {
      var newRow := row + dx * i;
      var newCol := col + dy * i;
      ForeCell(g, row, col, dx, dy, player, i, limit);
      if newRow < 0 || newRow >= n || newCol < 0 || newCol >= n {
        break;
      }
      if board[newRow, newCol] == player {
        count := count + 1;
      } else if board[newRow, newCol] == EMPTY {
        open := open + 1;
        break;
      } else {
        break;
      }
      i := i + 1;
    }
  }

  /** What the backward scan still has to find from its i-th cell,
      `(row - dx * i, col - dy * i)`, on. */
  ghost function BackRest(g: Grid, row: int, col: int, dx: int, dy: int, p: int, i: int, limit: nat): Tally
    requires IsSquare(g) && 1 <= i <= limit
  {
    Scan(g, Along(row - dx, Opposite(dx), i - 1), Along(col - dy, Opposite(dy), i - 1), Opposite(dx), Opposite(dy), p, limit - i)
  }

  /** The i-th cell of the backward scan decides BackRest(i): off the board
      or another colour ends it, an empty cell ends it open, and a stone of
      p's adds one to what follows. */
  lemma BackCell(g: Grid, row: int, col: int, dx: int, dy: int, p: int, i: int, limit: nat)
    requires IsSquare(g) && 1 <= i < limit
    ensures !InBounds(g, row - dx * i, col - dy * i) ==> BackRest(g, row, col, dx, dy, p, i, limit) == Tally(0, 0)
    ensures InBounds(g, row - dx * i, col - dy * i) && g[row - dx * i][col - dy * i] == p ==>
      BackRest(g, row, col, dx, dy, p, i, limit) ==
      Tally(BackRest(g, row, col, dx, dy, p, i + 1, limit).count + 1, BackRest(g, row, col, dx, dy, p, i + 1, limit).open)
    ensures InBounds(g, row - dx * i, col - dy * i) && g[row - dx * i][col - dy * i] != p ==>
      BackRest(g, row, col, dx, dy, p, i, limit) == Tally(0, if g[row - dx * i][col - dy * i] == EMPTY then 1 else 0)
  {
    assert dx * i == dx * (i - 1) + dx;
    assert dy * i == dy * (i - 1) + dy;
  }

  /** The backward loop of `evaluateDirection`: up to four cells behind
      (row, col), at `row - dx * i`, `col - dy * i` for i from 1. */
  method ScanBackward(board: array2<int>, row: int, col: int, dx: int, dy: int, player: int, limit: nat) returns (count: nat, open: nat)
    requires IsBoard(board) && limit >= 1
    ensures Tally(count, open) == Scan(Cells(board), row - dx, col - dy, Opposite(dx), Opposite(dy), player, limit - 1)
  {
    ghost var g := Cells(board);
    var n := board.Length0;
    count, open := 0, 0;
    var i := 1;
    AlongZero(row - dx, Opposite(dx));
    AlongZero(col - dy, Opposite(dy));
    ghost var goal := BackRest(g, row, col, dx, dy, player, 1, limit);
    while i < limit
      invariant 1 <= i <= limit && count == i - 1 && open == 0
      invariant goal == Tally(count + BackRest(g, row, col, dx, dy, player, i, limit).count, BackRest(g, row, col, dx, dy, player, i, limit).open)
    {
      var newRow := row - dx * i;
      var newCol := col - dy * i;
      BackCell(g, row, col, dx, dy, player, i, limit);
      if newRow < 0 || newRow >= n || newCol < 0 || newCol >= n {
        break;
      }
      if board[newRow, newCol] == player {
        count := count + 1;
      } else if board[newRow, newCol] == EMPTY {
        open := open + 1;
        break;
      } else {
        break;
      }
      i := i + 1;
    }
  }

  /** `evaluateDirection(board, row, col, dx, dy, player)`: the two scans,
      then the score table. It only reads the board. */
  method EvaluateDirection(board: array2<int>, row: int, col: int, dx: int, dy: int, player: int) returns (score: int)
    requires IsBoard(board)
    ensures score == DirectionScore(Cells(board), row, col, dx, dy, player)
  {
    var count, open := ScanForward(board, row, col, dx, dy, player, 5);
    var backCount, backOpen := ScanBackward(board, row, col, dx, dy, player, 5);
    DirectionTallyOf(Cells(board), row, col, dx, dy, player, Tally(count, open), Tally(backCount, backOpen));
    count, open := count + backCount, open + backOpen;
    score := ScoreTable(Tally(count, open));
  }

  /** The `for (const [dx, dy] of directions)` loop of `evaluateBoard`:
      the stone at (i, j) scored along the four directions. */
  method StoneScore(board: array2<int>, i: int, j: int, player: int) returns (score: int)
    requires IsBoard(board)
    ensures score == StoneScoreFrom(Cells(board), i, j, player, 0)
  {
    ghost var g := Cells(board);
    score := 0;
    var k := 0;
    while k < |Directions|
      invariant 0 <= k <= |Directions|
      invariant score + StoneScoreFrom(g, i, j, player, k) == StoneScoreFrom(g, i, j, player, 0)
    {
      var (dx, dy) := Directions[k];
      var s := EvaluateDirection(board, i, j, dx, dy, player);
      score := score + s;
      k := k + 1;
    }
  }

  /** One of the two double loops of `evaluateBoard`: the four direction
      scores of every stone of the player's, added up in row-major order.
      It only reads the board. */
  method SideScore(board: array2<int>, player: int) returns (score: int)
    requires IsBoard(board)
    ensures score == SideFrom(Cells(board), player, 0, 0)
  {
    ghost var g := Cells(board);
    ghost var total := SideFrom(g, player, 0, 0);
    var n := board.Length0;
    score := 0;
    var i := 0;
    while i < n
      invariant 0 <= i <= n
      invariant score + SideFrom(g, player, i, 0) == total
    {
      var j := 0;
      while j < n
        invariant 0 <= j <= n
        invariant score + SideFrom(g, player, i, j) == total
      {
        if board[i, j] == player {
          var s := StoneScore(board, i, j, player);
          score := score + s;
        }
        j := j + 1;
      }
      i := i + 1;
    }
  }

  /** `evaluateBoard(board)`: the computer's stones scored, then the
      human's subtracted. It only reads the board. */
  method EvaluateBoard(board: array2<int>) returns (score: int)
    requires IsBoard(board)
    ensures score == BoardScore(Cells(board))
  {
    score := 0;
    var computer := SideScore(board, COMPUTER);
    score := score + computer;
    var human := SideScore(board, HUMAN);
    score := score - human;
  }

  /** `minimax(board, depth, isMaximizing, alpha, beta)`: writes each
      candidate move, searches below it and takes it back, so the board
      ends as it started. Both branches of the source (maximising with the
      computer's stone, minimising with the human's) are the one loop here,
      told apart by isMax. */
  method Minimax(board: array2<int>, depth: nat, isMax: bool, alpha: Score, beta: Score) returns (r: Score)
    requires IsBoard(board)
    modifies board
    ensures Cells(board) == old(Cells(board))
    ensures r == MinimaxValue(old(Cells(board)), depth, isMax, alpha, beta)
    ensures depth == 0 ==> r == Fin(BoardScore(old(Cells(board))))
    decreases depth, 1
  {
    if depth == 0 {
      var s := EvaluateBoard(board);
      return Fin(s);
    }
    ghost var g := Cells(board);
    ghost var goal := MinimaxValue(g, depth, isMax, alpha, beta);
    var n := board.Length0;
    var best := Worst(isMax);
    var a, b := alpha, beta;
    var i := 0;
    while i < n
      invariant 0 <= i <= n
      invariant Cells(board) == g
      invariant MinimaxScan(g, depth, isMax, a, b, i, 0, best) == goal
    {
      var j := 0;
      while j < n
        invariant 0 <= j <= n
        invariant Cells(board) == g
        invariant MinimaxScan(g, depth, isMax, a, b, i, j, best) == goal
      {
        if board[i, j] == EMPTY {
          var near := HasNeighbor(board, i, j);
          if near {
            var s := Probe(board, i, j, depth, isMax, a, b);
            best := Better(isMax, best, s);
            if isMax {
              a := Max(a, s);
            } else {
              b := Min(b, s);
            }
            if Leq(b, a) {
              assert MinimaxScan(g, depth, isMax, a, b, i + 1, 0, best) == goal;
              break;
            }
          }
        }
        j := j + 1;
      }
      i := i + 1;
    }
    return best;
  }

  /** The three statements around each recursive call: put the side's
      stone on the empty cell (i, j), search below it, take it back. */
  method Probe(board: array2<int>, i: int, j: int, depth: nat, isMax: bool, alpha: Score, beta: Score) returns (s: Score)
    requires IsBoard(board) && 0 <= i < board.Length0 && 0 <= j < board.Length0 && board[i, j] == EMPTY
    requires depth >= 1
    modifies board
    ensures Cells(board) == old(Cells(board))
    ensures s == MinimaxValue(Place(old(Cells(board)), i, j, Mover(isMax)), depth - 1, !isMax, alpha, beta)
    decreases depth, 0
  {
    ghost var g := Cells(board);
    Put(board, i, j, Mover(isMax));
    s := Minimax(board, depth - 1, !isMax, alpha, beta);
    Put(board, i, j, EMPTY);
    PlaceUndo(g, i, j, Mover(isMax));
  }

  /** Steps 1 and 2 of `findBestMove`: the first empty cell, in row-major
      order, where p's stone would win. Each trial stone is taken back. */
  method FindWinningCell(board: array2<int>, p: int) returns (m: Option<Move>)
    requires IsBoard(board)
    modifies board
    ensures Cells(board) == old(Cells(board))
    ensures m == FirstWin(old(Cells(board)), p)
  {
    ghost var g := Cells(board);
    var n := board.Length0;
    var i := 0;
    while i < n
      invariant 0 <= i <= n
      invariant Cells(board) == g
      invariant FirstWinFrom(g, p, i, 0) == FirstWin(g, p)
    {
      var j := 0;
      while j < n
        invariant 0 <= j <= n
        invariant Cells(board) == g
        invariant FirstWinFrom(g, p, i, j) == FirstWin(g, p)
      {
        if board[i, j] == EMPTY {
          Put(board, i, j, p);
          var win := CheckWin(board, i, j);
          Put(board, i, j, EMPTY);
          PlaceUndo(g, i, j, p);
          if win {
            return Some(Move(i, j));
          }
        }
        j := j + 1;
      }
      i := i + 1;
    }
    return None;
  }

  /** Step 3 of `findBestMove`: every candidate scored by the search
      below it; a later move replaces the best only with a greater score. */
  method SearchBest(board: array2<int>, depth: nat) returns (best: Best)
    requires IsBoard(board) && depth >= 1
    modifies board
    ensures Cells(board) == old(Cells(board))
    ensures best == BestMove(old(Cells(board)), depth)
  {
    ghost var g := Cells(board);
    var n := board.Length0;
    var bestScore := NegInf;
    var bestMove: Option<Move> := None;
    var i := 0;
    while i < n
      invariant 0 <= i <= n
      invariant Cells(board) == g
      invariant BestFrom(g, depth, i, 0, Best(bestScore, bestMove)) == BestMove(g, depth)
    {
      var j := 0;
      while j < n
        invariant 0 <= j <= n
        invariant Cells(board) == g
        invariant BestFrom(g, depth, i, j, Best(bestScore, bestMove)) == BestMove(g, depth)
      {
        if board[i, j] == EMPTY {
          var near := HasNeighbor(board, i, j);
          if near {
            var score := Probe(board, i, j, depth, true, NegInf, PosInf);
            if Lt(bestScore, score) {
              bestScore := score;
              bestMove := Some(Move(i, j));
            }
          }
        }
        j := j + 1;
      }
      i := i + 1;
    }
    return Best(bestScore, bestMove);
  }

  /** Step 4 of `findBestMove`: the `emptyCells` list of every candidate,
      in row-major order. It only reads the board. */
  method CollectCandidates(board: array2<int>) returns (cells: seq<Move>)
    requires IsBoard(board)
    ensures cells == Candidates(Cells(board))
  {
    ghost var g := Cells(board);
    var n := board.Length0;
    cells := [];
    var i := 0;
    while i < n
      invariant 0 <= i <= n
      invariant cells + CandidatesFrom(g, i, 0) == Candidates(g)
    {
      var j := 0;
      while j < n
        invariant 0 <= j <= n
        invariant cells + CandidatesFrom(g, i, j) == Candidates(g)
      {
        if board[i, j] == EMPTY {
          var near := HasNeighbor(board, i, j);
          if near {
            assert cells + CandidatesFrom(g, i, j) == (cells + [Move(i, j)]) + CandidatesFrom(g, i, j + 1);
            cells := cells + [Move(i, j)];
          }
        }
        j := j + 1;
      }
      i := i + 1;
    }
  }

  /** `findBestMove(board, depth)`: a win, else a block, else the best
      searched move, else a candidate picked at random (any of them here),
      else no move. The board ends as it started. */
  method FindBestMove(board: array2<int>, depth: nat) returns (r: Option<Move>)
    requires IsBoard(board) && depth >= 1
    modifies board
    ensures Cells(board) == old(Cells(board))
    ensures Decision(old(Cells(board)), depth, r)
  {
    r := FindWinningCell(board, COMPUTER);
    if r.Some? {
      return;
    }
    r := FindWinningCell(board, HUMAN);
    if r.Some? {
      return;
    }
    var best := SearchBest(board, depth);
    if best.move.Some? {
      return best.move;
    }
    var emptyCells := CollectCandidates(board);
    if |emptyCells| > 0 {
      var k :| 0 <= k < |emptyCells|;
      return Some(emptyCells[k]);
    }
    return None;
  }
}
