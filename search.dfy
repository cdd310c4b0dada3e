/** What the move-search engine computes, as functions of a board value:
    the alpha-beta `minimax` with its cut-off exactly as the worker writes it,
    a plain minimax without pruning to compare it with, and the four steps of
    `findBestMove` (win, block, best candidate, any candidate). */
module Search {
  import opened Board
  import opened Primitives

  // ---------------------------------------------------------------- scores

  /** A search score: a board evaluation, or one of the infinities the
      search starts from and answers with on a layer without candidates. */
  datatype Score = NegInf | Fin(v: int) | PosInf

  /** The order of JavaScript numbers on these values. */
  predicate Leq(a: Score, b: Score)
  {
    a.NegInf? || b.PosInf? || (a.Fin? && b.Fin? && a.v <= b.v)
  }

  predicate Lt(a: Score, b: Score)
  {
    !Leq(b, a)
  }

  /** `Math.max`. */
  function Max(a: Score, b: Score): (m: Score)
    ensures Leq(a, m) && Leq(b, m)
    ensures m == a || m == b
  {
    if Leq(a, b) then b else a
  }

  /** `Math.min`. */
  function Min(a: Score, b: Score): (m: Score)
    ensures Leq(m, a) && Leq(m, b)
    ensures m == a || m == b
  {
    if Leq(a, b) then a else b
  }

  lemma LeqTrans(a: Score, b: Score, c: Score)
    requires Leq(a, b) && Leq(b, c)
    ensures Leq(a, c)
  {
  }

  /** The stone the side to move puts down: the computer on a maximising
      layer, the human on a minimising one. */
  function Mover(isMax: bool): int
  {
    if isMax then COMPUTER else HUMAN
  }

  /** The score a layer starts from. */
  function Worst(isMax: bool): Score
  {
    if isMax then NegInf else PosInf
  }

  /** Keeping the better of two scores for the side to move. */
  function Better(isMax: bool, a: Score, b: Score): Score
  {
    if isMax then Max(a, b) else Min(a, b)
  }

  /** a is no better than b for the side to move. */
  predicate NoBetter(isMax: bool, a: Score, b: Score)
  {
    if isMax then Leq(a, b) else Leq(b, a)
  }

  // ---------------------------------------------------------------- row-major order

  /** Cell (x, y) comes strictly before cell (i, j) in row-major order. */
  predicate Precedes(x: int, y: int, i: int, j: int)
  {
    x < i || (x == i && y < j)
  }

  /** No cell of the board is a candidate. */
  ghost predicate NoCandidate(g: Grid)
    requires IsSquare(g)
  {
    forall x, y | InBounds(g, x, y) :: !IsCandidate(g, x, y)
  }

  lemma EmptyGridNoCandidate(n: nat)
    ensures NoCandidate(EmptyGrid(n))
  {
    forall x, y | InBounds(EmptyGrid(n), x, y) ensures !IsCandidate(EmptyGrid(n), x, y) {
      EmptyGridIsolated(n, x, y);
    }
  }

  // ---------------------------------------------------------------- minimax

  /** `minimax(board, depth, isMaximizing, alpha, beta)`. */
  function MinimaxValue(g: Grid, depth: nat, isMax: bool, alpha: Score, beta: Score): Score
    requires IsSquare(g)
    decreases depth, 1
  {
    if depth == 0 then Fin(BoardScore(g))
    else MinimaxScan(g, depth, isMax, alpha, beta, 0, 0, Worst(isMax))
  }

  /** The double loop of one minimax layer from cell (i, j) on, with the
      window and the best score found so far. The cut-off `break` leaves
      only the inner loop: the scan goes on at the start of the next row. */
  function MinimaxScan(g: Grid, depth: nat, isMax: bool, alpha: Score, beta: Score, i: int, j: int, best: Score): Score
    requires IsSquare(g) && depth >= 1 && 0 <= i <= |g| && 0 <= j <= |g|
    decreases depth, 0, |g| - i, |g| - j
  {
    if i == |g| then best
    else if j == |g| then MinimaxScan(g, depth, isMax, alpha, beta, i + 1, 0, best)
    else if IsCandidate(g, i, j) then
      var s := MinimaxValue(Place(g, i, j, Mover(isMax)), depth - 1, !isMax, alpha, beta);
      var alpha' := if isMax then Max(alpha, s) else alpha;
      var beta' := if isMax then beta else Min(beta, s);
      if Leq(beta', alpha') then MinimaxScan(g, depth, isMax, alpha', beta', i + 1, 0, Better(isMax, best, s))
      else MinimaxScan(g, depth, isMax, alpha', beta', i, j + 1, Better(isMax, best, s))
    else MinimaxScan(g, depth, isMax, alpha, beta, i, j + 1, best)
  }

  /** A layer with no candidate cell answers with its starting score. */
  lemma {:induction false} EmptyLayerScan(g: Grid, depth: nat, isMax: bool, alpha: Score, beta: Score, i: int, j: int, best: Score)
    requires IsSquare(g) && depth >= 1 && 0 <= i <= |g| && 0 <= j <= |g|
    requires NoCandidate(g)
    ensures MinimaxScan(g, depth, isMax, alpha, beta, i, j, best) == best
    decreases |g| - i, |g| - j
  {
    if i < |g| {
      if j == |g| {
        EmptyLayerScan(g, depth, isMax, alpha, beta, i + 1, 0, best);
      } else {
        assert InBounds(g, i, j);
        EmptyLayerScan(g, depth, isMax, alpha, beta, i, j + 1, best);
      }
    }
  }

  /** With no candidate, a maximising layer answers minus infinity and a
      minimising layer plus infinity. */
  lemma EmptyLayer(g: Grid, depth: nat, isMax: bool, alpha: Score, beta: Score)
    requires IsSquare(g) && depth >= 1 && NoCandidate(g)
    ensures MinimaxValue(g, depth, isMax, alpha, beta) == (if isMax then NegInf else PosInf)
  {
    EmptyLayerScan(g, depth, isMax, alpha, beta, 0, 0, Worst(isMax));
  }

  // ---------------------------------------------------------------- minimax without pruning

  /** The reference the pruned search is measured against: the best, for the
      side to move, of the values of all candidate moves. */
  function ExhaustiveValue(g: Grid, depth: nat, isMax: bool): Score
    requires IsSquare(g)
    decreases depth, 1
  {
    if depth == 0 then Fin(BoardScore(g))
    else ExhaustiveScan(g, depth, isMax, 0, 0, Worst(isMax))
  }

  function ExhaustiveScan(g: Grid, depth: nat, isMax: bool, i: int, j: int, best: Score): Score
    requires IsSquare(g) && depth >= 1 && 0 <= i <= |g| && 0 <= j <= |g|
    decreases depth, 0, |g| - i, |g| - j
  {
    if i == |g| then best
    else if j == |g| then ExhaustiveScan(g, depth, isMax, i + 1, 0, best)
    else if IsCandidate(g, i, j) then ExhaustiveScan(g, depth, isMax, i, j + 1, Better(isMax, best, Child(g, depth, isMax, i, j)))
    else ExhaustiveScan(g, depth, isMax, i, j + 1, best)
  }

  /** The unpruned value of the move at (x, y). */
  function Child(g: Grid, depth: nat, isMax: bool, x: int, y: int): Score
    requires IsSquare(g) && depth >= 1 && InBounds(g, x, y)
    decreases depth, 0, 0, 0
  {
    ExhaustiveValue(Place(g, x, y, Mover(isMax)), depth - 1, !isMax)
  }

  /** The unpruned scan keeps the best of what it started with and of every
      candidate it passes over. */
  lemma {:induction false} ExhaustiveScanBound(g: Grid, depth: nat, isMax: bool, i: int, j: int, best: Score)
    requires IsSquare(g) && depth >= 1 && 0 <= i <= |g| && 0 <= j <= |g|
    ensures NoBetter(isMax, best, ExhaustiveScan(g, depth, isMax, i, j, best))
    ensures forall x, y | InBounds(g, x, y) && !Precedes(x, y, i, j) && IsCandidate(g, x, y) ::
      NoBetter(isMax, Child(g, depth, isMax, x, y), ExhaustiveScan(g, depth, isMax, i, j, best))
    decreases |g| - i, |g| - j
  {
    if i < |g| {
      if j == |g| {
        ExhaustiveScanBound(g, depth, isMax, i + 1, 0, best);
      } else if IsCandidate(g, i, j) {
        var c := Child(g, depth, isMax, i, j);
        var b := Better(isMax, best, c);
        var r := ExhaustiveScan(g, depth, isMax, i, j + 1, b);
        ExhaustiveScanBound(g, depth, isMax, i, j + 1, b);
        assert NoBetter(isMax, best, b) && NoBetter(isMax, c, b);
        if isMax {
          LeqTrans(best, b, r);
          LeqTrans(c, b, r);
        } else {
          LeqTrans(r, b, best);
          LeqTrans(r, b, c);
        }
      } else {
        ExhaustiveScanBound(g, depth, isMax, i, j + 1, best);
      }
    }
  }

  /** ... and what it answers is one of those scores. */
  lemma {:induction false} ExhaustiveScanAttained(g: Grid, depth: nat, isMax: bool, i: int, j: int, best: Score)
    requires IsSquare(g) && depth >= 1 && 0 <= i <= |g| && 0 <= j <= |g|
    ensures var r := ExhaustiveScan(g, depth, isMax, i, j, best);
      r == best || exists x, y | InBounds(g, x, y) && !Precedes(x, y, i, j) && IsCandidate(g, x, y) ::
        r == Child(g, depth, isMax, x, y)
    decreases |g| - i, |g| - j
  {
    if i < |g| {
      if j == |g| {
        ExhaustiveScanAttained(g, depth, isMax, i + 1, 0, best);
      } else if IsCandidate(g, i, j) {
        var c := Child(g, depth, isMax, i, j);
        ExhaustiveScanAttained(g, depth, isMax, i, j + 1, Better(isMax, best, c));
      } else {
        ExhaustiveScanAttained(g, depth, isMax, i, j + 1, best);
      }
    }
  }

  /** One ply above the evaluation no cut-off can fire: a minimising layer
      entered with alpha at minus infinity (or a maximising one with beta at
      plus infinity) only ever narrows its window to finite values. */
  lemma {:induction false} NoCutOffScan(g: Grid, isMax: bool, alpha: Score, beta: Score, i: int, j: int, best: Score)
    requires IsSquare(g) && 0 <= i <= |g| && 0 <= j <= |g|
    requires isMax ==> beta == PosInf && alpha != PosInf
    requires !isMax ==> alpha == NegInf && beta != NegInf
    ensures MinimaxScan(g, 1, isMax, alpha, beta, i, j, best) == ExhaustiveScan(g, 1, isMax, i, j, best)
    decreases |g| - i, |g| - j
  {
    if i < |g| {
      if j == |g| {
        NoCutOffScan(g, isMax, alpha, beta, i + 1, 0, best);
      } else if IsCandidate(g, i, j) {
        var s := MinimaxValue(Place(g, i, j, Mover(isMax)), 0, !isMax, alpha, beta);
        assert s == Child(g, 1, isMax, i, j);
        var alpha' := if isMax then Max(alpha, s) else alpha;
        var beta' := if isMax then beta else Min(beta, s);
        assert !Leq(beta', alpha');
        NoCutOffScan(g, isMax, alpha', beta', i, j + 1, Better(isMax, best, s));
      } else {
        NoCutOffScan(g, isMax, alpha, beta, i, j + 1, best);
      }
    }
  }

  /** With the full window, one-ply alpha-beta is plain minimax. */
  lemma MinimaxDepthOne(g: Grid, isMax: bool)
    requires IsSquare(g)
    ensures MinimaxValue(g, 1, isMax, NegInf, PosInf) == ExhaustiveValue(g, 1, isMax)
  {
    NoCutOffScan(g, isMax, NegInf, PosInf, 0, 0, Worst(isMax));
  }

  // ---------------------------------------------------------------- findBestMove, steps 1 and 2

  /** Putting p's stone on the empty cell (i, j) wins in the engine's sense. */
  predicate Wins(g: Grid, p: int, i: int, j: int)
    requires IsSquare(g) && InBounds(g, i, j)
  {
    g[i][j] == EMPTY && FiveExactly(Place(g, i, j, p), i, j)
  }

  /** Five black stones on row 7, at columns 4, 5, 6, 8 and 9, with the gap
      at column 7 and nothing else on the board. */
  function GapBoard(): (g: Grid)
    ensures |g| == BOARD_SIZE && IsSquare(g)
  {
    seq(BOARD_SIZE, i => seq(BOARD_SIZE, j => if i == 7 && 4 <= j <= 9 && j != 7 then HUMAN else EMPTY))
  }

  /** GapBoard with its gap filled: six black stones, columns 4 to 9 of row 7. */
  function SixBoard(): (g: Grid)
    ensures |g| == BOARD_SIZE && IsSquare(g)
  {
    seq(BOARD_SIZE, i => seq(BOARD_SIZE, j => if i == 7 && 4 <= j <= 9 then HUMAN else EMPTY))
  }

  lemma FillGap()
    ensures Place(GapBoard(), 7, 7, HUMAN) == SixBoard()
  {
    var h := Place(GapBoard(), 7, 7, HUMAN);
    forall i | 0 <= i < BOARD_SIZE ensures h[i] == SixBoard()[i] {
      assert forall j | 0 <= j < BOARD_SIZE :: h[i][j] == SixBoard()[i][j];
    }
  }

  /** The six stones make a horizontal line of six through (7, 7). */
  lemma SixAcross()
    ensures LineLength(SixBoard(), 7, 7, Horizontal) == 6
  {
    var h := SixBoard();
    RunStep(h, 7, 8, 0, 1, HUMAN);
    RunStep(h, 7, 9, 0, 1, HUMAN);
    assert Run(h, 7, 10, 0, 1, HUMAN) == 0;
    RunStep(h, 7, 6, 0, -1, HUMAN);
    RunStep(h, 7, 5, 0, -1, HUMAN);
    RunStep(h, 7, 4, 0, -1, HUMAN);
    assert Run(h, 7, 3, 0, -1, HUMAN) == 0;
  }

  /** Along every other axis the stone at (7, 7) stands alone. */
  lemma SixAlone(a: Axis)
    requires a != Horizontal
    ensures LineLength(SixBoard(), 7, 7, a) == 1
  {
    var h := SixBoard();
    var (dr, dc) := Step(a);
    assert h[7 + dr][7 + dc] == EMPTY && h[7 - dr][7 - dc] == EMPTY;
  }

  /** A line of six along one axis with no other line of five is a win for
      the game's test and not for the engine's. */
  lemma SixNotFive(h: Grid, r: int, c: int)
    requires IsSquare(h) && InBounds(h, r, c)
    requires LineLength(h, r, c, Horizontal) == 6
    requires LineLength(h, r, c, Vertical) == 1 && LineLength(h, r, c, Diagonal) == 1
    requires LineLength(h, r, c, AntiDiagonal) == 1
    ensures FiveOrMore(h, r, c) && !FiveExactly(h, r, c)
  {
    assert LineLength(h, r, c, Axes[0]) >= 5;
  }

  /** The two win tests part on an overline: filling the gap of GapBoard
      makes six in a row, which the game's test calls a win while the
      engine's test (exactly five) does not, so steps 1 and 2 pass it by. */
  lemma OverlineExample()
    ensures InBounds(GapBoard(), 7, 7) && GapBoard()[7][7] == EMPTY
    ensures !Wins(GapBoard(), HUMAN, 7, 7)
    ensures FiveOrMore(Place(GapBoard(), 7, 7, HUMAN), 7, 7)
  {
    FillGap();
    SixAcross();
    SixAlone(Vertical);
    SixAlone(Diagonal);
    SixAlone(AntiDiagonal);
    SixNotFive(SixBoard(), 7, 7);
  }

  /** The first winning cell for p at or after (i, j) in row-major order. */
  function FirstWinFrom(g: Grid, p: int, i: int, j: int): Option<Move>
    requires IsSquare(g) && 0 <= i <= |g| && 0 <= j <= |g|
    decreases |g| - i, |g| - j
  {
    if i == |g| then None
    else if j == |g| then FirstWinFrom(g, p, i + 1, 0)
    else if Wins(g, p, i, j) then Some(Move(i, j))
    else FirstWinFrom(g, p, i, j + 1)
  }

  function FirstWin(g: Grid, p: int): Option<Move>
    requires IsSquare(g)
  {
    FirstWinFrom(g, p, 0, 0)
  }

  /** The win scan finds a winning cell, and no winning cell comes before it;
      it finds nothing only when no cell wins. */
  lemma {:induction false} FirstWinFromIsFirst(g: Grid, p: int, i: int, j: int)
    requires IsSquare(g) && 0 <= i <= |g| && 0 <= j <= |g|
    ensures match FirstWinFrom(g, p, i, j)
      case Some(m) =>
        InBounds(g, m.row, m.col) && !Precedes(m.row, m.col, i, j) && Wins(g, p, m.row, m.col) &&
        forall x, y | InBounds(g, x, y) && !Precedes(x, y, i, j) && Precedes(x, y, m.row, m.col) :: !Wins(g, p, x, y)
      case None =>
        forall x, y | InBounds(g, x, y) && !Precedes(x, y, i, j) :: !Wins(g, p, x, y)
    decreases |g| - i, |g| - j
  {
    if i < |g| {
      if j == |g| {
        FirstWinFromIsFirst(g, p, i + 1, 0);
      } else if !Wins(g, p, i, j) {
        FirstWinFromIsFirst(g, p, i, j + 1);
      }
    }
  }

  /** A winning cell always has a neighbour: the line of five puts one of
      p's stones right next to it. */
  lemma WinningCellIsCandidate(g: Grid, p: int, i: int, j: int)
    requires IsSquare(g) && InBounds(g, i, j) && p != EMPTY
    requires Wins(g, p, i, j)
    ensures IsCandidate(g, i, j)
  {
    var h := Place(g, i, j, p);
    var k :| 0 <= k < |Axes| && LineLength(h, i, j, Axes[k]) == 5;
    WinningAxisNeighbour(g, i, j, p, Axes[k]);
  }

  lemma WinningAxisNeighbour(g: Grid, i: int, j: int, p: int, a: Axis)
    requires IsSquare(g) && InBounds(g, i, j) && p != EMPTY
    requires LineLength(Place(g, i, j, p), i, j, a) > 1
    ensures Neighboured(g, i, j)
  {
    var h := Place(g, i, j, p);
    var d := Step(a);
    assert h[i][j] == p;
    var forward := Run(h, i + d.0, j + d.1, d.0, d.1, p);
    var backward := Run(h, i - d.0, j - d.1, -d.0, -d.1, p);
    LineLengthOf(h, i, j, a, forward, backward);
    if forward > 0 {
      NeighbourInRun(g, i, j, d.0, d.1, p);
    } else {
      NeighbourInRun(g, i, j, -d.0, -d.1, p);
    }
  }

  /** A run of p's stones starting next to (i, j) gives (i, j) a neighbour. */
  lemma NeighbourInRun(g: Grid, i: int, j: int, dr: int, dc: int, p: int)
    requires IsSquare(g) && InBounds(g, i, j) && IsUnit(dr, dc) && p != EMPTY
    requires Run(Place(g, i, j, p), i + dr, j + dc, dr, dc, p) > 0
    ensures Neighboured(g, i, j)
  {
    var h := Place(g, i, j, p);
    RunCells(h, i + dr, j + dc, dr, dc, p, 0);
    assert InBounds(g, i + dr, j + dc) && h[i + dr][j + dc] == p;
    assert g[i + dr][j + dc] != EMPTY && Near(i + dr, i) && Near(j + dc, j);
  }

  // ---------------------------------------------------------------- findBestMove, step 4

  /** The candidate cells at or after (i, j), in row-major order: the
      `emptyCells` list of the fallback step. */
  function CandidatesFrom(g: Grid, i: int, j: int): seq<Move>
    requires IsSquare(g) && 0 <= i <= |g| && 0 <= j <= |g|
    decreases |g| - i, |g| - j
  {
    if i == |g| then []
    else if j == |g| then CandidatesFrom(g, i + 1, 0)
    else if IsCandidate(g, i, j) then [Move(i, j)] + CandidatesFrom(g, i, j + 1)
    else CandidatesFrom(g, i, j + 1)
  }

  function Candidates(g: Grid): seq<Move>
    requires IsSquare(g)
  {
    CandidatesFrom(g, 0, 0)
  }

  /** The list holds exactly the candidate cells at or after (i, j). */
  lemma {:induction false} CandidatesFromMembers(g: Grid, i: int, j: int, m: Move)
    requires IsSquare(g) && 0 <= i <= |g| && 0 <= j <= |g|
    ensures m in CandidatesFrom(g, i, j) <==>
      InBounds(g, m.row, m.col) && !Precedes(m.row, m.col, i, j) && IsCandidate(g, m.row, m.col)
    decreases |g| - i, |g| - j
  {
    if i < |g| {
      if j == |g| {
        CandidatesFromMembers(g, i + 1, 0, m);
      } else {
        CandidatesFromMembers(g, i, j + 1, m);
      }
    }
  }

  lemma CandidatesMembers(g: Grid, m: Move)
    requires IsSquare(g)
    ensures m in Candidates(g) <==> InBounds(g, m.row, m.col) && IsCandidate(g, m.row, m.col)
  {
    CandidatesFromMembers(g, 0, 0, m);
  }

  /** The list is in row-major order, each cell once. */
  lemma {:induction false} CandidatesFromOrdered(g: Grid, i: int, j: int)
    requires IsSquare(g) && 0 <= i <= |g| && 0 <= j <= |g|
    ensures forall a, b | 0 <= a < b < |CandidatesFrom(g, i, j)| ::
      Precedes(CandidatesFrom(g, i, j)[a].row, CandidatesFrom(g, i, j)[a].col,
               CandidatesFrom(g, i, j)[b].row, CandidatesFrom(g, i, j)[b].col)
    decreases |g| - i, |g| - j
  {
    if i < |g| {
      if j == |g| {
        CandidatesFromOrdered(g, i + 1, 0);
      } else {
        CandidatesFromOrdered(g, i, j + 1);
        if IsCandidate(g, i, j) {
          var rest := CandidatesFrom(g, i, j + 1);
          forall b | 0 <= b < |rest| ensures Precedes(i, j, rest[b].row, rest[b].col) {
            CandidatesFromMembers(g, i, j + 1, rest[b]);
          }
        }
      }
    }
  }

  // ---------------------------------------------------------------- findBestMove, step 3

  /** The score step 3 gives the computer's move m: the opponent's reply
      searched `depth - 1` plies deep with the full window. */
  function RootScore(g: Grid, depth: nat, m: Move): Score
    requires IsSquare(g) && depth >= 1 && InBounds(g, m.row, m.col)
  {
    MinimaxValue(Place(g, m.row, m.col, COMPUTER), depth - 1, false, NegInf, PosInf)
  }

  /** The best score and move of step 3 so far. */
  datatype Best = Best(score: Score, move: Option<Move>)

  /** Step 3 from cell (i, j) on: a candidate replaces the best move only
      with a strictly greater score. */
  function BestFrom(g: Grid, depth: nat, i: int, j: int, acc: Best): Best
    requires IsSquare(g) && depth >= 1 && 0 <= i <= |g| && 0 <= j <= |g|
    decreases |g| - i, |g| - j
  {
    if i == |g| then acc
    else if j == |g| then BestFrom(g, depth, i + 1, 0, acc)
    else if IsCandidate(g, i, j) then
      var s := RootScore(g, depth, Move(i, j));
      BestFrom(g, depth, i, j + 1, if Lt(acc.score, s) then Best(s, Some(Move(i, j))) else acc)
    else BestFrom(g, depth, i, j + 1, acc)
  }

  function BestMove(g: Grid, depth: nat): Best
    requires IsSquare(g) && depth >= 1
  {
    BestFrom(g, depth, 0, 0, Best(NegInf, None))
  }

  /** What step 3 knows once it has looked at every cell before (i, j): a
      best move, if any, is the first candidate with the greatest score, and
      that score beats minus infinity; with no best move every candidate
      scored minus infinity. */
  ghost predicate BestSoFar(g: Grid, depth: nat, i: int, j: int, acc: Best)
    requires IsSquare(g) && depth >= 1
  {
    match acc.move
    case None =>
      acc.score == NegInf &&
      forall x, y | InBounds(g, x, y) && Precedes(x, y, i, j) && IsCandidate(g, x, y) ::
        RootScore(g, depth, Move(x, y)) == NegInf
    case Some(m) =>
      InBounds(g, m.row, m.col) && IsCandidate(g, m.row, m.col) && Precedes(m.row, m.col, i, j) &&
      acc.score == RootScore(g, depth, m) && acc.score != NegInf &&
      (forall x, y | InBounds(g, x, y) && Precedes(x, y, i, j) && IsCandidate(g, x, y) ::
        Leq(RootScore(g, depth, Move(x, y)), acc.score)) &&
      (forall x, y | InBounds(g, x, y) && Precedes(x, y, m.row, m.col) && IsCandidate(g, x, y) ::
        Lt(RootScore(g, depth, Move(x, y)), acc.score))
  }

  /** Step 3 keeps BestSoFar from (i, j) to the end of the board. */
  lemma {:induction false} BestFromKeeps(g: Grid, depth: nat, i: int, j: int, acc: Best)
    requires IsSquare(g) && depth >= 1 && 0 <= i <= |g| && 0 <= j <= |g|
    requires BestSoFar(g, depth, i, j, acc)
    ensures BestSoFar(g, depth, |g|, 0, BestFrom(g, depth, i, j, acc))
    decreases |g| - i, |g| - j
  {
    if i < |g| {
      if j == |g| {
        BestSoFarNextRow(g, depth, i, acc);
        BestFromKeeps(g, depth, i + 1, 0, acc);
      } else if IsCandidate(g, i, j) {
        var s := RootScore(g, depth, Move(i, j));
        var acc' := if Lt(acc.score, s) then Best(s, Some(Move(i, j))) else acc;
        BestSoFarStep(g, depth, i, j, acc);
        BestFromKeeps(g, depth, i, j + 1, acc');
      } else {
        BestSoFarSkip(g, depth, i, j, acc);
        BestFromKeeps(g, depth, i, j + 1, acc);
      }
    }
  }

  lemma BestSoFarNextRow(g: Grid, depth: nat, i: int, acc: Best)
    requires IsSquare(g) && depth >= 1 && 0 <= i < |g|
    requires BestSoFar(g, depth, i, |g|, acc)
    ensures BestSoFar(g, depth, i + 1, 0, acc)
  {
  }

  lemma BestSoFarSkip(g: Grid, depth: nat, i: int, j: int, acc: Best)
    requires IsSquare(g) && depth >= 1 && InBounds(g, i, j) && !IsCandidate(g, i, j)
    requires BestSoFar(g, depth, i, j, acc)
    ensures BestSoFar(g, depth, i, j + 1, acc)
  {
  }

  lemma BestSoFarStep(g: Grid, depth: nat, i: int, j: int, acc: Best)
    requires IsSquare(g) && depth >= 1 && InBounds(g, i, j) && IsCandidate(g, i, j)
    requires BestSoFar(g, depth, i, j, acc)
    ensures var s := RootScore(g, depth, Move(i, j));
      BestSoFar(g, depth, i, j + 1, if Lt(acc.score, s) then Best(s, Some(Move(i, j))) else acc)
  {
    var s := RootScore(g, depth, Move(i, j));
    if Lt(acc.score, s) {
      forall x, y | InBounds(g, x, y) && Precedes(x, y, i, j + 1) && IsCandidate(g, x, y)
        ensures Leq(RootScore(g, depth, Move(x, y)), s)
      {
        if Precedes(x, y, i, j) {
          if acc.move.Some? {
            LeqTrans(RootScore(g, depth, Move(x, y)), acc.score, s);
          }
        }
      }
    }
  }

  /** What step 3 ends with: the first candidate of greatest score, or no
      move when every candidate scores minus infinity. */
  lemma BestMoveIsFirstMaximum(g: Grid, depth: nat)
    requires IsSquare(g) && depth >= 1
    ensures BestSoFar(g, depth, |g|, 0, BestMove(g, depth))
  {
    BestFromKeeps(g, depth, 0, 0, Best(NegInf, None));
  }

  // ---------------------------------------------------------------- findBestMove

  /** What `findBestMove(board, depth)` may answer on board g: the first
      winning cell, else the first cell that blocks the human's win, else
      the best move of step 3, else any candidate (the random choice),
      else nothing. */
  ghost predicate Decision(g: Grid, depth: nat, r: Option<Move>)
    requires IsSquare(g) && depth >= 1
  {
    if FirstWin(g, COMPUTER).Some? then r == FirstWin(g, COMPUTER)
    else if FirstWin(g, HUMAN).Some? then r == FirstWin(g, HUMAN)
    else if BestMove(g, depth).move.Some? then r == BestMove(g, depth).move
    else if |Candidates(g)| > 0 then r.Some? && r.value in Candidates(g)
    else r == None
  }

  /** Every answer is an empty cell on the board with a stone near it. */
  lemma DecisionLegal(g: Grid, depth: nat, r: Option<Move>)
    requires IsSquare(g) && depth >= 1 && Decision(g, depth, r) && r.Some?
    ensures InBounds(g, r.value.row, r.value.col) && IsCandidate(g, r.value.row, r.value.col)
  {
    var m := r.value;
    if FirstWin(g, COMPUTER).Some? {
      FirstWinFromIsFirst(g, COMPUTER, 0, 0);
      WinningCellIsCandidate(g, COMPUTER, m.row, m.col);
    } else if FirstWin(g, HUMAN).Some? {
      FirstWinFromIsFirst(g, HUMAN, 0, 0);
      WinningCellIsCandidate(g, HUMAN, m.row, m.col);
    } else if BestMove(g, depth).move.Some? {
      BestMoveIsFirstMaximum(g, depth);
    } else {
      CandidatesMembers(g, m);
    }
  }

  /** There is no answer exactly when no cell is a candidate; a win or a
      block always gives one. */
  lemma DecisionNone(g: Grid, depth: nat, r: Option<Move>)
    requires IsSquare(g) && depth >= 1 && Decision(g, depth, r)
    ensures r.None? <==> NoCandidate(g)
  {
    if r.Some? {
      DecisionLegal(g, depth, r);
    } else {
      assert FirstWin(g, COMPUTER).None? && FirstWin(g, HUMAN).None?;
      assert BestMove(g, depth).move.None? && |Candidates(g)| == 0;
      forall x, y | InBounds(g, x, y) ensures !IsCandidate(g, x, y) {
        CandidatesMembers(g, Move(x, y));
      }
    }
  }

  /** Win priority: when some cell wins for the computer, the answer is the
      first such cell in row-major order. */
  lemma DecisionTakesWin(g: Grid, depth: nat, r: Option<Move>, i: int, j: int)
    requires IsSquare(g) && depth >= 1 && Decision(g, depth, r)
    requires InBounds(g, i, j) && Wins(g, COMPUTER, i, j)
    ensures r.Some? && InBounds(g, r.value.row, r.value.col) && Wins(g, COMPUTER, r.value.row, r.value.col)
    ensures forall x, y | InBounds(g, x, y) && Precedes(x, y, r.value.row, r.value.col) :: !Wins(g, COMPUTER, x, y)
  {
    FirstWinFromIsFirst(g, COMPUTER, 0, 0);
  }

  /** Block priority: with no win of its own, when some cell would win for
      the human the answer is the first such cell. */
  lemma DecisionBlocks(g: Grid, depth: nat, r: Option<Move>, i: int, j: int)
    requires IsSquare(g) && depth >= 1 && Decision(g, depth, r)
    requires forall x, y | InBounds(g, x, y) :: !Wins(g, COMPUTER, x, y)
    requires InBounds(g, i, j) && Wins(g, HUMAN, i, j)
    ensures r.Some? && InBounds(g, r.value.row, r.value.col) && Wins(g, HUMAN, r.value.row, r.value.col)
    ensures forall x, y | InBounds(g, x, y) && Precedes(x, y, r.value.row, r.value.col) :: !Wins(g, HUMAN, x, y)
  {
    FirstWinFromIsFirst(g, COMPUTER, 0, 0);
    FirstWinFromIsFirst(g, HUMAN, 0, 0);
  }

  /** Step 3: with neither a win nor a block, a move of finite or infinite
      but not minus-infinite score is answered by the first candidate of
      greatest score. */
  lemma DecisionBestScore(g: Grid, depth: nat, r: Option<Move>, i: int, j: int)
    requires IsSquare(g) && depth >= 1 && Decision(g, depth, r)
    requires FirstWin(g, COMPUTER).None? && FirstWin(g, HUMAN).None?
    requires InBounds(g, i, j) && IsCandidate(g, i, j) && RootScore(g, depth, Move(i, j)) != NegInf
    ensures r.Some? && InBounds(g, r.value.row, r.value.col) && IsCandidate(g, r.value.row, r.value.col)
    ensures forall x, y | InBounds(g, x, y) && IsCandidate(g, x, y) ::
      Leq(RootScore(g, depth, Move(x, y)), RootScore(g, depth, r.value))
    ensures forall x, y | InBounds(g, x, y) && Precedes(x, y, r.value.row, r.value.col) && IsCandidate(g, x, y) ::
      Lt(RootScore(g, depth, Move(x, y)), RootScore(g, depth, r.value))
  {
    BestMoveIsFirstMaximum(g, depth);
  }

  /** The computer never opens: on the empty board there is no answer. */
  lemma DecisionEmptyBoard(n: nat, depth: nat, r: Option<Move>)
    requires depth >= 1 && Decision(EmptyGrid(n), depth, r)
    ensures r == None
  {
    EmptyGridNoCandidate(n);
    DecisionNone(EmptyGrid(n), depth, r);
  }

  /** At the game's depth of two, step 3 ranks each move by the plain
      minimax value of the human's replies. */
  lemma RootScoreDepthTwo(g: Grid, m: Move)
    requires IsSquare(g) && InBounds(g, m.row, m.col)
    ensures RootScore(g, 2, m) == ExhaustiveValue(Place(g, m.row, m.col, COMPUTER), 1, false)
  {
    MinimaxDepthOne(Place(g, m.row, m.col, COMPUTER), false);
  }
}
