/** The game object `NormalOmok`: the 15×15 board, whose turn it is, whether
    the game is over, the two running scores and the move history, with the
    operations that change them. The computer's turn hands a copy of the
    board to the search engine and plays the cell it answers. */
module Game {
  import opened Board
  import opened Primitives
  import opened Search
  import opened Engine

  /** One entry of `gameHistory`: `{row, col, player}`. */
  datatype Entry = Entry(row: int, col: int, player: int)

  /** The other side. */
  function Other(p: int): int
  {
    if p == HUMAN then COMPUTER else HUMAN
  }

  /** Whose move the k-th move of a game is: the human opens. */
  function MoverAt(k: nat): int
  {
    if k % 2 == 0 then HUMAN else COMPUTER
  }

  /** The board a history leads to from the empty board. */
  function Replay(h: seq<Entry>): (g: Grid)
    ensures |g| == BOARD_SIZE && IsSquare(g)
  {
    if |h| == 0 then EmptyGrid(BOARD_SIZE)
    else
      var g := Replay(h[..|h| - 1]);
      var e := h[|h| - 1];
      if InBounds(g, e.row, e.col) then Place(g, e.row, e.col, e.player) else g
  }

  /** Every move of the history went onto an empty cell of the board, by
      the side whose turn it was. */
  ghost predicate Legal(h: seq<Entry>)
  {
    |h| == 0 ||
    (Legal(h[..|h| - 1]) &&
     var g := Replay(h[..|h| - 1]);
     var e := h[|h| - 1];
     InBounds(g, e.row, e.col) && g[e.row][e.col] == EMPTY && e.player == MoverAt(|h| - 1))
  }

  /** A legal history stays legal when the next side plays an empty cell,
      and the board it leads to has that one cell more. */
  lemma LegalExtend(h: seq<Entry>, e: Entry)
    requires Legal(h)
    requires InBounds(Replay(h), e.row, e.col) && Replay(h)[e.row][e.col] == EMPTY && e.player == MoverAt(|h|)
    ensures Legal(h + [e])
    ensures Replay(h + [e]) == Place(Replay(h), e.row, e.col, e.player)
  {
    assert (h + [e])[..|h|] == h;
  }

  /** No stone is ever overwritten: after a legal history every recorded
      move still shows on the board, in its player's colour. */
  lemma {:induction false} ReplayKeepsMoves(h: seq<Entry>, k: int)
    requires Legal(h) && 0 <= k < |h|
    ensures h[k].player == MoverAt(k)
    ensures InBounds(Replay(h), h[k].row, h[k].col) && Replay(h)[h[k].row][h[k].col] == h[k].player
    decreases |h|
  {
    var h0 := h[..|h| - 1];
    if k < |h| - 1 {
      ReplayKeepsMoves(h0, k);
      assert h0[k] == h[k];
      var e := h[|h| - 1];
      assert Replay(h0)[e.row][e.col] == EMPTY != h[k].player;
    }
  }

  class NormalOmok {
    var board: array2<int>
    var currentPlayer: int
    var gameOver: bool
    var playerScore: nat
    var aiScore: nat
    var gameHistory: seq<Entry>

    /** The board holds what the history put there; the turn alternates from
        the human while the game runs, and a finished game stopped on the
        winner's move, which made a line of five or more. */
    ghost predicate Valid()
      reads this, board
    {
      board.Length0 == BOARD_SIZE && board.Length1 == BOARD_SIZE &&
      Legal(gameHistory) && Cells(board) == Replay(gameHistory) &&
      (!gameOver ==> currentPlayer == MoverAt(|gameHistory|)) &&
      (gameOver ==>
        |gameHistory| > 0 &&
        currentPlayer == gameHistory[|gameHistory| - 1].player &&
        FiveOrMore(Cells(board), gameHistory[|gameHistory| - 1].row, gameHistory[|gameHistory| - 1].col))
    }

    /** A fresh 15×15 board of zeros. */
    static method EmptyBoard() returns (a: array2<int>)
      ensures fresh(a) && a.Length0 == BOARD_SIZE && a.Length1 == BOARD_SIZE
      ensures Cells(a) == EmptyGrid(BOARD_SIZE)
    {
      a := new int[BOARD_SIZE, BOARD_SIZE]((i, j) => EMPTY);
      CellsOf(a, EmptyGrid(BOARD_SIZE));
    }

    /** `new NormalOmok()`: the empty board, the human to move, both
        scores zero, no history. */
    constructor()
      ensures Valid() && fresh(board)
      ensures Cells(board) == EmptyGrid(BOARD_SIZE)
      ensures currentPlayer == HUMAN && !gameOver
      ensures playerScore == 0 && aiScore == 0 && gameHistory == []
    {
      var empty := NormalOmok.EmptyBoard();
      board := empty;
      currentPlayer := HUMAN;
      gameOver := false;
      playerScore := 0;
      aiScore := 0;
      gameHistory := [];
    }

    /** The game's `checkWin(row, col)`: some axis through the stone at
        (row, col) holds a line of five or more. It only reads the board. */
    method CheckWin(row: int, col: int) returns (win: bool)
      requires board.Length0 == BOARD_SIZE && board.Length1 == BOARD_SIZE
      requires 0 <= row < BOARD_SIZE && 0 <= col < BOARD_SIZE
      ensures win == FiveOrMore(Cells(board), row, col)
    {
      var k := 0;
      while k < |Axes|
        invariant 0 <= k <= |Axes|
        invariant forall m | 0 <= m < k :: LineLength(Cells(board), row, col, Axes[m]) < 5
      {
        var count := AxisCount(board, row, col, Axes[k]);
        if count >= 5 {
          return true;
        }
        k := k + 1;
      }
      return false;
    }

    /** `handleGameOver(winner)`: the game ends and the winner's score goes
        up by one; any winner other than the human counts for the computer. */
    method HandleGameOver(winner: int)
      modifies this
      ensures gameOver
      ensures winner == HUMAN ==> playerScore == old(playerScore) + 1 && aiScore == old(aiScore)
      ensures winner != HUMAN ==> aiScore == old(aiScore) + 1 && playerScore == old(playerScore)
      ensures board == old(board) && currentPlayer == old(currentPlayer) && gameHistory == old(gameHistory)
    {
      gameOver := true;
      if winner == HUMAN {
        playerScore := playerScore + 1;
      } else {
        aiScore := aiScore + 1;
      }
    }

    /** The cell (row, col) can still be taken: the game runs and the cell
        is empty. */
    ghost predicate Open(row: int, col: int)
      requires 0 <= row < board.Length0 && 0 <= col < board.Length1
      reads this, board
    {
      !gameOver && board[row, col] == EMPTY
    }

    /** The first half of `makeMove`: the side to move takes the cell and
        the move is appended to the history. */
    method Play(row: int, col: int)
      requires Valid() && 0 <= row < BOARD_SIZE && 0 <= col < BOARD_SIZE && Open(row, col)
      modifies this, board
      ensures board == old(board) && Legal(gameHistory) && Cells(board) == Replay(gameHistory)
      ensures Cells(board) == Place(old(Cells(board)), row, col, old(currentPlayer))
      ensures gameHistory == old(gameHistory) + [Entry(row, col, old(currentPlayer))]
      ensures currentPlayer == old(currentPlayer) && gameOver == old(gameOver)
      ensures playerScore == old(playerScore) && aiScore == old(aiScore)
    {
      LegalExtend(gameHistory, Entry(row, col, currentPlayer));
      Put(board, row, col, currentPlayer);
      gameHistory := gameHistory + [Entry(row, col, currentPlayer)];
    }

    /** What `makeMove(row, col)` does, from the state before to the state
        after. Nothing changes once the game is over or on an occupied
        cell. Otherwise the side to move takes the cell and the move is
        recorded. A line of five or more then ends the game with a point for
        that side; anything else passes the turn, and aiRequested says that
        the board is sent to the engine exactly when the computer is now to
        move. */
    twostate predicate MoveOutcome(row: int, col: int, aiRequested: bool)
      requires old(board.Length0) == BOARD_SIZE && old(board.Length1) == BOARD_SIZE
      requires 0 <= row < BOARD_SIZE && 0 <= col < BOARD_SIZE
      reads this, board
    {
      board == old(board) &&
      (!old(Open(row, col)) ==>
        Cells(board) == old(Cells(board)) && currentPlayer == old(currentPlayer) &&
        gameOver == old(gameOver) && gameHistory == old(gameHistory) &&
        playerScore == old(playerScore) && aiScore == old(aiScore) && !aiRequested) &&
      (old(Open(row, col)) ==>
        Cells(board) == Place(old(Cells(board)), row, col, old(currentPlayer)) &&
        gameHistory == old(gameHistory) + [Entry(row, col, old(currentPlayer))] &&
        (gameOver <==> FiveOrMore(Cells(board), row, col)) &&
        (gameOver ==>
          currentPlayer == old(currentPlayer) && !aiRequested &&
          playerScore == old(playerScore) + (if old(currentPlayer) == HUMAN then 1 else 0) &&
          aiScore == old(aiScore) + (if old(currentPlayer) == HUMAN then 0 else 1)) &&
        (!gameOver ==>
          currentPlayer == Other(old(currentPlayer)) &&
          playerScore == old(playerScore) && aiScore == old(aiScore) &&
          (aiRequested <==> currentPlayer == COMPUTER)))
    }

    /** `makeMove(row, col)`: the effect MoveOutcome sums up, case by case,
        keeping the invariant. The engine request itself is aiRequested;
        its reply comes back through ReceiveMove. */
    method MakeMove(row: int, col: int) returns (aiRequested: bool)
      requires Valid() && 0 <= row < BOARD_SIZE && 0 <= col < BOARD_SIZE
      modifies this, board
      ensures Valid() && board == old(board)
      ensures !old(Open(row, col)) ==>
        Cells(board) == old(Cells(board)) && currentPlayer == old(currentPlayer) &&
        gameOver == old(gameOver) && gameHistory == old(gameHistory) &&
        playerScore == old(playerScore) && aiScore == old(aiScore) && !aiRequested
      ensures old(Open(row, col)) ==>
        Cells(board) == Place(old(Cells(board)), row, col, old(currentPlayer)) &&
        gameHistory == old(gameHistory) + [Entry(row, col, old(currentPlayer))] &&
        (gameOver <==> FiveOrMore(Cells(board), row, col))
      ensures old(Open(row, col)) && gameOver ==>
        currentPlayer == old(currentPlayer) && !aiRequested &&
        playerScore == old(playerScore) + (if old(currentPlayer) == HUMAN then 1 else 0) &&
        aiScore == old(aiScore) + (if old(currentPlayer) == HUMAN then 0 else 1)
      ensures old(Open(row, col)) && !gameOver ==>
        currentPlayer == Other(old(currentPlayer)) &&
        playerScore == old(playerScore) && aiScore == old(aiScore) &&
        (aiRequested <==> currentPlayer == COMPUTER)
      ensures MoveOutcome(row, col, aiRequested)
    {
      if gameOver || board[row, col] != EMPTY {
        return false;
      }
      Play(row, col);
      var win := CheckWin(row, col);
      if win {
        HandleGameOver(currentPlayer);
        return false;
      }
      currentPlayer := if currentPlayer == HUMAN then COMPUTER else HUMAN;
      aiRequested := currentPlayer == COMPUTER;
    }

    /** The board's click handler: it acts only while the game runs and it
        is the human's turn, and then plays the cell as `makeMove` does
        (an occupied cell changes nothing). */
    method Click(row: int, col: int) returns (aiRequested: bool)
      requires Valid() && 0 <= row < BOARD_SIZE && 0 <= col < BOARD_SIZE
      modifies this, board
      ensures Valid()
      ensures old(gameOver) || old(currentPlayer) != HUMAN ==>
        unchanged(this) && unchanged(board) && !aiRequested
      ensures !old(gameOver) && old(currentPlayer) == HUMAN ==> MoveOutcome(row, col, aiRequested)
    {
      if gameOver || currentPlayer != HUMAN {
        return false;
      }
      if board[row, col] == EMPTY {
        aiRequested := MakeMove(row, col);
      } else {
        aiRequested := false;
      }
    }

    /** `resetGame()`: a new empty board, the human to move, no history; the
        scores stay. */
    method ResetGame()
      modifies this
      ensures Valid() && fresh(board)
      ensures Cells(board) == EmptyGrid(BOARD_SIZE)
      ensures currentPlayer == HUMAN && !gameOver && gameHistory == []
      ensures playerScore == old(playerScore) && aiScore == old(aiScore)
    {
      board := EmptyBoard();
      currentPlayer := HUMAN;
      gameOver := false;
      gameHistory := [];
    }

    /** A copy of a board in a fresh array, the board the game posts to
        the engine. */
    static method CopyBoard(a: array2<int>) returns (copy: array2<int>)
      requires IsBoard(a)
      ensures fresh(copy) && IsBoard(copy) && Cells(copy) == Cells(a)
    {
      copy := new int[a.Length0, a.Length1];
      var i := 0;
      while i < a.Length0
        invariant 0 <= i <= a.Length0
        invariant forall x, y | 0 <= x < i && 0 <= y < a.Length1 :: copy[x, y] == a[x, y]
      {
        var j := 0;
        while j < a.Length1
          invariant 0 <= j <= a.Length1
          invariant forall x, y | 0 <= x < i && 0 <= y < a.Length1 :: copy[x, y] == a[x, y]
          invariant forall y | 0 <= y < j :: copy[i, y] == a[i, y]
        {
          copy[i, j] := a[i, j];
          j := j + 1;
        }
        i := i + 1;
      }
      CellsOf(copy, Cells(a));
    }

    /** `calculateAIMove()` and the worker's reply: the engine searches a
        copy of the board two plies deep; the game itself is untouched. */
    method CalculateAIMove() returns (reply: Option<Move>)
      requires Valid()
      ensures Decision(Cells(board), 2, reply)
    {
      var copy := CopyBoard(board);
      reply := FindBestMove(copy, 2);
    }

    /** The worker's `onmessage` handler: a move, when there is one, is
        played through MakeMove, whatever the state of the game by then. */
    method ReceiveMove(reply: Option<Move>) returns (aiRequested: bool)
      requires Valid()
      requires reply.Some? ==> 0 <= reply.value.row < BOARD_SIZE && 0 <= reply.value.col < BOARD_SIZE
      modifies this, board
      ensures Valid()
      ensures reply.None? ==> unchanged(this) && unchanged(board) && !aiRequested
      ensures reply.Some? ==> MoveOutcome(reply.value.row, reply.value.col, aiRequested)
    {
      aiRequested := false;
      if reply.Some? {
        aiRequested := MakeMove(reply.value.row, reply.value.col);
      }
    }

    /** The computer's turn from end to end: the move the engine answers is
        always an empty cell of the running game, so when there is one it
        is played as the computer's move. */
    method ComputerTurn() returns (reply: Option<Move>, aiRequested: bool)
      requires Valid() && !gameOver && currentPlayer == COMPUTER
      modifies this, board
      ensures Valid()
      ensures Decision(old(Cells(board)), 2, reply)
      ensures reply.None? ==> unchanged(this) && unchanged(board) && !aiRequested
      ensures reply.Some? ==>
        0 <= reply.value.row < BOARD_SIZE && 0 <= reply.value.col < BOARD_SIZE &&
        old(Open(reply.value.row, reply.value.col)) &&
        MoveOutcome(reply.value.row, reply.value.col, aiRequested)
    {
      reply := CalculateAIMove();
      aiRequested := false;
      if reply.Some? {
        DecisionLegal(Cells(board), 2, reply);
        aiRequested := ReceiveMove(reply);
      }
    }
  }
}
