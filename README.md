# Omok (five in a row) against the computer: engine and game state

This project models the single-player Omok game of `normal_game.js`. The
board is 15×15. The human plays black (marker 1) and moves first; the
computer plays white (marker 2); an empty cell holds 0.

The model has two parts.

- **The move-search engine**, which runs in a web worker. Given a board
  snapshot and a depth, `findBestMove` answers in four steps:
  1. a cell where white wins at once;
  2. otherwise a cell where black would win at once, which white blocks;
  3. otherwise the candidate cell with the strictly greatest alpha-beta
     minimax score;
  4. otherwise a random candidate.

  A candidate is an empty cell with a stone within two cells. When there
  is no candidate, the engine answers nothing. The heuristic
  `evaluateBoard` adds, over every stone and each of four directions, a
  table score that depends on the number of stones in a row and on the
  open ends. It counts white's stones positive and black's negative.
- **The game object `NormalOmok`**. It holds the board, whose turn it is,
  whether the game is over, the two scores and the move history. Its
  operations are:
  - `makeMove`: place a stone, test for five in a row, then end the game
    or pass the turn;
  - `resetGame`;
  - the click handler;
  - the worker round trip that plays the computer's reply.

Modules:

- `Board`: the cell markers, the board value `Grid` (`seq<seq<int>>`),
  one-cell updates, and `Cells`, the value an `array2<int>` holds.
- `Primitives`: the pure meaning of the worker's helpers.
  - `Neighboured` is `hasNeighbor`.
  - `Run` and `LineLength` are the `while` walks of `checkWin`.
  - `Scan`, `DirectionTally` and `ScoreTable` are `evaluateDirection`.
  - `BoardScore` is `evaluateBoard`.
  - The module also holds the basic facts about each of these.
- `Search`: the pure meaning of `minimax` and `findBestMove`.
  - `MinimaxValue` and `MinimaxScan` follow the row-major loop with its
    cut-off.
  - `ExhaustiveValue` is a reference minimax without pruning.
  - `FirstWin` covers steps 1 and 2, `Candidates` step 4, and
    `BestMove` step 3.
  - `Decision` is the whole answer.
- `Engine`: the worker's functions as methods on an `array2<int>`, with
  the source's loops. Each method is proved equal to its `Primitives` or
  `Search` counterpart, or, for `FindBestMove`, to satisfy `Decision`,
  which leaves the random pick of step 4 open. The searching methods write and restore cells on
  the board they are given, and promise that the board is unchanged at
  the end.
- `Game`: the class `NormalOmok`, with the invariant `Valid` on its
  fields. Under `Valid`:
  - the board is what the move history puts on the empty board;
  - every move went to an empty cell;
  - the human and the computer alternate, starting with the human;
  - a finished game ended on a move that made five or more in a row.

Two win tests exist in the source, and the model keeps both.

- The worker's `checkWin` asks for a line of exactly five stones.
  `FiveExactly` models it, and the engine uses it.
- The game's `checkWin` asks for five or more. `FiveOrMore` models it,
  and the game uses it.

The engine's test does not count a line of six or more, so a move that
makes a line of six or more and no line of exactly five is no win for the
engine, while the game awards one (`Primitives.OverlineOnly`). A move
that makes exactly five on some axis is a win for both, whatever its
other lines.
`Primitives.ExactlyFiveIsFive` states the one direction that holds
between the two tests, and `Search.OverlineExample` shows a board where
the other direction fails.

On the empty board there is no candidate cell, so the engine answers no
move (`Search.DecisionEmptyBoard`).

## Model

| member | source | states |
|---|---|---|
| Board.Place | normal_game.js:40-45 | writing one cell changes that cell only, and the board stays square |
| Board.PlaceUndo | normal_game.js:113-115 | placing a stone and writing back the old marker gives the board that was there before (make/unmake) |
| Board.EmptyGrid | normal_game.js:4 | the fresh board is square of the given side, and every cell is empty |
| Primitives.Neighboured | normal_game.js:242-252 | `hasNeighbor`: some stone lies within Chebyshev distance 2 of the cell, the cell itself included |
| Primitives.IsCandidate | normal_game.js:67 | the filter `board[i][j] === 0 && hasNeighbor(board, i, j)` that steps 3 and 4 and both branches of `minimax` (lines 88, 112 and 127) apply: an empty cell with a stone within two cells |
| Primitives.EmptyGridIsolated | normal_game.js:242-252 | no cell of an all-empty board has a stone within two cells |
| Primitives.Run | normal_game.js:268-279 | one `while` walk of `checkWin`: the number of the player's stones met from the cell on, stopping at the first other cell or the edge |
| Primitives.HoldsAtAlong | normal_game.js:268-278 | the cell k steps along a direction is the cell at `x + dx·k`, `y + dy·k` |
| Primitives.RunCells | normal_game.js:271-279 | the first n cells of a run of length n hold the player's stones, and the cell after it does not |
| Primitives.Step | normal_game.js:255-260 | each axis's steps are unit steps in both directions |
| Primitives.LineLength | normal_game.js:264-281 | the win test's `count` along an axis: the stone itself plus its forward and backward runs of its own marker, so always at least 1 |
| Primitives.FiveExactly | normal_game.js:282 | the worker's win test: along some axis the line is exactly five long |
| Primitives.FiveOrMore | normal_game.js:425 | the game's win test: along some axis the line is five or more long |
| Primitives.ExactlyFiveIsFive | normal_game.js:282 | a worker win (a line of exactly five) is a game win (a line of five or more) |
| Primitives.OverlineOnly | normal_game.js:282 | a cell with no line of exactly five on any axis and a line of six or more on some axis passes the game's test (normal_game.js:425) and fails the worker's |
| Primitives.LoneStone | normal_game.js:264-281 | a single stone on an empty board has a line of length 1 along every axis |
| Primitives.Scan | normal_game.js:183-199 | a scan finds at most one open end, and at most `limit` cells in all |
| Primitives.ScanCount | normal_game.js:183-199 | the scan counts the player's run from the start cell, cut at `limit` |
| Primitives.ScanOpen | normal_game.js:183-199 | the scan has an open end exactly when the run stops short of `limit` at an empty cell on the board |
| Primitives.DirectionTally | normal_game.js:176-218 | the tally of `evaluateDirection`: the forward scan from the stone (five cells) plus the backward scan from the cell behind it (four cells), so at most two open ends and at most nine cells |
| Primitives.ScoreTable | normal_game.js:220-239 | the score is one of the table's values; five or more scores 100000; fewer than five with no open end scores 0 |
| Primitives.DirectionScore | normal_game.js:176-240 | `evaluateDirection`: the table score of the direction's tally |
| Primitives.StoneScoreFrom | normal_game.js:155-157 | the four directions' scores for one stone add up to a non-negative total |
| Primitives.SideFrom | normal_game.js:152-160 | the sum over one side's stones is non-negative |
| Primitives.BoardScore | normal_game.js:141-174 | `evaluateBoard`: white's stone scores minus black's |
| Primitives.Swapped | normal_game.js:141-174 | swapping the colours keeps the board's shape and swaps every stone, leaving empty cells empty |
| Primitives.ScanSwapped | normal_game.js:183-199 | a scan for the swapped colour on the swapped board gives the same tally |
| Primitives.TallySwapped | normal_game.js:176-218 | the direction tally is the same after swapping the colours |
| Primitives.StoneScoreSwapped | normal_game.js:155-157 | a stone's score is the same after swapping the colours |
| Primitives.SideSwapped | normal_game.js:152-171 | white's sum on the swapped board equals black's sum on the original, and the other way round |
| Primitives.BoardScoreAntisymmetric | normal_game.js:141-174 | swapping the colours negates the evaluation |
| Primitives.EmptySide | normal_game.js:152-160 | neither side scores anything on an empty board |
| Primitives.EmptyBoardScore | normal_game.js:141-174 | the empty board evaluates to 0 |
| Search.Leq | normal_game.js:118 | JavaScript's `<=` on integers and ±Infinity: -Infinity is below everything, +Infinity above everything, and finite scores compare as integers |
| Search.Lt | normal_game.js:72 | JavaScript's `>` read the other way round: a is below b exactly when b is not at or below a |
| Search.Max | normal_game.js:116-117 | `Math.max` over scores with ±Infinity: an upper bound that is one of its arguments |
| Search.Min | normal_game.js:131-132 | `Math.min` over scores with ±Infinity: a lower bound that is one of its arguments |
| Search.LeqTrans | normal_game.js:118 | the score order is transitive |
| Search.EmptyGridNoCandidate | normal_game.js:67 | an empty board has no candidate cell |
| Search.MinimaxValue | normal_game.js:101-139 | `minimax`: the evaluation at depth 0, else the row-major scan of the candidates with the alpha-beta window |
| Search.MinimaxScan | normal_game.js:108-138 | one layer's double loop: each candidate's child value updates the best score and the window; a cut-off skips the rest of the row only and goes on at the next row |
| Search.EmptyLayerScan | normal_game.js:110-121 | a layer loop that finds no candidate returns the score it started with |
| Search.EmptyLayer | normal_game.js:108-138 | with no candidate cell, minimax returns -Infinity for white to move and +Infinity for black |
| Search.ExhaustiveScanBound | normal_game.js:108-138 | the unpruned value is at least as good for the mover as every child from the scan position on |
| Search.ExhaustiveScanAttained | normal_game.js:108-138 | the unpruned value is the starting score or the value of some child |
| Search.NoCutOffScan | normal_game.js:117-118 | one ply above the leaves, with one bound still infinite, the cut-off never fires, and the scan equals the unpruned scan |
| Search.MinimaxDepthOne | normal_game.js:101-139 | at depth 1 with the full window, alpha-beta minimax equals unpruned minimax |
| Search.Wins | normal_game.js:39-41 | the trial of steps 1 and 2 (also lines 53-55): the cell is empty, and the player's stone placed there makes exactly five along some axis |
| Search.FirstWinFrom | normal_game.js:37-62 | the win and block scans: the first empty cell in row-major order where the stone makes exactly five |
| Search.OverlineExample | normal_game.js:282 | on a board with black on row 7 at columns 4, 5, 6, 8 and 9, filling column 7 gives six in a row: the game's test (normal_game.js:425) sees a win, the worker's test does not |
| Search.FillGap | normal_game.js:282 | the gap board with column 7 filled is the six-stone board |
| Search.SixAcross | normal_game.js:264-281 | the six-stone board has a horizontal line of six through (7, 7) |
| Search.SixAlone | normal_game.js:264-281 | on the six-stone board the other three axes through (7, 7) have length 1 |
| Search.SixNotFive | normal_game.js:282 | a cell with a horizontal line of six and lines of length 1 on the other three axes wins the game's test and not the worker's |
| Search.FirstWinFromIsFirst | normal_game.js:37-62 | the win scan answers the first winning empty cell in row-major order, and answers none only when no cell wins |
| Search.WinningCellIsCandidate | normal_game.js:37-48 | a cell that wins at once always has a stone within two cells |
| Search.WinningAxisNeighbour | normal_game.js:264-281 | a stone that extends a line of its colour has a neighbour |
| Search.NeighbourInRun | normal_game.js:271-279 | a cell next to a run of stones has a neighbour |
| Search.CandidatesFrom | normal_game.js:85-92 | the `emptyCells` list: the candidate cells at or after (i, j), in row-major order |
| Search.CandidatesFromMembers | normal_game.js:85-92 | the collection from (i, j) on holds exactly the candidates at or after (i, j) |
| Search.CandidatesMembers | normal_game.js:85-92 | `emptyCells` holds exactly the empty cells with a neighbour |
| Search.CandidatesFromOrdered | normal_game.js:85-92 | `emptyCells` lists cells in strict row-major order |
| Search.RootScore | normal_game.js:68-69 | step 3's score for a computer move: white's stone placed on the cell, then `minimax` on that board one ply less deep, black to move, with the window (-Infinity, +Infinity) |
| Search.BestFrom | normal_game.js:65-78 | the step-3 loop: a candidate replaces the best move only with a strictly greater root score |
| Search.BestFromKeeps | normal_game.js:65-78 | the step-3 loop keeps its invariant: the best so far is the first candidate with the strictly greatest score among those seen |
| Search.BestSoFarNextRow | normal_game.js:65-66 | moving to the next row keeps the step-3 invariant |
| Search.BestSoFarSkip | normal_game.js:67 | skipping a cell that is not a candidate keeps the step-3 invariant |
| Search.BestSoFarStep | normal_game.js:67-75 | scoring a candidate and keeping it only on a strictly greater score keeps the step-3 invariant |
| Search.BestMoveIsFirstMaximum | normal_game.js:65-78 | step 3 returns the first candidate with the greatest root score, or none if every candidate scored -Infinity |
| Search.Decision | normal_game.js:31-98 | what `findBestMove` may answer: the first winning cell, else the first blocking cell, else step 3's best move, else any candidate, else nothing |
| Search.DecisionLegal | normal_game.js:31-98 | any move the engine answers is an empty cell on the board with a stone within two cells |
| Search.DecisionNone | normal_game.js:94-98 | the engine answers nothing exactly when the board has no candidate cell |
| Search.DecisionTakesWin | normal_game.js:37-48 | when white can win at once, the engine plays the first such cell |
| Search.DecisionBlocks | normal_game.js:51-62 | when white cannot win but black could, the engine blocks the first such cell |
| Search.DecisionBestScore | normal_game.js:64-82 | with neither a win nor a block, a candidate scoring above -Infinity makes the engine play a candidate of greatest root score, and every earlier candidate scores strictly less |
| Search.DecisionEmptyBoard | normal_game.js:31-98 | on an empty board the engine answers no move |
| Search.RootScoreDepthTwo | normal_game.js:69 | at the game's depth 2, each root score equals the unpruned minimax value of the reply |
| Engine.Put | normal_game.js:40 | an array write changes the board value by exactly one cell |
| Engine.HasNeighbor | normal_game.js:242-252 | the loop over the clipped 5×5 square answers true exactly when some stone lies within two cells |
| Engine.CountRun | normal_game.js:268-279 | the `while` walk counts exactly the run of the player's stones, one stone at a time |
| Engine.AxisCount | normal_game.js:264-281 | one axis's count is the stone's line length along that axis |
| Engine.CheckWin | normal_game.js:254-286 | the worker's win test answers true exactly when some axis holds exactly five |
| Engine.ScanForward | normal_game.js:183-199 | the forward loop computes the pure forward scan; each cell stops it, opens it or extends it as the pure scan does |
| Engine.ScanBackward | normal_game.js:202-218 | the backward loop, from i = 1, is the pure scan from the cell behind the stone in the opposite direction, cell by cell |
| Engine.EvaluateDirection | normal_game.js:176-240 | the method computes the table score of the direction's tally |
| Engine.StoneScore | normal_game.js:155-157 | the inner loop over the four directions adds up the stone's scores |
| Engine.SideScore | normal_game.js:152-160 | the double loop adds up one colour's stone scores |
| Engine.EvaluateBoard | normal_game.js:141-174 | the method computes white's sum minus black's sum |
| Engine.Minimax | normal_game.js:101-139 | the method equals the pruning minimax value; depth 0 is the evaluation; the board is restored |
| Engine.Probe | normal_game.js:112-115 | placing a stone, searching one ply less and clearing the cell gives the child's value and leaves the board unchanged |
| Engine.FindWinningCell | normal_game.js:37-48 | the win scan answers the first winning cell, restoring every trial stone |
| Engine.SearchBest | normal_game.js:65-78 | the step-3 loop computes the first strict maximum and leaves the board unchanged |
| Engine.CollectCandidates | normal_game.js:85-92 | the fallback loop collects exactly the candidate cells, in row-major order |
| Engine.FindBestMove | normal_game.js:31-99 | the engine's answer satisfies `Decision` (win, then block, then best score, then any candidate, else none), and the board is restored |
| Game.Replay | normal_game.js:344-346 | the board a move history puts on the empty board, a square 15×15 grid |
| Game.Legal | normal_game.js:340-346 | every move of the history went onto an empty cell of the board, by the side whose turn it was, the human first |
| Game.Other | normal_game.js:358 | the turn switch `currentPlayer === 1 ? 2 : 1`: black passes to white, and anything else passes to black |
| Game.LegalExtend | normal_game.js:344-346 | a legal history stays legal when the side to move plays an empty cell, and its board gains exactly that stone |
| Game.ReplayKeepsMoves | normal_game.js:341-346 | stones are never overwritten, so every recorded move shows on the board in its player's colour |
| Game.NormalOmok.Valid | normal_game.js:340-364 | the board is 15×15 and holds what a legal history put there; while the game runs the turn is the history's next mover; a finished game stopped on the winner's move, which made five or more |
| Game.NormalOmok.EmptyBoard | normal_game.js:4 | a fresh 15×15 board of empty cells |
| Game.NormalOmok.constructor | normal_game.js:2-9 | an empty board, black to move, the game running, both scores 0 and no history |
| Game.NormalOmok.CheckWin | normal_game.js:397-429 | the game's win test answers true exactly when some axis has five or more |
| Game.NormalOmok.HandleGameOver | normal_game.js:431-437 | the game ends; black's win adds a point to the player, and any other winner adds one to the computer |
| Game.NormalOmok.Open | normal_game.js:341 | the negation of `makeMove`'s early-return guard: the game runs and the cell is empty |
| Game.NormalOmok.Play | normal_game.js:344-346 | the side to move takes the cell, the move is appended to the history, and the invariant holds for board and history |
| Game.NormalOmok.MoveOutcome | normal_game.js:340-364 | the whole effect of one `makeMove`: a finished game or an occupied cell changes nothing; otherwise the cell takes the mover's stone and the history the entry; the game is over exactly when the line is five or more, with a point for the mover and the turn kept; otherwise the turn passes, the scores stay and the engine is requested exactly when white is to move |
| Game.NormalOmok.MakeMove | normal_game.js:340-364 | the method has the effect `MoveOutcome` states, case by case, and keeps `Valid` |
| Game.NormalOmok.Click | normal_game.js:324-333 | a click changes nothing unless the game runs and black is to move; then it has `makeMove`'s whole effect (`MoveOutcome`) on the cell; `Valid` is kept |
| Game.NormalOmok.ResetGame | normal_game.js:445-449 | a new empty board, black to move, the game running, an empty history, the scores kept, and `Valid` holds |
| Game.NormalOmok.CopyBoard | normal_game.js:467 | the posted board is a fresh array holding the same cells |
| Game.NormalOmok.CalculateAIMove | normal_game.js:464-470 | the engine, run on a copy at depth 2, answers a move satisfying `Decision` for the current board |
| Game.NormalOmok.ReceiveMove | normal_game.js:292-297 | no reply changes nothing; a reply has `makeMove`'s whole effect (`MoveOutcome`) in whatever state the game is in; `Valid` is kept |
| Game.NormalOmok.ComputerTurn | normal_game.js:292-297 | on white's turn the reply satisfies `Decision` for the board; no reply changes nothing; a reply is an empty cell of the running game and has `makeMove`'s whole effect: white's stone and history entry, the game over exactly on five or more with a point for the computer, else black to move; the engine-request flag is returned; `Valid` is kept |

## Left out

- Rendering, messages and score display are not modelled. This covers
  `createBoard`, `updateBoard`, `updateScore` and the game messages and
  status text in `handleGameOver` and `resetGame`. They only write to the
  page.
- Audio (`stoneSound`, the `dol-audio` element) has no effect on the
  game's state.
- Registering the event listeners, creating the worker from a string and
  the unused `patterns` map are not modelled. They are setup with no
  game logic.
- The restart button is not modelled as such. It only calls `resetGame`,
  which is modelled as `ResetGame`.
- The worker runs in another thread and answers asynchronously. The model
  makes the round trip one synchronous call (`CalculateAIMove`, then
  `ReceiveMove`; `ComputerTurn` does both). So interleavings are not
  captured: for example, a restart while the engine is thinking, after
  which the late reply is played for whichever side is then to move.
  `ReceiveMove` does state, through `MoveOutcome`, what any reply does
  in any valid state.
- `Math.random` in step 4 is not modelled. The engine picks some
  candidate, and `Decision` says only that the answer is one of the
  candidates, not that the choice is uniform.
- JavaScript numbers are modelled as unbounded integers, with
  -Infinity/+Infinity as `Score`. The evaluation never comes near the
  range where doubles lose precision.
- The two branches of `minimax` (white maximises, black minimises) are
  one loop in `Engine.Minimax`, parameterised by the side to move. Each
  step is the same as in its branch.
- Search.MinimaxValue: agreement of the pruning search with unpruned
  minimax is proved for depth 1 only (`Search.MinimaxDepthOne`). That is
  the depth below the root that the game's depth-2 search reaches
  (`Search.RootScoreDepthTwo`). Deeper searches are not proved equal.
- Engine.FindBestMove: requires depth ≥ 1. The game always posts 2. With
  depth 0, the source's `minimax` would be called with depth -1 and never
  reach its base case.
- Engine.ScanForward and Engine.ScanBackward take the scan length as a
  parameter. `Engine.EvaluateDirection` passes the source's 5.
- Game.NormalOmok.MakeMove: requires the cell to be on the board. Both
  callers only pass cells of the board: the click handler passes a cell
  element's coordinates, and the worker's reply is always a cell of the
  board (`Search.DecisionLegal`). In the source, a row off the board
  throws, and a column off the board reads `undefined` and returns
  without a move.
- Game.NormalOmok.Click: the check that the click landed on a cell
  element, and the parsing of its coordinates, are page plumbing. The
  model takes the coordinates directly.
