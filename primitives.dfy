/** The evaluation primitives of the move-search engine, as functions of a
    board value: the neighbourhood test (`hasNeighbor`), the line runs behind
    win detection (`checkWin`, in the engine's exactly-five form and the
    game's five-or-more form), the per-direction pattern score
    (`evaluateDirection`) and the whole-board heuristic (`evaluateBoard`). */
module Primitives {
  import opened Board

  /** The coordinate k steps from x along the step d. */
  function Along(x: int, d: int, k: int): int
  {
    x + d * k
  }

  /** One step from x, then k more, is k + 1 steps from x. */
  lemma AlongNext(x: int, d: int, k: int)
    ensures Along(x + d, d, k) == Along(x, d, k + 1)
  {
    assert d * (k + 1) == d * k + d;
  }

  lemma AlongZero(x: int, d: int)
    ensures Along(x, d, 0) == x
  {
  }

  // ---------------------------------------------------------------- hasNeighbor

  /** a lies within distance 2 of b. */
  predicate Near(a: int, b: int)
  {
    b - 2 <= a <= b + 2
  }

  /** Some stone lies within Chebyshev distance 2 of (r, c); the cell itself
      is part of its own neighbourhood. */
  predicate Neighboured(g: Grid, r: int, c: int)
    requires IsSquare(g)
  {
    exists i, j | 0 <= i < |g| && 0 <= j < |g| :: Near(i, r) && Near(j, c) && g[i][j] != EMPTY
  }

  /** A cell the search may expand: empty and near some stone. */
  predicate IsCandidate(g: Grid, r: int, c: int)
    requires IsSquare(g) && InBounds(g, r, c)
  {
    g[r][c] == EMPTY && Neighboured(g, r, c)
  }

  /** On the empty board no cell has a neighbour, so nothing is a candidate. */
  lemma EmptyGridIsolated(n: nat, r: int, c: int)
    ensures !Neighboured(EmptyGrid(n), r, c)
  {
    var g := EmptyGrid(n);
    forall i, j | 0 <= i < |g| && 0 <= j < |g| ensures g[i][j] == EMPTY {
      assert InBounds(g, i, j);
    }
  }

  // ---------------------------------------------------------------- checkWin

  /** A unit step in one of the eight compass directions. */
  predicate IsUnit(dr: int, dc: int)
  {
    -1 <= dr <= 1 && -1 <= dc <= 1 && (dr != 0 || dc != 0)
  }

  /** The number of cells from (r, c) on, along (dr, dc), before the walk
      leaves the board; it bounds every run and makes the walks terminate. */
  function Reach(g: Grid, r: int, c: int, dr: int, dc: int): nat
  {
    if !InBounds(g, r, c) then 0
    else if dr == 1 then |g| - r
    else if dr == -1 then r + 1
    else if dc == 1 then |g| - c
    else c + 1
  }

  /** The length of the run of p's stones that starts at (r, c) and goes
      along (dr, dc): the win test's `while` walk. */
  function Run(g: Grid, r: int, c: int, dr: int, dc: int, p: int): nat
    requires IsSquare(g) && IsUnit(dr, dc)
    decreases Reach(g, r, c, dr, dc)
  {
    if InBounds(g, r, c) && g[r][c] == p then 1 + Run(g, r + dr, c + dc, dr, dc, p) else 0
  }

  /** One more stone of p's lengthens the run by one, and the walk past it
      has less of the board ahead. */
  lemma RunStep(g: Grid, r: int, c: int, dr: int, dc: int, p: int)
    requires IsSquare(g) && IsUnit(dr, dc) && InBounds(g, r, c) && g[r][c] == p
    ensures Run(g, r, c, dr, dc, p) == 1 + Run(g, r + dr, c + dc, dr, dc, p)
    ensures Reach(g, r + dr, c + dc, dr, dc) < Reach(g, r, c, dr, dc)
  {
  }

  /** The cell k steps from (r, c) along (dr, dc) is on the board and holds v. */
  predicate HoldsAt(g: Grid, r: int, c: int, dr: int, dc: int, k: nat, v: int)
    requires IsSquare(g)
    decreases k
  {
    if k == 0 then InBounds(g, r, c) && g[r][c] == v else HoldsAt(g, r + dr, c + dc, dr, dc, k - 1, v)
  }

  /** The cell HoldsAt looks at is the one at coordinates `r + dr * k`, `c + dc * k`. */
  lemma {:induction false} HoldsAtAlong(g: Grid, r: int, c: int, dr: int, dc: int, k: nat, v: int)
    requires IsSquare(g)
    ensures HoldsAt(g, r, c, dr, dc, k, v) <==>
      InBounds(g, Along(r, dr, k), Along(c, dc, k)) && g[Along(r, dr, k)][Along(c, dc, k)] == v
    decreases k
  {
    if k == 0 {
      AlongZero(r, dr);
      AlongZero(c, dc);
    } else {
      HoldsAtAlong(g, r + dr, c + dc, dr, dc, k - 1, v);
      AlongNext(r, dr, k - 1);
      AlongNext(c, dc, k - 1);
    }
  }

  /** What a run is: its first n cells hold p's stones, and the cell right
      after it is off the board or holds something else. */
  lemma {:induction false} RunCells(g: Grid, r: int, c: int, dr: int, dc: int, p: int, k: nat)
    requires IsSquare(g) && IsUnit(dr, dc)
    ensures k < Run(g, r, c, dr, dc, p) ==> HoldsAt(g, r, c, dr, dc, k, p)
    ensures k == Run(g, r, c, dr, dc, p) ==> !HoldsAt(g, r, c, dr, dc, k, p)
    decreases k
  {
    if k > 0 && k <= Run(g, r, c, dr, dc, p) {
      RunCells(g, r + dr, c + dc, dr, dc, p, k - 1);
    }
  }

  /** The four axes the win test and the evaluator scan. */
  datatype Axis = Horizontal | Vertical | Diagonal | AntiDiagonal

  /** The forward step of an axis; its backward step is the negation
      (the pairs `[[0,1],[0,-1]]`, `[[1,0],[-1,0]]`, `[[1,1],[-1,-1]]`, `[[1,-1],[-1,1]]`). */
  function Step(a: Axis): (d: (int, int))
    ensures IsUnit(d.0, d.1) && IsUnit(-d.0, -d.1)
  {
    match a
    case Horizontal => (0, 1)
    case Vertical => (1, 0)
    case Diagonal => (1, 1)
    case AntiDiagonal => (1, -1)
  }

  /** The axes in the order the win test tries them. */
  const Axes: seq<Axis> := [Horizontal, Vertical, Diagonal, AntiDiagonal]

  /** The length of the line of the stone at (r, c) along axis a, the cell
      itself counted once: the `count` of the win test. */
  function LineLength(g: Grid, r: int, c: int, a: Axis): (n: nat)
    requires IsSquare(g) && InBounds(g, r, c)
    ensures n >= 1
  {
    var (dr, dc) := Step(a);
    1 + Run(g, r + dr, c + dc, dr, dc, g[r][c]) + Run(g, r - dr, c - dc, -dr, -dc, g[r][c])
  }

  /** LineLength put together from its two runs. */
  lemma LineLengthOf(g: Grid, r: int, c: int, a: Axis, forward: nat, backward: nat)
    requires IsSquare(g) && InBounds(g, r, c)
    requires forward == Run(g, r + Step(a).0, c + Step(a).1, Step(a).0, Step(a).1, g[r][c])
    requires backward == Run(g, r - Step(a).0, c - Step(a).1, -Step(a).0, -Step(a).1, g[r][c])
    ensures LineLength(g, r, c, a) == 1 + forward + backward
  {
  }

  /** The engine's win test: along some axis the line is exactly five long. */
  predicate FiveExactly(g: Grid, r: int, c: int)
    requires IsSquare(g) && InBounds(g, r, c)
  {
    exists k | 0 <= k < |Axes| :: LineLength(g, r, c, Axes[k]) == 5
  }

  /** The game's win test: along some axis the line is five or more long. */
  predicate FiveOrMore(g: Grid, r: int, c: int)
    requires IsSquare(g) && InBounds(g, r, c)
  {
    exists k | 0 <= k < |Axes| :: LineLength(g, r, c, Axes[k]) >= 5
  }

  /** The engine's win test is the stricter one: what it calls a win the game
      calls a win too. The converse fails for an overline; see Search.OverlineExample. */
  lemma ExactlyFiveIsFive(g: Grid, r: int, c: int)
    requires IsSquare(g) && InBounds(g, r, c)
    ensures FiveExactly(g, r, c) ==> FiveOrMore(g, r, c)
  {
    if FiveExactly(g, r, c) {
      var k :| 0 <= k < |Axes| && LineLength(g, r, c, Axes[k]) == 5;
      assert LineLength(g, r, c, Axes[k]) >= 5;
    }
  }

  /** A move whose only long lines are six or more, with no line of exactly
      five, is a win for the game's test and not for the engine's. */
  lemma OverlineOnly(g: Grid, r: int, c: int)
    requires IsSquare(g) && InBounds(g, r, c)
    requires forall k | 0 <= k < |Axes| :: LineLength(g, r, c, Axes[k]) != 5
    requires exists k | 0 <= k < |Axes| :: LineLength(g, r, c, Axes[k]) >= 6
    ensures FiveOrMore(g, r, c) && !FiveExactly(g, r, c)
  {
  }

  /** A board with a single stone has no line longer than one. */
  lemma {:induction false} LoneStone(n: nat, r: int, c: int, p: int, a: Axis)
    requires InBounds(EmptyGrid(n), r, c) && p != EMPTY
    ensures LineLength(Place(EmptyGrid(n), r, c, p), r, c, a) == 1
  {
    var g := Place(EmptyGrid(n), r, c, p);
    var (dr, dc) := Step(a);
    assert !(InBounds(g, r + dr, c + dc) && g[r + dr][c + dc] == p);
    assert !(InBounds(g, r - dr, c - dc) && g[r - dr][c - dc] == p);
  }

  // ---------------------------------------------------------------- evaluateDirection

  /** What one scan of `evaluateDirection` gathers: the stones counted and
      the open ends seen. */
  datatype Tally = Tally(count: nat, open: nat)

  function Least(a: int, b: int): int
  {
    if a < b then a else b
  }

  /** One scan of `evaluateDirection`: walk at most `limit` cells from (r, c)
      along (dr, dc), counting p's stones; stop at the edge or at an
      opponent stone, or, after recording one open end, at an empty cell. */
  function Scan(g: Grid, r: int, c: int, dr: int, dc: int, p: int, limit: nat): (t: Tally)
    requires IsSquare(g)
    ensures t.open <= 1 && t.count + t.open <= limit
    decreases limit
  {
    if limit == 0 || !InBounds(g, r, c) then Tally(0, 0)
    else if g[r][c] == p then var t := Scan(g, r + dr, c + dc, dr, dc, p, limit - 1); Tally(t.count + 1, t.open)
    else if g[r][c] == EMPTY then Tally(0, 1)
    else Tally(0, 0)
  }

  /** A scan counts the run of p's stones, cut off at its limit. */
  lemma {:induction false} ScanCount(g: Grid, r: int, c: int, dr: int, dc: int, p: int, limit: nat)
    requires IsSquare(g) && IsUnit(dr, dc)
    ensures Scan(g, r, c, dr, dc, p, limit).count == Least(Run(g, r, c, dr, dc, p), limit)
    decreases limit
  {
    if limit > 0 && InBounds(g, r, c) && g[r][c] == p {
      ScanCount(g, r + dr, c + dc, dr, dc, p, limit - 1);
    }
  }

  /** A scan sees an open end exactly when the run stops short of the limit
      at an empty cell on the board. */
  lemma {:induction false} ScanOpen(g: Grid, r: int, c: int, dr: int, dc: int, p: int, limit: nat)
    requires IsSquare(g) && IsUnit(dr, dc)
    ensures Scan(g, r, c, dr, dc, p, limit).open == 1 <==>
      Run(g, r, c, dr, dc, p) < limit && HoldsAt(g, r, c, dr, dc, Run(g, r, c, dr, dc, p), EMPTY)
    decreases limit
  {
    if limit > 0 && InBounds(g, r, c) && g[r][c] == p {
      ScanOpen(g, r + dr, c + dc, dr, dc, p, limit - 1);
    }
  }

  /** The step back along a direction. */
  function Opposite(d: int): int
  {
    -d
  }

  /** Both scans of `evaluateDirection` together: forward from the cell itself
      over at most five cells, backward from its neighbour over at most four. */
  function DirectionTally(g: Grid, r: int, c: int, dx: int, dy: int, p: int): (t: Tally)
    requires IsSquare(g)
    ensures t.open <= 2 && t.count + t.open <= 9
  {
    var f := Scan(g, r, c, dx, dy, p, 5);
    var b := Scan(g, r - dx, c - dy, Opposite(dx), Opposite(dy), p, 4);
    Tally(f.count + b.count, f.open + b.open)
  }

  /** DirectionTally put together from its two scans. */
  lemma DirectionTallyOf(g: Grid, r: int, c: int, dx: int, dy: int, p: int, f: Tally, b: Tally)
    requires IsSquare(g)
    requires f == Scan(g, r, c, dx, dy, p, 5)
    requires b == Scan(g, r - dx, c - dy, Opposite(dx), Opposite(dy), p, 4)
    ensures DirectionTally(g, r, c, dx, dy, p) == Tally(f.count + b.count, f.open + b.open)
  {
  }

  /** Every value the score table can produce. */
  const ScoreValues: set<int> := {0, 1, 5, 10, 50, 100, 500, 1000, 10000, 100000}

  /** The fixed score table of `evaluateDirection`. */
  function ScoreTable(t: Tally): (s: int)
    ensures s in ScoreValues && s >= 0
    ensures t.count >= 5 ==> s == 100000
    ensures t.count < 5 && t.open == 0 ==> s == 0
  {
    if t.count >= 5 then 100000
    else if t.count == 4 then (if t.open == 2 then 10000 else if t.open == 1 then 1000 else 0)
    else if t.count == 3 then (if t.open == 2 then 500 else if t.open == 1 then 100 else 0)
    else if t.count == 2 then (if t.open == 2 then 50 else if t.open == 1 then 10 else 0)
    else if t.count == 1 then (if t.open == 2 then 5 else if t.open == 1 then 1 else 0)
    else 0
  }

  /** `evaluateDirection(board, r, c, dx, dy, p)`. */
  function DirectionScore(g: Grid, r: int, c: int, dx: int, dy: int, p: int): int
    requires IsSquare(g)
  {
    ScoreTable(DirectionTally(g, r, c, dx, dy, p))
  }

  // ---------------------------------------------------------------- evaluateBoard

  /** The directions `evaluateBoard` scores each stone along. */
  const Directions: seq<(int, int)> := [(1, 0), (0, 1), (1, 1), (1, -1)]

  /** The scores of the stone at (r, c) along the directions k and later. */
  function StoneScoreFrom(g: Grid, r: int, c: int, p: int, k: nat): (s: int)
    requires IsSquare(g) && k <= |Directions|
    ensures s >= 0
    decreases |Directions| - k
  {
    if k == |Directions| then 0
    else DirectionScore(g, r, c, Directions[k].0, Directions[k].1, p) + StoneScoreFrom(g, r, c, p, k + 1)
  }

  /** The sum, over p's stones at (i, j) and later in row-major order, of the
      stone's four direction scores. */
  function SideFrom(g: Grid, p: int, i: int, j: int): (s: int)
    requires IsSquare(g) && 0 <= i <= |g| && 0 <= j <= |g|
    ensures s >= 0
    decreases |g| - i, |g| - j
  {
    if i == |g| then 0
    else if j == |g| then SideFrom(g, p, i + 1, 0)
    else (if g[i][j] == p then StoneScoreFrom(g, i, j, p, 0) else 0) + SideFrom(g, p, i, j + 1)
  }

  /** `evaluateBoard`: the computer's stone scores minus the human's. */
  function BoardScore(g: Grid): int
    requires IsSquare(g)
  {
    SideFrom(g, COMPUTER, 0, 0) - SideFrom(g, HUMAN, 0, 0)
  }

  /** Exchanging the two colours. */
  function SwapCell(v: int): int
  {
    if v == HUMAN then COMPUTER else if v == COMPUTER then HUMAN else v
  }

  function SwapRow(s: seq<int>): (t: seq<int>)
    ensures |t| == |s| && forall j :: 0 <= j < |s| ==> t[j] == SwapCell(s[j])
  {
    seq(|s|, j requires 0 <= j < |s| => SwapCell(s[j]))
  }

  /** The board with every black stone made white and every white one black. */
  function Swapped(g: Grid): (h: Grid)
    requires IsSquare(g)
    ensures |h| == |g| && IsSquare(h)
    ensures forall i, j :: InBounds(g, i, j) ==> h[i][j] == SwapCell(g[i][j])
  {
    seq(|g|, i requires 0 <= i < |g| => SwapRow(g[i]))
  }

  lemma {:induction false} ScanSwapped(g: Grid, r: int, c: int, dr: int, dc: int, p: int, limit: nat)
    requires IsSquare(g)
    ensures Scan(Swapped(g), r, c, dr, dc, SwapCell(p), limit) == Scan(g, r, c, dr, dc, p, limit)
    decreases limit
  {
    var h := Swapped(g);
    if limit > 0 && InBounds(g, r, c) {
      assert h[r][c] == SwapCell(g[r][c]);
      assert (h[r][c] == SwapCell(p)) == (g[r][c] == p);
      assert (h[r][c] == EMPTY) == (g[r][c] == EMPTY);
      ScanSwapped(g, r + dr, c + dc, dr, dc, p, limit - 1);
    }
  }

  lemma {:induction false} TallySwapped(g: Grid, r: int, c: int, dx: int, dy: int, p: int)
    requires IsSquare(g)
    ensures DirectionTally(Swapped(g), r, c, dx, dy, SwapCell(p)) == DirectionTally(g, r, c, dx, dy, p)
  {
    var f := Scan(g, r, c, dx, dy, p, 5);
    var b := Scan(g, r - dx, c - dy, Opposite(dx), Opposite(dy), p, 4);
    ScanSwapped(g, r, c, dx, dy, p, 5);
    ScanSwapped(g, r - dx, c - dy, Opposite(dx), Opposite(dy), p, 4);
    DirectionTallyOf(g, r, c, dx, dy, p, f, b);
    DirectionTallyOf(Swapped(g), r, c, dx, dy, SwapCell(p), f, b);
  }

  lemma {:induction false} StoneScoreSwapped(g: Grid, r: int, c: int, p: int, k: nat)
    requires IsSquare(g) && k <= |Directions|
    ensures StoneScoreFrom(Swapped(g), r, c, SwapCell(p), k) == StoneScoreFrom(g, r, c, p, k)
    decreases |Directions| - k
  {
    if k < |Directions| {
      var (dx, dy) := Directions[k];
      TallySwapped(g, r, c, dx, dy, p);
      assert DirectionScore(Swapped(g), r, c, dx, dy, SwapCell(p)) == DirectionScore(g, r, c, dx, dy, p);
      StoneScoreSwapped(g, r, c, p, k + 1);
    }
  }

  lemma {:induction false} SideSwapped(g: Grid, p: int, i: int, j: int)
    requires IsSquare(g) && 0 <= i <= |g| && 0 <= j <= |g|
    ensures SideFrom(Swapped(g), SwapCell(p), i, j) == SideFrom(g, p, i, j)
    decreases |g| - i, |g| - j
  {
    if i < |g| {
      if j == |g| {
        SideSwapped(g, p, i + 1, 0);
      } else {
        assert InBounds(g, i, j);
        StoneScoreSwapped(g, i, j, p, 0);
        SideSwapped(g, p, i, j + 1);
      }
    }
  }

  /** The evaluator is colour-blind: exchanging the colours of every stone
      negates the score exactly. */
  lemma BoardScoreAntisymmetric(g: Grid)
    requires IsSquare(g)
    ensures BoardScore(Swapped(g)) == -BoardScore(g)
  {
    SideSwapped(g, COMPUTER, 0, 0);
    SideSwapped(g, HUMAN, 0, 0);
  }

  lemma {:induction false} EmptySide(n: nat, p: int, i: int, j: int)
    requires p != EMPTY && 0 <= i <= n && 0 <= j <= n
    ensures SideFrom(EmptyGrid(n), p, i, j) == 0
    decreases n - i, n - j
  {
    if i < n {
      if j == n {
        EmptySide(n, p, i + 1, 0);
      } else {
        assert InBounds(EmptyGrid(n), i, j);
        EmptySide(n, p, i, j + 1);
      }
    }
  }

  /** The empty board is even. */
  lemma EmptyBoardScore(n: nat)
    ensures BoardScore(EmptyGrid(n)) == 0
  {
    EmptySide(n, COMPUTER, 0, 0);
    EmptySide(n, HUMAN, 0, 0);
  }
}
