/** The heuristic evaluator as values: the pattern-score table, the line
    through one cell (its length and open ends), maximal runs identified by
    their first cell, and the position score summed over them. */
module Evaluation {
  import opened Consts
  import opened Grids
  import opened Lines
  import opened MoveGen

  /** Score of a run of `count` stones that has `openEnds` empty on-board
      cells just beyond its two ends. */
  function PatternScore(count: int, openEnds: int): (s: int)
    ensures count >= WIN_CONDITION ==> s == SCORE_FIVE
    ensures count < WIN_CONDITION && openEnds == 0 ==> s == 0
    ensures 0 <= s <= SCORE_FIVE
    ensures s == SCORE_FIVE <==> count >= WIN_CONDITION
  {
    if count >= WIN_CONDITION then SCORE_FIVE
    else if openEnds == 0 then 0
    else if count == 4 then (if openEnds == 2 then SCORE_OPEN_FOUR else SCORE_CLOSED_FOUR)
    else if count == 3 then (if openEnds == 2 then SCORE_OPEN_THREE else SCORE_CLOSED_THREE)
    else if count == 2 then (if openEnds == 2 then SCORE_OPEN_TWO else SCORE_CLOSED_TWO)
    else if count == 1 then (if openEnds == 2 then SCORE_ONE else SCORE_ONE / 2)
    else 0
  }

  /** A longer run, or one with more open ends, never scores less. */
  lemma PatternScoreMonotone(c1: int, o1: int, c2: int, o2: int)
    requires 0 <= c1 <= c2 && 0 <= o1 <= o2 <= 2
    ensures PatternScore(c1, o1) <= PatternScore(c2, o2)
  {
  }

  /** The cells of the run of p after y along d, nearest first: the cells
      the evaluator walks over. */
  function RunAfter(g: Grid, y: Pos, d: Pos, p: Cell): seq<Pos>
    requires WellFormed(g) && InRange(y) && IsDir(d)
    decreases Reach(y, d)
  {
    if IsStone(g, Next(y, d), p) then [Next(y, d)] + RunAfter(g, Next(y, d), d, p) else []
  }

  /** The cell the evaluator's walk from y along d stops at: the first one
      after the run of p. */
  function RunEnd(g: Grid, y: Pos, d: Pos, p: Cell): Pos
    requires WellFormed(g) && InRange(y) && IsDir(d)
    decreases Reach(y, d)
  {
    if IsStone(g, Next(y, d), p) then RunEnd(g, Next(y, d), d, p) else Next(y, d)
  }

  /** The walk covers Run(y) cells and stops one step beyond them. */
  lemma {:induction false} RunAfterSpec(g: Grid, y: Pos, d: Pos, p: Cell)
    requires WellFormed(g) && InRange(y) && IsDir(d)
    ensures |RunAfter(g, y, d, p)| == Run(g, y, d, p)
    ensures RunEnd(g, y, d, p) == Step(y, d, Run(g, y, d, p) + 1)
    decreases Reach(y, d)
  {
    var z := Step(y, d, 1);
    if IsStone(g, z, p) {
      RunAfterSpec(g, z, d, p);
      StepAdd(y, d, 1, Run(g, z, d, p) + 1);
    }
  }

  /** The t-th cell of the walk is t + 1 steps from y. */
  lemma {:induction false} RunAfterCells(g: Grid, y: Pos, d: Pos, p: Cell)
    requires WellFormed(g) && InRange(y) && IsDir(d)
    ensures forall t :: 0 <= t < |RunAfter(g, y, d, p)| ==> RunAfter(g, y, d, p)[t] == Step(y, d, t + 1)
    decreases Reach(y, d)
  {
    var z := Step(y, d, 1);
    if IsStone(g, z, p) {
      RunAfterCells(g, z, d, p);
      var rest := RunAfter(g, z, d, p);
      forall t | 0 <= t < |rest| ensures rest[t] == Step(y, d, t + 2) {
        StepAdd(y, d, 1, t + 1);
      }
    }
  }

  /** y is an open end: on the board and empty. */
  predicate IsOpen(g: Grid, y: Pos)
    requires WellFormed(g)
  {
    InRange(y) && At(g, y) == Empty
  }

  /** How many of the two cells just past the line of p through x along d
      are open ends. */
  function OpenEnds(g: Grid, x: Pos, d: Pos, p: Cell): int
    requires WellFormed(g) && InRange(x) && IsDir(d)
  {
    (if IsOpen(g, Step(x, d, Run(g, x, d, p) + 1)) then 1 else 0)
    + (if IsOpen(g, Step(x, Neg(d), Run(g, x, Neg(d), p) + 1)) then 1 else 0)
  }

  /** The two walks from x, forwards and backwards along d, give the
      line's length and its open ends. */
  lemma WalksMeasureLine(g: Grid, x: Pos, d: Pos, p: Cell)
    requires WellFormed(g) && InRange(x) && IsDir(d)
    ensures 1 + |RunAfter(g, x, d, p)| + |RunAfter(g, x, Neg(d), p)| == LineLength(g, x, d, p)
    ensures (if IsOpen(g, RunEnd(g, x, d, p)) then 1 else 0) + (if IsOpen(g, RunEnd(g, x, Neg(d), p)) then 1 else 0)
            == OpenEnds(g, x, d, p)
  {
    RunAfterSpec(g, x, d, p);
    RunAfterSpec(g, x, Neg(d), p);
  }

  /** Score of the line of p through x along d. */
  function LineScore(g: Grid, x: Pos, d: Pos, p: Cell): int
    requires WellFormed(g) && InRange(x) && IsDir(d)
  {
    PatternScore(LineLength(g, x, d, p), OpenEnds(g, x, d, p))
  }

  /** Two neighbouring stones of the same run see the same line: the same
      length and the same open ends, so the run scores the same whichever
      of its cells it is scored from. */
  lemma LineShift(g: Grid, x: Pos, d: Pos, p: Cell)
    requires WellFormed(g) && IsDir(d) && IsStone(g, x, p) && IsStone(g, Step(x, d, 1), p)
    ensures LineLength(g, x, d, p) == LineLength(g, Step(x, d, 1), d, p)
    ensures OpenEnds(g, x, d, p) == OpenEnds(g, Step(x, d, 1), d, p)
    ensures LineScore(g, x, d, p) == LineScore(g, Step(x, d, 1), d, p)
  {
    RunShift(g, x, d, p);
    EndsShift(g, x, d, p);
  }

  /** The cells just past both ends of the line are the same seen from x
      and from its neighbour along the run. */
  lemma EndsShift(g: Grid, x: Pos, d: Pos, p: Cell)
    requires WellFormed(g) && IsDir(d) && IsStone(g, x, p) && IsStone(g, Step(x, d, 1), p)
    ensures Step(x, d, Run(g, x, d, p) + 1) == Step(Step(x, d, 1), d, Run(g, Step(x, d, 1), d, p) + 1)
    ensures Step(Step(x, d, 1), Neg(d), Run(g, Step(x, d, 1), Neg(d), p) + 1)
            == Step(x, Neg(d), Run(g, x, Neg(d), p) + 1)
  {
    var y := Step(x, d, 1);
    RunShift(g, x, d, p);
    var a, b := Run(g, x, d, p) + 1, Run(g, x, Neg(d), p) + 1;
    StepShift(x, d, a, b);
    assert a - 1 == Run(g, y, d, p) + 1 && b + 1 == Run(g, y, Neg(d), p) + 1;
  }

  /** Moving one stone forwards along a run moves one stone from the run
      ahead to the run behind. */
  lemma RunShift(g: Grid, x: Pos, d: Pos, p: Cell)
    requires WellFormed(g) && IsDir(d) && IsStone(g, x, p) && IsStone(g, Step(x, d, 1), p)
    ensures Run(g, x, d, p) == 1 + Run(g, Step(x, d, 1), d, p)
    ensures Run(g, Step(x, d, 1), Neg(d), p) == 1 + Run(g, x, Neg(d), p)
  {
    StepShift(x, d, 1, 0);
  }

  /** A cell a steps from x is a - 1 steps from x + d, and one b steps
      back from x is b + 1 steps back from x + d. */
  lemma StepShift(x: Pos, d: Pos, a: int, b: int)
    requires IsDir(d)
    ensures Step(x, d, a) == Step(Step(x, d, 1), d, a - 1)
    ensures Step(Step(x, d, 1), Neg(d), b + 1) == Step(x, Neg(d), b)
  {
  }

  /** x is the first cell of a maximal run of p along d: it holds p and the
      cell before it does not. */
  predicate IsRunStart(g: Grid, x: Pos, d: Pos, p: Cell)
    requires WellFormed(g)
  {
    IsStone(g, x, p) && !IsStone(g, Step(x, d, -1), p)
  }

  /** The first cell of the maximal run of p along d that contains y. */
  function StartOf(g: Grid, y: Pos, d: Pos, p: Cell): Pos
    requires WellFormed(g) && InRange(y) && IsDir(d)
  {
    Step(y, d, -(Run(g, y, Neg(d), p) as int))
  }

  /** The cell j steps into a run holds p, has exactly j stones of the run
      behind it, and has that run's first cell as its start. */
  lemma StartOfRunCell(g: Grid, x: Pos, d: Pos, p: Cell, j: nat)
    requires WellFormed(g) && IsDir(d) && IsRunStart(g, x, d, p) && j <= Run(g, x, d, p)
    ensures IsStone(g, Step(x, d, j), p)
    ensures Run(g, Step(x, d, j), Neg(d), p) == j
    ensures StartOf(g, Step(x, d, j), d, p) == x
  {
    RunBackCount(g, x, d, p, j);
    StepBack(x, d, j);
  }

  /** The cell j steps into a run holds p and has exactly j stones of the
      run behind it. */
  lemma {:induction false} RunBackCount(g: Grid, x: Pos, d: Pos, p: Cell, j: nat)
    requires WellFormed(g) && IsDir(d) && IsRunStart(g, x, d, p) && j <= Run(g, x, d, p)
    ensures IsStone(g, Step(x, d, j), p)
    ensures Run(g, Step(x, d, j), Neg(d), p) == j
  {
    StepBack(x, d, j);
    if j > 0 {
      RunBackCount(g, x, d, p, j - 1);
      RunCell(g, x, d, p, j);
    }
  }

  /** One step back from the cell j steps along d is the cell j - 1 steps
      along; j steps back returns to x. */
  lemma StepBack(x: Pos, d: Pos, j: int)
    requires IsDir(d)
    ensures Next(Step(x, d, j), Neg(d)) == Step(x, d, j - 1)
    ensures Step(Step(x, d, j), d, -j) == x && Step(x, d, 0) == x
  {
  }

  /** From b steps behind y, j steps forwards is b - j steps behind y. */
  lemma StepFromStart(y: Pos, d: Pos, b: int, j: int)
    requires IsDir(d)
    ensures Step(Step(y, d, -b), d, j) == Step(y, Neg(d), b - j)
    ensures Step(y, Neg(d), 0) == y
  {
  }

  /** The stones behind y, read from the start of its run forwards. */
  lemma {:induction false} RunBehind(g: Grid, y: Pos, d: Pos, p: Cell, j: int)
    requires WellFormed(g) && IsDir(d) && IsStone(g, y, p)
    requires 0 <= j <= Run(g, y, Neg(d), p)
    ensures IsStone(g, Step(StartOf(g, y, d, p), d, j), p)
  {
    var b := Run(g, y, Neg(d), p);
    StepFromStart(y, d, b, j);
    if j < b {
      RunCell(g, y, Neg(d), p, b - j);
    }
  }

  /** The cell before a stone's StartOf does not hold p. */
  lemma {:induction false} BeforeStart(g: Grid, y: Pos, d: Pos, p: Cell)
    requires WellFormed(g) && IsDir(d) && InRange(y)
    ensures !IsStone(g, Step(StartOf(g, y, d, p), d, -1), p)
  {
    RunStops(g, y, Neg(d), p);
    StepFromStart(y, d, Run(g, y, Neg(d), p), -1);
  }

  /** The run from a stone's StartOf reaches back to the stone. */
  lemma {:induction false} StartRunCovers(g: Grid, y: Pos, d: Pos, p: Cell)
    requires WellFormed(g) && IsDir(d) && IsStone(g, y, p)
    ensures IsStone(g, StartOf(g, y, d, p), p)
    ensures Run(g, y, Neg(d), p) <= Run(g, StartOf(g, y, d, p), d, p)
  {
    var b := Run(g, y, Neg(d), p);
    var s := StartOf(g, y, d, p);
    RunBehind(g, y, d, p, 0);
    StepZero(s, d);
    assert IsStone(g, s, p);
    forall j | 1 <= j <= b
      ensures IsStone(g, Step(s, d, j), p)
    {
      RunBehind(g, y, d, p, j);
    }
    RunAtLeast(g, s, d, p, b);
  }

  /** StartOf gives a run start whose run reaches the stone. */
  lemma StartOfIsStart(g: Grid, y: Pos, d: Pos, p: Cell)
    requires WellFormed(g) && IsDir(d) && IsStone(g, y, p)
    ensures IsRunStart(g, StartOf(g, y, d, p), d, p)
    ensures Run(g, y, Neg(d), p) <= Run(g, StartOf(g, y, d, p), d, p)
    ensures y == Step(StartOf(g, y, d, p), d, Run(g, y, Neg(d), p))
  {
    StartRunCovers(g, y, d, p);
    BeforeStart(g, y, d, p);
    StepFromStart(y, d, Run(g, y, Neg(d), p), Run(g, y, Neg(d), p));
  }

  /** Every stone lies in exactly one maximal run along d: any run start
      whose run reaches the stone is the stone's StartOf. */
  lemma StartUnique(g: Grid, y: Pos, d: Pos, p: Cell, x: Pos, j: int)
    requires WellFormed(g) && IsDir(d) && IsRunStart(g, x, d, p)
    requires 0 <= j <= Run(g, x, d, p) && y == Step(x, d, j)
    ensures IsStone(g, y, p) && x == StartOf(g, y, d, p)
  {
    StartOfRunCell(g, x, d, p, j);
  }

  /** Row-major number of the axis d in DIRECTIONS, or |DIRECTIONS| when d
      is not one of them. */
  function DirIndex(d: Pos): int
    ensures 0 <= DirIndex(d) <= |DIRECTIONS|
    ensures DirIndex(d) < |DIRECTIONS| ==> DIRECTIONS[DirIndex(d)] == d
    ensures forall k :: 0 <= k < |DIRECTIONS| && DIRECTIONS[k] == d ==> DirIndex(d) == k
  {
    if d == DIRECTIONS[0] then 0
    else if d == DIRECTIONS[1] then 1
    else if d == DIRECTIONS[2] then 2
    else if d == DIRECTIONS[3] then 3
    else 4
  }

  /** Along every axis of DIRECTIONS a run's later cells come later in
      row-major order. */
  lemma IndexAdvances(x: Pos, k: int, j: int)
    requires 0 <= k < |DIRECTIONS| && j >= 1
    ensures Index(Step(x, DIRECTIONS[k], j)) > Index(x)
  {
  }

  /** Score contributed by the run of p starting at x along axis k, zero
      when x does not start one. */
  function DirScore(g: Grid, p: Cell, x: Pos, k: int): int
    requires WellFormed(g) && InRange(x) && 0 <= k < |DIRECTIONS|
  {
    if IsRunStart(g, x, DIRECTIONS[k], p) then LineScore(g, x, DIRECTIONS[k], p) else 0
  }

  /** Scores of the runs starting at x along the first k axes. */
  function DirsScore(g: Grid, p: Cell, x: Pos, k: int): (s: int)
    requires WellFormed(g) && InRange(x) && 0 <= k <= |DIRECTIONS|
    ensures s >= 0
  {
    if k == 0 then 0 else DirsScore(g, p, x, k - 1) + DirScore(g, p, x, k - 1)
  }

  /** Scores of all runs of p that start at one of the first n cells in
      row-major order. */
  function ScoreBelow(g: Grid, p: Cell, n: int): (s: int)
    requires WellFormed(g) && 0 <= n <= BOARD_SIZE * BOARD_SIZE
    ensures s >= 0
  {
    if n == 0 then 0
    else
      IndexBijection(CellOf(n - 1), n - 1);
      ScoreBelow(g, p, n - 1) + DirsScore(g, p, CellOf(n - 1), |DIRECTIONS|)
  }

  /** The evaluator's total for p: every maximal run of p along every axis,
      scored once. */
  function PlayerScore(g: Grid, p: Cell): int
    requires WellFormed(g)
  {
    ScoreBelow(g, p, BOARD_SIZE * BOARD_SIZE)
  }

  /** Each run counts in full: the total is at least the score of any one
      maximal run. In particular five in a row of p puts p's total at
      SCORE_FIVE or more. */
  lemma {:induction false} RunCountsInTotal(g: Grid, p: Cell, n: int, x: Pos, k: int)
    requires WellFormed(g) && 0 <= n <= BOARD_SIZE * BOARD_SIZE && InRange(x) && 0 <= k < |DIRECTIONS|
    requires Index(x) < n && IsRunStart(g, x, DIRECTIONS[k], p)
    ensures ScoreBelow(g, p, n) >= LineScore(g, x, DIRECTIONS[k], p)
  {
    IndexBijection(x, 0);
    if Index(x) == n - 1 {
      assert CellOf(n - 1) == x;
      DirsAtLeast(g, p, x, |DIRECTIONS|, k);
    } else {
      RunCountsInTotal(g, p, n - 1, x, k);
    }
  }

  lemma {:induction false} DirsAtLeast(g: Grid, p: Cell, x: Pos, m: int, k: int)
    requires WellFormed(g) && InRange(x) && 0 <= k < m <= |DIRECTIONS|
    ensures DirsScore(g, p, x, m) >= DirScore(g, p, x, k)
  {
    if k < m - 1 {
      DirsAtLeast(g, p, x, m - 1, k);
    }
  }

  /** The position score from the engine's side: its total minus
      DEFENSE_MULTIPLIER times the human's. */
  function Evaluate(g: Grid): real
    requires WellFormed(g)
  {
    (PlayerScore(g, Ai) as real) - (PlayerScore(g, Human) as real) * DEFENSE_MULTIPLIER
  }
}
