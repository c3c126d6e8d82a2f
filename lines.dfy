/** Runs of same-player stones along a line and win detection through one
    cell, specified on grid values. The board's counting loops are proved
    against Run; the winner check against Winner. */
module Lines {
  import opened Consts
  import opened Options
  import opened Grids

  /** A unit step along one of the eight compass directions. */
  predicate IsDir(d: Pos) {
    -1 <= d.0 <= 1 && -1 <= d.1 <= 1 && d != (0, 0)
  }

  /** The opposite sense of a direction. */
  function Neg(d: Pos): Pos {
    (-d.0, -d.1)
  }

  /** u * j for a unit u, written by cases so that the solver stays linear. */
  function Mul(u: int, j: int): int {
    if u > 0 then j else if u < 0 then -j else 0
  }

  /** The position j steps away from x along d (backwards when j < 0). */
  function Step(x: Pos, d: Pos, j: int): Pos {
    (x.0 + Mul(d.0, j), x.1 + Mul(d.1, j))
  }

  /** The neighbour of x along d. */
  function Next(x: Pos, d: Pos): Pos {
    (x.0 + d.0, x.1 + d.1)
  }

  /** How many on-board positions lie strictly beyond x along d, counted on
      the row when d moves across rows and on the column otherwise. */
  function Reach(x: Pos, d: Pos): int {
    if d.0 > 0 then BOARD_SIZE - 1 - x.0
    else if d.0 < 0 then x.0
    else if d.1 > 0 then BOARD_SIZE - 1 - x.1
    else x.1
  }

  /** y is on the board and holds p. */
  predicate IsStone(g: Grid, y: Pos, p: Cell)
    requires WellFormed(g)
  {
    InRange(y) && At(g, y) == p
  }

  /** Steps along d compose by adding their counts. */
  lemma StepAdd(x: Pos, d: Pos, a: int, b: int)
    requires IsDir(d)
    ensures Step(Step(x, d, a), d, b) == Step(x, d, a + b)
  {
  }

  /** Stepping a times along the opposite sense is stepping -a times. */
  lemma StepNeg(x: Pos, d: Pos, a: int)
    requires IsDir(d)
    ensures Step(x, Neg(d), a) == Step(x, d, -a)
  {
  }

  /** No steps stay put. */
  lemma StepZero(x: Pos, d: Pos)
    ensures Step(x, d, 0) == x
  {
  }

  /** The number of consecutive cells holding p that start at the neighbour
      of x along d; x itself is not counted. The walk stops at the edge. */
  function Run(g: Grid, x: Pos, d: Pos, p: Cell): nat
    requires WellFormed(g) && InRange(x) && IsDir(d)
    decreases Reach(x, d)
  {
    if IsStone(g, Next(x, d), p) then 1 + Run(g, Next(x, d), d, p) else 0
  }

  /** One step of Run, with the neighbour of x named y. */
  lemma RunUnfold(g: Grid, x: Pos, d: Pos, p: Cell, y: Pos)
    requires WellFormed(g) && InRange(x) && IsDir(d) && y == Next(x, d)
    ensures Run(g, x, d, p) == if IsStone(g, y, p) then 1 + Run(g, y, d, p) else 0
  {
  }

  /** The cell one step back from x along d is its neighbour along the
      opposite sense. */
  lemma StepBackOne(x: Pos, d: Pos)
    requires IsDir(d)
    ensures Step(x, d, -1) == Next(x, Neg(d))
  {
  }

  /** Run is the length of a maximal block: the first Run cells past x hold
      p and the one after them is off the board or holds something else. */
  lemma RunCells(g: Grid, x: Pos, d: Pos, p: Cell)
    requires WellFormed(g) && InRange(x) && IsDir(d)
    ensures forall j :: 1 <= j <= Run(g, x, d, p) ==> IsStone(g, Step(x, d, j), p)
    ensures !IsStone(g, Step(x, d, Run(g, x, d, p) + 1), p)
  {
    forall j | 1 <= j <= Run(g, x, d, p) ensures IsStone(g, Step(x, d, j), p) {
      RunCell(g, x, d, p, j);
    }
    RunStops(g, x, d, p);
  }

  /** The j-th cell past x, for j from 1 up to the run, holds p. */
  lemma {:induction false} RunCell(g: Grid, x: Pos, d: Pos, p: Cell, j: int)
    requires WellFormed(g) && InRange(x) && IsDir(d) && 1 <= j <= Run(g, x, d, p)
    ensures IsStone(g, Step(x, d, j), p)
    decreases j
  {
    if j > 1 {
      RunCell(g, Step(x, d, 1), d, p, j - 1);
      StepAdd(x, d, 1, j - 1);
    }
  }

  /** The cell just past the run does not hold p. */
  lemma {:induction false} RunStops(g: Grid, x: Pos, d: Pos, p: Cell)
    requires WellFormed(g) && InRange(x) && IsDir(d)
    ensures !IsStone(g, Step(x, d, Run(g, x, d, p) + 1), p)
    decreases Reach(x, d)
  {
    var y := Step(x, d, 1);
    if IsStone(g, y, p) {
      RunStops(g, y, d, p);
      StepAdd(x, d, 1, Run(g, y, d, p) + 1);
    }
  }

  /** Conversely, k stones of p right past x make a run of at least k. */
  lemma RunAtLeast(g: Grid, x: Pos, d: Pos, p: Cell, k: nat)
    requires WellFormed(g) && InRange(x) && IsDir(d)
    requires forall j :: 1 <= j <= k ==> IsStone(g, Step(x, d, j), p)
    ensures Run(g, x, d, p) >= k
  {
    RunStops(g, x, d, p);
  }

  /** Length of the line of p through x along the axis of d: x itself plus
      the run forwards plus the run backwards. */
  function LineLength(g: Grid, x: Pos, d: Pos, p: Cell): int
    requires WellFormed(g) && InRange(x) && IsDir(d)
  {
    1 + Run(g, x, d, p) + Run(g, x, Neg(d), p)
  }

  /** The line through x along axis k of DIRECTIONS is long enough to win
      for the player at x. */
  predicate WinsAlong(g: Grid, x: Pos, k: int)
    requires WellFormed(g) && InRange(x) && 0 <= k < |DIRECTIONS|
  {
    LineLength(g, x, DIRECTIONS[k], At(g, x)) >= WIN_CONDITION
  }

  /** The winner detected through x: the player at x when some axis through
      x carries at least WIN_CONDITION of its stones, else none. */
  function Winner(g: Grid, x: Pos): Option<Player>
    requires WellFormed(g) && InRange(x)
  {
    if At(g, x) == Empty then None
    else if exists k :: 0 <= k < |DIRECTIONS| && WinsAlong(g, x, k) then Some(At(g, x))
    else None
  }

  /** WIN_CONDITION consecutive stones of p starting at s along d. */
  predicate FiveAt(g: Grid, s: Pos, d: Pos, p: Cell)
    requires WellFormed(g)
  {
    forall i :: 0 <= i < WIN_CONDITION ==> IsStone(g, Step(s, d, i), p)
  }

  /** Every cell of a five-in-a-row (or of a longer line, which contains
      one) is reported as a win for its owner. */
  lemma WinnerComplete(g: Grid, x: Pos, p: Player, k: int, s: Pos, i: int)
    requires WellFormed(g) && 0 <= k < |DIRECTIONS| && 0 <= i < WIN_CONDITION
    requires FiveAt(g, s, DIRECTIONS[k], p) && x == Step(s, DIRECTIONS[k], i)
    ensures InRange(x) && Winner(g, x) == Some(p)
  {
    var d := DIRECTIONS[k];
    assert IsStone(g, Step(s, d, i), p);
    forall j | 1 <= j <= WIN_CONDITION - 1 - i
      ensures IsStone(g, Step(x, d, j), p)
    {
      StepAdd(s, d, i, j);
      assert IsStone(g, Step(s, d, i + j), p);
    }
    RunAtLeast(g, x, d, p, WIN_CONDITION - 1 - i);
    forall j | 1 <= j <= i
      ensures IsStone(g, Step(x, Neg(d), j), p)
    {
      StepNeg(x, d, j);
      StepAdd(s, d, i, -j);
      assert IsStone(g, Step(s, d, i - j), p);
    }
    RunAtLeast(g, x, Neg(d), p, i);
    assert WinsAlong(g, x, k);
  }

  /** A line of length at least WIN_CONDITION through x, with i of its
      cells before x (i no more than the backward run), contains the
      WIN_CONDITION cells starting i steps behind x. */
  lemma LineHoldsFive(g: Grid, x: Pos, d: Pos, p: Cell, i: int)
    requires WellFormed(g) && InRange(x) && IsDir(d) && At(g, x) == p
    requires 0 <= i <= Run(g, x, Neg(d), p) && i < WIN_CONDITION
    requires WIN_CONDITION - 1 - i <= Run(g, x, d, p)
    ensures FiveAt(g, Step(x, d, -i), d, p)
  {
    var s := Step(x, d, -i);
    forall t | 0 <= t < WIN_CONDITION
      ensures IsStone(g, Step(s, d, t), p)
    {
      ShiftedCell(g, x, d, p, i, t);
    }
  }

  /** The t-th cell counted from i steps behind x is the cell t - i steps
      from x, so it holds p when that lies within the line through x. */
  lemma ShiftedCell(g: Grid, x: Pos, d: Pos, p: Cell, i: int, t: int)
    requires WellFormed(g) && InRange(x) && IsDir(d) && At(g, x) == p
    requires 0 <= t - i + Run(g, x, Neg(d), p) && t - i <= Run(g, x, d, p)
    ensures IsStone(g, Step(Step(x, d, -i), d, t), p)
  {
    StepAdd(x, d, -i, t);
    LineCell(g, x, d, p, -i + t);
  }

  /** The cell j steps from x along d holds p when it is within the run
      behind x (j < 0), x itself, or within the run ahead of x (j > 0). */
  lemma LineCell(g: Grid, x: Pos, d: Pos, p: Cell, j: int)
    requires WellFormed(g) && InRange(x) && IsDir(d) && At(g, x) == p
    requires 0 <= j + Run(g, x, Neg(d), p) && j <= Run(g, x, d, p)
    ensures IsStone(g, Step(x, d, j), p)
  {
    if j < 0 {
      RunCell(g, x, Neg(d), p, -j);
      StepNeg(x, d, -j);
    } else if j > 0 {
      RunCell(g, x, d, p, j);
    } else {
      StepZero(x, d);
    }
  }

  /** A reported win is real: the winner's stones form WIN_CONDITION in a
      row along one of the axes, through x. */
  lemma WinnerSound(g: Grid, x: Pos, p: Player)
    requires WellFormed(g) && InRange(x) && Winner(g, x) == Some(p)
    ensures At(g, x) == p
    ensures exists k, s, i :: 0 <= k < |DIRECTIONS| && 0 <= i < WIN_CONDITION
              && x == Step(s, DIRECTIONS[k], i) && FiveAt(g, s, DIRECTIONS[k], p)
  {
    var k :| 0 <= k < |DIRECTIONS| && WinsAlong(g, x, k);
    var s, i := FiveThrough(g, x, k);
  }

  /** A line long enough to win along axis k through x yields the start s
      of WIN_CONDITION stones of the player at x, with x the i-th of them. */
  lemma FiveThrough(g: Grid, x: Pos, k: int) returns (s: Pos, i: int)
    requires WellFormed(g) && InRange(x) && 0 <= k < |DIRECTIONS| && WinsAlong(g, x, k)
    ensures 0 <= i < WIN_CONDITION && x == Step(s, DIRECTIONS[k], i)
    ensures FiveAt(g, s, DIRECTIONS[k], At(g, x))
  {
    var d, p := DIRECTIONS[k], At(g, x);
    var b := Run(g, x, Neg(d), p);
    i := if b < WIN_CONDITION - 1 then b else WIN_CONDITION - 1;
    LineHoldsFive(g, x, d, p, i);
    s := Step(x, d, -i);
    StepAdd(x, d, -i, i);
    StepZero(x, d);
  }

  /** The winner check through x reports p exactly when x lies on
      WIN_CONDITION consecutive stones of p along one of the four axes. */
  lemma WinnerIff(g: Grid, x: Pos, p: Player)
    requires WellFormed(g) && InRange(x)
    ensures Winner(g, x) == Some(p) <==>
              exists k, s, i :: 0 <= k < |DIRECTIONS| && 0 <= i < WIN_CONDITION
                && x == Step(s, DIRECTIONS[k], i) && FiveAt(g, s, DIRECTIONS[k], p)
  {
    if Winner(g, x) == Some(p) {
      WinnerSound(g, x, p);
    }
    if exists k, s, i :: 0 <= k < |DIRECTIONS| && 0 <= i < WIN_CONDITION
         && x == Step(s, DIRECTIONS[k], i) && FiveAt(g, s, DIRECTIONS[k], p) {
      var k, s, i :| 0 <= k < |DIRECTIONS| && 0 <= i < WIN_CONDITION
         && x == Step(s, DIRECTIONS[k], i) && FiveAt(g, s, DIRECTIONS[k], p);
      WinnerComplete(g, x, p, k, s, i);
    }
  }
}
