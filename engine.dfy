/** The engine object: it holds the board it is searching and a fixed
    search depth. Its methods play and take back moves on that board while
    they search, and are proved to compute the values and the move that the
    pure definitions in Game, MoveGen and Evaluation describe, leaving the
    board's stones as they found them. */
module Engine {
  import opened Consts
  import opened Options
  import opened Grids
  import opened Lines
  import opened MoveGen
  import opened Evaluation
  import opened GameTrees
  import opened Game
  import opened Boards

  /** The cells of the maximal run of p along d that starts at x. */
  function RunOf(g: Grid, x: Pos, d: Pos, p: Cell): (cs: seq<Pos>)
    requires WellFormed(g) && InRange(x) && IsDir(d)
    ensures |cs| == Run(g, x, d, p) + 1
    ensures forall t :: 0 <= t < |cs| ==> cs[t] == Step(x, d, t)
  {
    RunAfterSpec(g, x, d, p);
    RunAfterCells(g, x, d, p);
    [x] + RunAfter(g, x, d, p)
  }

  /** The stones of p whose run along d starts at x are exactly the cells of
      that run. */
  lemma RunOfMembers(g: Grid, x: Pos, d: Pos, p: Cell)
    requires WellFormed(g) && IsDir(d) && IsRunStart(g, x, d, p)
    ensures forall c :: c in RunOf(g, x, d, p) <==> IsStone(g, c, p) && StartOf(g, c, d, p) == x
  {
    var cs := RunOf(g, x, d, p);
    forall c ensures c in cs <==> IsStone(g, c, p) && StartOf(g, c, d, p) == x {
      if c in cs {
        var t :| 0 <= t < |cs| && cs[t] == c;
        StartOfRunCell(g, x, d, p, t);
      }
      if IsStone(g, c, p) && StartOf(g, c, d, p) == x {
        StartOfIsStart(g, c, d, p);
        assert cs[Run(g, c, Neg(d), p)] == c;
      }
    }
  }

  /** Two on-board cells with the same row-major number are the same. */
  lemma IndexInjective(a: Pos, b: Pos)
    requires InRange(a) && InRange(b) && Index(a) == Index(b)
    ensures a == b
  {
    IndexBijection(a, 0);
    IndexBijection(b, 0);
  }

  /** The entry (row, col, dr, dc) belongs in the evaluator's `evaluated` set
      once the scan has reached cell number i and, within it, axis k: the
      cell holds p, the axis is one of DIRECTIONS, and the run through the
      cell along it starts at an earlier cell, or at cell i along an earlier
      axis. */
  ghost predicate Counted(g: Grid, p: Cell, i: int, k: int, e: (int, int, int, int))
    requires WellFormed(g)
  {
    var c := (e.0, e.1);
    var d := (e.2, e.3);
    && IsStone(g, c, p) && DirIndex(d) < |DIRECTIONS|
    && var s := StartOf(g, c, d, p);
       (Index(s) < i || (Index(s) == i && DirIndex(d) < k))
  }

  /** A run start along d has its own number; any other stone of the run has
      a larger one than its start. */
  lemma StartIndex(g: Grid, x: Pos, k: int, p: Cell)
    requires WellFormed(g) && IsStone(g, x, p) && 0 <= k < |DIRECTIONS|
    ensures IsRunStart(g, x, DIRECTIONS[k], p) <==> StartOf(g, x, DIRECTIONS[k], p) == x
    ensures !IsRunStart(g, x, DIRECTIONS[k], p) ==> Index(StartOf(g, x, DIRECTIONS[k], p)) < Index(x)
  {
    var d := DIRECTIONS[k];
    StartOfIsStart(g, x, d, p);
    StepBackOne(x, d);
    if IsRunStart(g, x, d, p) {
      assert Run(g, x, Neg(d), p) == 0;
    } else {
      assert Run(g, x, Neg(d), p) >= 1;
      IndexAdvances(StartOf(g, x, d, p), k, Run(g, x, Neg(d), p));
    }
  }

  /** Scanning axis k at the stone x of p: its entry is already present
      exactly when x does not start a run along that axis. */
  lemma CountedAtCell(g: Grid, p: Cell, x: Pos, k: int)
    requires WellFormed(g) && IsStone(g, x, p) && 0 <= k < |DIRECTIONS|
    ensures Counted(g, p, Index(x), k, (x.0, x.1, DIRECTIONS[k].0, DIRECTIONS[k].1))
            <==> !IsRunStart(g, x, DIRECTIONS[k], p)
  {
    StartIndex(g, x, k, p);
  }

  /** Entries that become counted when the scan passes axis k of cell i are
      those of the run starting there, if any. */
  lemma CountedNextAxis(g: Grid, p: Cell, x: Pos, k: int, e: (int, int, int, int))
    requires WellFormed(g) && InRange(x) && 0 <= k < |DIRECTIONS|
    ensures Counted(g, p, Index(x), k + 1, e) <==>
              || Counted(g, p, Index(x), k, e)
              || (&& IsRunStart(g, x, DIRECTIONS[k], p) && (e.2, e.3) == DIRECTIONS[k]
                  && (e.0, e.1) in RunOf(g, x, DIRECTIONS[k], p))
  {
    var c := (e.0, e.1);
    var d := (e.2, e.3);
    if IsStone(g, c, p) && DirIndex(d) == k && Index(StartOf(g, c, d, p)) == Index(x) {
      StartOfIsStart(g, c, d, p);
      StartRunCovers(g, c, d, p);
      IndexInjective(StartOf(g, c, d, p), x);
      RunOfMembers(g, x, d, p);
    }
    if IsRunStart(g, x, DIRECTIONS[k], p) && d == DIRECTIONS[k] && c in RunOf(g, x, DIRECTIONS[k], p) {
      RunOfMembers(g, x, d, p);
    }
  }

  /** No entry's run starts at a cell that does not hold p. */
  lemma CountedNoStone(g: Grid, p: Cell, x: Pos, e: (int, int, int, int))
    requires WellFormed(g) && InRange(x) && !IsStone(g, x, p)
    ensures Counted(g, p, Index(x), 0, e) <==> Counted(g, p, Index(x) + 1, 0, e)
  {
    var c := (e.0, e.1);
    var d := (e.2, e.3);
    if IsStone(g, c, p) && DirIndex(d) < |DIRECTIONS| && Index(StartOf(g, c, d, p)) == Index(x) {
      StartRunCovers(g, c, d, p);
      IndexInjective(StartOf(g, c, d, p), x);
    }
  }

  /** The evaluator's `evaluated` set once the scan has reached cell number
      i and, within it, axis k: the entries Counted describes. */
  ghost function CountedSet(g: Grid, p: Cell, i: int, k: int): set<(int, int, int, int)>
    requires WellFormed(g)
  {
    set r, c, a | 0 <= r < BOARD_SIZE && 0 <= c < BOARD_SIZE && 0 <= a < |DIRECTIONS|
                  && Counted(g, p, i, k, (r, c, DIRECTIONS[a].0, DIRECTIONS[a].1))
      :: (r, c, DIRECTIONS[a].0, DIRECTIONS[a].1)
  }

  /** CountedSet holds exactly the entries Counted describes. */
  lemma CountedSetHas(g: Grid, p: Cell, i: int, k: int, e: (int, int, int, int))
    requires WellFormed(g)
    ensures e in CountedSet(g, p, i, k) <==> Counted(g, p, i, k, e)
  {
    if Counted(g, p, i, k, e) {
      var a := DirIndex((e.2, e.3));
      assert (e.0, e.1, DIRECTIONS[a].0, DIRECTIONS[a].1) == e;
    }
  }

  /** Before the scan starts nothing is counted. */
  lemma CountedSetEmpty(g: Grid, p: Cell)
    requires WellFormed(g)
    ensures CountedSet(g, p, 0, 0) == {}
  {
    forall e | e in CountedSet(g, p, 0, 0) ensures false {
      CountedSetHas(g, p, 0, 0, e);
      StartOfIsStart(g, (e.0, e.1), (e.2, e.3), p);
    }
  }

  /** Having passed every axis of cell x is having reached the next cell. */
  lemma CountedSetNextCell(g: Grid, p: Cell, x: Pos)
    requires WellFormed(g) && InRange(x)
    ensures CountedSet(g, p, Index(x), |DIRECTIONS|) == CountedSet(g, p, Index(x) + 1, 0)
  {
    forall e ensures e in CountedSet(g, p, Index(x), |DIRECTIONS|) <==> e in CountedSet(g, p, Index(x) + 1, 0) {
      CountedSetHas(g, p, Index(x), |DIRECTIONS|, e);
      CountedSetHas(g, p, Index(x) + 1, 0, e);
    }
  }

  /** Passing a cell that does not hold p counts nothing new. */
  lemma CountedSetNoStone(g: Grid, p: Cell, x: Pos)
    requires WellFormed(g) && InRange(x) && !IsStone(g, x, p)
    ensures CountedSet(g, p, Index(x), 0) == CountedSet(g, p, Index(x) + 1, 0)
  {
    forall e ensures e in CountedSet(g, p, Index(x), 0) <==> e in CountedSet(g, p, Index(x) + 1, 0) {
      CountedSetHas(g, p, Index(x), 0, e);
      CountedSetHas(g, p, Index(x) + 1, 0, e);
      CountedNoStone(g, p, x, e);
    }
  }

  /** Scanning axis k at the stone x: its own entry is present exactly when
      x does not start a run along that axis, and passing the axis adds the
      cells of the run that starts at x, if any. */
  lemma CountedSetAxis(g: Grid, p: Cell, x: Pos, k: int)
    requires WellFormed(g) && IsStone(g, x, p) && 0 <= k < |DIRECTIONS|
    ensures (x.0, x.1, DIRECTIONS[k].0, DIRECTIONS[k].1) in CountedSet(g, p, Index(x), k)
            <==> !IsRunStart(g, x, DIRECTIONS[k], p)
    ensures CountedSet(g, p, Index(x), k + 1)
            == CountedSet(g, p, Index(x), k)
               + if IsRunStart(g, x, DIRECTIONS[k], p) then Marks(RunOf(g, x, DIRECTIONS[k], p), DIRECTIONS[k]) else {}
  {
    CountedAtCell(g, p, x, k);
    CountedSetHas(g, p, Index(x), k, (x.0, x.1, DIRECTIONS[k].0, DIRECTIONS[k].1));
    forall e ensures e in CountedSet(g, p, Index(x), k + 1) <==>
                       e in CountedSet(g, p, Index(x), k)
                       || (IsRunStart(g, x, DIRECTIONS[k], p) && e in Marks(RunOf(g, x, DIRECTIONS[k], p), DIRECTIONS[k]))
    {
      CountedSetHas(g, p, Index(x), k, e);
      CountedSetHas(g, p, Index(x), k + 1, e);
      CountedNextAxis(g, p, x, k, e);
    }
  }

  /** Seen from a run start, the line through it is the run itself. */
  lemma StartLine(g: Grid, x: Pos, d: Pos, p: Cell)
    requires WellFormed(g) && IsDir(d) && IsRunStart(g, x, d, p)
    ensures [x] + RunAfter(g, x, d, p) + RunAfter(g, x, Neg(d), p) == RunOf(g, x, d, p)
  {
    RunAfterSpec(g, x, Neg(d), p);
    StepBackOne(x, d);
    assert Run(g, x, Neg(d), p) == 0;
  }

  /** The entries marking the cells cs along axis d. */
  function Marks(cs: seq<Pos>, d: Pos): (m: set<(int, int, int, int)>)
    ensures forall e :: e in m <==> (e.0, e.1) in cs && (e.2, e.3) == d
  {
    set c | c in cs :: (c.0, c.1, d.0, d.1)
  }

  /** Adds the entries of the cells of one line to the evaluator's set. */
  method MarkRun(cells: seq<Pos>, dr: int, dc: int, evaluated0: set<(int, int, int, int)>)
    returns (evaluated: set<(int, int, int, int)>)
    ensures evaluated == evaluated0 + Marks(cells, (dr, dc))
  {
    evaluated := evaluated0;
    for j := 0 to |cells|
      invariant evaluated == evaluated0 + Marks(cells[..j], (dr, dc))
    {
      assert cells[..j + 1] == cells[..j] + [cells[j]];
      evaluated := evaluated + {(cells[j].0, cells[j].1, dr, dc)};
    }
    assert cells[..|cells|] == cells;
  }

  /** A cell that does not hold p starts no run of p. */
  lemma {:induction false} NoStoneNoScore(g: Grid, p: Cell, x: Pos, k: int)
    requires WellFormed(g) && InRange(x) && !IsStone(g, x, p) && 0 <= k <= |DIRECTIONS|
    ensures DirsScore(g, p, x, k) == 0
  {
    if k > 0 {
      NoStoneNoScore(g, p, x, k - 1);
    }
  }

  /** Walk's loop invariant: ray followed by the run after prev is the run
      after x, and both runs end at the same cell. */
  ghost predicate Walked(g: Grid, x: Pos, d: Pos, p: Cell, prev: Pos, ray: seq<Pos>)
    requires WellFormed(g)
  {
    && InRange(x) && IsDir(d) && InRange(prev)
    && ray + RunAfter(g, prev, d, p) == RunAfter(g, x, d, p)
    && RunEnd(g, prev, d, p) == RunEnd(g, x, d, p)
  }

  /** One step of the walk over a stone of p keeps the invariant. */
  lemma WalkOn(g: Grid, x: Pos, d: Pos, p: Cell, prev: Pos, ray: seq<Pos>)
    requires WellFormed(g) && Walked(g, x, d, p, prev, ray) && IsStone(g, Next(prev, d), p)
    ensures Walked(g, x, d, p, Next(prev, d), ray + [Next(prev, d)])
    ensures Reach(Next(prev, d), d) < Reach(prev, d)
  {
    var y := Next(prev, d);
    var rest := RunAfter(g, y, d, p);
    assert ray + ([y] + rest) == (ray + [y]) + rest;
  }

  /** The walk stops at the first cell past the run. */
  lemma WalkEnd(g: Grid, x: Pos, d: Pos, p: Cell, prev: Pos, ray: seq<Pos>)
    requires WellFormed(g) && Walked(g, x, d, p, prev, ray) && !IsStone(g, Next(prev, d), p)
    ensures ray == RunAfter(g, x, d, p) && Next(prev, d) == RunEnd(g, x, d, p)
  {
  }

  /** The two walks from x give the score of its line. */
  lemma LineFromWalks(g: Grid, x: Pos, d: Pos, p: Cell, fwd: seq<Pos>, openF: bool, bwd: seq<Pos>, openB: bool)
    requires WellFormed(g) && InRange(x) && IsDir(d)
    requires fwd == RunAfter(g, x, d, p) && openF == IsOpen(g, RunEnd(g, x, d, p))
    requires bwd == RunAfter(g, x, (-d.0, -d.1), p) && openB == IsOpen(g, RunEnd(g, x, (-d.0, -d.1), p))
    ensures [x] + fwd + bwd == [x] + RunAfter(g, x, d, p) + RunAfter(g, x, Neg(d), p)
    ensures LineScore(g, x, d, p) == PatternScore(1 + |fwd| + |bwd|, (if openF then 1 else 0) + (if openB then 1 else 0))
  {
    assert Neg(d) == (-d.0, -d.1);
    WalksMeasureLine(g, x, d, p);
  }

  /** q comes before offset (dr, dc) from s in the generator's row-major
      scan of the square around s. */
  predicate ScannedBefore(s: Pos, q: Pos, dr: int, dc: int) {
    q.0 - s.0 < dr || (q.0 - s.0 == dr && q.1 - s.1 < dc)
  }

  /** The candidates the generator holds while it scans around stone s at
      offset (dr, dc), having finished the stones in done: the valid moves
      near a finished stone, and those near s scanned so far. */
  ghost function ScanSet(g: Grid, done: set<Pos>, s: Pos, dr: int, dc: int): set<Pos>
    requires WellFormed(g)
  {
    set r, c | && 0 <= r < BOARD_SIZE && 0 <= c < BOARD_SIZE && IsValidMove(g, (r, c))
               && (NearSome(done, (r, c)) || (Near(s, (r, c)) && ScannedBefore(s, (r, c), dr, dc)))
      :: (r, c)
  }

  /** The valid moves near some stone of done. */
  ghost function NearSet(g: Grid, done: set<Pos>): set<Pos>
    requires WellFormed(g)
  {
    set r, c | 0 <= r < BOARD_SIZE && 0 <= c < BOARD_SIZE && IsValidMove(g, (r, c)) && NearSome(done, (r, c))
      :: (r, c)
  }

  lemma ScanStart(g: Grid, done: set<Pos>, s: Pos)
    requires WellFormed(g)
    ensures ScanSet(g, done, s, -NEIGHBOR_RADIUS, -NEIGHBOR_RADIUS) == NearSet(g, done)
  {
  }

  /** Scanning offset (dr, dc) adds the cell there when it is a valid move
      other than s itself, and nothing otherwise. */
  lemma ScanStep(g: Grid, done: set<Pos>, s: Pos, dr: int, dc: int, add: bool)
    requires WellFormed(g)
    requires -NEIGHBOR_RADIUS <= dr <= NEIGHBOR_RADIUS && -NEIGHBOR_RADIUS <= dc <= NEIGHBOR_RADIUS
    requires add <==> (dr, dc) != (0, 0) && IsValidMove(g, (s.0 + dr, s.1 + dc))
    ensures add ==> ScanSet(g, done, s, dr, dc + 1) == ScanSet(g, done, s, dr, dc) + {(s.0 + dr, s.1 + dc)}
    ensures !add ==> ScanSet(g, done, s, dr, dc + 1) == ScanSet(g, done, s, dr, dc)
  {
  }

  lemma ScanRow(g: Grid, done: set<Pos>, s: Pos, dr: int)
    requires WellFormed(g)
    ensures ScanSet(g, done, s, dr, NEIGHBOR_RADIUS + 1) == ScanSet(g, done, s, dr + 1, -NEIGHBOR_RADIUS)
  {
  }

  /** After the whole square around s, s counts as finished. */
  lemma ScanDone(g: Grid, done: set<Pos>, s: Pos)
    requires WellFormed(g)
    ensures ScanSet(g, done, s, NEIGHBOR_RADIUS + 1, -NEIGHBOR_RADIUS) == NearSet(g, done + {s})
  {
    forall q | q in NearSet(g, done + {s})
      ensures q in ScanSet(g, done, s, NEIGHBOR_RADIUS + 1, -NEIGHBOR_RADIUS)
    {
      var p :| p in done + {s} && Near(p, q);
      if p != s {
        assert NearSome(done, q);
      }
    }
    forall q | q in ScanSet(g, done, s, NEIGHBOR_RADIUS + 1, -NEIGHBOR_RADIUS)
      ensures q in NearSet(g, done + {s})
    {
      if NearSome(done, q) {
        var p :| p in done && Near(p, q);
        assert p in done + {s};
      } else {
        assert s in done + {s};
      }
    }
  }

  /** Once every stone is finished, the candidates are the candidate set. */
  lemma NearSetAll(g: Grid)
    requires WellFormed(g)
    ensures NearSet(g, Occupied(g)) == CandidateSet(g)
  {
  }

  /** Once every stone is finished, sorting the candidates held gives the
      candidate list. */
  lemma SortedNearSet(g: Grid, done: set<Pos>, candidates: set<Pos>)
    requires WellFormed(g) && done == Occupied(g) && candidates == NearSet(g, done)
    ensures SortedByCentre(candidates) == Candidates(g)
  {
    NearSetAll(g);
    CandidatesSorted(g);
  }

  class AIEngine {
    const depth: int
    var board: Board?

    /** A new engine searching `depth` plies, not yet attached to a board. */
    constructor (depth: int)
      ensures this.depth == depth && board == null
    {
      this.depth := depth;
      board := null;
    }

    /** The move the engine plays on b: the centre on an empty board, the
        reply next to a lone stone, and otherwise the first immediate win
        among the candidates or else the first candidate of highest
        minimax value. The board's stones and counter are as before. */
    method GetBestMove(b: Board) returns (m: Option<Pos>)
      requires b.Valid() && depth >= 1
      modifies this, b, b.grid
      ensures board == b && b.Valid()
      ensures b.cells == old(b.cells)
      ensures m == BestMove(old(b.cells), depth)
    {
      board := b;
      ghost var g := b.cells;
      if b.moveCount == 0 {
        return Some((BOARD_SIZE / 2, BOARD_SIZE / 2));
      }
      if b.moveCount == 1 {
        var q := AdjacentToOpponent();
        ghost var s :| s in Occupied(g);
        assert Occupied(g) == {s} by {
          var rest := Occupied(g) - {s};
          assert |rest| == 0;
          assert forall q :: q in Occupied(g) ==> q == s || q in rest;
        }
        return Some(q);
      }
      var moves := CandidateMoves();
      CandidatesOnBoard(g);
      m := SearchRoot(moves, g, RootWins(g, moves), RootTrees(g, moves, depth));
    }

    /** GetBestMove's loop over the candidate moves on the stones g, with
        ws[i] telling whether moves[i] wins at once and ts[i] the tree of
        the human's reply: the first immediate win, or else the first move
        of highest value, alpha rising as the loop goes. The board is as
        before. */
    method SearchRoot(moves: seq<Pos>, ghost g: Grid, ghost ws: seq<bool>, ghost ts: seq<Tree>) returns (bestMove: Option<Pos>)
      requires board != null && board.Valid() && depth >= 1 && board.cells == g
      requires |ws| == |moves| && |ts| == |moves|
      requires forall i :: 0 <= i < |moves| ==> Grids.IsValidMove(g, moves[i])
      requires forall i {:trigger WinsAt(g, moves[i])} :: 0 <= i < |moves| ==> InRange(moves[i]) && ws[i] == WinsAt(g, moves[i])
      requires forall i {:trigger ReplyTree(g, moves[i], depth)} :: 0 <= i < |moves| ==> InRange(moves[i]) && ts[i] == ReplyTree(g, moves[i], depth)
      modifies board, board.grid
      ensures board.Valid() && board.cells == g
      ensures var r := RootChoice(ws, Values(ts), 0, NegInf, None);
              bestMove == if r.Some? then Some(moves[r.value]) else None
    {
      var b := board;
      bestMove := None;
      var bestScore := NegInf;
      var alpha := NegInf;
      ghost var bestIdx: Option<nat> := None;
      var i := 0;
      while i < |moves|
        invariant b.Valid() && b.cells == g
        invariant 0 <= i <= |moves| && alpha == bestScore
        invariant bestIdx.None? ==> bestMove.None?
        invariant bestIdx.Some? ==> bestIdx.value < |moves| && bestMove == Some(moves[bestIdx.value])
        invariant RootSearch(ws, ts, i, alpha, bestScore, bestIdx) == RootSearch(ws, ts, 0, NegInf, NegInf, None)
      {
        var win, score := TryRootMove(moves, i, alpha, g, ws, ts);
        if win {
          RootSearchIsChoice(ws, ts, 0, NegInf, None);
          return Some(moves[i]);
        }
        if Lt(bestScore, score) {
          bestScore := score;
          bestMove := Some(moves[i]);
          bestIdx := Some(i);
        }
        alpha := Max(alpha, score);
        i := i + 1;
      }
      RootSearchIsChoice(ws, ts, 0, NegInf, None);
    }

    /** One move of GetBestMove's loop: the engine plays moves[i] on the
        stones g; when that wins at once, win holds; otherwise score is the
        search value of the human's reply tree ts[i] with window (alpha,
        plus infinity). The move is taken back. */
    method TryRootMove(moves: seq<Pos>, i: nat, alpha: Score, ghost g: Grid, ghost ws: seq<bool>, ghost ts: seq<Tree>) returns (win: bool, score: Score)
      requires board != null && board.Valid() && depth >= 1 && board.cells == g
      requires i < |moves| == |ws| == |ts| && Grids.IsValidMove(g, moves[i])
      requires forall i {:trigger WinsAt(g, moves[i])} :: 0 <= i < |moves| ==> InRange(moves[i]) && ws[i] == WinsAt(g, moves[i])
      requires forall i {:trigger ReplyTree(g, moves[i], depth)} :: 0 <= i < |moves| ==> InRange(moves[i]) && ts[i] == ReplyTree(g, moves[i], depth)
      modifies board, board.grid
      ensures board.Valid() && board.cells == g
      ensures win == ws[i]
      ensures !win ==> score == AlphaBeta(ts[i], alpha, PosInf)
    {
      var b := board;
      var m := moves[i];
      var ok := b.MakeMove(m.0, m.1, Ai);
      var winner := b.CheckWinner(m.0, m.1);
      win := winner == Some(Ai);
      score := NegInf;
      if !win {
        score := Minimax(depth - 1, false, alpha, PosInf, m);
      }
      b.UndoMove(m.0, m.1);
      UndoRestores(g, m, Ai);
      assert ws[i] == WinsAt(g, m) && ts[i] == ReplyTree(g, m, depth);
    }

    /** The search value of the position on the board, reached by `last`,
        with `depth` plies left, the engine to move when isMaximizing, and
        window (alpha, beta): the alpha-beta value of its game tree. The
        board's stones and counter are as before. */
    method Minimax(depth: nat, isMaximizing: bool, alpha: Score, beta: Score, last: Pos) returns (score: Score)
      requires board != null && board.Valid() && InRange(last)
      modifies board, board.grid
      ensures board.Valid() && board.cells == old(board.cells)
      ensures score == AlphaBeta(GameTree(old(board.cells), depth, isMaximizing, last), alpha, beta)
      decreases depth, 2
    {
      var b := board;
      ghost var g := b.cells;
      var winner := b.CheckWinner(last.0, last.1);
      if winner == Some(Ai) {
        GameTreeLeaf(g, depth, isMaximizing, last, alpha, beta);
        return Fin((SCORE_FIVE + depth) as real);
      }
      if winner == Some(Human) {
        GameTreeLeaf(g, depth, isMaximizing, last, alpha, beta);
        return Fin((-SCORE_FIVE - depth) as real);
      }
      if b.IsFull() {
        GameTreeLeaf(g, depth, isMaximizing, last, alpha, beta);
        return Fin(0.0);
      }
      if depth == 0 {
        var v := EvaluateBoard();
        GameTreeLeaf(g, depth, isMaximizing, last, alpha, beta);
        return Fin(v);
      }
      var moves := CandidateMoves();
      GameTreeNode(g, depth, isMaximizing, last);
      if isMaximizing {
        score := MaxChildren(depth, alpha, beta, moves, GameTree(g, depth, isMaximizing, last));
      } else {
        score := MinChildren(depth, alpha, beta, moves, GameTree(g, depth, isMaximizing, last));
      }
    }

    /** Minimax's loop where the engine moves: the children of t, one per
        move, searched in order while alpha rises, stopping at a cutoff. */
    method MaxChildren(depth: nat, alpha: Score, beta: Score, moves: seq<Pos>, ghost t: Tree) returns (score: Score)
      requires board != null && board.Valid() && depth >= 1
      requires t.Node? && t.maxing && |t.kids| == |moves|
      requires forall i :: 0 <= i < |moves| ==>
                 && Grids.IsValidMove(board.cells, moves[i])
                 && t.kids[i] == GameTree(Place(board.cells, moves[i], Ai), depth - 1, false, moves[i])
      modifies board, board.grid
      ensures board.Valid() && board.cells == old(board.cells)
      ensures score == AlphaBeta(t, alpha, beta)
      decreases depth, 1
    {
      var b := board;
      ghost var g := b.cells;
      var a := alpha;
      score := NegInf;
      var i := 0;
      while i < |moves|
        invariant b.Valid() && b.cells == g
        invariant 0 <= i <= |moves|
        invariant MaxLoop(t, i, a, beta, score) == AlphaBeta(t, alpha, beta)
      {
        var s := PlayChild(depth, true, a, beta, moves[i]);
        score := Max(score, s);
        a := Max(a, s);
        if Le(beta, a) {
          return;
        }
        i := i + 1;
      }
    }

    /** Minimax's loop where the human moves: the children of t searched
        in order while beta falls, stopping at a cutoff. */
    method MinChildren(depth: nat, alpha: Score, beta: Score, moves: seq<Pos>, ghost t: Tree) returns (score: Score)
      requires board != null && board.Valid() && depth >= 1
      requires t.Node? && !t.maxing && |t.kids| == |moves|
      requires forall i :: 0 <= i < |moves| ==>
                 && Grids.IsValidMove(board.cells, moves[i])
                 && t.kids[i] == GameTree(Place(board.cells, moves[i], Human), depth - 1, true, moves[i])
      modifies board, board.grid
      ensures board.Valid() && board.cells == old(board.cells)
      ensures score == AlphaBeta(t, alpha, beta)
      decreases depth, 1
    {
      var b := board;
      ghost var g := b.cells;
      var bt := beta;
      score := PosInf;
      var i := 0;
      while i < |moves|
        invariant b.Valid() && b.cells == g
        invariant 0 <= i <= |moves|
        invariant MinLoop(t, i, alpha, bt, score) == AlphaBeta(t, alpha, beta)
      {
        var s := PlayChild(depth, false, alpha, bt, moves[i]);
        score := Min(score, s);
        bt := Min(bt, s);
        if Le(bt, alpha) {
          return;
        }
        i := i + 1;
      }
    }

    /** One step of Minimax's loops: the mover plays m, the position is
        searched one ply shallower with the other side to move, and the
        move is taken back. */
    method PlayChild(depth: nat, maxing: bool, alpha: Score, beta: Score, m: Pos) returns (s: Score)
      requires board != null && board.Valid() && depth >= 1 && Grids.IsValidMove(board.cells, m)
      modifies board, board.grid
      ensures board.Valid() && board.cells == old(board.cells)
      ensures s == AlphaBeta(GameTree(Place(old(board.cells), m, Mover(maxing)), depth - 1, !maxing, m), alpha, beta)
      decreases depth, 0
    {
      var b := board;
      ghost var g := b.cells;
      var ok := b.MakeMove(m.0, m.1, Mover(maxing));
      s := Minimax(depth - 1, !maxing, alpha, beta, m);
      b.UndoMove(m.0, m.1);
      UndoRestores(g, m, Mover(maxing));
    }

    /** The candidate moves of the board: every empty cell within
        NEIGHBOR_RADIUS of a stone, by distance to the centre. */
    method CandidateMoves() returns (moves: seq<Pos>)
      requires board != null && board.Valid()
      ensures moves == Candidates(board.cells)
    {
      ghost var g := board.cells;
      var candidates: set<Pos> := {};
      var todo := board.played;
      ghost var stones := todo;
      ghost var done: set<Pos> := {};
      while todo != {}
        invariant todo + done == stones && todo !! done
        invariant candidates == NearSet(g, done)
        decreases todo
      {
        var s :| s in todo;
        candidates := AddNear(s, candidates, done);
        todo := todo - {s};
        done := done + {s};
      }
      SortedNearSet(g, done, candidates);
      moves := SortedByCentre(candidates);
    }

    /** The generator's scan of the square around the stone s: every valid
        move in it other than s joins the candidates. */
    method AddNear(s: Pos, candidates: set<Pos>, ghost done: set<Pos>) returns (cands: set<Pos>)
      requires board != null && board.Valid() && candidates == NearSet(board.cells, done)
      ensures cands == NearSet(board.cells, done + {s})
    {
      var b := board;
      ghost var g := b.cells;
      cands := candidates;
      ScanStart(g, done, s);
      for dr := -NEIGHBOR_RADIUS to NEIGHBOR_RADIUS + 1
        invariant cands == ScanSet(g, done, s, dr, -NEIGHBOR_RADIUS)
      {
        for dc := -NEIGHBOR_RADIUS to NEIGHBOR_RADIUS + 1
          invariant cands == ScanSet(g, done, s, dr, dc)
        {
          if dr == 0 && dc == 0 {
            ScanStep(g, done, s, dr, dc, false);
            continue;
          }
          var nr, nc := s.0 + dr, s.1 + dc;
          var free := b.IsValidMove(nr, nc);
          ScanStep(g, done, s, dr, dc, free);
          if free {
            cands := cands + {(nr, nc)};
          }
        }
        ScanRow(g, done, s, dr);
      }
      ScanDone(g, done, s);
    }

    /** The reply to the opening stone: the first listed neighbour of a
        played stone that is free, or the centre when no stone has one. */
    method AdjacentToOpponent() returns (q: Pos)
      requires board != null && board.Valid()
      ensures || (exists s :: s in board.played && FirstFreeFrom(board.cells, s, 0) == Some(q))
              || (q == (CENTRE, CENTRE) && forall s :: s in board.played ==> FirstFreeFrom(board.cells, s, 0) == None)
      ensures forall s :: board.played == {s} ==> q == AdjacentReply(board.cells, s)
    {
      var todo := board.played;
      while todo != {}
        invariant todo <= board.played
        invariant forall s :: s in board.played - todo ==> FirstFreeFrom(board.cells, s, 0) == None
        decreases todo
      {
        var s :| s in todo;
        var r := FreeNeighbour(s);
        if r.Some? {
          return r.value;
        }
        todo := todo - {s};
      }
      q := (BOARD_SIZE / 2, BOARD_SIZE / 2);
    }

    /** The first listed neighbour of s that is a valid move, if any. */
    method FreeNeighbour(s: Pos) returns (r: Option<Pos>)
      requires board != null && board.Valid()
      ensures r == FirstFreeFrom(board.cells, s, 0)
    {
      var b := board;
      ghost var g := b.cells;
      for k := 0 to |ADJACENT_OFFSETS|
        invariant forall j :: 0 <= j < k ==> !Grids.IsValidMove(g, Offset(s, j))
      {
        var (dr, dc) := ADJACENT_OFFSETS[k];
        if b.IsValidMove(s.0 + dr, s.1 + dc) {
          FirstFreeSkip(g, s, k);
          return Some((s.0 + dr, s.1 + dc));
        }
      }
      FirstFreeSkip(g, s, |ADJACENT_OFFSETS|);
      return None;
    }

    /** The static score of the board: the engine's total less
        DEFENSE_MULTIPLIER times the human's. */
    method EvaluateBoard() returns (v: real)
      requires board != null && board.Valid()
      ensures v == Evaluate(board.cells)
    {
      var ai := EvaluatePlayer(Ai);
      var human := EvaluatePlayer(Human);
      v := ai as real - human as real * DEFENSE_MULTIPLIER;
    }

    /** The total of p's lines: every maximal run of p along every axis of
        DIRECTIONS scored once, from whichever of its cells the scan meets
        first. */
    method EvaluatePlayer(p: Player) returns (total: int)
      requires board != null && board.Valid()
      ensures total == PlayerScore(board.cells, p)
    {
      ghost var g := board.cells;
      total := 0;
      var evaluated: set<(int, int, int, int)> := {};
      CountedSetEmpty(g, p);
      for i := 0 to BOARD_SIZE * BOARD_SIZE
        invariant total == ScoreBelow(g, p, i)
        invariant evaluated == CountedSet(g, p, i, 0)
      {
        total, evaluated := ScanCell(p, i, total, evaluated);
      }
    }

    /** The scan at cell number i: a stone of p has its runs scored and
        marked; any other cell adds nothing. */
    method ScanCell(p: Player, i: int, total0: int, evaluated0: set<(int, int, int, int)>)
      returns (total: int, evaluated: set<(int, int, int, int)>)
      requires board != null && board.Valid() && 0 <= i < BOARD_SIZE * BOARD_SIZE
      requires total0 == ScoreBelow(board.cells, p, i) && evaluated0 == CountedSet(board.cells, p, i, 0)
      ensures total == ScoreBelow(board.cells, p, i + 1) && evaluated == CountedSet(board.cells, p, i + 1, 0)
    {
      var x := (i / BOARD_SIZE, i % BOARD_SIZE);
      IndexBijection(x, i);
      assert x == CellOf(i);
      if x in board.played && board.GetCell(x.0, x.1) == p {
        total, evaluated := ScoreStone(p, x, total0, evaluated0);
        CountedSetNextCell(board.cells, p, x);
      } else {
        NoStoneNoScore(board.cells, p, x, |DIRECTIONS|);
        CountedSetNoStone(board.cells, p, x);
        total, evaluated := total0, evaluated0;
      }
    }

    /** The scan at a stone x of p: each axis in turn adds the score of the
        run starting at x, unless an earlier cell's line already marked x on
        that axis. */
    method ScoreStone(p: Player, x: Pos, total0: int, evaluated0: set<(int, int, int, int)>)
      returns (total: int, evaluated: set<(int, int, int, int)>)
      requires board != null && board.Valid() && IsStone(board.cells, x, p)
      requires evaluated0 == CountedSet(board.cells, p, Index(x), 0)
      ensures total == total0 + DirsScore(board.cells, p, x, |DIRECTIONS|)
      ensures evaluated == CountedSet(board.cells, p, Index(x), |DIRECTIONS|)
    {
      ghost var g := board.cells;
      total, evaluated := total0, evaluated0;
      var k := 0;
      while k < |DIRECTIONS|
        invariant 0 <= k <= |DIRECTIONS|
        invariant total == total0 + DirsScore(g, p, x, k)
        invariant evaluated == CountedSet(g, p, Index(x), k)
      {
        total, evaluated := ScoreAxis(p, x, k, total0, total, evaluated);
        k := k + 1;
      }
    }

    /** The scan at stone x along axis k: a marked entry is skipped; else
        the line through x is scored and its cells are marked. The running
        total, base plus the scores of the axes before k, gains the score of
        axis k. */
    method ScoreAxis(p: Player, x: Pos, k: int, ghost base: int, total0: int, evaluated0: set<(int, int, int, int)>)
      returns (total: int, evaluated: set<(int, int, int, int)>)
      requires board != null && board.Valid() && IsStone(board.cells, x, p) && 0 <= k < |DIRECTIONS|
      requires total0 == base + DirsScore(board.cells, p, x, k)
      requires evaluated0 == CountedSet(board.cells, p, Index(x), k)
      ensures total == base + DirsScore(board.cells, p, x, k + 1)
      ensures evaluated == CountedSet(board.cells, p, Index(x), k + 1)
    {
      ghost var g := board.cells;
      var (dr, dc) := DIRECTIONS[k];
      CountedSetAxis(g, p, x, k);
      assert DirsScore(g, p, x, k + 1) == DirsScore(g, p, x, k) + DirScore(g, p, x, k);
      if (x.0, x.1, dr, dc) in evaluated0 {
        return total0, evaluated0;
      }
      var score, cells := EvaluateLine(x.0, x.1, dr, dc, p);
      StartLine(g, x, (dr, dc), p);
      total := total0 + score;
      evaluated := MarkRun(cells, dr, dc, evaluated0);
    }

    /** The line of p through (row, col) along (dr, dc): its pattern score
        from its length and open ends, and its cells, (row, col) first, then
        forwards, then backwards. */
    method EvaluateLine(row: int, col: int, dr: int, dc: int, p: Player) returns (score: int, cells: seq<Pos>)
      requires board != null && board.Valid() && InRange((row, col)) && IsDir((dr, dc))
      ensures score == LineScore(board.cells, (row, col), (dr, dc), p)
      ensures cells == [(row, col)] + RunAfter(board.cells, (row, col), (dr, dc), p)
                       + RunAfter(board.cells, (row, col), Neg((dr, dc)), p)
    {
      ghost var g := board.cells;
      var forward, openF := Walk(row, col, dr, dc, p);
      var backward, openB := Walk(row, col, -dr, -dc, p);
      LineFromWalks(g, (row, col), (dr, dc), p, forward, openF, backward, openB);
      cells := [(row, col)] + forward + backward;
      score := PatternScore(1 + |forward| + |backward|, (if openF then 1 else 0) + (if openB then 1 else 0));
    }

    /** One of the two walks of EvaluateLine: the cells of p after
        (row, col) along (dr, dc), and whether the first cell past them is
        on the board and empty. */
    method Walk(row: int, col: int, dr: int, dc: int, p: Player) returns (ray: seq<Pos>, open: bool)
      requires board != null && board.Valid() && InRange((row, col)) && IsDir((dr, dc))
      ensures ray == RunAfter(board.cells, (row, col), (dr, dc), p)
      ensures open == IsOpen(board.cells, RunEnd(board.cells, (row, col), (dr, dc), p))
    {
      var b := board;
      ghost var g := b.cells;
      ghost var x, d := (row, col), (dr, dc);
      ray := [];
      var r, c := row + dr, col + dc;
      ghost var prev := x;
      while 0 <= r < BOARD_SIZE && 0 <= c < BOARD_SIZE && b.GetCell(r, c) == p
        invariant r == prev.0 + dr && c == prev.1 + dc && Walked(g, x, d, p, prev, ray)
        decreases Reach(prev, d)
      {
        WalkOn(g, x, d, p, prev, ray);
        ray := ray + [(r, c)];
        prev := (r, c);
        r, c := r + dr, c + dc;
      }
      WalkEnd(g, x, d, p, prev, ray);
      open := 0 <= r < BOARD_SIZE && 0 <= c < BOARD_SIZE && b.GetCell(r, c) == Empty;
    }
  }
}
