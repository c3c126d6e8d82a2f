/** The game tree the engine searches from a position: terminal positions
    and their scores, the candidate moves at every other node, and the move
    the engine answers a position with. */
module Game {
  import opened Consts
  import opened Options
  import opened Grids
  import opened Lines
  import opened MoveGen
  import opened Evaluation
  import opened GameTrees

  /** The player to move at a node: the engine when maximising. */
  function Mover(maxing: bool): (p: Player)
    ensures p == Ai <==> maxing
  {
    if maxing then Ai else Human
  }

  /** The candidates are on the board. */
  lemma CandidatesOnBoard(g: Grid)
    requires WellFormed(g)
    ensures forall i :: 0 <= i < |Candidates(g)| ==> IsValidMove(g, Candidates(g)[i])
  {
    CandidatesSpec(g);
    forall i | 0 <= i < |Candidates(g)|
      ensures IsValidMove(g, Candidates(g)[i])
    {
      assert Candidates(g)[i] in Candidates(g);
    }
  }

  /** The score of a position the search does not expand: a win for the
      engine through the last move, worth more the more plies were left; a
      win for the human, likewise; a full board; or the evaluator once no
      plies are left. None when the position is expanded. */
  ghost function Terminal(g: Grid, depth: nat, last: Pos): (r: Option<Score>)
    requires WellFormed(g) && InRange(last)
    ensures Winner(g, last) == Some(Ai) ==> r == Some(Fin((SCORE_FIVE + depth) as real))
    ensures Winner(g, last) == Some(Human) ==> r == Some(Fin((-SCORE_FIVE - depth) as real))
    ensures Winner(g, last).None? && |Occupied(g)| >= BOARD_SIZE * BOARD_SIZE ==> r == Some(Fin(0.0))
    ensures Winner(g, last).None? && |Occupied(g)| < BOARD_SIZE * BOARD_SIZE && depth == 0 ==>
              r == Some(Fin(Evaluate(g)))
    ensures r.None? <==> Winner(g, last).None? && |Occupied(g)| < BOARD_SIZE * BOARD_SIZE && depth > 0
  {
    var w := Winner(g, last);
    if w == Some(Ai) then Some(Fin((SCORE_FIVE + depth) as real))
    else if w == Some(Human) then Some(Fin((-SCORE_FIVE - depth) as real))
    else if |Occupied(g)| >= BOARD_SIZE * BOARD_SIZE then Some(Fin(0.0))
    else if depth == 0 then Some(Fin(Evaluate(g)))
    else None
  }

  /** The tree searched from g, reached by `last`, with `depth` plies left
      and the engine to move when `maxing`: a leaf at a terminal position,
      else a node whose children are the candidates played in order. */
  ghost function GameTree(g: Grid, depth: nat, maxing: bool, last: Pos): Tree
    requires WellFormed(g) && InRange(last)
    decreases depth, 1
  {
    match Terminal(g, depth, last)
    case Some(v) => Leaf(v)
    case None =>
      CandidatesOnBoard(g);
      Node(maxing, Children(g, Candidates(g), depth, maxing))
  }

  /** The trees after the mover plays each of cs in turn, one ply
      shallower. */
  ghost function Children(g: Grid, cs: seq<Pos>, depth: nat, maxing: bool): (ts: seq<Tree>)
    requires WellFormed(g) && depth >= 1 && forall i :: 0 <= i < |cs| ==> IsValidMove(g, cs[i])
    decreases depth, 0, |cs|
  {
    if cs == [] then []
    else
      assert IsValidMove(g, cs[0]);
      [GameTree(Place(g, cs[0], Mover(maxing)), depth - 1, !maxing, cs[0])] + Children(g, cs[1..], depth, maxing)
  }

  /** The i-th child tree is the tree after the mover plays cs[i]. */
  lemma {:induction false} ChildrenAt(g: Grid, cs: seq<Pos>, depth: nat, maxing: bool)
    requires WellFormed(g) && depth >= 1 && forall i :: 0 <= i < |cs| ==> IsValidMove(g, cs[i])
    ensures |Children(g, cs, depth, maxing)| == |cs|
    ensures forall i :: 0 <= i < |cs| ==>
              Children(g, cs, depth, maxing)[i] == GameTree(Place(g, cs[i], Mover(maxing)), depth - 1, !maxing, cs[i])
    decreases |cs|
  {
    if cs != [] {
      ChildrenAt(g, cs[1..], depth, maxing);
    }
  }

  /** At a position the search expands, the tree is a node of the mover
      whose children follow the candidates, each played by the mover. */
  lemma GameTreeNode(g: Grid, depth: nat, maxing: bool, last: Pos)
    requires WellFormed(g) && InRange(last) && Terminal(g, depth, last).None?
    ensures var t := GameTree(g, depth, maxing, last);
            var cs := Candidates(g);
            && t.Node? && t.maxing == maxing && |t.kids| == |cs| && depth >= 1
            && forall i :: 0 <= i < |cs| ==>
                 && IsValidMove(g, cs[i])
                 && t.kids[i] == GameTree(Place(g, cs[i], Mover(maxing)), depth - 1, !maxing, cs[i])
  {
    CandidatesOnBoard(g);
    ChildrenAt(g, Candidates(g), depth, maxing);
  }

  /** At a position the search does not expand, the tree is a leaf holding
      the terminal score, whatever the window. */
  lemma GameTreeLeaf(g: Grid, depth: nat, maxing: bool, last: Pos, alpha: Score, beta: Score)
    requires WellFormed(g) && InRange(last) && Terminal(g, depth, last).Some?
    ensures AlphaBeta(GameTree(g, depth, maxing, last), alpha, beta) == Terminal(g, depth, last).value
  {
  }

  /** The minimax value of a position. */
  ghost function Minimax(g: Grid, depth: nat, maxing: bool, last: Pos): Score
    requires WellFormed(g) && InRange(last)
  {
    Value(GameTree(g, depth, maxing, last))
  }

  /** The engine's search of a position with window (alpha, beta) yields its
      minimax value whenever that value lies strictly inside the window. */
  lemma SearchExact(g: Grid, depth: nat, maxing: bool, alpha: Score, beta: Score, last: Pos)
    requires WellFormed(g) && InRange(last)
    requires Lt(alpha, Minimax(g, depth, maxing, last)) && Lt(Minimax(g, depth, maxing, last), beta)
    ensures AlphaBeta(GameTree(g, depth, maxing, last), alpha, beta) == Minimax(g, depth, maxing, last)
  {
    AlphaBetaExact(GameTree(g, depth, maxing, last), alpha, beta);
  }

  /** Playing c wins at once for the engine. */
  ghost predicate WinsAt(g: Grid, c: Pos)
    requires WellFormed(g) && InRange(c)
  {
    Winner(Place(g, c, Ai), c) == Some(Ai)
  }

  /** The tree of the human's replies after the engine plays c at the root. */
  ghost function ReplyTree(g: Grid, c: Pos, depth: nat): Tree
    requires WellFormed(g) && InRange(c) && depth >= 1
  {
    GameTree(Place(g, c, Ai), depth - 1, false, c)
  }

  ghost function RootWins(g: Grid, cs: seq<Pos>): (ws: seq<bool>)
    requires WellFormed(g) && forall i :: 0 <= i < |cs| ==> InRange(cs[i])
    ensures |ws| == |cs| && forall i :: 0 <= i < |cs| ==> ws[i] == WinsAt(g, cs[i])
  {
    seq(|cs|, i requires 0 <= i < |cs| => WinsAt(g, cs[i]))
  }

  /** The trees of the engine's moves cs at the root, the human to reply. */
  ghost function RootTrees(g: Grid, cs: seq<Pos>, depth: nat): (ts: seq<Tree>)
    requires WellFormed(g) && depth >= 1 && forall i :: 0 <= i < |cs| ==> InRange(cs[i])
    ensures |ts| == |cs|
    ensures forall i :: 0 <= i < |cs| ==> ts[i] == GameTree(Place(g, cs[i], Ai), depth - 1, false, cs[i])
  {
    seq(|cs|, i requires 0 <= i < |cs| => GameTree(Place(g, cs[i], Ai), depth - 1, false, cs[i]))
  }

  /** The minimax value of the engine's move c at the root. */
  ghost function ChildValue(g: Grid, c: Pos, depth: nat): Score
    requires WellFormed(g) && InRange(c) && depth >= 1
  {
    Minimax(Place(g, c, Ai), depth - 1, false, c)
  }

  /** The minimax values of the engine's moves cs at the root. */
  ghost function RootValues(g: Grid, cs: seq<Pos>, depth: nat): (vs: seq<Score>)
    requires WellFormed(g) && depth >= 1 && forall i :: 0 <= i < |cs| ==> InRange(cs[i])
    ensures |vs| == |cs| && forall i :: 0 <= i < |cs| ==> vs[i] == ChildValue(g, cs[i], depth)
  {
    Values(RootTrees(g, cs, depth))
  }

  /** The move the engine answers position g with, searching `depth` plies:
      the centre on an empty board, the reply next to a lone stone, and
      otherwise the root choice over the candidates on minimax values. */
  ghost function BestMove(g: Grid, depth: nat): Option<Pos>
    requires WellFormed(g) && depth >= 1
  {
    if |Occupied(g)| == 0 then Some((CENTRE, CENTRE))
    else if |Occupied(g)| == 1 then
      var s :| s in Occupied(g);
      Some(AdjacentReply(g, s))
    else
      CandidatesOnBoard(g);
      var cs := Candidates(g);
      match RootChoice(RootWins(g, cs), RootValues(g, cs, depth), 0, NegInf, None)
      case None => None
      case Some(k) => Some(cs[k])
  }

  /** r is the root choice over the candidates cs: the first that wins at
      once when there is one; otherwise the first of highest minimax value,
      or none when every candidate is valued minus infinity. */
  ghost predicate RootChoiceSpec(g: Grid, cs: seq<Pos>, depth: nat, r: Option<Pos>)
    requires WellFormed(g) && depth >= 1 && forall i :: 0 <= i < |cs| ==> InRange(cs[i])
  {
    var ws := RootWins(g, cs);
    var vs := RootValues(g, cs, depth);
    if exists i :: 0 <= i < |cs| && ws[i] then
      exists i :: 0 <= i < |cs| && ws[i] && r == Some(cs[i]) && forall j :: 0 <= j < i ==> !ws[j]
    else
      || (r == None && forall j :: 0 <= j < |cs| ==> vs[j] == NegInf)
      || (exists k :: && 0 <= k < |cs| && r == Some(cs[k]) && vs[k] != NegInf
                      && (forall j :: 0 <= j < |cs| ==> Le(vs[j], vs[k]))
                      && (forall j :: 0 <= j < k ==> Lt(vs[j], vs[k])))
  }

  lemma RootChoiceMeets(g: Grid, cs: seq<Pos>, depth: nat)
    requires WellFormed(g) && depth >= 1 && forall i :: 0 <= i < |cs| ==> InRange(cs[i])
    ensures var r := RootChoice(RootWins(g, cs), RootValues(g, cs, depth), 0, NegInf, None);
            RootChoiceSpec(g, cs, depth, if r.Some? then Some(cs[r.value]) else None)
  {
    var ws := RootWins(g, cs);
    var vs := RootValues(g, cs, depth);
    if exists i :: 0 <= i < |cs| && ws[i] {
      var i := FirstWin(ws);
      FirstWinChosen(ws, vs, 0, NegInf, None, i);
    } else {
      ChoiceIsFirstBest(ws, vs, 0, NegInf, None);
    }
  }

  /** The index of the first true entry of ws. */
  lemma FirstWin(ws: seq<bool>) returns (i: nat)
    requires exists i :: 0 <= i < |ws| && ws[i]
    ensures i < |ws| && ws[i]
    ensures forall j :: 0 <= j < i ==> !ws[j]
  {
    i := 0;
    while !ws[i]
      invariant i < |ws|
      invariant forall j :: 0 <= j < i ==> !ws[j]
      invariant exists k :: i <= k < |ws| && ws[k]
      decreases |ws| - i
    {
      i := i + 1;
    }
  }

  /** Whatever move the engine returns is a valid move, and with two or
      more stones on the board it is the root choice over the candidates. */
  lemma BestMoveSpec(g: Grid, depth: nat)
    requires WellFormed(g) && depth >= 1
    ensures BestMove(g, depth).Some? ==> IsValidMove(g, BestMove(g, depth).value)
    ensures |Occupied(g)| >= 2 ==> (CandidatesOnBoard(g); RootChoiceSpec(g, Candidates(g), depth, BestMove(g, depth)))
  {
    if |Occupied(g)| == 0 {
      assert (CENTRE, CENTRE) !in Occupied(g);
    } else if |Occupied(g)| == 1 {
      var s :| s in Occupied(g);
      assert Occupied(g) == {s} by {
        var rest := Occupied(g) - {s};
        assert |rest| == 0;
        assert forall q :: q in Occupied(g) ==> q == s || q in rest;
      }
      SingleStoneReplyAdjacent(g, s);
    } else {
      CandidatesOnBoard(g);
      RootChoiceMeets(g, Candidates(g), depth);
    }
  }
}
