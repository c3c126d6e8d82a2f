/** Game-tree search in the abstract: scores extended with the two
    infinities, game trees, their plain minimax value, the fail-soft
    alpha-beta value with the engine's pruning rule, and the root choice.
    The alpha-beta value is proved to bound the minimax value, and the
    pruned root loop to pick the move the minimax values pick. */
module GameTrees {
  import opened Options

  /** A search score: a real, or one of the two infinities the search starts
      its bounds from. */
  datatype Score = NegInf | Fin(v: real) | PosInf

  predicate Le(a: Score, b: Score) {
    a.NegInf? || b.PosInf? || (a.Fin? && b.Fin? && a.v <= b.v)
  }

  predicate Lt(a: Score, b: Score) {
    !Le(b, a)
  }

  /** The larger of a and b; a when neither is larger. */
  function Max(a: Score, b: Score): (m: Score)
    ensures Le(a, m) && Le(b, m) && (m == a || m == b)
  {
    if Lt(a, b) then b else a
  }

  /** The smaller of a and b; a when neither is smaller. */
  function Min(a: Score, b: Score): (m: Score)
    ensures Le(m, a) && Le(m, b) && (m == a || m == b)
  {
    if Lt(b, a) then b else a
  }

  /** A game tree: a scored leaf, or a node where the engine (maxing) or
      its opponent picks one of the children, in the order they are
      searched. */
  datatype Tree = Leaf(value: Score) | Node(maxing: bool, kids: seq<Tree>)

  /** The plain minimax value of a tree. */
  function Value(t: Tree): Score
    decreases t, 1
  {
    match t
    case Leaf(v) => v
    case Node(maxing, kids) =>
      if maxing then MaxValue(t, 0) else MinValue(t, 0)
  }

  /** The best value for the engine among the children of t from the i-th on. */
  function MaxValue(t: Tree, i: nat): Score
    requires t.Node? && i <= |t.kids|
    decreases t, 0, |t.kids| - i
  {
    if i == |t.kids| then NegInf else Max(Value(t.kids[i]), MaxValue(t, i + 1))
  }

  /** The best value for the opponent among the children of t from the i-th on. */
  function MinValue(t: Tree, i: nat): Score
    requires t.Node? && i <= |t.kids|
    decreases t, 0, |t.kids| - i
  {
    if i == |t.kids| then PosInf else Min(Value(t.kids[i]), MinValue(t, i + 1))
  }

  /** The value the engine's search returns for t with window (alpha, beta). */
  function AlphaBeta(t: Tree, alpha: Score, beta: Score): Score
    decreases t, 1
  {
    match t
    case Leaf(v) => v
    case Node(maxing, kids) =>
      if maxing then MaxLoop(t, 0, alpha, beta, NegInf) else MinLoop(t, 0, alpha, beta, PosInf)
  }

  /** The maximising loop from the i-th child on, with the running best and
      alpha; it stops as soon as beta <= alpha. */
  function MaxLoop(t: Tree, i: nat, alpha: Score, beta: Score, best: Score): Score
    requires t.Node? && i <= |t.kids|
    decreases t, 0, |t.kids| - i
  {
    if i == |t.kids| then best
    else
      var s := AlphaBeta(t.kids[i], alpha, beta);
      var alpha' := Max(alpha, s);
      if Le(beta, alpha') then Max(best, s)
      else MaxLoop(t, i + 1, alpha', beta, Max(best, s))
  }

  /** The minimising loop from the i-th child on, with the running best and
      beta; it stops as soon as beta <= alpha. */
  function MinLoop(t: Tree, i: nat, alpha: Score, beta: Score, best: Score): Score
    requires t.Node? && i <= |t.kids|
    decreases t, 0, |t.kids| - i
  {
    if i == |t.kids| then best
    else
      var s := AlphaBeta(t.kids[i], alpha, beta);
      var beta' := Min(beta, s);
      if Le(beta', alpha) then Min(best, s)
      else MinLoop(t, i + 1, alpha, beta', Min(best, s))
  }

  /** r is a fail-soft alpha-beta value for the true value v under the
      window (alpha, beta): an upper bound of v when r <= alpha, v itself
      strictly inside the window, a lower bound of v when r >= beta. */
  predicate FailSoft(alpha: Score, beta: Score, r: Score, v: Score) {
    && (Le(r, alpha) ==> Le(v, r))
    && (Lt(alpha, r) && Lt(r, beta) ==> v == r)
    && (Le(beta, r) ==> Le(r, v))
  }

  /** The search value is a fail-soft bound of the minimax value for every
      non-empty window. */
  lemma {:induction false} AlphaBetaBounds(t: Tree, alpha: Score, beta: Score)
    requires Lt(alpha, beta)
    ensures FailSoft(alpha, beta, AlphaBeta(t, alpha, beta), Value(t))
    decreases t, 1
  {
    match t
    case Leaf(v) =>
    case Node(maxing, kids) =>
      if maxing {
        MaxLoopBounds(t, 0, alpha, beta, NegInf);
      } else {
        MinLoopBounds(t, 0, alpha, beta, PosInf);
      }
  }

  lemma {:induction false} MaxLoopBounds(t: Tree, i: nat, alpha: Score, beta: Score, m: Score)
    requires t.Node? && i <= |t.kids| && Lt(alpha, beta) && Le(m, alpha)
    ensures Le(m, MaxLoop(t, i, alpha, beta, m))
    ensures FailSoft(alpha, beta, MaxLoop(t, i, alpha, beta, m), Max(m, MaxValue(t, i)))
    decreases t, 0, |t.kids| - i
  {
    if i < |t.kids| {
      AlphaBetaBounds(t.kids[i], alpha, beta);
      var s := AlphaBeta(t.kids[i], alpha, beta);
      if !Le(beta, Max(alpha, s)) {
        MaxLoopBounds(t, i + 1, Max(alpha, s), beta, Max(m, s));
      }
    }
  }

  lemma {:induction false} MinLoopBounds(t: Tree, i: nat, alpha: Score, beta: Score, m: Score)
    requires t.Node? && i <= |t.kids| && Lt(alpha, beta) && Le(beta, m)
    ensures Le(MinLoop(t, i, alpha, beta, m), m)
    ensures FailSoft(alpha, beta, MinLoop(t, i, alpha, beta, m), Min(m, MinValue(t, i)))
    decreases t, 0, |t.kids| - i
  {
    if i < |t.kids| {
      AlphaBetaBounds(t.kids[i], alpha, beta);
      var s := AlphaBeta(t.kids[i], alpha, beta);
      if !Le(Min(beta, s), alpha) {
        MinLoopBounds(t, i + 1, alpha, Min(beta, s), Min(m, s));
      }
    }
  }

  /** Pruning never changes a value that lies strictly inside the window. */
  lemma AlphaBetaExact(t: Tree, alpha: Score, beta: Score)
    requires Lt(alpha, Value(t)) && Lt(Value(t), beta)
    ensures AlphaBeta(t, alpha, beta) == Value(t)
  {
    AlphaBetaBounds(t, alpha, beta);
  }

  /** With the full window the search value is the minimax value. */
  lemma AlphaBetaFullWindow(t: Tree)
    ensures AlphaBeta(t, NegInf, PosInf) == Value(t)
  {
    AlphaBetaBounds(t, NegInf, PosInf);
  }

  /** The root loop from the i-th move on: a move that wins at once is
      returned at once; otherwise each move's tree is searched with window
      (alpha, +inf) and replaces the best so far only when it scores
      strictly higher. The result is the index of the chosen move. */
  function RootSearch(wins: seq<bool>, ts: seq<Tree>, i: nat, alpha: Score, best: Score, bestIdx: Option<nat>): Option<nat>
    requires |wins| == |ts| && i <= |ts|
    decreases |ts| - i
  {
    if i == |ts| then bestIdx
    else if wins[i] then Some(i)
    else
      var s := AlphaBeta(ts[i], alpha, PosInf);
      if Lt(best, s) then RootSearch(wins, ts, i + 1, Max(alpha, s), s, Some(i))
      else RootSearch(wins, ts, i + 1, Max(alpha, s), best, bestIdx)
  }

  /** The same choice made on minimax values vs: the first immediate win,
      or else the first move whose value is strictly higher than `best` and
      than every move before it. */
  function RootChoice(wins: seq<bool>, vs: seq<Score>, i: nat, best: Score, bestIdx: Option<nat>): (r: Option<nat>)
    requires |wins| == |vs| && i <= |vs|
    ensures r == bestIdx || (r.Some? && i <= r.value < |vs|)
    decreases |vs| - i
  {
    if i == |vs| then bestIdx
    else if wins[i] then Some(i)
    else if Lt(best, vs[i]) then RootChoice(wins, vs, i + 1, vs[i], Some(i))
    else RootChoice(wins, vs, i + 1, best, bestIdx)
  }

  /** The minimax values of a list of trees. */
  function Values(ts: seq<Tree>): (vs: seq<Score>)
    ensures |vs| == |ts| && forall k :: 0 <= k < |ts| ==> vs[k] == Value(ts[k])
  {
    seq(|ts|, k requires 0 <= k < |ts| => Value(ts[k]))
  }

  /** With alpha kept equal to the best score, the pruned root loop picks
      the same move as the choice on minimax values. */
  lemma {:induction false} RootSearchIsChoice(wins: seq<bool>, ts: seq<Tree>, i: nat, b: Score, bi: Option<nat>)
    requires |wins| == |ts| && i <= |ts|
    ensures RootSearch(wins, ts, i, b, b, bi) == RootChoice(wins, Values(ts), i, b, bi)
    decreases |ts| - i
  {
    if i < |ts| && !wins[i] {
      var s := AlphaBeta(ts[i], b, PosInf);
      var v := Value(ts[i]);
      if Lt(b, PosInf) {
        AlphaBetaBounds(ts[i], b, PosInf);
      }
      if Lt(b, s) {
        assert s == v;
        RootSearchIsChoice(wins, ts, i + 1, s, Some(i));
      } else {
        assert !Lt(b, v);
        RootSearchIsChoice(wins, ts, i + 1, b, bi);
      }
    }
  }

  /** The first move from i on that wins at once is the one chosen. */
  lemma {:induction false} FirstWinChosen(wins: seq<bool>, vs: seq<Score>, i: nat, b: Score, bi: Option<nat>, k: nat)
    requires |wins| == |vs| && i <= k < |vs| && wins[k]
    requires forall j :: i <= j < k ==> !wins[j]
    ensures RootChoice(wins, vs, i, b, bi) == Some(k)
    decreases |vs| - i
  {
    if i < k {
      if Lt(b, vs[i]) {
        FirstWinChosen(wins, vs, i + 1, vs[i], Some(i), k);
      } else {
        FirstWinChosen(wins, vs, i + 1, b, bi, k);
      }
    }
  }

  /** Without an immediate win from i on, the choice is either the previous
      one, when no move beats `best`, or the first move of highest value,
      which then beats `best`. */
  predicate FirstBest(vs: seq<Score>, i: nat, b: Score, bi: Option<nat>, r: Option<nat>)
    requires i <= |vs|
  {
    || (r == bi && forall j :: i <= j < |vs| ==> Le(vs[j], b))
    || (exists k :: && i <= k < |vs| && r == Some(k) && Lt(b, vs[k])
                    && (forall j :: i <= j < |vs| ==> Le(vs[j], vs[k]))
                    && (forall j :: i <= j < k ==> Lt(vs[j], vs[k])))
  }

  lemma {:induction false} ChoiceIsFirstBest(wins: seq<bool>, vs: seq<Score>, i: nat, b: Score, bi: Option<nat>)
    requires |wins| == |vs| && i <= |vs|
    requires forall j :: i <= j < |vs| ==> !wins[j]
    ensures FirstBest(vs, i, b, bi, RootChoice(wins, vs, i, b, bi))
    decreases |vs| - i
  {
    if i < |vs| {
      var v := vs[i];
      if Lt(b, v) {
        ChoiceIsFirstBest(wins, vs, i + 1, v, Some(i));
        var r := RootChoice(wins, vs, i + 1, v, Some(i));
        if r == Some(i) && forall j :: i + 1 <= j < |vs| ==> Le(vs[j], v) {
          BestAt(vs, i, b, bi, i);
        } else {
          var k :| && i + 1 <= k < |vs| && r == Some(k) && Lt(v, vs[k])
                   && (forall j :: i + 1 <= j < |vs| ==> Le(vs[j], vs[k]))
                   && (forall j :: i + 1 <= j < k ==> Lt(vs[j], vs[k]));
          LtTrans(b, v, vs[k]);
          BestAt(vs, i, b, bi, k);
        }
      } else {
        ChoiceIsFirstBest(wins, vs, i + 1, b, bi);
        var r := RootChoice(wins, vs, i + 1, b, bi);
        if r == bi && forall j :: i + 1 <= j < |vs| ==> Le(vs[j], b) {
          assert forall j :: i <= j < |vs| ==> Le(vs[j], b);
        } else {
          var k :| && i + 1 <= k < |vs| && r == Some(k) && Lt(b, vs[k])
                   && (forall j :: i + 1 <= j < |vs| ==> Le(vs[j], vs[k]))
                   && (forall j :: i + 1 <= j < k ==> Lt(vs[j], vs[k]));
          LtTrans(v, b, vs[k]);
          BestAt(vs, i, b, bi, k);
        }
      }
    }
  }

  /** Scores are totally ordered: a below b below c puts a strictly below c
      when either step is strict. */
  lemma LtTrans(a: Score, b: Score, c: Score)
    requires Le(a, b) && Lt(b, c)
    ensures Lt(a, c) && Le(a, c)
  {
  }

  /** k is a witness of FirstBest at i, given that vs[i] is below vs[k] or
      is vs[k] itself and k is the first best from i + 1 on. */
  lemma BestAt(vs: seq<Score>, i: nat, b: Score, bi: Option<nat>, k: nat)
    requires i <= k < |vs| && Lt(b, vs[k])
    requires i == k || Lt(vs[i], vs[k])
    requires forall j :: i + 1 <= j < |vs| ==> Le(vs[j], vs[k])
    requires forall j :: i + 1 <= j < k ==> Lt(vs[j], vs[k])
    ensures FirstBest(vs, i, b, bi, Some(k))
  {
    assert Le(vs[i], vs[k]);
  }
}
