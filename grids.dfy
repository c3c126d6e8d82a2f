/** The board as a value: a square grid of cells, the positions on it and the
    set of occupied positions. The mutable board in Boards keeps one of these
    as its abstract state; the search and the evaluator are specified on it. */
module Grids {
  import opened Consts

  /** A (row, column) coordinate, not necessarily on the board. */
  type Pos = (int, int)

  /** Rows of cells; well-formed grids are BOARD_SIZE by BOARD_SIZE. */
  type Grid = seq<seq<Cell>>

  predicate InRange(p: Pos) {
    0 <= p.0 < BOARD_SIZE && 0 <= p.1 < BOARD_SIZE
  }

  predicate WellFormed(g: Grid) {
    |g| == BOARD_SIZE && forall r :: 0 <= r < |g| ==> |g[r]| == BOARD_SIZE
  }

  function At(g: Grid, p: Pos): Cell
    requires WellFormed(g) && InRange(p)
  {
    g[p.0][p.1]
  }

  /** A move may go to p exactly when p is on the board and empty; a position
      off the board is rejected, never an error. */
  predicate IsValidMove(g: Grid, p: Pos)
    requires WellFormed(g)
  {
    InRange(p) && At(g, p) == Empty
  }

  /** The grid with the cell at p replaced by c. */
  function Place(g: Grid, p: Pos, c: Cell): (h: Grid)
    requires WellFormed(g) && InRange(p)
    ensures WellFormed(h)
    ensures At(h, p) == c
    ensures forall q :: InRange(q) && q != p ==> At(h, q) == At(g, q)
  {
    g[p.0 := g[p.0][p.1 := c]]
  }

  /** The grid of a new (or reset) board. */
  function EmptyGrid(): (g: Grid)
    ensures WellFormed(g)
    ensures forall q :: InRange(q) ==> At(g, q) == Empty
  {
    seq(BOARD_SIZE, _ => seq(BOARD_SIZE, _ => Empty))
  }

  /** The positions that hold a stone. */
  ghost function Occupied(g: Grid): (s: set<Pos>)
    requires WellFormed(g)
    ensures forall q :: q in s <==> InRange(q) && At(g, q) != Empty
  {
    set r, c | 0 <= r < BOARD_SIZE && 0 <= c < BOARD_SIZE && g[r][c] != Empty :: (r, c)
  }

  /** Two well-formed grids that agree on every cell are equal. */
  lemma {:induction false} GridExt(g: Grid, h: Grid)
    requires WellFormed(g) && WellFormed(h)
    requires forall q :: InRange(q) ==> At(g, q) == At(h, q)
    ensures g == h
  {
    forall r | 0 <= r < BOARD_SIZE
      ensures g[r] == h[r]
    {
      forall c | 0 <= c < BOARD_SIZE
        ensures g[r][c] == h[r][c]
      {
        assert At(g, (r, c)) == At(h, (r, c));
      }
    }
  }

  /** Putting a stone on an empty cell adds exactly that cell to the
      occupied set, which did not hold it before. */
  lemma PlaceStone(g: Grid, p: Pos, c: Cell)
    requires WellFormed(g) && IsValidMove(g, p) && c != Empty
    ensures p !in Occupied(g)
    ensures Occupied(Place(g, p, c)) == Occupied(g) + {p}
    ensures |Occupied(Place(g, p, c))| == |Occupied(g)| + 1
  {
    assert Occupied(Place(g, p, c)) == Occupied(g) + {p};
  }

  /** Emptying an occupied cell removes exactly that cell from the occupied
      set. */
  lemma ClearStone(g: Grid, p: Pos)
    requires WellFormed(g) && InRange(p) && At(g, p) != Empty
    ensures p in Occupied(g)
    ensures Occupied(Place(g, p, Empty)) == Occupied(g) - {p}
    ensures |Occupied(Place(g, p, Empty))| == |Occupied(g)| - 1
  {
    assert Occupied(Place(g, p, Empty)) == Occupied(g) - {p};
  }

  /** Placing a stone on an empty cell and then emptying that cell gives back
      the grid and the occupied set one started from. */
  lemma {:induction false} UndoRestores(g: Grid, p: Pos, c: Cell)
    requires WellFormed(g) && IsValidMove(g, p)
    ensures Place(Place(g, p, c), p, Empty) == g
    ensures Occupied(Place(Place(g, p, c), p, Empty)) == Occupied(g)
  {
    GridExt(Place(Place(g, p, c), p, Empty), g);
  }

  lemma EmptyGridUnoccupied()
    ensures Occupied(EmptyGrid()) == {}
  {
    var s := Occupied(EmptyGrid());
    assert forall q :: q !in s;
  }
}
