/** Which moves the search considers, as values: the empty cells near a stone,
    ordered by distance to the centre, and the reply to a single opening
    stone. The engine's generator loops are proved against these. */
module MoveGen {
  import opened Consts
  import opened Options
  import opened Grids

  function Abs(x: int): nat {
    if x < 0 then -x else x
  }

  /** Manhattan distance from p to the centre cell: the sort key. */
  function CentreDistance(p: Pos): nat {
    Abs(p.0 - CENTRE) + Abs(p.1 - CENTRE)
  }

  /** q differs from p by at most NEIGHBOR_RADIUS in each coordinate. */
  predicate Near(p: Pos, q: Pos) {
    && q != p
    && -NEIGHBOR_RADIUS <= q.0 - p.0 <= NEIGHBOR_RADIUS
    && -NEIGHBOR_RADIUS <= q.1 - p.1 <= NEIGHBOR_RADIUS
  }

  ghost predicate NearSome(stones: set<Pos>, q: Pos) {
    exists p :: p in stones && Near(p, q)
  }

  /** The candidate moves of a position: every empty on-board cell within
      Chebyshev distance NEIGHBOR_RADIUS of some stone. */
  ghost function CandidateSet(g: Grid): (s: set<Pos>)
    requires WellFormed(g)
    ensures forall q :: q in s <==> IsValidMove(g, q) && NearSome(Occupied(g), q)
  {
    set r, c | 0 <= r < BOARD_SIZE && 0 <= c < BOARD_SIZE && g[r][c] == Empty
                 && NearSome(Occupied(g), (r, c)) :: (r, c)
  }

  /** Row-major number of a cell. */
  function Index(p: Pos): int {
    p.0 * BOARD_SIZE + p.1
  }

  function CellOf(i: int): Pos {
    (i / BOARD_SIZE, i % BOARD_SIZE)
  }

  lemma IndexBijection(p: Pos, i: int)
    ensures InRange(p) ==> 0 <= Index(p) < BOARD_SIZE * BOARD_SIZE && CellOf(Index(p)) == p
    ensures 0 <= i < BOARD_SIZE * BOARD_SIZE ==> InRange(CellOf(i)) && Index(CellOf(i)) == i
  {
  }

  /** Position in the order candidates are listed: by centre distance, then
      row-major. */
  function Rank(p: Pos): int {
    CentreDistance(p) * (BOARD_SIZE * BOARD_SIZE) + Index(p)
  }

  ghost predicate Increasing(xs: seq<Pos>) {
    forall i, j :: 0 <= i < j < |xs| ==> Rank(xs[i]) < Rank(xs[j])
  }

  lemma IncreasingConcat(a: seq<Pos>, b: seq<Pos>)
    requires Increasing(a) && Increasing(b)
    requires forall x, y :: x in a && y in b ==> Rank(x) < Rank(y)
    ensures Increasing(a + b)
  {
    forall i, j | 0 <= i < j < |a + b|
      ensures Rank((a + b)[i]) < Rank((a + b)[j])
    {
      if j >= |a| && i < |a| {
        assert (a + b)[i] in a && (a + b)[j] in b;
      }
    }
  }

  /** The members of s at centre distance k with row-major number at least
      i, in row-major order. */
  function Ring(s: set<Pos>, k: int, i: int): (xs: seq<Pos>)
    requires 0 <= i <= BOARD_SIZE * BOARD_SIZE
    ensures forall p :: p in xs <==> p in s && InRange(p) && CentreDistance(p) == k && Index(p) >= i
    ensures Increasing(xs)
    decreases BOARD_SIZE * BOARD_SIZE - i
  {
    if i == BOARD_SIZE * BOARD_SIZE then []
    else
      var p := CellOf(i);
      IndexBijection(p, i);
      var rest := Ring(s, k, i + 1);
      assert forall q :: InRange(q) && Index(q) == i ==> q == p by {
        forall q | InRange(q) && Index(q) == i ensures q == p {
          IndexBijection(q, i);
        }
      }
      var head := if p in s && CentreDistance(p) == k then [p] else [];
      IncreasingConcat(head, rest);
      head + rest
  }

  /** The members of s at centre distance k or more, nearest layer first. */
  function Layers(s: set<Pos>, k: nat): (xs: seq<Pos>)
    ensures forall p :: p in xs <==> p in s && InRange(p) && CentreDistance(p) >= k
    ensures Increasing(xs)
    decreases 2 * CENTRE + 1 - k
  {
    if k > 2 * CENTRE then []
    else
      var ring := Ring(s, k, 0);
      var rest := Layers(s, k + 1);
      forall x, y | x in ring && y in rest
        ensures Rank(x) < Rank(y)
      {
        IndexBijection(x, 0);
      }
      IncreasingConcat(ring, rest);
      ring + rest
  }

  /** The on-board members of s listed once each, by non-decreasing
      distance to the centre. Equal distances are listed in row-major order,
      a fixed choice where the engine's own order is that of set
      iteration. */
  function SortedByCentre(s: set<Pos>): (xs: seq<Pos>)
    ensures forall p :: p in xs <==> p in s && InRange(p)
    ensures Increasing(xs)
  {
    Layers(s, 0)
  }

  /** A strictly rank-increasing list lists each member once, in
      non-decreasing distance to the centre. */
  lemma IncreasingSorted(xs: seq<Pos>)
    requires Increasing(xs) && forall i :: 0 <= i < |xs| ==> InRange(xs[i])
    ensures forall i, j :: 0 <= i < j < |xs| ==> xs[i] != xs[j]
    ensures forall i, j :: 0 <= i < j < |xs| ==> CentreDistance(xs[i]) <= CentreDistance(xs[j])
  {
    forall i, j | 0 <= i < j < |xs|
      ensures CentreDistance(xs[i]) <= CentreDistance(xs[j])
    {
      IndexBijection(xs[i], 0);
      IndexBijection(xs[j], 0);
    }
  }

  lemma HeadMember(a: seq<Pos>)
    ensures a != [] ==> a[0] in a
  {
  }

  lemma HeadLeast(a: seq<Pos>, p: Pos)
    ensures Increasing(a) && p in a && p != a[0] ==> Rank(a[0]) < Rank(p)
  {
    if Increasing(a) && p in a && p != a[0] {
      var k :| 0 <= k < |a| && a[k] == p;
    }
  }

  /** A set has only one strictly rank-increasing listing. */
  lemma {:induction false} IncreasingUnique(a: seq<Pos>, b: seq<Pos>)
    requires Increasing(a) && Increasing(b)
    requires forall p :: p in a <==> p in b
    ensures a == b
    decreases |a|
  {
    if a != [] && b != [] {
      if a[0] != b[0] {
        HeadMember(a);
        HeadMember(b);
        HeadLeast(a, b[0]);
        HeadLeast(b, a[0]);
        assert false;
      }
      forall p
        ensures p in a[1..] <==> p in b[1..]
      {
        if p in a[1..] {
          var k :| 0 <= k < |a| - 1 && a[1..][k] == p;
          assert p != a[0] by { assert Rank(a[0]) < Rank(a[k + 1]); }
          assert a[k + 1] == p && p in a;
          assert p in b;
          var m :| 0 <= m < |b| && b[m] == p;
          assert b[1..][m - 1] == p;
        }
        if p in b[1..] {
          var k :| 0 <= k < |b| - 1 && b[1..][k] == p;
          assert p != b[0] by { assert Rank(b[0]) < Rank(b[k + 1]); }
          assert b[k + 1] == p && p in b;
          assert p in a;
          var m :| 0 <= m < |a| && a[m] == p;
          assert a[1..][m - 1] == p;
        }
      }
      IncreasingUnique(a[1..], b[1..]);
      assert a == [a[0]] + a[1..];
      assert b == [b[0]] + b[1..];
    } else if a != [] {
      HeadMember(a);
      assert false;
    } else if b != [] {
      HeadMember(b);
      assert false;
    }
  }

  /** l is the candidate list of g: the candidates in strictly increasing
      rank. */
  ghost predicate IsCandidateList(g: Grid, l: seq<Pos>)
    requires WellFormed(g)
  {
    (forall q :: q in l <==> q in CandidateSet(g)) && Increasing(l)
  }

  /** The candidate list the search iterates over: the candidate set sorted
      by distance to the centre, ties in row-major order. */
  ghost function Candidates(g: Grid): (l: seq<Pos>)
    requires WellFormed(g)
    ensures IsCandidateList(g, l)
  {
    var l0 := SortedByCentre(CandidateSet(g));
    assert IsCandidateList(g, l0);
    var l :| IsCandidateList(g, l);
    l
  }

  /** Every candidate is a valid move, each appears once, they come in
      non-decreasing centre distance, and every empty cell near a stone is
      among them. */
  lemma CandidatesSpec(g: Grid)
    requires WellFormed(g)
    ensures forall q :: q in Candidates(g) <==> IsValidMove(g, q) && NearSome(Occupied(g), q)
    ensures forall i, j :: 0 <= i < j < |Candidates(g)| ==> Candidates(g)[i] != Candidates(g)[j]
    ensures forall i, j :: 0 <= i < j < |Candidates(g)| ==>
              CentreDistance(Candidates(g)[i]) <= CentreDistance(Candidates(g)[j])
  {
    var l := Candidates(g);
    forall i | 0 <= i < |l| ensures InRange(l[i]) {
      assert l[i] in l;
    }
    IncreasingSorted(l);
  }

  /** The candidate list is the sorted candidate set. */
  lemma CandidatesSorted(g: Grid)
    requires WellFormed(g)
    ensures Candidates(g) == SortedByCentre(CandidateSet(g))
  {
    IncreasingUnique(Candidates(g), SortedByCentre(CandidateSet(g)));
  }

  /** Neighbours tried, in order, for the reply to a single stone. */
  const ADJACENT_OFFSETS: seq<Pos> := [(1, 1), (1, -1), (-1, 1), (-1, -1), (0, 1), (1, 0)]

  function Offset(s: Pos, k: int): Pos
    requires 0 <= k < |ADJACENT_OFFSETS|
  {
    (s.0 + ADJACENT_OFFSETS[k].0, s.1 + ADJACENT_OFFSETS[k].1)
  }

  /** The first of the neighbours of s from the k-th offset on that is a
      valid move, if any. */
  function FirstFreeFrom(g: Grid, s: Pos, k: nat): Option<Pos>
    requires WellFormed(g) && k <= |ADJACENT_OFFSETS|
    decreases |ADJACENT_OFFSETS| - k
  {
    if k == |ADJACENT_OFFSETS| then None
    else if IsValidMove(g, Offset(s, k)) then Some(Offset(s, k))
    else FirstFreeFrom(g, s, k + 1)
  }

  /** FirstFreeFrom finds nothing exactly when no neighbour from the k-th on
      is free, and otherwise finds the first free one. */
  lemma {:induction false} FirstFreeSpec(g: Grid, s: Pos, k: nat)
    requires WellFormed(g) && k <= |ADJACENT_OFFSETS|
    ensures var r := FirstFreeFrom(g, s, k);
            && (r.None? <==> forall j :: k <= j < |ADJACENT_OFFSETS| ==> !IsValidMove(g, Offset(s, j)))
            && (r.Some? ==>
                  exists j :: && k <= j < |ADJACENT_OFFSETS| && r.value == Offset(s, j)
                              && IsValidMove(g, Offset(s, j))
                              && forall i :: k <= i < j ==> !IsValidMove(g, Offset(s, i)))
    decreases |ADJACENT_OFFSETS| - k
  {
    if k < |ADJACENT_OFFSETS| && !IsValidMove(g, Offset(s, k)) {
      FirstFreeSpec(g, s, k + 1);
    }
  }

  /** Neighbours tried before the k-th that are taken or off the board do
      not change what the search finds. */
  lemma {:induction false} FirstFreeSkip(g: Grid, s: Pos, k: nat)
    requires WellFormed(g) && k <= |ADJACENT_OFFSETS|
    requires forall j :: 0 <= j < k ==> !IsValidMove(g, Offset(s, j))
    ensures FirstFreeFrom(g, s, 0) == FirstFreeFrom(g, s, k)
  {
    if k > 0 {
      FirstFreeSkip(g, s, k - 1);
    }
  }

  /** The reply to a board holding one stone s: its first free listed
      neighbour, or the centre when it has none. */
  function AdjacentReply(g: Grid, s: Pos): Pos
    requires WellFormed(g)
  {
    match FirstFreeFrom(g, s, 0)
    case Some(q) => q
    case None => (CENTRE, CENTRE)
  }

  /** With a single stone on the board the reply always touches it: it is an
      empty cell at Chebyshev distance one, never the fallback centre. */
  lemma SingleStoneReplyAdjacent(g: Grid, s: Pos)
    requires WellFormed(g) && Occupied(g) == {s}
    ensures IsValidMove(g, AdjacentReply(g, s))
    ensures exists j :: 0 <= j < |ADJACENT_OFFSETS| && AdjacentReply(g, s) == Offset(s, j)
  {
    assert s in Occupied(g);
    FirstFreeSpec(g, s, 0);
    var j := if s.0 < BOARD_SIZE - 1 then (if s.1 < BOARD_SIZE - 1 then 0 else 1)
             else (if s.1 < BOARD_SIZE - 1 then 2 else 3);
    assert Offset(s, j) !in Occupied(g);
    assert IsValidMove(g, Offset(s, j));
  }

  /** A lone stone on the centre is answered diagonally below and to the
      right of it. */
  lemma CentreStoneReply(g: Grid)
    requires WellFormed(g) && Occupied(g) == {(CENTRE, CENTRE)}
    ensures AdjacentReply(g, (CENTRE, CENTRE)) == (CENTRE + 1, CENTRE + 1)
  {
    var q := Offset((CENTRE, CENTRE), 0);
    assert q !in Occupied(g);
  }
}
