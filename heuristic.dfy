/**
 * The A* heuristic: Manhattan distance on the torus, where each axis counts
 * the shorter of going straight across and going round the edge.
 */
module Heuristic {
  import opened Grid

  function Abs(v: int): nat {
    if v < 0 then -v else v
  }

  function Min(a: int, b: int): int {
    if a <= b then a else b
  }

  /** Distance along one axis of size n: direct or wrapped, whichever is shorter. */
  function AxisDistance(u: int, v: int, n: int): int {
    Min(Abs(u - v), n - Abs(u - v))
  }

  /** manhattanDistance: the sum of the two axis distances, on the fixed W x H board. */
  function Manhattan(a: Cell, b: Cell): int {
    AxisDistance(a.x, b.x, W) + AxisDistance(a.y, b.y, H)
  }

  /**
   * On the board the heuristic is a non-negative, symmetric distance that is
   * zero exactly on equal cells and never exceeds half of each axis.
   */
  lemma ManhattanIsDistance(a: Cell, b: Cell)
    requires InRange(a) && InRange(b)
    ensures 0 <= Manhattan(a, b) <= W / 2 + H / 2
    ensures Manhattan(a, b) == Manhattan(b, a)
    ensures Manhattan(a, b) == 0 <==> a == b
  {
  }

  /** u2 is one unit move from u along an axis of size n, wrapping at either end. */
  predicate AxisMove(u: int, u2: int, n: int) {
    u2 == u + 1 || u2 == u - 1 || (u == n - 1 && u2 == 0) || (u == 0 && u2 == n - 1)
  }

  /** One wrapped unit move along an axis changes that axis distance by at most one. */
  lemma AxisStep(u: int, u2: int, v: int, n: int)
    requires 3 <= n && 0 <= u < n && 0 <= u2 < n && 0 <= v < n && AxisMove(u, u2, n)
    ensures AxisDistance(u, v, n) <= AxisDistance(u2, v, n) + 1
    ensures AxisDistance(u2, v, n) <= AxisDistance(u, v, n) + 1
    ensures AxisDistance(u, u2, n) == 1
  {
  }

  /** Each wrapped move changes one coordinate by a unit move and keeps the other. */
  lemma CandidateMoves(c: Cell, i: int)
    requires InRange(c) && 0 <= i < 4
    ensures var n := Candidates(c)[i];
      (AxisMove(c.x, n.x, W) && n.y == c.y) || (n.x == c.x && AxisMove(c.y, n.y, H))
  {
  }

  /** A wraparound neighbour is exactly one heuristic step away. */
  lemma NeighborIsOneAway(grid: seq<seq<int>>, a: Cell, b: Cell)
    requires WellFormed(grid) && InRange(a) && b in Neighbors(grid, a)
    ensures Manhattan(a, b) == 1
  {
    NeighborsMembers(grid, a);
    var i :| 0 <= i < 4 && b == Candidates(a)[i];
    CandidateMoves(a, i);
    if b.y == a.y {
      AxisStep(a.x, b.x, a.x, W);
    } else {
      AxisStep(a.y, b.y, a.y, H);
    }
  }

  /** Moving to a neighbour changes the distance to any cell of the board by at most one. */
  lemma NeighborStep(grid: seq<seq<int>>, a: Cell, b: Cell, g: Cell)
    requires WellFormed(grid) && InRange(a) && InRange(g) && b in Neighbors(grid, a)
    ensures Manhattan(a, g) <= Manhattan(b, g) + 1
    ensures Manhattan(b, g) <= Manhattan(a, g) + 1
  {
    NeighborsMembers(grid, a);
    var i :| 0 <= i < 4 && b == Candidates(a)[i];
    CandidateMoves(a, i);
    if b.y == a.y && AxisMove(a.x, b.x, W) {
      AxisStep(a.x, b.x, g.x, W);
    } else {
      AxisStep(a.y, b.y, g.y, H);
    }
  }

  /**
   * Consistency along a chain: the heuristic at the head is at most the
   * number of moves to the tail plus the heuristic at the tail.
   */
  lemma {:induction false} ManhattanAlongChain(grid: seq<seq<int>>, w: seq<Cell>, g: Cell)
    requires WellFormed(grid) && |w| > 0 && Chain(grid, w) && InRange(w[0]) && InRange(g)
    ensures Manhattan(w[0], g) <= |w| - 1 + Manhattan(w[|w| - 1], g)
    decreases |w|
  {
    if |w| > 1 {
      assert w[1] in Neighbors(grid, w[0]);
      NeighborsMembers(grid, w[0]);
      NeighborStep(grid, w[0], w[1], g);
      var t := w[1..];
      assert Chain(grid, t) by {
        forall i | 0 <= i < |t| - 1 ensures t[i + 1] in Neighbors(grid, t[i]) {
          assert t[i] == w[i + 1] && t[i + 1] == w[i + 2];
        }
      }
      ManhattanAlongChain(grid, t, g);
    }
  }

  /** Admissibility: the heuristic never exceeds the length of any walk between the two cells. */
  lemma Admissible(grid: seq<seq<int>>, s: Cell, g: Cell, q: seq<Cell>)
    requires WellFormed(grid) && InRange(s) && InRange(g) && IsWalkTo(grid, s, g, q)
    ensures Manhattan(s, g) <= |q|
  {
    var w := [s] + q;
    ManhattanAlongChain(grid, w, g);
    assert w[|w| - 1] == g;
  }

  /** A board with no walls: every cell holds 0. */
  predicate AllOpen(grid: seq<seq<int>>) {
    WellFormed(grid) && forall y, x :: 0 <= y < H && 0 <= x < W ==> grid[y][x] == 0
  }

  /** The unit move along an axis of size n that brings u closer to v: the direct way or round the edge. */
  function Toward(u: int, v: int, n: int): int {
    var d := u - v;
    if 0 < d then (if d <= n - d then -1 else 1)
    else if -d <= n + d then 1 else -1
  }

  /** A coordinate one unit off the axis of size n, brought back onto it. */
  function Wrap(v: int, n: int): int {
    if v == n then 0 else if v == -1 then n - 1 else v
  }

  /** Moving by Toward, wrapped, lowers the axis distance by exactly one. */
  lemma AxisCloser(u: int, v: int, n: int)
    requires 3 <= n && 0 <= u < n && 0 <= v < n && u != v
    ensures AxisDistance(Wrap(u + Toward(u, v, n), n), v, n) == AxisDistance(u, v, n) - 1
  {
    var d := u - v;
    if 0 < d {
      if d <= n - d {
        assert Wrap(u - 1, n) == u - 1;
      } else if u == n - 1 {
        assert Wrap(u + 1, n) == 0;
      } else {
        assert Wrap(u + 1, n) == u + 1;
      }
    } else {
      if -d <= n + d {
        assert Wrap(u + 1, n) == u + 1;
      } else if u == 0 {
        assert Wrap(u - 1, n) == n - 1;
      } else {
        assert Wrap(u - 1, n) == u - 1;
      }
    }
  }

  /** Without walls, each of the four wrapped moves is a neighbour. */
  lemma OpenCandidate(grid: seq<seq<int>>, a: Cell, i: int)
    requires AllOpen(grid) && 0 <= i < 4
    ensures Candidates(a)[i] in Neighbors(grid, a)
  {
    var c := Candidates(a)[i];
    assert IsOpen(grid, c);
    NeighborsMembers(grid, a);
  }

  /** Without walls, a cell in another column has a neighbour one step closer to b, along x. */
  lemma CloserAlongX(grid: seq<seq<int>>, a: Cell, b: Cell) returns (c: Cell)
    requires AllOpen(grid) && InRange(a) && InRange(b) && a.x != b.x
    ensures c in Neighbors(grid, a) && InRange(c)
    ensures Manhattan(c, b) == Manhattan(a, b) - 1
  {
    var d := Toward(a.x, b.x, W);
    var i := if d == 1 then 0 else 1;
    c := Candidates(a)[i];
    OpenCandidate(grid, a, i);
    assert c.x == Wrap(a.x + d, W) && c.y == a.y;
    AxisCloser(a.x, b.x, W);
  }

  /** Without walls, a cell in another row has a neighbour one step closer to b, along y. */
  lemma CloserAlongY(grid: seq<seq<int>>, a: Cell, b: Cell) returns (c: Cell)
    requires AllOpen(grid) && InRange(a) && InRange(b) && a.y != b.y
    ensures c in Neighbors(grid, a) && InRange(c)
    ensures Manhattan(c, b) == Manhattan(a, b) - 1
  {
    var d := Toward(a.y, b.y, H);
    var i := if d == 1 then 2 else 3;
    c := Candidates(a)[i];
    OpenCandidate(grid, a, i);
    assert c.y == Wrap(a.y + d, H) && c.x == a.x;
    AxisCloser(a.y, b.y, H);
  }

  /** Without walls, a cell other than b always has a neighbour one step closer to b. */
  lemma CloserNeighbor(grid: seq<seq<int>>, a: Cell, b: Cell) returns (c: Cell)
    requires AllOpen(grid) && InRange(a) && InRange(b) && a != b
    ensures c in Neighbors(grid, a) && InRange(c)
    ensures Manhattan(c, b) == Manhattan(a, b) - 1
  {
    if a.x != b.x {
      c := CloserAlongX(grid, a, b);
    } else {
      c := CloserAlongY(grid, a, b);
    }
  }

  /** Without walls, some walk from a to b is exactly as long as the heuristic. */
  lemma {:induction false} WalkOfHeuristicLength(grid: seq<seq<int>>, a: Cell, b: Cell) returns (p: seq<Cell>)
    requires AllOpen(grid) && InRange(a) && InRange(b) && a != b
    ensures IsWalkTo(grid, a, b, p) && |p| == Manhattan(a, b)
    decreases Manhattan(a, b)
  {
    var c := CloserNeighbor(grid, a, b);
    ManhattanIsDistance(c, b);
    if c == b {
      p := [b];
      assert ([a] + p)[1] in Neighbors(grid, ([a] + p)[0]);
    } else {
      var q := WalkOfHeuristicLength(grid, c, b);
      p := [c] + q;
      ChainCons(grid, a, [c] + q);
      assert [a] + p == [a] + ([c] + q);
    }
  }

  /**
   * Exactness: on a board without walls the heuristic is the length of a
   * shortest walk, so with Admissible it is the torus distance itself.
   */
  lemma HeuristicIsDistance(grid: seq<seq<int>>, a: Cell, b: Cell) returns (p: seq<Cell>)
    requires AllOpen(grid) && InRange(a) && InRange(b) && a != b
    ensures IsShortestWalk(grid, a, b, p) && |p| == Manhattan(a, b)
  {
    p := WalkOfHeuristicLength(grid, a, b);
    forall q | IsWalkTo(grid, a, b, q)
      ensures |p| <= |q|
    {
      Admissible(grid, a, b, q);
    }
  }
}
