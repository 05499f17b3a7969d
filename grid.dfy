/**
 * The board the chase is played on: a fixed W x H grid of cells holding
 * 0 (path) or 1 (wall), where moving off one edge re-enters at the opposite
 * edge.  This module holds the cell type, the wraparound neighbour expansion
 * shared by both searches, and the notion of a walk that their results are
 * specified against.
 */
module Grid {

  datatype Option<T> = None | Some(value: T)

  /** Board size: MAX_MAZE_COLUMNS columns by MAX_MAZE_ROWS rows. */
  const W: int := 30
  const H: int := 22

  /** A board position; x is the column, y the row. */
  datatype Cell = Cell(x: int, y: int)

  predicate InRange(c: Cell) {
    0 <= c.x < W && 0 <= c.y < H
  }

  /** The board is H rows of W entries, indexed grid[y][x]. */
  predicate WellFormed(grid: seq<seq<int>>) {
    |grid| == H && forall r :: 0 <= r < |grid| ==> |grid[r]| == W
  }

  /** A cell a search may step onto: on the board and holding 0. */
  predicate IsOpen(grid: seq<seq<int>>, c: Cell)
    requires WellFormed(grid)
  {
    InRange(c) && grid[c.y][c.x] == 0
  }

  /** The four moves, in the order the neighbour expansion tries them: +x, -x, +y, -y. */
  const Directions: seq<(int, int)> := [(1, 0), (-1, 0), (0, 1), (0, -1)]

  /**
   * One move from c by (dx, dy), wrapped onto the torus as (v + dx + size) % size.
   * For a cell on the board and a unit move the dividend is never negative, so
   * Dafny's % agrees with the truncating % of the source.
   */
  function Step(c: Cell, dx: int, dy: int): (n: Cell)
    ensures InRange(n)
  {
    Cell((c.x + dx + W) % W, (c.y + dy + H) % H)
  }

  /** The four wrapped cells next to c, in direction order. */
  function Candidates(c: Cell): (cs: seq<Cell>)
  {
    [Step(c, 1, 0), Step(c, -1, 0), Step(c, 0, 1), Step(c, 0, -1)]
  }

  /** The open cells of cs, in their original order. */
  function OpenOf(grid: seq<seq<int>>, cs: seq<Cell>): (r: seq<Cell>)
    requires WellFormed(grid)
    ensures |r| <= |cs|
  {
    if cs == [] then []
    else
      var last := cs[|cs| - 1];
      OpenOf(grid, cs[..|cs| - 1]) + (if IsOpen(grid, last) then [last] else [])
  }

  /** The cells one wraparound move away from c that hold 0, in direction order. */
  function Neighbors(grid: seq<seq<int>>, c: Cell): seq<Cell>
    requires WellFormed(grid)
  {
    OpenOf(grid, Candidates(c))
  }

  /**
   * getNeighborsWithWraparound: tries the four moves in order and collects
   * each wrapped target that holds 0.
   */
  method NeighborsWithWraparound(grid: seq<seq<int>>, c: Cell) returns (ns: seq<Cell>)
    requires WellFormed(grid) && InRange(c)
    ensures ns == Neighbors(grid, c)
  {
    ns := [];
    for i := 0 to |Directions|
      invariant ns == OpenOf(grid, Candidates(c)[..i])
    {
      var (dx, dy) := Directions[i];
      var nx := (c.x + dx + W) % W;
      var ny := (c.y + dy + H) % H;
      if grid[ny][nx] == 0 {
        ns := ns + [Cell(nx, ny)];
      }
      assert Candidates(c)[..i + 1][..i] == Candidates(c)[..i];
    }
    assert Candidates(c)[..|Directions|] == Candidates(c);
  }

  /** A cell kept by the expansion when it is open, dropped when it is a wall. */
  function Keep(grid: seq<seq<int>>, n: Cell): seq<Cell>
    requires WellFormed(grid)
  {
    if IsOpen(grid, n) then [n] else []
  }

  /**
   * The expansion yields at most four cells, each on the board and open,
   * and exactly the open ones among the four wrapped moves.
   */
  lemma NeighborsMembers(grid: seq<seq<int>>, c: Cell)
    requires WellFormed(grid)
    ensures |Neighbors(grid, c)| <= 4
    ensures forall n :: n in Neighbors(grid, c) <==> n in Candidates(c) && IsOpen(grid, n)
    ensures forall n :: n in Neighbors(grid, c) ==> InRange(n)
  {
    OpenOfMembers(grid, Candidates(c));
  }

  /** OpenOf keeps exactly the open cells of cs. */
  lemma {:induction false} OpenOfMembers(grid: seq<seq<int>>, cs: seq<Cell>)
    requires WellFormed(grid)
    ensures forall n :: n in OpenOf(grid, cs) <==> n in cs && IsOpen(grid, n)
  {
    if cs != [] {
      var init := cs[..|cs| - 1];
      OpenOfMembers(grid, init);
      assert cs == init + [cs[|cs| - 1]];
    }
  }

  /** The expansion keeps the direction order +x, -x, +y, -y, skipping walls. */
  lemma NeighborsInDirectionOrder(grid: seq<seq<int>>, c: Cell)
    requires WellFormed(grid)
    ensures Neighbors(grid, c) ==
      Keep(grid, Step(c, 1, 0)) + Keep(grid, Step(c, -1, 0)) + Keep(grid, Step(c, 0, 1)) + Keep(grid, Step(c, 0, -1))
  {
    var cs := Candidates(c);
    var k0, k1, k2, k3 := Keep(grid, cs[0]), Keep(grid, cs[1]), Keep(grid, cs[2]), Keep(grid, cs[3]);
    assert cs[..0] == [];
    OpenOfPrefix(grid, cs, 0);
    assert OpenOf(grid, cs[..1]) == k0;
    OpenOfPrefix(grid, cs, 1);
    assert OpenOf(grid, cs[..2]) == k0 + k1;
    OpenOfPrefix(grid, cs, 2);
    assert OpenOf(grid, cs[..3]) == k0 + k1 + k2;
    OpenOfPrefix(grid, cs, 3);
    assert cs[..4] == cs;
  }

  lemma OpenOfPrefix(grid: seq<seq<int>>, cs: seq<Cell>, i: nat)
    requires WellFormed(grid) && i < |cs|
    ensures OpenOf(grid, cs[..i + 1]) == OpenOf(grid, cs[..i]) + Keep(grid, cs[i])
  {
    assert cs[..i + 1][..i] == cs[..i];
  }

  /** Every cell of the board, for termination measures. */
  ghost function AllCells(): set<Cell> {
    set x, y | 0 <= x < W && 0 <= y < H :: Cell(x, y)
  }

  lemma InAllCells(c: Cell)
    requires InRange(c)
    ensures c in AllCells()
  {
    assert c == Cell(c.x, c.y);
  }

  // ---------------------------------------------------------------------
  // Walks
  // ---------------------------------------------------------------------

  /** Each cell of w is a wraparound neighbour (open, one move away) of the one before it. */
  ghost predicate Chain(grid: seq<seq<int>>, w: seq<Cell>)
    requires WellFormed(grid)
  {
    forall i :: 0 <= i < |w| - 1 ==> w[i + 1] in Neighbors(grid, w[i])
  }

  /**
   * p is a non-empty walk from s to g: it excludes s, its first cell is a
   * neighbour of s, each later cell a neighbour of the one before, and it
   * ends at g.
   */
  ghost predicate IsWalkTo(grid: seq<seq<int>>, s: Cell, g: Cell, p: seq<Cell>)
    requires WellFormed(grid)
  {
    |p| > 0 && Chain(grid, [s] + p) && p[|p| - 1] == g
  }

  ghost predicate Reachable(grid: seq<seq<int>>, s: Cell, g: Cell)
    requires WellFormed(grid)
  {
    exists p :: IsWalkTo(grid, s, g, p)
  }

  /** p is a walk from s to g and no walk from s to g is shorter. */
  ghost predicate IsShortestWalk(grid: seq<seq<int>>, s: Cell, g: Cell, p: seq<Cell>)
    requires WellFormed(grid)
  {
    IsWalkTo(grid, s, g, p) && forall q :: IsWalkTo(grid, s, g, q) ==> |p| <= |q|
  }

  /**
   * What both searches return: [] when s == g; otherwise a shortest walk
   * from s to g when there is one, and [] when g cannot be reached.
   */
  ghost predicate SearchResult(grid: seq<seq<int>>, s: Cell, g: Cell, p: seq<Cell>)
    requires WellFormed(grid)
  {
    if s == g then p == []
    else if Reachable(grid, s, g) then IsShortestWalk(grid, s, g, p)
    else p == []
  }

  /** Every cell of a walk is open and on the board. */
  lemma WalkIsOpen(grid: seq<seq<int>>, s: Cell, g: Cell, p: seq<Cell>)
    requires WellFormed(grid) && IsWalkTo(grid, s, g, p)
    ensures forall i :: 0 <= i < |p| ==> InRange(p[i]) && IsOpen(grid, p[i])
  {
    var w := [s] + p;
    forall i | 0 <= i < |p|
      ensures InRange(p[i]) && IsOpen(grid, p[i])
    {
      assert w[i + 1] == p[i];
      NeighborsMembers(grid, w[i]);
    }
  }

  /** An empty search result is ambiguous only between "already there" and "unreachable". */
  lemma EmptyResult(grid: seq<seq<int>>, s: Cell, g: Cell, p: seq<Cell>)
    requires WellFormed(grid) && SearchResult(grid, s, g, p)
    ensures p == [] <==> (s == g || !Reachable(grid, s, g))
  {
  }

  /** Any two results satisfying the search contract have the same length. */
  lemma SearchResultsSameLength(grid: seq<seq<int>>, s: Cell, g: Cell, p1: seq<Cell>, p2: seq<Cell>)
    requires WellFormed(grid)
    requires SearchResult(grid, s, g, p1) && SearchResult(grid, s, g, p2)
    ensures |p1| == |p2|
  {
    if s != g && Reachable(grid, s, g) {
      assert IsWalkTo(grid, s, g, p2);
      assert IsWalkTo(grid, s, g, p1);
    }
  }

  /** Putting a cell whose neighbour w[0] is in front of a chain gives a chain. */
  lemma ChainCons(grid: seq<seq<int>>, a: Cell, w: seq<Cell>)
    requires WellFormed(grid) && |w| > 0 && Chain(grid, w) && w[0] in Neighbors(grid, a)
    ensures Chain(grid, [a] + w)
  {
    var v := [a] + w;
    forall i | 0 <= i < |v| - 1 ensures v[i + 1] in Neighbors(grid, v[i]) {
      if i > 0 {
        assert v[i] == w[i - 1] && v[i + 1] == w[i];
      }
    }
  }

  /**
   * dist covers u and every neighbour of u, each no more than one above u.
   * A search has finished with u once this holds.
   */
  ghost predicate Closed(grid: seq<seq<int>>, dist: map<Cell, nat>, u: Cell)
    requires WellFormed(grid)
  {
    u in dist && forall v :: v in Neighbors(grid, u) ==> v in dist && dist[v] <= dist[u] + 1
  }

  /** Growing dist without changing existing entries keeps a closed cell closed. */
  lemma ClosedGrows(grid: seq<seq<int>>, dist: map<Cell, nat>, dist': map<Cell, nat>, u: Cell)
    requires WellFormed(grid) && Closed(grid, dist, u)
    requires forall c :: c in dist ==> c in dist' && dist'[c] == dist[c]
    ensures Closed(grid, dist', u)
  {
  }

  /**
   * The frontier argument shared by both searches.  Follow a chain w from a
   * cell of dist while the cells are settled (closed); the first cell that is
   * not settled is in dist, at most k + j where j is its position.
   */
  lemma {:induction false} FirstUnsettled(grid: seq<seq<int>>, dist: map<Cell, nat>, settled: set<Cell>, w: seq<Cell>, k: nat)
    requires WellFormed(grid)
    requires |w| > 0 && Chain(grid, w)
    requires w[0] in dist && dist[w[0]] <= k
    requires forall u :: u in settled ==> Closed(grid, dist, u)
    requires w[|w| - 1] !in settled
    ensures exists j :: 0 <= j < |w| && w[j] in dist && w[j] !in settled && dist[w[j]] <= k + j
    decreases |w|
  {
    if w[0] !in settled {
      assert w[0] in dist && w[0] !in settled && dist[w[0]] <= k + 0;
    } else {
      assert w[1] in Neighbors(grid, w[0]);
      var t := w[1..];
      assert Chain(grid, t) by {
        forall i | 0 <= i < |t| - 1 ensures t[i + 1] in Neighbors(grid, t[i]) {
          assert t[i] == w[i + 1] && t[i + 1] == w[i + 2];
        }
      }
      FirstUnsettled(grid, dist, settled, t, k + 1);
      var j :| 0 <= j < |t| && t[j] in dist && t[j] !in settled && dist[t[j]] <= k + 1 + j;
      assert w[j + 1] == t[j];
    }
  }

  /** No chain leaves a set of settled cells: one that starts in it stays in it. */
  lemma {:induction false} ChainStaysSettled(grid: seq<seq<int>>, dist: map<Cell, nat>, settled: set<Cell>, w: seq<Cell>)
    requires WellFormed(grid)
    requires |w| > 0 && Chain(grid, w) && w[0] in settled
    requires forall u :: u in settled ==> Closed(grid, dist, u)
    requires forall u :: u in dist ==> u in settled
    ensures w[|w| - 1] in settled
  {
    if w[|w| - 1] !in settled {
      FirstUnsettled(grid, dist, settled, w, dist[w[0]]);
      assert false;
    }
  }
}
