/**
 * The two things that move on the board each frame: the player, who steps
 * one cell in the chosen direction unless a wall is in the way, and the
 * ghost, who re-plans a full path to the player with one of the two searches
 * and takes its first step.  Both share the maze object and consult it
 * through isWall.
 */
module Actors {
  import opened Grid
  import Bfs
  import AStar

  /**
   * The maze object shared by the player and the ghost.  Its grid is
   * replaced when a level is generated; between generations it is only read.
   */
  class Maze {
    var grid: seq<seq<int>>

    constructor(grid: seq<seq<int>>)
      ensures this.grid == grid
    {
      this.grid := grid;
    }

    /**
     * isWall: everything off the board counts as wall; on the board a cell
     * is a wall when it holds 1.  A wall is never a cell a search may step
     * onto, and on a board of 0s and 1s the two notions are complementary.
     */
    function IsWall(x: int, y: int): (wall: bool)
      reads this
      requires WellFormed(grid)
      ensures !wall ==> InRange(Cell(x, y))
      ensures IsOpen(grid, Cell(x, y)) ==> !wall
      ensures Binary(grid) ==> (wall <==> !IsOpen(grid, Cell(x, y)))
    {
      if 0 <= y < H && 0 <= x < W then grid[y][x] == 1 else true
    }
  }

  /** Every cell of the board holds 0 or 1, as the maze generator leaves it. */
  predicate Binary(grid: seq<seq<int>>)
    requires WellFormed(grid)
  {
    forall y, x :: 0 <= y < H && 0 <= x < W ==> grid[y][x] == 0 || grid[y][x] == 1
  }

  /**
   * The fixed part of every board generate builds: 0s and 1s, walls all
   * round the edge except the two tunnel cells at either end of the middle
   * row.  The wall blocks it scatters inside at random are not constrained.
   */
  predicate Generated(grid: seq<seq<int>>) {
    && WellFormed(grid)
    && Binary(grid)
    && AllWall(grid[0]) && AllWall(grid[H - 1])
    && (forall y :: 0 <= y < H && y != H / 2 ==> grid[y][0] == 1)
    && (forall y :: 0 <= y < H && y != H / 2 ==> grid[y][W - 1] == 1)
    && grid[H / 2][0] == 0 && grid[H / 2][W - 1] == 0
  }

  predicate AllWall(row: seq<int>) {
    forall x :: 0 <= x < |row| ==> row[x] == 1
  }

  /**
   * On a generated board the two tunnel cells are neighbours across the
   * left and right edges, and every other edge cell is a wall.
   */
  lemma TunnelWraps(m: Maze)
    requires Generated(m.grid)
    ensures Cell(W - 1, H / 2) in Neighbors(m.grid, Cell(0, H / 2))
    ensures Cell(0, H / 2) in Neighbors(m.grid, Cell(W - 1, H / 2))
    ensures forall c :: InRange(c) && (c.x == 0 || c.x == W - 1 || c.y == 0 || c.y == H - 1) ==>
              (m.IsWall(c.x, c.y) <==> c.y != H / 2 || (c.x != 0 && c.x != W - 1))
  {
    var left, right := Cell(0, H / 2), Cell(W - 1, H / 2);
    NeighborsMembers(m.grid, left);
    NeighborsMembers(m.grid, right);
    assert Candidates(left)[1] == right;
    assert Candidates(right)[0] == left;
    forall c | InRange(c) && (c.x == 0 || c.x == W - 1 || c.y == 0 || c.y == H - 1)
      ensures m.IsWall(c.x, c.y) <==> c.y != H / 2 || (c.x != 0 && c.x != W - 1)
    {
      if c.y == 0 {
        assert m.grid[0][c.x] == 1;
      } else if c.y == H - 1 {
        assert m.grid[H - 1][c.x] == 1;
      } else if c.y != H / 2 {
        assert m.grid[c.y][0] == 1 && m.grid[c.y][W - 1] == 1;
      }
    }
  }

  /**
   * The remainder of JavaScript's %, which truncates toward zero: it has the
   * sign of the dividend, unlike Dafny's Euclidean %.
   */
  function JsRem(a: int, m: int): (r: int)
    requires m > 0
    ensures a >= 0 ==> r == a % m
    ensures a < 0 ==> -m < r <= 0
  {
    if a >= 0 then a % m else -((-a) % m)
  }

  /**
   * Whether a mover with the given velocity (cells per second) is due after
   * `elapsed` milliseconds: the interval is (1 / velocity) * 1000 ms, and a
   * velocity of 0 gives an infinite interval, so the mover never moves.
   */
  predicate Due(elapsed: real, velocity: real)
  {
    velocity != 0.0 && elapsed >= (1.0 / velocity) * 1000.0
  }

  /**
   * For a positive velocity a mover is due exactly when elapsed * velocity
   * reaches 1000, so waiting longer or moving faster never makes it less due.
   */
  lemma DueCharacterised(elapsed: real, later: real, velocity: real, faster: real)
    requires 0.0 < velocity <= faster && elapsed <= later
    ensures Due(elapsed, velocity) <==> elapsed * velocity >= 1000.0
    ensures Due(elapsed, velocity) ==> Due(later, velocity) && Due(elapsed, faster)
  {
    DueExactly(elapsed, velocity);
    DueExactly(later, velocity);
    DueExactly(elapsed, faster);
    if Due(elapsed, velocity) {
      assert elapsed * faster >= elapsed * velocity;
    }
  }

  lemma DueExactly(elapsed: real, velocity: real)
    requires velocity > 0.0
    ensures Due(elapsed, velocity) <==> elapsed * velocity >= 1000.0
  {
    var interval := (1.0 / velocity) * 1000.0;
    assert interval * velocity == 1000.0;
    if elapsed >= interval {
      assert elapsed * velocity >= interval * velocity;
    } else {
      assert elapsed * velocity < interval * velocity;
    }
  }

  /** A move direction [dx, dy]. */
  datatype Dir = Dir(dx: int, dy: int)

  /** The four directions the keyboard and swipe handlers produce. */
  predicate IsUnit(d: Dir) {
    d in {Dir(1, 0), Dir(-1, 0), Dir(0, 1), Dir(0, -1)}
  }

  /** The direction a move tries: the buffered input if any, else the current direction. */
  function Attempted(nextMove: Option<Dir>, currentDirection: Dir): Dir
  {
    match nextMove
    case Some(n) => n
    case None => currentDirection
  }

  /** The cell a move by d from (x, y) targets, wrapped with the truncating %. */
  function Target(x: int, y: int, d: Dir): Cell {
    Cell(JsRem(x + d.dx + W, W), JsRem(y + d.dy + H, H))
  }

  /**
   * From a cell on the board a unit move targets exactly the wrapped cell the
   * searches expand, so on a board of 0s and 1s a move the maze allows goes
   * to one of the cell's wraparound neighbours.
   */
  lemma PlayerMoveIsNeighbor(grid: seq<seq<int>>, c: Cell, d: Dir)
    requires WellFormed(grid) && Binary(grid) && InRange(c) && IsUnit(d)
    ensures Target(c.x, c.y, d) == Step(c, d.dx, d.dy)
    ensures IsOpen(grid, Target(c.x, c.y, d)) <==> Target(c.x, c.y, d) in Neighbors(grid, c)
  {
    NeighborsMembers(grid, c);
    var t := Target(c.x, c.y, d);
    assert t == Step(c, d.dx, d.dy);
    assert t in Candidates(c);
  }

  class Player {
    var x: int
    var y: int
    const maze: Maze
    /** Cells per second; 0 until the level sets it. */
    var velocity: real
    var lastMoveTime: real
    /** The buffered input, null in the source when there is none. */
    var nextMove: Option<Dir>
    var currentDirection: Dir

    /** A new player is at rest, facing +x, with no buffered input. */
    constructor(x: int, y: int, maze: Maze, now: real)
      ensures this.x == x && this.y == y && this.maze == maze
      ensures velocity == 0.0 && lastMoveTime == now
      ensures nextMove == None && currentDirection == Dir(1, 0)
    {
      this.x := x;
      this.y := y;
      this.maze := maze;
      velocity := 0.0;
      lastMoveTime := now;
      nextMove := None;
      currentDirection := Dir(1, 0);
    }

    /** handleInput: buffers a direction for the next move. */
    method HandleInput(dx: int, dy: int)
      modifies this
      ensures nextMove == Some(Dir(dx, dy))
      ensures x == old(x) && y == old(y) && velocity == old(velocity)
      ensures lastMoveTime == old(lastMoveTime) && currentDirection == old(currentDirection)
    {
      nextMove := Some(Dir(dx, dy));
    }

    /**
     * move: when due, tries the buffered direction (else the current one),
     * steps to the wrapped target only if it is not a wall (adopting that
     * direction), and in either case drops the buffered input and restarts
     * the clock.  A player only ever moves onto a cell on the board.
     */
    method Move(now: real)
      requires WellFormed(maze.grid)
      modifies this
      ensures !Due(now - old(lastMoveTime), old(velocity)) ==> unchanged(this)
      ensures Due(now - old(lastMoveTime), old(velocity)) ==>
                var d := Attempted(old(nextMove), old(currentDirection));
                var t := Target(old(x), old(y), d);
                nextMove == None && lastMoveTime == now && velocity == old(velocity) &&
                if !maze.IsWall(t.x, t.y) then
                  x == t.x && y == t.y && currentDirection == d
                else
                  x == old(x) && y == old(y) && currentDirection == old(currentDirection)
      ensures (x == old(x) && y == old(y)) || InRange(Cell(x, y))
    {
      var elapsed := now - lastMoveTime;
      if Due(elapsed, velocity) {
        var d := Attempted(nextMove, currentDirection);
        var newX := JsRem(x + d.dx + W, W);
        var newY := JsRem(y + d.dy + H, H);
        if !maze.IsWall(newX, newY) {
          x := newX;
          y := newY;
          currentDirection := d;
        }
        nextMove := None;
        lastMoveTime := now;
      }
    }
  }

  /** The search a ghost re-plans with: bfs on the early levels, astar later. */
  datatype Algorithm = UseBfs | UseAStar

  class Ghost {
    var x: int
    var y: int
    const maze: Maze
    /** The path computed on the last move, drawn on screen. */
    var path: seq<Cell>
    var velocity: real
    var lastMoveTime: real

    /** A new ghost is at rest with no path. */
    constructor(x: int, y: int, maze: Maze, now: real)
      ensures this.x == x && this.y == y && this.maze == maze
      ensures path == [] && velocity == 0.0 && lastMoveTime == now
      ensures WellFormed(maze.grid) && InRange(Cell(x, y)) ==> Valid()
    {
      this.x := x;
      this.y := y;
      this.maze := maze;
      path := [];
      velocity := 0.0;
      lastMoveTime := now;
    }

    function Pos(): Cell
      reads this
    {
      Cell(x, y)
    }

    /** The maze is a full board and the ghost stands on it. */
    predicate Valid()
      reads this, maze
    {
      WellFormed(maze.grid) && InRange(Pos())
    }

    /**
     * update: when due, restarts the clock, re-plans a path from the ghost
     * to the player's current cell with the chosen search, and steps onto
     * the path's first cell (wrapped) unless it is a wall, in which case the
     * path is dropped.  Because both searches only return walks over open
     * cells, the ghost stays put exactly when the search returned nothing,
     * and otherwise moves to a wraparound neighbour one step along a shortest
     * walk to the player.
     */
    method Update(playerPos: Cell, alg: Algorithm, now: real)
      requires Valid()
      modifies this
      ensures Valid()
      ensures !Due(now - old(lastMoveTime), old(velocity)) ==> unchanged(this)
      ensures Due(now - old(lastMoveTime), old(velocity)) ==>
                lastMoveTime == now && velocity == old(velocity) &&
                SearchResult(maze.grid, old(Pos()), playerPos, path) &&
                if path == [] then Pos() == old(Pos())
                else Pos() == path[0] && Pos() in Neighbors(maze.grid, old(Pos()))
    {
      var elapsed := now - lastMoveTime;
      if Due(elapsed, velocity) {
        lastMoveTime := now;
        var start := Cell(x, y);
        match alg {
          case UseBfs =>
            path := Bfs.Bfs(maze.grid, start, playerPos);
          case UseAStar =>
            path := AStar.AStar(maze.grid, start, playerPos);
        }
        if |path| > 0 {
          var next := path[0];
          FirstStepOpen(maze.grid, start, playerPos, path);
          var newX := JsRem(next.x + W, W);
          var newY := JsRem(next.y + H, H);
          Unwrapped(next);
          if !maze.IsWall(newX, newY) {
            x := newX;
            y := newY;
          } else {
            // The source drops the path here; a search result never starts on a wall.
            assert false;
          }
        }
      }
    }
  }

  /** Wrapping a cell on the board with the truncating % leaves it where it is. */
  lemma Unwrapped(c: Cell)
    requires InRange(c)
    ensures JsRem(c.x + W, W) == c.x && JsRem(c.y + H, H) == c.y
  {
  }

  /** The first cell of a non-empty search result is an open neighbour of the start. */
  lemma FirstStepOpen(grid: seq<seq<int>>, s: Cell, g: Cell, p: seq<Cell>)
    requires WellFormed(grid) && SearchResult(grid, s, g, p) && p != []
    ensures InRange(p[0]) && IsOpen(grid, p[0]) && p[0] in Neighbors(grid, s)
  {
    assert IsWalkTo(grid, s, g, p);
    WalkIsOpen(grid, s, g, p);
    var w := [s] + p;
    assert w[0] == s && w[1] == p[0];
    assert w[1] in Neighbors(grid, w[0]);
  }

  /**
   * Pursuit: after the ghost takes the first step of a search result, the
   * rest of that result is again a search result from its new cell, so one
   * step brings it exactly one step closer to a reachable player.
   */
  lemma {:induction false} PursuitStep(grid: seq<seq<int>>, s: Cell, g: Cell, p: seq<Cell>)
    requires WellFormed(grid) && SearchResult(grid, s, g, p) && p != []
    ensures SearchResult(grid, p[0], g, p[1..])
  {
    assert IsShortestWalk(grid, s, g, p);
    FirstStepOpen(grid, s, g, p);
    var n, rest := p[0], p[1..];
    if n == g {
      ChainCons(grid, s, [n]);
      assert IsWalkTo(grid, s, g, [n]);
    } else {
      RestIsShortest(grid, s, g, p);
    }
  }

  /** Past its first cell, a shortest walk that has not yet arrived is a shortest walk from there. */
  lemma RestIsShortest(grid: seq<seq<int>>, s: Cell, g: Cell, p: seq<Cell>)
    requires WellFormed(grid) && IsShortestWalk(grid, s, g, p) && p[0] != g
    ensures IsShortestWalk(grid, p[0], g, p[1..])
  {
    var n, rest := p[0], p[1..];
    RestIsWalk(grid, s, g, p);
    forall q | IsWalkTo(grid, n, g, q)
      ensures |rest| <= |q|
    {
      WalkVia(grid, s, n, g, q);
      NoShorterRest(grid, s, g, p, q);
    }
  }

  lemma NoShorterRest(grid: seq<seq<int>>, s: Cell, g: Cell, p: seq<Cell>, q: seq<Cell>)
    requires WellFormed(grid) && IsShortestWalk(grid, s, g, p)
    requires IsWalkTo(grid, s, g, [p[0]] + q)
    ensures |p| - 1 <= |q|
  {
  }

  /** Past its first cell, a walk that has not yet arrived is a walk from there. */
  lemma RestIsWalk(grid: seq<seq<int>>, s: Cell, g: Cell, p: seq<Cell>)
    requires WellFormed(grid) && IsWalkTo(grid, s, g, p) && p[0] != g
    ensures p[0] in Neighbors(grid, s) && IsWalkTo(grid, p[0], g, p[1..])
  {
    var n, rest := p[0], p[1..];
    assert [n] + rest == p;
    var w := [s] + p;
    assert w[0] == s && w[1] == n && w[1] in Neighbors(grid, w[0]);
    ChainTail(grid, s, p);
  }

  /** A walk from a neighbour n of s, with n put in front, is a walk from s. */
  lemma WalkVia(grid: seq<seq<int>>, s: Cell, n: Cell, g: Cell, q: seq<Cell>)
    requires WellFormed(grid) && n in Neighbors(grid, s) && IsWalkTo(grid, n, g, q)
    ensures IsWalkTo(grid, s, g, [n] + q)
  {
    ChainCons(grid, s, [n] + q);
    assert [s] + ([n] + q) == [s] + [n] + q;
  }

  /** Dropping the first cell of a chain leaves a chain. */
  lemma ChainTail(grid: seq<seq<int>>, s: Cell, p: seq<Cell>)
    requires WellFormed(grid) && Chain(grid, [s] + p)
    ensures Chain(grid, p)
  {
    forall i | 0 <= i < |p| - 1
      ensures p[i + 1] in Neighbors(grid, p[i])
    {
      assert ([s] + p)[i + 1] == p[i] && ([s] + p)[i + 2] == p[i + 1];
    }
  }
}
