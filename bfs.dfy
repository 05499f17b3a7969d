/**
 * Breadth-first search over the wraparound grid.  A FIFO queue is expanded
 * in level order; each cell's parent is recorded when it is first seen, and
 * the goal is tested when it is dequeued.  The path is rebuilt by following
 * parents back from the goal until the start, whose parent is null.
 */
module Bfs {
  import opened Grid

  // The ghost map dist gives each discovered cell its BFS level (number of
  // parent links back to the start); the source has no such map.

  /** Parent links: the start has none, every other cell's parent is a discovered neighbour one level up. */
  ghost predicate ParentLinks(grid: seq<seq<int>>, start: Cell, parent: map<Cell, Option<Cell>>, dist: map<Cell, nat>)
    requires WellFormed(grid)
  {
    && parent.Keys == dist.Keys
    && start in parent && parent[start] == None && dist[start] == 0
    && forall c :: c in parent && c != start ==>
         && parent[c].Some?
         && parent[c].value in parent
         && c in Neighbors(grid, parent[c].value)
         && dist[c] == dist[parent[c].value] + 1
  }

  /**
   * The queue holds distinct discovered, unexpanded cells in non-decreasing
   * level order, all at level or level + 1.
   */
  ghost predicate QueueShape(queue: seq<Cell>, parent: map<Cell, Option<Cell>>, dist: map<Cell, nat>, done: set<Cell>, level: nat)
    requires parent.Keys == dist.Keys
  {
    && (forall i :: 0 <= i < |queue| ==>
          queue[i] in parent && queue[i] !in done && level <= dist[queue[i]] <= level + 1)
    && (forall i, j :: 0 <= i < j < |queue| ==> queue[i] != queue[j] && dist[queue[i]] <= dist[queue[j]])
  }

  /** The parts of the state that never change shape: links, and every discovered cell on the board. */
  ghost predicate Links(grid: seq<seq<int>>, start: Cell, parent: map<Cell, Option<Cell>>, dist: map<Cell, nat>)
  {
    WellFormed(grid) && InRange(start) && ParentLinks(grid, start, parent, dist) && parent.Keys <= AllCells()
  }

  /**
   * The loop invariant.  done holds the expanded cells: every discovered cell
   * is expanded or queued, expanded cells are at most at level, the goal has
   * not been expanded, and every neighbour of an expanded cell is discovered
   * at most one level below it.
   */
  ghost predicate BfsInv(grid: seq<seq<int>>, start: Cell, goal: Cell, queue: seq<Cell>,
                         parent: map<Cell, Option<Cell>>, dist: map<Cell, nat>, done: set<Cell>, level: nat)
  {
    && Links(grid, start, parent, dist)
    && QueueShape(queue, parent, dist, done, level)
    && done <= parent.Keys && goal !in done
    && Queued(queue, parent, done)
    && (forall u :: u in done ==> dist[u] <= level && Closed(grid, dist, u))
  }

  /** Every discovered cell that is not expanded is in the queue. */
  ghost predicate Queued(queue: seq<Cell>, parent: map<Cell, Option<Cell>>, done: set<Cell>)
  {
    forall c :: c in parent && c !in done ==> c in queue
  }

  /** Every expanded cell is discovered at most at level. */
  ghost predicate DoneBelow(dist: map<Cell, nat>, done: set<Cell>, level: nat)
  {
    forall u :: u in done ==> u in dist && dist[u] <= level
  }

  /** Every expanded cell other than current is closed. */
  ghost predicate ClosedExcept(grid: seq<seq<int>>, dist: map<Cell, nat>, done: set<Cell>, current: Cell)
    requires WellFormed(grid)
  {
    forall u :: u in done && u != current ==> Closed(grid, dist, u)
  }

  /** The first i cells of ns are discovered at most at level d. */
  ghost predicate DiscoveredUpTo(ns: seq<Cell>, i: nat, parent: map<Cell, Option<Cell>>, dist: map<Cell, nat>, d: nat)
  {
    i <= |ns| && forall j :: 0 <= j < i ==> ns[j] in parent && ns[j] in dist && dist[ns[j]] <= d
  }

  /**
   * The invariant while the neighbours of current (already counted in done)
   * are being discovered: the first i of them are discovered, one level down
   * at most, and current is the one expanded cell not yet known to be closed.
   */
  ghost predicate ExpandInv(grid: seq<seq<int>>, start: Cell, goal: Cell, current: Cell, ns: seq<Cell>, i: nat,
                            queue: seq<Cell>, parent: map<Cell, Option<Cell>>, dist: map<Cell, nat>, done: set<Cell>, level: nat)
  {
    && Links(grid, start, parent, dist)
    && QueueShape(queue, parent, dist, done, level)
    && current in done && done <= parent.Keys && goal !in done
    && current in dist && dist[current] == level
    && Queued(queue, parent, done)
    && DoneBelow(dist, done, level)
    && ClosedExcept(grid, dist, done, current)
    && DiscoveredUpTo(ns, i, parent, dist, level + 1)
  }

  /**
   * bfs(grid, start, goal): [] when start == goal; otherwise a shortest
   * walk from start to goal (start excluded, goal included), or [] when the
   * queue empties without reaching the goal.
   */
  method Bfs(grid: seq<seq<int>>, start: Cell, goal: Cell) returns (path: seq<Cell>)
    requires WellFormed(grid) && InRange(start)
    ensures SearchResult(grid, start, goal, path)
  {
    if start == goal {
      return [];
    }
    var queue := [start];
    var parent: map<Cell, Option<Cell>> := map[start := None];
    ghost var dist: map<Cell, nat> := map[start := 0];
    ghost var done: set<Cell> := {};
    ghost var level: nat := 0;
    Initial(grid, start, goal);
    while queue != []
      invariant BfsInv(grid, start, goal, queue, parent, dist, done, level)
      decreases AllCells() - parent.Keys, |queue|
    {
      ghost var queueBefore := queue;
      var current := queue[0];
      queue := queue[1..];
      if current == goal {
        LevelIsShortest(grid, start, goal, queueBefore, parent, dist, done, level);
        path := ReconstructPath(grid, start, goal, parent, dist);
        return;
      }
      StartExpanding(grid, start, goal, queueBefore, parent, dist, done, level);
      done, level := done + {current}, dist[current];
      var ns := NeighborsWithWraparound(grid, current);
      ghost var keysBefore := parent.Keys;
      queue, parent, dist := DiscoverNeighbors(grid, start, goal, current, ns, queue, parent, dist, done, level);
      Progress(AllCells(), keysBefore, parent.Keys, queueBefore, queue);
    }
    NoWalkWhenExhausted(grid, start, goal, parent, dist, done, level);
    return [];
  }

  /**
   * Each iteration discovers a new cell of the board, or else discovers none
   * and shortens the queue.
   */
  lemma Progress(all: set<Cell>, keys: set<Cell>, keys': set<Cell>, queue: seq<Cell>, queue': seq<Cell>)
    requires keys <= keys' <= all
    requires keys' == keys ==> |queue'| < |queue|
    ensures all - keys' < all - keys || (all - keys' == all - keys && |queue'| < |queue|)
  {
    if keys' != keys {
      var n :| n in keys' && n !in keys;
      assert n in all - keys;
    }
  }

  /** Before the first iteration only the start is discovered and queued. */
  lemma Initial(grid: seq<seq<int>>, start: Cell, goal: Cell)
    requires WellFormed(grid) && InRange(start) && start != goal
    ensures BfsInv(grid, start, goal, [start], map[start := None], map[start := 0], {}, 0)
  {
    InAllCells(start);
  }

  /** Dequeuing current (not the goal) and counting it as expanded sets up the expansion invariant. */
  lemma StartExpanding(grid: seq<seq<int>>, start: Cell, goal: Cell, queue: seq<Cell>,
                       parent: map<Cell, Option<Cell>>, dist: map<Cell, nat>, done: set<Cell>, level: nat)
    requires BfsInv(grid, start, goal, queue, parent, dist, done, level)
    requires |queue| > 0 && queue[0] != goal
    ensures ExpandInv(grid, start, goal, queue[0], [], 0, queue[1..], parent, dist, done + {queue[0]}, dist[queue[0]])
  {
    QueueShift(queue, parent, dist, done, level);
    QueuedShift(queue, parent, done);
    DoneShift(grid, dist, done, level, queue[0]);
  }

  /**
   * Counting current as expanded: the cells expanded before it are closed and
   * at most at its level, which is at least the old level.
   */
  lemma DoneShift(grid: seq<seq<int>>, dist: map<Cell, nat>, done: set<Cell>, level: nat, current: Cell)
    requires WellFormed(grid) && current in dist && level <= dist[current] && done <= dist.Keys
    requires forall u :: u in done ==> dist[u] <= level && Closed(grid, dist, u)
    ensures DoneBelow(dist, done + {current}, dist[current])
    ensures ClosedExcept(grid, dist, done + {current}, current)
  {
  }

  /** Dequeuing the front cell and counting it as expanded keeps the queue's shape at the front cell's level. */
  lemma QueueShift(queue: seq<Cell>, parent: map<Cell, Option<Cell>>, dist: map<Cell, nat>, done: set<Cell>, level: nat)
    requires parent.Keys == dist.Keys && QueueShape(queue, parent, dist, done, level) && |queue| > 0
    ensures QueueShape(queue[1..], parent, dist, done + {queue[0]}, dist[queue[0]])
  {
    var current, rest, level' := queue[0], queue[1..], dist[queue[0]];
    forall i | 0 <= i < |rest|
      ensures rest[i] in parent && rest[i] !in done + {current} && level' <= dist[rest[i]] <= level' + 1
    {
      assert rest[i] == queue[i + 1];
    }
    forall i, j | 0 <= i < j < |rest|
      ensures rest[i] != rest[j] && dist[rest[i]] <= dist[rest[j]]
    {
      assert rest[i] == queue[i + 1] && rest[j] == queue[j + 1];
    }
  }

  /** Every discovered cell not yet expanded is still queued after the front cell leaves. */
  lemma QueuedShift(queue: seq<Cell>, parent: map<Cell, Option<Cell>>, done: set<Cell>)
    requires |queue| > 0 && Queued(queue, parent, done)
    ensures Queued(queue[1..], parent, done + {queue[0]})
  {
    forall c | c in parent && c !in done + {queue[0]}
      ensures c in queue[1..]
    {
      var k :| 0 <= k < |queue| && queue[k] == c;
      assert queue[1..][k - 1] == c;
    }
  }

  /**
   * The neighbour loop: each neighbour not yet in parent gets current as its
   * parent and joins the back of the queue; the first discovery wins.
   */
  method DiscoverNeighbors(grid: seq<seq<int>>, start: Cell, goal: Cell, current: Cell, ns: seq<Cell>,
                           queue: seq<Cell>, parent: map<Cell, Option<Cell>>, ghost dist: map<Cell, nat>,
                           ghost done: set<Cell>, ghost level: nat)
      returns (queue': seq<Cell>, parent': map<Cell, Option<Cell>>, ghost dist': map<Cell, nat>)
    requires ExpandInv(grid, start, goal, current, ns, 0, queue, parent, dist, done, level)
    requires ns == Neighbors(grid, current)
    ensures BfsInv(grid, start, goal, queue', parent', dist', done, level)
    ensures parent.Keys <= parent'.Keys
    ensures Extends(parent, parent', current, ns)
    ensures parent'.Keys == parent.Keys ==> queue' == queue
  {
    queue', parent', dist' := queue, parent, dist;
    for i := 0 to |ns|
      invariant ExpandInv(grid, start, goal, current, ns, i, queue', parent', dist', done, level)
      invariant parent.Keys <= parent'.Keys
      invariant Extends(parent, parent', current, ns)
      invariant parent'.Keys == parent.Keys ==> queue' == queue
    {
      var neighbor := ns[i];
      if neighbor !in parent' {
        DiscoverOne(grid, start, goal, current, ns, i, queue', parent', dist', done, level);
        ExtendsStep(parent, parent', current, ns, neighbor);
        parent' := parent'[neighbor := Some(current)];
        dist' := dist'[neighbor := level + 1];
        queue' := queue' + [neighbor];
      } else {
        KnownNeighbor(grid, start, goal, current, ns, i, queue', parent', dist', done, level);
      }
    }
    FinishExpanding(grid, start, goal, current, ns, queue', parent', dist', done, level);
  }

  /**
   * parent' keeps every link of parent, and each link it adds points from a
   * cell of ns to current.
   */
  ghost predicate Extends(parent: map<Cell, Option<Cell>>, parent': map<Cell, Option<Cell>>, current: Cell, ns: seq<Cell>)
  {
    && (forall c :: c in parent ==> c in parent' && parent'[c] == parent[c])
    && (forall c :: c in parent' && c !in parent ==> parent'[c] == Some(current) && c in ns)
  }

  /** Linking one more cell of ns to current keeps the extension relation. */
  lemma ExtendsStep(parent: map<Cell, Option<Cell>>, parent': map<Cell, Option<Cell>>, current: Cell, ns: seq<Cell>, n: Cell)
    requires Extends(parent, parent', current, ns) && n in ns && n !in parent'
    ensures Extends(parent, parent'[n := Some(current)], current, ns)
  {
  }

  /** Discovering a new neighbour one level down keeps the expansion invariant. */
  lemma DiscoverOne(grid: seq<seq<int>>, start: Cell, goal: Cell, current: Cell, ns: seq<Cell>, i: nat,
                    queue: seq<Cell>, parent: map<Cell, Option<Cell>>, dist: map<Cell, nat>, done: set<Cell>, level: nat)
    requires ExpandInv(grid, start, goal, current, ns, i, queue, parent, dist, done, level)
    requires ns == Neighbors(grid, current) && i < |ns| && ns[i] !in parent
    ensures ExpandInv(grid, start, goal, current, ns, i + 1, queue + [ns[i]],
                      parent[ns[i] := Some(current)], dist[ns[i] := level + 1], done, level)
  {
    var n := ns[i];
    var parent', dist' := parent[n := Some(current)], dist[n := level + 1];
    LinksAdd(grid, start, parent, dist, current, n, level + 1);
    QueueAdd(queue, parent, dist, done, level, n, current);
    ClosedAllGrow(grid, dist, n, level + 1, done, current);
    DiscoveredAdd(ns, i, parent, dist, Some(current), level + 1);
    QueuedAdd(queue, parent, done, n, Some(current));
    DoneBelowAdd(dist, done, level, n, level + 1);
  }

  /** After discovering ns[i], the first i + 1 neighbours are discovered at most one level down. */
  lemma DiscoveredAdd(ns: seq<Cell>, i: nat, parent: map<Cell, Option<Cell>>, dist: map<Cell, nat>,
                      p: Option<Cell>, d: nat)
    requires i < |ns| && DiscoveredUpTo(ns, i, parent, dist, d)
    ensures DiscoveredUpTo(ns, i + 1, parent[ns[i] := p], dist[ns[i] := d], d)
  {
  }

  /** Every discovered, unexpanded cell is queued, including the one just appended. */
  lemma QueuedAdd(queue: seq<Cell>, parent: map<Cell, Option<Cell>>, done: set<Cell>, n: Cell, p: Option<Cell>)
    requires Queued(queue, parent, done)
    ensures Queued(queue + [n], parent[n := p], done)
  {
  }

  /** A cell discovered outside done leaves the levels of done alone. */
  lemma DoneBelowAdd(dist: map<Cell, nat>, done: set<Cell>, level: nat, n: Cell, d: nat)
    requires DoneBelow(dist, done, level) && n !in done
    ensures DoneBelow(dist[n := d], done, level)
  {
  }

  /** Adding a newly discovered neighbour of a discovered cell keeps the parent links. */
  lemma LinksAdd(grid: seq<seq<int>>, start: Cell, parent: map<Cell, Option<Cell>>, dist: map<Cell, nat>,
                 current: Cell, n: Cell, d: nat)
    requires Links(grid, start, parent, dist)
    requires current in parent && n !in parent && n in Neighbors(grid, current) && d == dist[current] + 1
    ensures Links(grid, start, parent[n := Some(current)], dist[n := d])
  {
    NeighborsMembers(grid, current);
    InAllCells(n);
  }

  /** Appending a newly discovered cell one level down keeps the queue shape. */
  lemma QueueAdd(queue: seq<Cell>, parent: map<Cell, Option<Cell>>, dist: map<Cell, nat>, done: set<Cell>, level: nat,
                 n: Cell, p: Cell)
    requires parent.Keys == dist.Keys && QueueShape(queue, parent, dist, done, level)
    requires n !in parent && done <= parent.Keys
    ensures QueueShape(queue + [n], parent[n := Some(p)], dist[n := level + 1], done, level)
  {
    var queue' := queue + [n];
    forall k | 0 <= k < |queue| ensures queue'[k] == queue[k] && queue[k] != n {
    }
  }

  /** Recording one new cell keeps every closed cell closed. */
  lemma ClosedAllGrow(grid: seq<seq<int>>, dist: map<Cell, nat>, n: Cell, d: nat, done: set<Cell>, current: Cell)
    requires WellFormed(grid) && n !in dist
    requires ClosedExcept(grid, dist, done, current)
    ensures ClosedExcept(grid, dist[n := d], done, current)
  {
    forall u | u in done && u != current ensures Closed(grid, dist[n := d], u) {
      ClosedGrows(grid, dist, dist[n := d], u);
    }
  }

  /** A neighbour that is already discovered is at most one level below current. */
  lemma KnownNeighbor(grid: seq<seq<int>>, start: Cell, goal: Cell, current: Cell, ns: seq<Cell>, i: nat,
                      queue: seq<Cell>, parent: map<Cell, Option<Cell>>, dist: map<Cell, nat>, done: set<Cell>, level: nat)
    requires ExpandInv(grid, start, goal, current, ns, i, queue, parent, dist, done, level)
    requires i < |ns| && ns[i] in parent
    ensures ExpandInv(grid, start, goal, current, ns, i + 1, queue, parent, dist, done, level)
  {
    if ns[i] !in done {
      var k :| 0 <= k < |queue| && queue[k] == ns[i];
    }
  }

  /** Once all neighbours are discovered, current is closed and the loop invariant holds again. */
  lemma FinishExpanding(grid: seq<seq<int>>, start: Cell, goal: Cell, current: Cell, ns: seq<Cell>,
                        queue: seq<Cell>, parent: map<Cell, Option<Cell>>, dist: map<Cell, nat>, done: set<Cell>, level: nat)
    requires ExpandInv(grid, start, goal, current, ns, |ns|, queue, parent, dist, done, level)
    requires ns == Neighbors(grid, current)
    ensures BfsInv(grid, start, goal, queue, parent, dist, done, level)
  {
    assert Closed(grid, dist, current) by {
      forall v | v in Neighbors(grid, current) ensures v in dist && dist[v] <= dist[current] + 1 {
        var j :| 0 <= j < |ns| && ns[j] == v;
      }
    }
  }

  /**
   * When the goal is at the head of the queue, its level is at most the
   * length of any walk from the start to it.
   */
  lemma LevelIsShortest(grid: seq<seq<int>>, start: Cell, goal: Cell, queue: seq<Cell>,
                        parent: map<Cell, Option<Cell>>, dist: map<Cell, nat>, done: set<Cell>, level: nat)
    requires BfsInv(grid, start, goal, queue, parent, dist, done, level)
    requires |queue| > 0 && queue[0] == goal
    ensures goal in dist
    ensures forall q :: IsWalkTo(grid, start, goal, q) ==> dist[goal] <= |q|
  {
    forall q | IsWalkTo(grid, start, goal, q) ensures dist[goal] <= |q| {
      var w := [start] + q;
      assert w[|w| - 1] == goal;
      FirstUnsettled(grid, dist, done, w, 0);
      var j :| 0 <= j < |w| && w[j] in dist && w[j] !in done && dist[w[j]] <= j;
      var i :| 0 <= i < |queue| && queue[i] == w[j];
      assert i == 0 || dist[queue[0]] <= dist[queue[i]];
    }
  }

  /** When the queue is empty, every discovered cell is expanded and the goal cannot be reached. */
  lemma NoWalkWhenExhausted(grid: seq<seq<int>>, start: Cell, goal: Cell,
                            parent: map<Cell, Option<Cell>>, dist: map<Cell, nat>, done: set<Cell>, level: nat)
    requires BfsInv(grid, start, goal, [], parent, dist, done, level)
    ensures !Reachable(grid, start, goal)
  {
    if q :| IsWalkTo(grid, start, goal, q) {
      var w := [start] + q;
      assert w[|w| - 1] == goal;
      FirstUnsettled(grid, dist, done, w, 0);
      assert false;
    }
  }

  /**
   * The path reconstruction: walk parent links back from the goal while the parent is
   * not null.  The source pushes each cell and reverses at the end;
   * prepending builds the same sequence.
   */
  method ReconstructPath(grid: seq<seq<int>>, start: Cell, goal: Cell,
                         parent: map<Cell, Option<Cell>>, ghost dist: map<Cell, nat>) returns (path: seq<Cell>)
    requires WellFormed(grid) && ParentLinks(grid, start, parent, dist)
    requires goal in parent && goal != start
    ensures IsWalkTo(grid, start, goal, path)
    ensures |path| == dist[goal]
  {
    path := [];
    var temp := goal;
    while parent[temp] != None
      invariant temp in parent
      invariant |path| + dist[temp] == dist[goal]
      invariant path == [] ==> temp == goal
      invariant path != [] ==> path[|path| - 1] == goal && Chain(grid, [temp] + path)
      decreases dist[temp]
    {
      var p := parent[temp].value;
      if path != [] {
        ChainCons(grid, p, [temp] + path);
      } else {
        ChainCons(grid, p, [temp]);
      }
      path := [temp] + path;
      temp := p;
    }
  }
}
