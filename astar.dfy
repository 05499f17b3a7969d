/**
 * A* search over the wraparound grid with the toroidal Manhattan heuristic.
 * The frontier is the flat array of Frontier; an entry whose f-cost no
 * longer matches the recorded gScore is skipped when popped (lazy deletion).
 * A cell missing from gScore stands for a gScore of Infinity.
 */
module AStar {
  import opened Grid
  import opened Heuristic
  import opened Frontier

  // The ghost set closed holds the cells whose neighbours have all been
  // relaxed since their gScore last changed; the source keeps no such set.

  /** v's predecessor u is a scored open neighbour with a gScore at least one below v's. */
  ghost predicate Link(grid: seq<seq<int>>, gScore: map<Cell, nat>, v: Cell, u: Cell)
    requires WellFormed(grid)
  {
    v in gScore && u in gScore && v in Neighbors(grid, u) && gScore[u] + 1 <= gScore[v]
  }

  /**
   * The start is scored 0 and has no predecessor; every other scored cell
   * has one, linked as above; every scored cell is on the board.
   */
  ghost predicate Scores(grid: seq<seq<int>>, start: Cell, gScore: map<Cell, nat>, cameFrom: map<Cell, Cell>)
  {
    && WellFormed(grid) && InRange(start) && gScore.Keys <= AllCells()
    && start in gScore && gScore[start] == 0 && start !in cameFrom
    && (forall v :: v in gScore && v != start ==> v in cameFrom)
    && (forall v :: v in cameFrom ==> Link(grid, gScore, v, cameFrom[v]))
  }

  /** Every frontier entry is for a scored cell and never under-estimates gScore + h. */
  ghost predicate EntriesSound(goal: Cell, pq: seq<Entry>, gScore: map<Cell, nat>)
  {
    forall i :: 0 <= i < |pq| ==>
      pq[i].cell in gScore && pq[i].f >= gScore[pq[i].cell] + Manhattan(pq[i].cell, goal)
  }

  /** u has an entry in the frontier whose f-cost matches its current gScore. */
  ghost predicate Pending(goal: Cell, pq: seq<Entry>, gScore: map<Cell, nat>, u: Cell)
    requires u in gScore
  {
    Entry(gScore[u] + Manhattan(u, goal), u) in pq
  }

  /**
   * Closed cells are scored and closed in gScore; the goal is not among
   * them; every other scored cell is pending.
   */
  ghost predicate Settled(grid: seq<seq<int>>, goal: Cell, pq: seq<Entry>, gScore: map<Cell, nat>, closed: set<Cell>)
    requires WellFormed(grid)
  {
    && closed <= gScore.Keys && goal !in closed
    && (forall u :: u in closed ==> Closed(grid, gScore, u))
    && (forall u :: u in gScore && u !in closed ==> Pending(goal, pq, gScore, u))
  }

  /** The loop invariant of astar. */
  ghost predicate AStarInv(grid: seq<seq<int>>, start: Cell, goal: Cell, pq: seq<Entry>,
                           gScore: map<Cell, nat>, cameFrom: map<Cell, Cell>, closed: set<Cell>)
  {
    && Scores(grid, start, gScore, cameFrom)
    && EntriesSound(goal, pq, gScore)
    && Settled(grid, goal, pq, gScore, closed)
  }

  /** c got a gScore it did not have, or a lower one. */
  ghost predicate Improved(gScore: map<Cell, nat>, gScore': map<Cell, nat>, c: Cell)
  {
    c in gScore' && (c !in gScore || gScore'[c] < gScore[c])
  }

  /** No gScore is dropped or raised. */
  ghost predicate Lowers(gScore: map<Cell, nat>, gScore': map<Cell, nat>)
  {
    forall c :: c in gScore ==> c in gScore' && gScore'[c] <= gScore[c]
  }

  /**
   * astar(grid, start, goal): [] when start == goal; otherwise a shortest
   * walk from start to goal (start excluded, goal included), or [] when the
   * frontier empties without reaching the goal.
   */
  method AStar(grid: seq<seq<int>>, start: Cell, goal: Cell) returns (path: seq<Cell>)
    requires WellFormed(grid) && InRange(start)
    ensures SearchResult(grid, start, goal, path)
  {
    if start == goal {
      return [];
    }
    var pq := [Entry(Manhattan(start, goal), start)];
    var gScore: map<Cell, nat> := map[start := 0];
    var cameFrom: map<Cell, Cell> := map[];
    ghost var closed: set<Cell> := {};
    Initial(grid, start, goal);
    while pq != []
      invariant AStarInv(grid, start, goal, pq, gScore, cameFrom, closed)
      decreases AllCells() - gScore.Keys, Potential(gScore), |pq|
    {
      ghost var pqBefore := pq;
      var e, rest := HeapPop(pq);
      ghost var k := MinIndex(pqBefore);
      pq := rest;
      var current := e.cell;
      if e.f > gScore[current] + Manhattan(current, goal) {
        StalePop(grid, start, goal, pqBefore, k, e, rest, gScore, cameFrom, closed);
        Progress(AllCells(), gScore.Keys, gScore.Keys, Potential(gScore), Potential(gScore), |pqBefore|, |rest|);
        continue;
      }
      if current == goal {
        GoalIsOptimal(grid, start, goal, pqBefore, e, gScore, cameFrom, closed);
        path := ReconstructPath(grid, start, goal, gScore, cameFrom);
        return;
      }
      var ns := NeighborsWithWraparound(grid, current);
      ghost var gBefore, cameBefore := gScore, cameFrom;
      pq, gScore, cameFrom := RelaxNeighbors(goal, current, ns, rest, gScore, cameFrom);
      RelaxedSummary(goal, current, ns, Search(rest, gBefore, cameBefore));
      FreshPop(grid, start, goal, pqBefore, k, e, rest, gBefore, cameBefore, closed, ns, pq, gScore, cameFrom);
      closed := StillClosed(closed, current, gBefore, gScore);
      RelaxProgress(gBefore, gScore, pqBefore, rest, pq);
      Progress(AllCells(), gBefore.Keys, gScore.Keys, Potential(gBefore), Potential(gScore), |pqBefore|, |pq|);
    }
    Exhausted(grid, start, goal, gScore, cameFrom, closed);
    return [];
  }

  /** Before the first iteration only the start is scored, with its entry in the frontier. */
  lemma Initial(grid: seq<seq<int>>, start: Cell, goal: Cell)
    requires WellFormed(grid) && InRange(start) && start != goal
    ensures AStarInv(grid, start, goal, [Entry(Manhattan(start, goal), start)], map[start := 0], map[], {})
  {
    InAllCells(start);
  }

  /** The part of astar's state that relaxing the neighbours of a cell updates. */
  datatype Search = Search(pq: seq<Entry>, gScore: map<Cell, nat>, cameFrom: map<Cell, Cell>)

  /**
   * One pass of the loop over current's neighbours: tentative = gScore[current] + 1;
   * when that is below the neighbour's gScore (Infinity when absent) the
   * neighbour gets current as predecessor, the new gScore and a frontier
   * entry with f = tentative + h.  Current keeps its score and n ends up
   * scored at most gScore[current] + 1.
   */
  function RelaxStep(goal: Cell, current: Cell, s: Search, n: Cell): (r: Search)
    requires current in s.gScore
    ensures current in r.gScore && r.gScore[current] == s.gScore[current]
    ensures n in r.gScore && r.gScore[n] <= s.gScore[current] + 1
  {
    var tentative := s.gScore[current] + 1;
    if n !in s.gScore || tentative < s.gScore[n] then
      Search(HeapPush(s.pq, Entry(tentative + Manhattan(n, goal), n)), s.gScore[n := tentative], s.cameFrom[n := current])
    else
      s
  }

  /** Relaxing the neighbours ns of current one after the other, starting from s. */
  function Relaxed(goal: Cell, current: Cell, ns: seq<Cell>, s: Search): (r: Search)
    requires current in s.gScore
    ensures current in r.gScore && r.gScore[current] == s.gScore[current]
    decreases |ns|
  {
    if ns == [] then s
    else RelaxStep(goal, current, Relaxed(goal, current, ns[..|ns| - 1], s), ns[|ns| - 1])
  }

  /** Relaxing one more neighbour extends the fold by one step. */
  lemma RelaxedSnoc(goal: Cell, current: Cell, ns: seq<Cell>, i: nat, s: Search)
    requires current in s.gScore && i < |ns|
    ensures Relaxed(goal, current, ns[..i + 1], s) == RelaxStep(goal, current, Relaxed(goal, current, ns[..i], s), ns[i])
  {
    assert ns[..i + 1][..i] == ns[..i];
  }

  /** The loop over current's neighbours, which updates pq, gScore and cameFrom in place. */
  method RelaxNeighbors(goal: Cell, current: Cell, ns: seq<Cell>,
                        pq: seq<Entry>, gScore: map<Cell, nat>, cameFrom: map<Cell, Cell>)
      returns (pq': seq<Entry>, gScore': map<Cell, nat>, cameFrom': map<Cell, Cell>)
    requires current in gScore
    ensures Search(pq', gScore', cameFrom') == Relaxed(goal, current, ns, Search(pq, gScore, cameFrom))
  {
    pq', gScore', cameFrom' := pq, gScore, cameFrom;
    for i := 0 to |ns|
      invariant Search(pq', gScore', cameFrom') == Relaxed(goal, current, ns[..i], Search(pq, gScore, cameFrom))
    {
      ghost var before := Search(pq', gScore', cameFrom');
      var neighbor := ns[i];
      var tentative := gScore'[current] + 1;
      if neighbor !in gScore' || tentative < gScore'[neighbor] {
        cameFrom' := cameFrom'[neighbor := current];
        gScore' := gScore'[neighbor := tentative];
        pq' := HeapPush(pq', Entry(tentative + Manhattan(neighbor, goal), neighbor));
      }
      assert Search(pq', gScore', cameFrom') == RelaxStep(goal, current, before, neighbor);
      RelaxedSnoc(goal, current, ns, i, Search(pq, gScore, cameFrom));
    }
    assert ns[..|ns|] == ns;
  }


  /** Every improved cell is a neighbour scored gScore[current] + 1, linked to current, with a matching entry. */
  ghost predicate ImprovedCells(goal: Cell, current: Cell, ns: seq<Cell>, gScore: map<Cell, nat>,
                                pq': seq<Entry>, gScore': map<Cell, nat>, cameFrom': map<Cell, Cell>)
    requires current in gScore
  {
    forall c :: Improved(gScore, gScore', c) ==>
      && c in ns && gScore'[c] == gScore[current] + 1 && c in cameFrom' && cameFrom'[c] == current
      && Entry(gScore'[c] + Manhattan(c, goal), c) in pq'
  }

  /** Predecessors of cells that were not improved are kept. */
  ghost predicate KeepsLinks(gScore: map<Cell, nat>, cameFrom: map<Cell, Cell>, gScore': map<Cell, nat>, cameFrom': map<Cell, Cell>)
  {
    && (forall c :: c in cameFrom ==> c in cameFrom')
    && (forall c :: c in cameFrom' ==> Improved(gScore, gScore', c) || (c in cameFrom && cameFrom'[c] == cameFrom[c]))
  }

  /** The old frontier is a prefix of the new one, and every added entry is current for an improved cell. */
  ghost predicate Appends(goal: Cell, pq: seq<Entry>, gScore: map<Cell, nat>, pq': seq<Entry>, gScore': map<Cell, nat>)
  {
    && |pq| <= |pq'| && pq'[..|pq|] == pq
    && (forall i :: |pq| <= i < |pq'| ==>
          Improved(gScore, gScore', pq'[i].cell) && pq'[i].f == gScore'[pq'[i].cell] + Manhattan(pq'[i].cell, goal))
  }

  /** Some cell was improved, or nothing changed at all. */
  ghost predicate ChangedOrSame(pq: seq<Entry>, gScore: map<Cell, nat>, cameFrom: map<Cell, Cell>,
                                pq': seq<Entry>, gScore': map<Cell, nat>, cameFrom': map<Cell, Cell>)
  {
    (exists c :: Improved(gScore, gScore', c)) || (gScore' == gScore && pq' == pq && cameFrom' == cameFrom)
  }

  /** What relaxing the neighbours ns of current changed, and what it kept. */
  ghost predicate Relaxation(goal: Cell, current: Cell, ns: seq<Cell>,
                             pq: seq<Entry>, gScore: map<Cell, nat>, cameFrom: map<Cell, Cell>,
                             pq': seq<Entry>, gScore': map<Cell, nat>, cameFrom': map<Cell, Cell>)
    requires current in gScore
  {
    && ImprovedCells(goal, current, ns, gScore, pq', gScore', cameFrom')
    && KeepsLinks(gScore, cameFrom, gScore', cameFrom')
    && Appends(goal, pq, gScore, pq', gScore')
    && ChangedOrSame(pq, gScore, cameFrom, pq', gScore', cameFrom')
  }


  /**
   * What relaxing the neighbours ns of current guarantees: no score went
   * up, every neighbour is scored at most gScore[current] + 1, and
   * Relaxation describes exactly which cells changed.
   */
  lemma RelaxedSummary(goal: Cell, current: Cell, ns: seq<Cell>, s: Search)
    requires current in s.gScore
    ensures Lowers(s.gScore, Relaxed(goal, current, ns, s).gScore)
    ensures forall n :: n in ns ==>
      n in Relaxed(goal, current, ns, s).gScore && Relaxed(goal, current, ns, s).gScore[n] <= s.gScore[current] + 1
    ensures var r := Relaxed(goal, current, ns, s);
      Relaxation(goal, current, ns, s.pq, s.gScore, s.cameFrom, r.pq, r.gScore, r.cameFrom)
  {
    RelaxedLowers(goal, current, ns, s);
    RelaxedBounded(goal, current, ns, s);
    RelaxedImproved(goal, current, ns, s);
    RelaxedKeepsLinks(goal, current, ns, s);
    RelaxedAppends(goal, current, ns, s);
    RelaxedChangedOrSame(goal, current, ns, s);
  }

  lemma {:induction false} RelaxedLowers(goal: Cell, current: Cell, ns: seq<Cell>, s: Search)
    requires current in s.gScore
    ensures Lowers(s.gScore, Relaxed(goal, current, ns, s).gScore)
    decreases |ns|
  {
    if ns != [] {
      RelaxedLowers(goal, current, ns[..|ns| - 1], s);
      StepLowers(goal, current, Relaxed(goal, current, ns[..|ns| - 1], s), ns[|ns| - 1]);
    }
  }

  /** A gScore changes only when the tentative score is strictly lower. */
  lemma StepLowers(goal: Cell, current: Cell, s: Search, n: Cell)
    requires current in s.gScore
    ensures Lowers(s.gScore, RelaxStep(goal, current, s, n).gScore)
  {
  }

  lemma {:induction false} RelaxedBounded(goal: Cell, current: Cell, ns: seq<Cell>, s: Search)
    requires current in s.gScore
    ensures forall n :: n in ns ==>
      n in Relaxed(goal, current, ns, s).gScore && Relaxed(goal, current, ns, s).gScore[n] <= s.gScore[current] + 1
    decreases |ns|
  {
    if ns != [] {
      var init := ns[..|ns| - 1];
      RelaxedBounded(goal, current, init, s);
      StepLowers(goal, current, Relaxed(goal, current, init, s), ns[|ns| - 1]);
      assert ns == init + [ns[|ns| - 1]];
    }
  }

  lemma {:induction false} RelaxedImproved(goal: Cell, current: Cell, ns: seq<Cell>, s: Search)
    requires current in s.gScore
    ensures var r := Relaxed(goal, current, ns, s);
      ImprovedCells(goal, current, ns, s.gScore, r.pq, r.gScore, r.cameFrom)
    decreases |ns|
  {
    if ns != [] {
      var init, n := ns[..|ns| - 1], ns[|ns| - 1];
      RelaxedImproved(goal, current, init, s);
      ImprovedStep(goal, current, init, n, s.gScore, Relaxed(goal, current, init, s));
      assert ns == init + [n];
    }
  }

  /** Relaxing one more neighbour n keeps ImprovedCells, for the neighbours seen so far and n. */
  lemma ImprovedStep(goal: Cell, current: Cell, ns: seq<Cell>, n: Cell, gScore: map<Cell, nat>, p: Search)
    requires current in gScore && current in p.gScore && p.gScore[current] == gScore[current]
    requires ImprovedCells(goal, current, ns, gScore, p.pq, p.gScore, p.cameFrom)
    ensures var r := RelaxStep(goal, current, p, n);
      ImprovedCells(goal, current, ns + [n], gScore, r.pq, r.gScore, r.cameFrom)
  {
    var r := RelaxStep(goal, current, p, n);
    forall c | Improved(gScore, r.gScore, c)
      ensures && c in ns + [n] && r.gScore[c] == gScore[current] + 1 && c in r.cameFrom && r.cameFrom[c] == current
              && Entry(r.gScore[c] + Manhattan(c, goal), c) in r.pq
    {
      if r != p && c == n {
        NewlyImproved(goal, current, ns, n, gScore, p);
      } else {
        EarlierImproved(goal, current, ns, n, gScore, p, c);
      }
    }
  }

  /** When n is improved it gets gScore[current] + 1, current as predecessor and a matching entry. */
  lemma NewlyImproved(goal: Cell, current: Cell, ns: seq<Cell>, n: Cell, gScore: map<Cell, nat>, p: Search)
    requires current in gScore && current in p.gScore && p.gScore[current] == gScore[current]
    requires RelaxStep(goal, current, p, n) != p
    ensures var r := RelaxStep(goal, current, p, n);
      && n in ns + [n] && r.gScore[n] == gScore[current] + 1 && n in r.cameFrom && r.cameFrom[n] == current
      && Entry(r.gScore[n] + Manhattan(n, goal), n) in r.pq
  {
    var r := RelaxStep(goal, current, p, n);
    assert r.pq[|p.pq|] == Entry(r.gScore[n] + Manhattan(n, goal), n);
  }

  /** A cell improved before n was relaxed keeps its score, link and entry, unless it is n itself. */
  lemma EarlierImproved(goal: Cell, current: Cell, ns: seq<Cell>, n: Cell, gScore: map<Cell, nat>, p: Search, c: Cell)
    requires current in gScore && current in p.gScore && p.gScore[current] == gScore[current]
    requires ImprovedCells(goal, current, ns, gScore, p.pq, p.gScore, p.cameFrom)
    requires var r := RelaxStep(goal, current, p, n); Improved(gScore, r.gScore, c) && (r == p || c != n)
    ensures var r := RelaxStep(goal, current, p, n);
      && c in ns + [n] && r.gScore[c] == gScore[current] + 1 && c in r.cameFrom && r.cameFrom[c] == current
      && Entry(r.gScore[c] + Manhattan(c, goal), c) in r.pq
  {
    var r := RelaxStep(goal, current, p, n);
    assert r.gScore[c] == p.gScore[c] && Improved(gScore, p.gScore, c);
    var k :| 0 <= k < |p.pq| && p.pq[k] == Entry(p.gScore[c] + Manhattan(c, goal), c);
    assert r.pq[k] == p.pq[k];
  }

  lemma {:induction false} RelaxedKeepsLinks(goal: Cell, current: Cell, ns: seq<Cell>, s: Search)
    requires current in s.gScore
    ensures var r := Relaxed(goal, current, ns, s);
      KeepsLinks(s.gScore, s.cameFrom, r.gScore, r.cameFrom)
    decreases |ns|
  {
    if ns != [] {
      var init, n := ns[..|ns| - 1], ns[|ns| - 1];
      RelaxedKeepsLinks(goal, current, init, s);
      RelaxedLowers(goal, current, init, s);
      var p := Relaxed(goal, current, init, s);
      var r := RelaxStep(goal, current, p, n);
      if r != p {
        assert Improved(s.gScore, r.gScore, n);
      }
    }
  }

  lemma {:induction false} RelaxedAppends(goal: Cell, current: Cell, ns: seq<Cell>, s: Search)
    requires current in s.gScore
    ensures var r := Relaxed(goal, current, ns, s);
      Appends(goal, s.pq, s.gScore, r.pq, r.gScore)
    decreases |ns|
  {
    if ns != [] {
      var init, n := ns[..|ns| - 1], ns[|ns| - 1];
      RelaxedAppends(goal, current, init, s);
      RelaxedImproved(goal, current, init, s);
      RelaxedLowers(goal, current, init, s);
      var p := Relaxed(goal, current, init, s);
      var r := RelaxStep(goal, current, p, n);
      if r != p {
        assert !Improved(s.gScore, p.gScore, n);
        assert r.pq[..|s.pq|] == s.pq by {
          assert r.pq[..|p.pq|] == p.pq;
        }
        forall i | |s.pq| <= i < |r.pq|
          ensures Improved(s.gScore, r.gScore, r.pq[i].cell)
               && r.pq[i].f == r.gScore[r.pq[i].cell] + Manhattan(r.pq[i].cell, goal)
        {
          if i < |p.pq| {
            assert r.pq[i] == p.pq[i];
          }
        }
      }
    }
  }

  lemma {:induction false} RelaxedChangedOrSame(goal: Cell, current: Cell, ns: seq<Cell>, s: Search)
    requires current in s.gScore
    ensures var r := Relaxed(goal, current, ns, s);
      ChangedOrSame(s.pq, s.gScore, s.cameFrom, r.pq, r.gScore, r.cameFrom)
    decreases |ns|
  {
    if ns != [] {
      var init, n := ns[..|ns| - 1], ns[|ns| - 1];
      RelaxedChangedOrSame(goal, current, init, s);
      RelaxedLowers(goal, current, init, s);
      var p := Relaxed(goal, current, init, s);
      var r := RelaxStep(goal, current, p, n);
      if r != p {
        assert Improved(s.gScore, r.gScore, n);
      } else if exists c :: Improved(s.gScore, p.gScore, c) {
        var c :| Improved(s.gScore, p.gScore, c);
        assert Improved(s.gScore, r.gScore, c);
      }
    }
  }

  /** The cells still closed after current is relaxed: the old closed cells and current, unless improved. */
  ghost function StillClosed(closed: set<Cell>, current: Cell, gScore: map<Cell, nat>, gScore': map<Cell, nat>): (s: set<Cell>)
    ensures forall c :: c in s <==> c in closed + {current} && c in gScore && c in gScore' && gScore'[c] == gScore[c]
  {
    set c | c in closed + {current} && c in gScore && c in gScore' && gScore'[c] == gScore[c]
  }

  /**
   * A popped entry above its cell's gScore + h is stale: the cell has no
   * cheaper pending entry, so it is closed.
   */
  lemma StaleCellIsClosed(grid: seq<seq<int>>, goal: Cell, pq: seq<Entry>, gScore: map<Cell, nat>, closed: set<Cell>, k: nat)
    requires WellFormed(grid) && Settled(grid, goal, pq, gScore, closed)
    requires k < |pq| && pq[k].cell in gScore && forall i :: 0 <= i < |pq| ==> pq[k].f <= pq[i].f
    requires pq[k].f > gScore[pq[k].cell] + Manhattan(pq[k].cell, goal)
    ensures pq[k].cell in closed
  {
    if pq[k].cell !in closed {
      assert false;
    }
  }

  /** A stale entry is dropped without changing anything else; the invariant holds for the rest. */
  lemma StalePop(grid: seq<seq<int>>, start: Cell, goal: Cell, pq: seq<Entry>, k: nat, e: Entry, rest: seq<Entry>,
                 gScore: map<Cell, nat>, cameFrom: map<Cell, Cell>, closed: set<Cell>)
    requires AStarInv(grid, start, goal, pq, gScore, cameFrom, closed)
    requires k < |pq| && e == pq[k] && rest == RemoveAt(pq, k) && forall i :: 0 <= i < |pq| ==> e.f <= pq[i].f
    requires e.f > gScore[e.cell] + Manhattan(e.cell, goal)
    ensures AStarInv(grid, start, goal, rest, gScore, cameFrom, closed)
  {
    StaleCellIsClosed(grid, goal, pq, gScore, closed, k);
    PendingKept(goal, pq, gScore, closed, k, rest);
    assert EntriesSound(goal, rest, gScore);
  }

  /** Removing the entry of a closed cell keeps every other cell pending. */
  lemma PendingKept(goal: Cell, pq: seq<Entry>, gScore: map<Cell, nat>, closed: set<Cell>, k: nat, rest: seq<Entry>)
    requires k < |pq| && pq[k].cell in closed && rest == RemoveAt(pq, k)
    requires forall u :: u in gScore && u !in closed ==> Pending(goal, pq, gScore, u)
    ensures forall u :: u in gScore && u !in closed ==> Pending(goal, rest, gScore, u)
  {
    forall u | u in gScore && u !in closed ensures Pending(goal, rest, gScore, u) {
      RemoveKeepsOthers(pq, k, Entry(gScore[u] + Manhattan(u, goal), u));
    }
  }

  /**
   * Popping a current entry for a cell other than the goal and relaxing its
   * neighbours keeps the invariant, with current closed and improved cells
   * reopened.
   */
  lemma FreshPop(grid: seq<seq<int>>, start: Cell, goal: Cell, pq: seq<Entry>, k: nat, e: Entry, rest: seq<Entry>,
                 gScore: map<Cell, nat>, cameFrom: map<Cell, Cell>, closed: set<Cell>, ns: seq<Cell>,
                 pq': seq<Entry>, gScore': map<Cell, nat>, cameFrom': map<Cell, Cell>)
    requires AStarInv(grid, start, goal, pq, gScore, cameFrom, closed)
    requires k < |pq| && e == pq[k] && rest == RemoveAt(pq, k)
    requires e.cell != goal && ns == Neighbors(grid, e.cell)
    requires Lowers(gScore, gScore')
    requires forall n :: n in ns ==> n in gScore' && gScore'[n] <= gScore[e.cell] + 1
    requires Relaxation(goal, e.cell, ns, rest, gScore, cameFrom, pq', gScore', cameFrom')
    ensures AStarInv(grid, start, goal, pq', gScore', cameFrom', StillClosed(closed, e.cell, gScore, gScore'))
  {
    var current := e.cell;
    assert current in gScore;
    FreshScores(grid, start, goal, current, ns, rest, gScore, cameFrom, pq', gScore', cameFrom');
    FreshEntries(goal, current, ns, pq, k, rest, gScore, cameFrom, pq', gScore', cameFrom');
    var closed' := StillClosed(closed, current, gScore, gScore');
    FreshClosed(grid, closed, current, gScore, gScore');
    FreshPending(goal, pq, k, rest, gScore, cameFrom, closed, ns, pq', gScore', cameFrom');
  }

  /** The scores and predecessor links stay well formed through a relaxation. */
  lemma FreshScores(grid: seq<seq<int>>, start: Cell, goal: Cell, current: Cell, ns: seq<Cell>,
                    pq: seq<Entry>, gScore: map<Cell, nat>, cameFrom: map<Cell, Cell>,
                    pq': seq<Entry>, gScore': map<Cell, nat>, cameFrom': map<Cell, Cell>)
    requires Scores(grid, start, gScore, cameFrom) && current in gScore && ns == Neighbors(grid, current)
    requires Lowers(gScore, gScore')
    requires Relaxation(goal, current, ns, pq, gScore, cameFrom, pq', gScore', cameFrom')
    ensures Scores(grid, start, gScore', cameFrom')
  {
    NeighborsMembers(grid, current);
    forall v | v in gScore' ensures v in AllCells() {
      if v !in gScore {
        InAllCells(v);
      }
    }
    assert !Improved(gScore, gScore', start);
    assert !Improved(gScore, gScore', current);
    forall v | v in cameFrom' ensures Link(grid, gScore', v, cameFrom'[v]) {
      if !Improved(gScore, gScore', v) {
        assert Link(grid, gScore, v, cameFrom[v]);
      }
    }
  }

  /** The frontier entries stay sound through a pop and a relaxation. */
  lemma FreshEntries(goal: Cell, current: Cell, ns: seq<Cell>, pq: seq<Entry>, k: nat, rest: seq<Entry>,
                     gScore: map<Cell, nat>, cameFrom: map<Cell, Cell>,
                     pq': seq<Entry>, gScore': map<Cell, nat>, cameFrom': map<Cell, Cell>)
    requires EntriesSound(goal, pq, gScore) && current in gScore && Lowers(gScore, gScore')
    requires k < |pq| && rest == RemoveAt(pq, k)
    requires Relaxation(goal, current, ns, rest, gScore, cameFrom, pq', gScore', cameFrom')
    ensures EntriesSound(goal, pq', gScore')
  {
    assert EntriesSound(goal, rest, gScore);
    forall i | 0 <= i < |pq'|
      ensures pq'[i].cell in gScore' && pq'[i].f >= gScore'[pq'[i].cell] + Manhattan(pq'[i].cell, goal)
    {
      if i < |rest| {
        assert pq'[i] == pq'[..|rest|][i];
      }
    }
  }

  /** The cells still closed are closed in the new scores; current has just become so. */
  lemma FreshClosed(grid: seq<seq<int>>, closed: set<Cell>, current: Cell, gScore: map<Cell, nat>, gScore': map<Cell, nat>)
    requires WellFormed(grid) && current in gScore && Lowers(gScore, gScore')
    requires forall u :: u in closed ==> Closed(grid, gScore, u)
    requires forall n :: n in Neighbors(grid, current) ==> n in gScore' && gScore'[n] <= gScore[current] + 1
    ensures forall u :: u in StillClosed(closed, current, gScore, gScore') ==> Closed(grid, gScore', u)
  {
    forall u | u in StillClosed(closed, current, gScore, gScore') ensures Closed(grid, gScore', u) {
      if u != current {
        assert Closed(grid, gScore, u);
      }
    }
  }

  /** Every scored cell that is not still closed is pending in the new frontier. */
  lemma FreshPending(goal: Cell, pq: seq<Entry>, k: nat, rest: seq<Entry>,
                     gScore: map<Cell, nat>, cameFrom: map<Cell, Cell>, closed: set<Cell>, ns: seq<Cell>,
                     pq': seq<Entry>, gScore': map<Cell, nat>, cameFrom': map<Cell, Cell>)
    requires k < |pq| && rest == RemoveAt(pq, k) && pq[k].cell in gScore
    requires forall u :: u in gScore && u !in closed ==> Pending(goal, pq, gScore, u)
    requires Lowers(gScore, gScore')
    requires ImprovedCells(goal, pq[k].cell, ns, gScore, pq', gScore', cameFrom')
    requires Appends(goal, rest, gScore, pq', gScore')
    ensures forall u :: u in gScore' && u !in StillClosed(closed, pq[k].cell, gScore, gScore') ==> Pending(goal, pq', gScore', u)
  {
    OthersKept(goal, pq, k, rest, gScore, closed, pq');
    forall u | u in gScore' && u !in StillClosed(closed, pq[k].cell, gScore, gScore') ensures Pending(goal, pq', gScore', u) {
      CellPending(goal, pq[k].cell, gScore, closed, pq', gScore', u);
    }
  }

  /** The pending cells other than the one popped keep their entries through the pop and the appends. */
  lemma OthersKept(goal: Cell, pq: seq<Entry>, k: nat, rest: seq<Entry>,
                   gScore: map<Cell, nat>, closed: set<Cell>, pq': seq<Entry>)
    requires k < |pq| && rest == RemoveAt(pq, k)
    requires forall u :: u in gScore && u !in closed ==> Pending(goal, pq, gScore, u)
    requires |rest| <= |pq'| && pq'[..|rest|] == rest
    ensures forall u :: u in gScore && u !in closed && u != pq[k].cell ==> Pending(goal, pq', gScore, u)
  {
    forall u | u in gScore && u !in closed && u != pq[k].cell ensures Pending(goal, pq', gScore, u) {
      EntryKept(pq, k, rest, pq', Entry(gScore[u] + Manhattan(u, goal), u));
    }
  }

  /** One open cell: improved cells have their new entry, the others keep their old one. */
  lemma CellPending(goal: Cell, current: Cell, gScore: map<Cell, nat>, closed: set<Cell>,
                    pq': seq<Entry>, gScore': map<Cell, nat>, u: Cell)
    requires forall u :: u in gScore && u !in closed && u != current ==> Pending(goal, pq', gScore, u)
    requires Lowers(gScore, gScore')
    requires Improved(gScore, gScore', u) ==> Pending(goal, pq', gScore', u)
    requires u in gScore' && u !in StillClosed(closed, current, gScore, gScore')
    ensures Pending(goal, pq', gScore', u)
  {
    if !Improved(gScore, gScore', u) {
      assert u in gScore && u !in closed && u != current;
    }
  }

  /** An entry other than the popped one survives the pop and the appends that follow. */
  lemma EntryKept(pq: seq<Entry>, k: nat, rest: seq<Entry>, pq': seq<Entry>, x: Entry)
    requires k < |pq| && rest == RemoveAt(pq, k)
    requires |rest| <= |pq'| && pq'[..|rest|] == rest
    requires x in pq && x.cell != pq[k].cell
    ensures x in pq'
  {
    RemoveKeepsOthers(pq, k, x);
    var j :| 0 <= j < |rest| && rest[j] == x;
    assert pq'[j] == pq'[..|rest|][j];
  }

  /**
   * When a current entry for the goal is popped, its f-cost equals the
   * goal's gScore, and no walk from the start to the goal is shorter.
   */
  lemma GoalIsOptimal(grid: seq<seq<int>>, start: Cell, goal: Cell, pq: seq<Entry>, e: Entry,
                      gScore: map<Cell, nat>, cameFrom: map<Cell, Cell>, closed: set<Cell>)
    requires AStarInv(grid, start, goal, pq, gScore, cameFrom, closed)
    requires e in pq && e.cell == goal && forall i :: 0 <= i < |pq| ==> e.f <= pq[i].f
    requires e.f <= gScore[goal] + Manhattan(goal, goal)
    ensures goal in gScore && e.f == gScore[goal]
    ensures forall q :: IsWalkTo(grid, start, goal, q) ==> gScore[goal] <= |q|
  {
    assert InRange(goal);
    ManhattanIsDistance(goal, goal);
    forall q | IsWalkTo(grid, start, goal, q) ensures e.f <= |q| {
      WalkBound(grid, start, goal, pq, gScore, closed, q);
    }
  }

  /**
   * Every walk from the start to the goal passes a pending cell whose
   * frontier entry has an f-cost no larger than the walk's length.
   */
  lemma WalkBound(grid: seq<seq<int>>, start: Cell, goal: Cell, pq: seq<Entry>,
                  gScore: map<Cell, nat>, closed: set<Cell>, q: seq<Cell>)
    requires WellFormed(grid) && gScore.Keys <= AllCells() && start in gScore && gScore[start] == 0
    requires Settled(grid, goal, pq, gScore, closed) && InRange(goal)
    requires IsWalkTo(grid, start, goal, q)
    ensures exists k :: 0 <= k < |pq| && pq[k].f <= |q|
  {
    var w := [start] + q;
    assert w[|w| - 1] == goal;
    FirstUnsettled(grid, gScore, closed, w, 0);
    var j :| 0 <= j < |w| && w[j] in gScore && w[j] !in closed && gScore[w[j]] <= j;
    var u := w[j];
    var k :| 0 <= k < |pq| && pq[k] == Entry(gScore[u] + Manhattan(u, goal), u);
    HeuristicToEnd(grid, w, j, goal);
  }

  /** Along a chain ending at g, the heuristic at position j is at most the number of moves left. */
  lemma HeuristicToEnd(grid: seq<seq<int>>, w: seq<Cell>, j: nat, g: Cell)
    requires WellFormed(grid) && Chain(grid, w) && j < |w| && w[|w| - 1] == g && InRange(w[j]) && InRange(g)
    ensures Manhattan(w[j], g) <= |w| - 1 - j
  {
    var t := w[j..];
    assert Chain(grid, t) by {
      forall i | 0 <= i < |t| - 1 ensures t[i + 1] in Neighbors(grid, t[i]) {
        assert t[i] == w[j + i] && t[i + 1] == w[j + i + 1];
      }
    }
    ManhattanAlongChain(grid, t, g);
    assert t[|t| - 1] == g;
    ManhattanIsDistance(g, g);
  }

  /** When the frontier is empty every scored cell is closed, so the goal cannot be reached. */
  lemma Exhausted(grid: seq<seq<int>>, start: Cell, goal: Cell,
                  gScore: map<Cell, nat>, cameFrom: map<Cell, Cell>, closed: set<Cell>)
    requires AStarInv(grid, start, goal, [], gScore, cameFrom, closed)
    ensures !Reachable(grid, start, goal)
  {
    if q :| IsWalkTo(grid, start, goal, q) {
      var w := [start] + q;
      assert w[|w| - 1] == goal;
      ChainStaysSettled(grid, gScore, closed, w);
      assert false;
    }
  }

  /**
   * The path reconstruction: follow cameFrom back from the goal while the
   * predecessor is not the start, then add the cell whose predecessor is
   * the start.  The source pushes and reverses; prepending builds the same
   * sequence.  Each step lowers gScore by at least one, so the walk is no
   * longer than the goal's gScore.
   */
  method ReconstructPath(grid: seq<seq<int>>, start: Cell, goal: Cell,
                         gScore: map<Cell, nat>, cameFrom: map<Cell, Cell>) returns (path: seq<Cell>)
    requires Scores(grid, start, gScore, cameFrom)
    requires goal in gScore && goal != start
    ensures IsWalkTo(grid, start, goal, path)
    ensures |path| <= gScore[goal]
  {
    path := [];
    var temp := goal;
    while temp in cameFrom && cameFrom[temp] != start
      invariant Trail(grid, goal, gScore, temp, path) && temp != start
      decreases gScore[temp]
    {
      TrailStep(grid, start, goal, gScore, cameFrom, temp, path);
      path := [temp] + path;
      temp := cameFrom[temp];
    }
    if temp in cameFrom && cameFrom[temp] == start {
      TrailStep(grid, start, goal, gScore, cameFrom, temp, path);
      path := [temp] + path;
    }
  }

  /**
   * The invariant of the reconstruction loop: path leads from temp to the
   * goal along neighbours and is at most the goal's gScore minus temp's long.
   */
  ghost predicate Trail(grid: seq<seq<int>>, goal: Cell, gScore: map<Cell, nat>, temp: Cell, path: seq<Cell>)
    requires WellFormed(grid)
  {
    && temp in gScore && goal in gScore && |path| + gScore[temp] <= gScore[goal]
    && (path == [] ==> temp == goal)
    && (path != [] ==> path[|path| - 1] == goal && Chain(grid, [temp] + path))
  }

  /** Stepping from temp to its predecessor keeps the trail, lowering gScore. */
  lemma TrailStep(grid: seq<seq<int>>, start: Cell, goal: Cell, gScore: map<Cell, nat>, cameFrom: map<Cell, Cell>,
                  temp: Cell, path: seq<Cell>)
    requires Scores(grid, start, gScore, cameFrom)
    requires Trail(grid, goal, gScore, temp, path) && temp in cameFrom
    ensures Trail(grid, goal, gScore, cameFrom[temp], [temp] + path)
    ensures cameFrom[temp] in gScore && gScore[cameFrom[temp]] < gScore[temp]
  {
    var p := cameFrom[temp];
    assert Link(grid, gScore, temp, p);
    ChainCons(grid, p, [temp] + path);
  }

  // ---------------------------------------------------------------------
  // Termination: the sum of all gScores, cell by cell over the board
  // ---------------------------------------------------------------------

  /** The cell numbered i, row by row. */
  function CellOf(i: nat): Cell {
    Cell(i % W, i / W)
  }

  /** Every board cell has a number below W * H. */
  lemma CellIndex(c: Cell)
    requires InRange(c)
    ensures 0 <= c.y * W + c.x < W * H && CellOf(c.y * W + c.x) == c
  {
  }

  /** The sum of the gScores of cells 0 .. n - 1, absent cells counting 0. */
  ghost function PotentialUpTo(gScore: map<Cell, nat>, n: nat): nat {
    if n == 0 then 0
    else PotentialUpTo(gScore, n - 1) + (if CellOf(n - 1) in gScore then gScore[CellOf(n - 1)] else 0)
  }

  ghost function Potential(gScore: map<Cell, nat>): nat {
    PotentialUpTo(gScore, W * H)
  }

  /** Lowering scores without adding cells never raises the sum, and lowering one lowers it. */
  lemma {:induction false} PotentialLowers(gScore: map<Cell, nat>, gScore': map<Cell, nat>, n: nat, i: nat)
    requires gScore'.Keys == gScore.Keys && Lowers(gScore, gScore')
    ensures PotentialUpTo(gScore', n) <= PotentialUpTo(gScore, n)
    ensures i < n && CellOf(i) in gScore && gScore'[CellOf(i)] < gScore[CellOf(i)] ==>
      PotentialUpTo(gScore', n) < PotentialUpTo(gScore, n)
  {
    if n > 0 {
      PotentialLowers(gScore, gScore', n - 1, i);
    }
  }

  /**
   * A relaxation either scores a new cell, lowers the sum of the scores,
   * or changes nothing, in which case the frontier has shrunk by the pop.
   */
  lemma RelaxProgress(gScore: map<Cell, nat>, gScore': map<Cell, nat>, pq: seq<Entry>, rest: seq<Entry>, pq': seq<Entry>)
    requires gScore.Keys <= AllCells() && Lowers(gScore, gScore') && |rest| < |pq|
    requires (exists c :: Improved(gScore, gScore', c)) || (gScore' == gScore && pq' == rest)
    ensures gScore'.Keys == gScore.Keys ==>
      Potential(gScore') < Potential(gScore) || (Potential(gScore') == Potential(gScore) && |pq'| < |pq|)
  {
    if gScore'.Keys == gScore.Keys && exists c :: Improved(gScore, gScore', c) {
      var c :| Improved(gScore, gScore', c);
      assert InRange(c);
      CellIndex(c);
      PotentialLowers(gScore, gScore', W * H, c.y * W + c.x);
    }
  }

  /** The lexicographic decrease of the main loop, component by component. */
  lemma Progress(all: set<Cell>, keys: set<Cell>, keys': set<Cell>, p: nat, p': nat, n: nat, n': nat)
    requires keys <= keys' <= all
    requires keys' == keys ==> p' < p || (p' == p && n' < n)
    ensures all - keys' < all - keys || (all - keys' == all - keys && (p' < p || (p' == p && n' < n)))
  {
    if keys' != keys {
      var c :| c in keys' && c !in keys;
      assert c in all - keys;
    }
  }
}
