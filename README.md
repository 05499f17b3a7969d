# Pac-Man chase: a verified model of the pathfinding and pursuit core

This project models the game logic in `game.js` of the Pac-Man web game.
The model covers these parts:

- The board is a 30 × 22 grid of 0 (path) and 1 (wall) cells. Moving off one edge re-enters at the opposite edge.
- `getNeighborsWithWraparound` expands a cell on this torus.
- Two searches chase the player: breadth-first search (`bfs`) and A* (`astar`).
- `astar` uses the toroidal Manhattan heuristic (`manhattanDistance`) and a flat-array priority queue (`heappop`/`heappush`).
- The two movers, `Player.move` and `Ghost.update`, consult `Maze.isWall`.
- The scoring and level rules of `Game`: eating, `checkProgression`, `updateGhostAI`, `resetGame` and the collision check.

Modules, one file each:

- `Grid` (grid.dfy): cells, the neighbour expansion, and walks. Both searches are specified against `SearchResult`. It holds `[]` when start equals goal. Otherwise it holds a shortest walk from start to goal, or `[]` when the goal is unreachable. A walk excludes its start, includes its goal, and steps between wraparound neighbours.
- `Heuristic` (heuristic.dfy): `manhattanDistance` and three properties on the torus. It is admissible and consistent. On a board without walls it is exact: it equals the length of a shortest walk.
- `Frontier` (frontier.dfy): `heappop` as a linear scan plus splice, and `heappush` as an append.
- `Bfs` (bfs.dfy) and `AStar` (astar.dfy): the two searches. Each is an imperative loop over the queue and maps, with its invariants and a proof of `SearchResult`.
- `Actors` (actors.dfy): `Maze`, `Player` and `Ghost` as classes whose methods update their fields.
- `Progression` (progression.dfy): the score and level fields of `Game` as a class. `Eat`, `CheckProgression` and `UpdateGhostAI` are proved equal to specification functions, and the rules are proved about those functions. The constructor, `InitializeLevelContent`, `ResetGame` and `CheckCollision` state their whole new state.

Timing is modelled with real numbers. `performance.now()` becomes a parameter `now`. A mover is due when `now - lastMoveTime >= (1 / velocity) * 1000`. A velocity of 0 gives JavaScript's infinite interval, so the mover is never due.

Randomness becomes an input. The board is given to the `Maze` constructor. The food and fruit a level starts with are parameters of the methods that re-initialise a level.

## Model

| member | source | states |
|---|---|---|
| Grid.Step | PacMan/pacman_project/game_app/static/game_app/js/game.js:98-103 | one move with `(v + d + size) % size` always lands on the board |
| Grid.NeighborsWithWraparound | PacMan/pacman_project/game_app/static/game_app/js/game.js:91-111 | the loop over the four directions returns exactly `Neighbors`: the open wrapped cells among +x, −x, +y, −y, in that order |
| Grid.NeighborsMembers | PacMan/pacman_project/game_app/static/game_app/js/game.js:91-111 | at most 4 neighbours; a cell is a neighbour iff it is one of the four wrapped moves and holds 0; every neighbour is on the board |
| Grid.NeighborsInDirectionOrder | PacMan/pacman_project/game_app/static/game_app/js/game.js:97-109 | the result is the +x, −x, +y, −y targets in that order, each kept only if open |
| Grid.WalkIsOpen | PacMan/pacman_project/game_app/static/game_app/js/game.js:126-149 | every cell of a walk is on the board and open |
| Grid.EmptyResult | PacMan/pacman_project/game_app/static/game_app/js/game.js:116-152 | a search returns `[]` iff start equals goal or the goal is unreachable (the same holds for `astar`, lines 186-252) |
| Grid.SearchResultsSameLength | PacMan/pacman_project/game_app/static/game_app/js/game.js:186-252 | any two results meeting the search contract have the same length, so `astar` and `bfs` return paths of equal length |
| Grid.ChainCons | PacMan/pacman_project/game_app/static/game_app/js/game.js:143-147 | a chain of neighbours can be extended at the front by a neighbour of its first cell |
| Heuristic.ManhattanIsDistance | PacMan/pacman_project/game_app/static/game_app/js/game.js:157-166 | on the board the heuristic is non-negative, at most W/2 + H/2, symmetric, and zero exactly on equal cells |
| Heuristic.AxisStep | PacMan/pacman_project/game_app/static/game_app/js/game.js:158-163 | one wrapped unit move changes an axis distance by at most one |
| Heuristic.CandidateMoves | PacMan/pacman_project/game_app/static/game_app/js/game.js:97-103 | each wrapped move is a unit move along one axis that leaves the other axis unchanged |
| Heuristic.NeighborIsOneAway | PacMan/pacman_project/game_app/static/game_app/js/game.js:157-166 | a wraparound neighbour is at heuristic distance 1 |
| Heuristic.NeighborStep | PacMan/pacman_project/game_app/static/game_app/js/game.js:157-166 | consistency: one move changes the distance to any cell by at most 1 |
| Heuristic.ManhattanAlongChain | PacMan/pacman_project/game_app/static/game_app/js/game.js:157-166 | along a chain of neighbours the heuristic drops by at most the number of moves |
| Heuristic.Admissible | PacMan/pacman_project/game_app/static/game_app/js/game.js:157-166 | the heuristic never exceeds the length of any walk between two cells |
| Heuristic.AxisCloser | PacMan/pacman_project/game_app/static/game_app/js/game.js:158-163 | along one axis, the unit move toward the other coordinate, directly or round the edge, lowers the wrapped axis distance by exactly one |
| Heuristic.CloserNeighbor | PacMan/pacman_project/game_app/static/game_app/js/game.js:157-166 | on a board without walls, every cell other than the target has a wraparound neighbour one heuristic step closer to it |
| Heuristic.WalkOfHeuristicLength | PacMan/pacman_project/game_app/static/game_app/js/game.js:157-166 | on a board without walls, some walk between two distinct cells is exactly as long as the heuristic |
| Heuristic.HeuristicIsDistance | PacMan/pacman_project/game_app/static/game_app/js/game.js:157-166 | on a board without walls, the heuristic is the length of a shortest walk between two distinct cells; with `Admissible`, it is the torus distance |
| Frontier.MinIndex | PacMan/pacman_project/game_app/static/game_app/js/game.js:172-177 | the scanned index holds the smallest f, and every earlier entry has a strictly larger f (first minimum wins ties) |
| Frontier.RemoveAt | PacMan/pacman_project/game_app/static/game_app/js/game.js:178 | `splice(k, 1)` removes one element; the elements before k stay in place and the ones after it shift down by one |
| Frontier.HeapPop | PacMan/pacman_project/game_app/static/game_app/js/game.js:171-179 | returns the first entry of smallest f and the rest in order; the returned entry and the rest together are the old array as a multiset |
| Frontier.HeapPush | PacMan/pacman_project/game_app/static/game_app/js/game.js:181 | the new entry is last and the old entries are unchanged before it |
| Frontier.PushedIsPoppedIff | PacMan/pacman_project/game_app/static/game_app/js/game.js:171-181 | a pushed entry is popped next iff its f is strictly below every entry already present |
| Frontier.RemoveKeepsOthers | PacMan/pacman_project/game_app/static/game_app/js/game.js:178 | splicing out one entry keeps every other entry |
| Bfs.Bfs | PacMan/pacman_project/game_app/static/game_app/js/game.js:116-152 | the result satisfies `SearchResult`: `[]` when start equals goal; else a shortest walk to the goal when one exists; else `[]` |
| Bfs.Initial | PacMan/pacman_project/game_app/static/game_app/js/game.js:120-124 | the queue `[start]` with parent `start → null` satisfies the loop invariant |
| Bfs.DiscoverNeighbors | PacMan/pacman_project/game_app/static/game_app/js/game.js:143-149 | the neighbour loop keeps the invariant; known cells keep their parent (first discovery wins); new cells get `current` as parent and are queued |
| Bfs.LevelIsShortest | PacMan/pacman_project/game_app/static/game_app/js/game.js:126-141 | when the goal is dequeued, its BFS level is at most the length of any walk to it |
| Bfs.NoWalkWhenExhausted | PacMan/pacman_project/game_app/static/game_app/js/game.js:126-151 | when the queue empties without the goal, no walk reaches the goal |
| Bfs.ReconstructPath | PacMan/pacman_project/game_app/static/game_app/js/game.js:130-140 | walking parents back from the goal yields a walk from the start (excluded) to the goal whose length is the goal's level |
| AStar.AStar | PacMan/pacman_project/game_app/static/game_app/js/game.js:186-252 | the result satisfies `SearchResult`, the same contract as `bfs` |
| AStar.Initial | PacMan/pacman_project/game_app/static/game_app/js/game.js:192-204 | the frontier `[h(start), start]` with `gScore[start] = 0` satisfies the loop invariant |
| AStar.RelaxStep | PacMan/pacman_project/game_app/static/game_app/js/game.js:235-248 | one relaxation leaves current's score alone and leaves the neighbour scored at most `gScore[current] + 1` |
| AStar.Relaxed | PacMan/pacman_project/game_app/static/game_app/js/game.js:234-249 | relaxing all the neighbours never changes current's own score |
| AStar.RelaxedSnoc | PacMan/pacman_project/game_app/static/game_app/js/game.js:234-249 | relaxing one more neighbour is one more relaxation step on the result so far |
| AStar.RelaxNeighbors | PacMan/pacman_project/game_app/static/game_app/js/game.js:234-249 | the in-place loop over the neighbours leaves pq, gScore and cameFrom exactly as the fold of relaxation steps |
| AStar.StepLowers | PacMan/pacman_project/game_app/static/game_app/js/game.js:240-242 | a score changes only when the tentative score is strictly lower, so no score rises or disappears |
| AStar.RelaxedLowers | PacMan/pacman_project/game_app/static/game_app/js/game.js:234-249 | over the whole neighbour loop, recorded gScores never increase |
| AStar.RelaxedBounded | PacMan/pacman_project/game_app/static/game_app/js/game.js:234-249 | after the loop every neighbour is scored at most `gScore[current] + 1` |
| AStar.RelaxedImproved | PacMan/pacman_project/game_app/static/game_app/js/game.js:240-247 | every cell whose score improved is a neighbour, scored `gScore[current] + 1`, linked to current, with a matching frontier entry |
| AStar.RelaxedKeepsLinks | PacMan/pacman_project/game_app/static/game_app/js/game.js:240-241 | a predecessor changes only for an improved cell |
| AStar.RelaxedAppends | PacMan/pacman_project/game_app/static/game_app/js/game.js:247 | the old frontier is a prefix of the new one, and every added entry carries its cell's new f |
| AStar.RelaxedChangedOrSame | PacMan/pacman_project/game_app/static/game_app/js/game.js:234-249 | some cell improved, or pq, gScore and cameFrom are all unchanged |
| AStar.RelaxedSummary | PacMan/pacman_project/game_app/static/game_app/js/game.js:234-249 | all of the above for one expansion |
| AStar.StaleCellIsClosed | PacMan/pacman_project/game_app/static/game_app/js/game.js:211-213 | a popped minimum whose f exceeds `gScore + h` belongs to a cell already expanded, so skipping it loses nothing |
| AStar.GoalIsOptimal | PacMan/pacman_project/game_app/static/game_app/js/game.js:206-215 | when a fresh minimum entry for the goal is popped, its f equals `gScore[goal]`, which is at most the length of any walk to the goal |
| AStar.WalkBound | PacMan/pacman_project/game_app/static/game_app/js/game.js:206-213 | while a walk to the goal exists, the frontier holds an entry whose f is at most that walk's length |
| AStar.Exhausted | PacMan/pacman_project/game_app/static/game_app/js/game.js:206-251 | when the frontier empties, the goal is unreachable |
| AStar.ReconstructPath | PacMan/pacman_project/game_app/static/game_app/js/game.js:215-231 | following cameFrom back from the goal to the start's successor yields a walk from the start (excluded) to the goal no longer than `gScore[goal]` |
| AStar.TrailStep | PacMan/pacman_project/game_app/static/game_app/js/game.js:219-223 | each step back along cameFrom reaches a cell with a strictly lower gScore that still leads to the goal |
| Actors.Maze.constructor | PacMan/pacman_project/game_app/static/game_app/js/game.js:259-266 | a maze holding the given board |
| Actors.Maze.IsWall | PacMan/pacman_project/game_app/static/game_app/js/game.js:315-320 | a cell that is not a wall is on the board; an open cell is never a wall; on a board of 0s and 1s, wall iff not open |
| Actors.TunnelWraps | PacMan/pacman_project/game_app/static/game_app/js/game.js:280-312 | on a generated board the two tunnel cells are neighbours across the edges, and every other edge cell is a wall |
| Actors.JsRem | PacMan/pacman_project/game_app/static/game_app/js/game.js:393-394 | JavaScript's truncating `%` agrees with Dafny's for a non-negative dividend and is in (−m, 0] for a negative one |
| Actors.DueExactly | PacMan/pacman_project/game_app/static/game_app/js/game.js:381-386 | for a positive velocity, a mover is due iff elapsed × velocity ≥ 1000 |
| Actors.DueCharacterised | PacMan/pacman_project/game_app/static/game_app/js/game.js:461-466 | a mover that is due stays due after a longer wait, and also at a higher velocity |
| Actors.PlayerMoveIsNeighbor | PacMan/pacman_project/game_app/static/game_app/js/game.js:390-401 | from a cell on the board a unit move targets the same wrapped cell the searches expand, and that cell is open iff it is a wraparound neighbour |
| Actors.Player.constructor | PacMan/pacman_project/game_app/static/game_app/js/game.js:362-372 | a new player is at rest, facing +x, with no buffered input |
| Actors.Player.HandleInput | PacMan/pacman_project/game_app/static/game_app/js/game.js:374-376 | buffers the direction and changes nothing else |
| Actors.Player.Move | PacMan/pacman_project/game_app/static/game_app/js/game.js:380-406 | not due: nothing changes. Due: the buffered (else current) direction is tried, and the player moves to the wrapped target iff it is not a wall, adopting that direction only then. The buffer is always cleared, the clock restarted, and a moved player is on the board |
| Actors.Ghost.constructor | PacMan/pacman_project/game_app/static/game_app/js/game.js:448-459 | a new ghost is at rest with an empty path; placed on the board of a full-size maze, it is valid |
| Actors.Ghost.Update | PacMan/pacman_project/game_app/static/game_app/js/game.js:461-492 | not due: nothing changes. Due: the clock restarts, and the path meets `SearchResult` from the ghost to the live player cell, which is what either search returns. The ghost stays put iff that path is empty; otherwise it moves to `path[0]`, a wraparound neighbour. The ghost stays on the board |
| Actors.Unwrapped | PacMan/pacman_project/game_app/static/game_app/js/game.js:481-482 | wrapping a cell that is already on the board leaves it unchanged |
| Actors.FirstStepOpen | PacMan/pacman_project/game_app/static/game_app/js/game.js:476-486 | the first cell of a non-empty search result is an open neighbour of the start, so `isWall` is false there |
| Actors.PursuitStep | PacMan/pacman_project/game_app/static/game_app/js/game.js:461-492 | after the ghost's step, the rest of the path is again a search result from its new cell: each move brings it exactly one step closer to a reachable player |
| Actors.RestIsShortest | PacMan/pacman_project/game_app/static/game_app/js/game.js:476-486 | past its first cell, a shortest walk that has not arrived is a shortest walk from that cell |
| Progression.Fruit.Points | PacMan/pacman_project/game_app/static/game_app/js/game.js:535-551 | a fruit scores (a multiple of 10, at most 30) exactly when its kind is cherry, strawberry or orange |
| Progression.FoodIndex | PacMan/pacman_project/game_app/static/game_app/js/game.js:856 | −1 iff the cell holds no pellet; otherwise the first position holding it |
| Progression.FruitIndex | PacMan/pacman_project/game_app/static/game_app/js/game.js:863-865 | −1 iff no fruit stands on the cell; otherwise the first fruit standing on it |
| Progression.TotalPoints | PacMan/pacman_project/game_app/static/game_app/js/game.js:535-551 | the fruit points on the board are a multiple of 10, at most 30 per fruit |
| Progression.TotalPointsRemove | PacMan/pacman_project/game_app/static/game_app/js/game.js:866-868 | splicing out one fruit takes exactly its points off the total |
| Progression.RemoveAtMultiset | PacMan/pacman_project/game_app/static/game_app/js/game.js:858 | a splice removes one copy of the element and nothing else |
| Progression.FoodEaten | PacMan/pacman_project/game_app/static/game_app/js/game.js:856-860 | eating removes one pellet from the cell when there is one, and nothing else |
| Progression.EatFood | PacMan/pacman_project/game_app/static/game_app/js/game.js:856-860 | when the cell holds a pellet, the first such pellet (by `findIndex`) is spliced out for 1 point; otherwise nothing changes. One point moves from the board to the score, and nothing but score and food changes |
| Progression.EatFruit | PacMan/pacman_project/game_app/static/game_app/js/game.js:863-869 | when a fruit stands on the cell, the first such fruit (by `findIndex`) is spliced out and its points are added to the score; otherwise nothing changes. The score plus the fruit points on the board is kept, and nothing but score and fruit changes |
| Progression.AfterEating | PacMan/pacman_project/game_app/static/game_app/js/game.js:855-869 | food first, then fruit: the first pellet and the first fruit on the cell are spliced out, and the score rises by 1 for the pellet plus the fruit's points. The score plus the points left on the board is conserved, the score never drops, and only score, food and fruit change |
| Progression.NextProgress | PacMan/pacman_project/game_app/static/game_app/js/game.js:785-812 | call by call: a board with food or fruit left outside a pause is untouched; an emptied board starts a pause with the timer at 119; a pause counts down. The call that ends the pause has three outcomes. Below MAX_LEVEL with the score at the threshold, it goes up a level on the fresh content, raises the threshold by 100 × the new level and sets the level's search. On MAX_LEVEL with the score at the threshold, it sets Win. Otherwise it replays the level on the fresh content. The score never changes, `threshold − 50·level·(level+1)` is kept, and a search that matches the level keeps matching it |
| Progression.RepeatSnoc | PacMan/pacman_project/game_app/static/game_app/js/game.js:785-812 | n + 1 calls are n calls followed by one more |
| Progression.Countdown | PacMan/pacman_project/game_app/static/game_app/js/game.js:792-794 | during the pause, each call only counts the timer down |
| Progression.LevelPause | PacMan/pacman_project/game_app/static/game_app/js/game.js:786-794 | clearing a level pauses it for LEVEL_CLEARED_DURATION (120) calls. The first call sets the pause flag and the timer, the next 118 only count the timer down, and the 120th ends the pause |
| Progression.ThresholdFromStart | PacMan/pacman_project/game_app/static/game_app/js/game.js:797-800 | from a level-1 start with threshold 100, the level stays in 1..4 and the threshold is `50·L·(L+1)` (100, 300, 600, 1000) |
| Progression.Game.constructor | PacMan/pacman_project/game_app/static/game_app/js/game.js:575-606 | a new game: score 0, threshold 100, playing, fresh level content, and the ghost's search set for the level |
| Progression.Game.UpdateGhostAI | PacMan/pacman_project/game_app/static/game_app/js/game.js:766-779 | records the level's search and changes nothing else |
| Progression.Game.InitializeLevelContent | PacMan/pacman_project/game_app/static/game_app/js/game.js:712-764 | installs the given food and fruit and ends any pause |
| Progression.Game.ResetGame | PacMan/pacman_project/game_app/static/game_app/js/game.js:698-710 | a hard reset gives score 0, level 1 and threshold 100; a soft reset keeps them; both resume play on fresh content with the level's search |
| Progression.Game.Eat | PacMan/pacman_project/game_app/static/game_app/js/game.js:855-869 | the new state is `AfterEating` of the old one |
| Progression.Game.CheckCollision | PacMan/pacman_project/game_app/static/game_app/js/game.js:873-879 | the status becomes GameOver iff the player and the ghost share a cell; nothing else changes |
| Progression.Game.CheckProgression | PacMan/pacman_project/game_app/static/game_app/js/game.js:785-812 | the new state is `NextProgress` of the old one |

## Left out

- The board size is fixed at 30 × 22 for every function. `getNeighborsWithWraparound` reads the size from the grid, while `manhattanDistance` and `astar` use the global constants. The model requires the grid to have that size, so the two readings agree.
- The searches are modelled only for a start cell on the board. The ghost always stands on the board.
- `bfs` and `astar` are proved to return paths of the same length, not the same path. On ties they may pick different shortest walks.
- The loop in `astar` at lines 196-203 sets every open cell's gScore to Infinity. The model leaves it out and treats an absent gScore as Infinity. This is exactly how line 238 reads a missing key. The loop only ever touches open cells, and those always carry the Infinity entry.
- Cells are pairs of integers rather than the source's `"x,y"` string keys, so the key parsing at lines 136, 208 and 220 has no counterpart.
- Actors.Ghost.Update: the contract says the path meets `SearchResult`, which both searches guarantee, but not which of the two searches ran. The body calls the one `alg` names. The searches are methods, so there is no function to compare the path with.
- Actors.Ghost.Update: the source's `path = []` branch, taken when `path[0]` is a wall, is provably unreachable. Both searches only step onto open cells of the same board. The model puts an `assert false` in that branch instead of the assignment.
- `performance.now()` and the floating-point interval become real-number arithmetic. Rounding of doubles is not modelled.
- Random maze generation (`Maze.generate`, lines 265-312) is not part of this model. The board is an input to the `Maze` constructor. `Generated` states only the fixed edge walls and tunnel cells of a generated board.
- The random food and fruit layout of `initializeLevelContent` (lines 712-764) is not part of this model. The resulting food and fruit lists are inputs.
- `initializeLevelContent` also regenerates the maze, puts the player and the ghost back at their start cells, clears `nextMove` and the ghost's path, and sets the speeds with `applySpeedScaling`. The model does not capture these effects, because they belong to the other objects.
- `Game.update` (lines 838-882) is not part of this model: the per-frame sequencing of the player move, the ghost update, eating, progression and the collision check. Its eating and collision rules are modelled separately, as `Eat` and `CheckCollision`.
- The ghost's `color` and `algorithm` string fields are left out. The chosen search is passed to `Ghost.Update` as an `Algorithm` value, and `Game` records it.
- Drawing, the canvas, the message box and UI updates, keyboard and touch handlers, the animation loop, cookies, `saveScoreToBackend` and the Django back end are left out. They are rendering, input and network I/O.
