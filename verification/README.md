# AISearch grid search and maze generation in Dafny

This project models the core of AISearch, a grid pathfinding visualiser.

- **The grid model.** A grid is a rectangular matrix of nodes.
  - A search or the maze generator receives a grid object holding that matrix.
  - The object also holds its optional start and end nodes, its walls, the visited order and the path.
  - `createGrid` builds a fresh grid.
  - `getNeighbors` lists the open neighbours of a node, in the order top, right, bottom, left.
  - `getPath` follows parent links back from the end.
- **The four searches** are `bfs`, `dfs`, `dijkstra` and `aStar`.
  - Each one works on a copy of the node matrix.
  - Each one writes parent links onto the caller's nodes.
  - Each one stores the visited order on the grid when it reaches the end.
- **The maze generator** is `recursiveDivision`.
  - It walls the outline of a copy.
  - It then cuts the interior into smaller and smaller sections with walls that leave a gap.
  - It keeps the walls only when `bfs` still finds a way from the start to the end.
- **The Grid component.** Its click handler sets or clears the start and end and toggles walls. An effect then marks each of these nodes with its role.

Modules and what they hold:

- `GridModel` (grid_model.dfy):
  - positions and nodes;
  - the `Grid` class, whose fields the searches update;
  - `Neighbors`, `NewNodes`, the `Grid` constructor and `GetPath`.
- `Walks` (walks.dfy): what the searches are measured against.
  - A walk is a chain of steps between orthogonally adjacent cells that enters no wall.
  - Reachability means that such a walk exists.
  - There are lemmas about closed sets and about parent trees.
- `Sequences` (sequences.dfy):
  - duplicate-freedom;
  - the stable sort `Array.prototype.sort` performs, as a stable insertion sort with a comparator.
- `Search` (search.dfy):
  - the loop invariant bfs, dfs and aStar share;
  - their common neighbour loop;
  - the lemmas that finish a search.
- `Bfs`, `Dfs`, `Dijkstra` and `AStar` each hold two methods:
  - one with the source's search loop on the node matrix;
  - one that applies its result to a `Grid`.
- `Maze` (maze.dfy): the division loop, the invariant it keeps and `recursiveDivision`.
- `GridView` (grid_view.dfy): the click handler and the syncing effect, on a board of node types.

What the model proves:

- A search returns `found` exactly when the end can be reached from the start.
- Its visited order starts at the start, lists each cell once, never a wall, and ends at the end when it succeeded.
- The parent links a search writes on the discovered cells form a tree rooted at the start.
  - When the start itself has no parent, `getPath` follows that tree and returns a walk from the start to the end.
  - Parents left by an earlier run are not cleared, so without that condition the chain can loop (see "## Left out").
- In `bfs` every depth in the tree is the length of a shortest walk. So the path `getPath` returns is a shortest one.
- In `dijkstra` the same holds for `g`, when the start is the only node marked `isStart`. In that case the cells are also expanded in order of their distance.
- At each extraction, Dijkstra and A* take a cell that is waiting at that moment, and whose key (`g` or `f`) is no greater than that of any other waiting cell.
  - A cell is waiting when it is the start or an unvisited neighbour of a visited cell.
  - For Dijkstra, the `g` of a waiting cell is pinned by its own definition: the least of its initial value and `g(p) + 1` over the cells `p` expanded so far that step onto it.
- A maze run walls the outline and draws every cut with its gap open.
  - It divides every region it pops until the region is too thin to cut. Every cell inside the outline ends on a cut line or in a region skipped as too thin.
  - Each cut divides the first region or one half of an earlier cut, and no region is cut twice.
  - It reports success exactly when the walled copy still leads from the start to the end.

## Model

| member | source | states |
|---|---|---|
| GridModel.Around | src/utils.ts:8-11 | the candidate cells are exactly the in-bounds orthogonal neighbours, at most four, in top, right, bottom, left order |
| GridModel.Unwalled | src/utils.ts:12 | the filter keeps exactly the candidates that are not walls, and no more than it was given |
| GridModel.UnwalledKeepsOrder | src/utils.ts:12 | filtering keeps the top, right, bottom, left order |
| GridModel.Neighbors | src/utils.ts:4-13 | at most four cells: exactly the in-bounds adjacent cells that are not walls, in top, right, bottom, left order |
| GridModel.SetParent | src/utils.ts:99 | only the parent of the written node changes, and it becomes the given cell |
| GridModel.NewNodes | src/utils.ts:37-55 | `width` rows of `height` nodes (none for a negative count); node [x][y] has row x and column y, all flags false, g = h = f = 0 and no parent |
| GridModel.Grid.constructor | src/utils.ts:34-70 | a grid of those nodes with no start or end, rows = width, cols = height, and empty walls, visited order and path |
| GridModel.LinkedCons | src/utils.ts:27 | putting the parent in front of a parent-linked chain keeps it parent-linked |
| GridModel.GetPath | src/utils.ts:23-32 | on a parent chain that ends, the result ends at `end`, each element is the parent of the next, the first has no parent, and a node without parent gives `[end]` |
| Walks.ReachableRefl | src/utils.ts:84 | the start is reachable from itself |
| Walks.ReachableExtend | src/utils.ts:93-94 | a step from a reachable cell to an open neighbour reaches that neighbour |
| Walks.ClosedKeepsWalk | src/utils.ts:93-101 | a walk that starts in a set no step leaves stays in it |
| Walks.Unreachable | src/utils.ts:103 | a closed set holding the start but not the end proves the end unreachable |
| Walks.TreeReachable | src/utils.ts:96-99 | every cell of the parent tree is reachable from its root |
| Walks.TreeEndsWithin | src/utils.ts:23-32 | from any tree cell the parent chain ends within its depth, so getPath terminates |
| Walks.TreePath | src/utils.ts:23-32 | a parent-linked chain ending at a tree cell and starting at a node without parent is a walk from the root, one cell per tree level |
| Walks.TreePathShortest | src/utils.ts:23-32 | when the tree depths are shortest walk lengths, the chain getPath follows is a walk from the root no longer than any walk from the root to the same cell |
| Sequences.RemoveAt | src/utils.ts:86 | removing one element (`shift`, `pop`) keeps the other members and, without duplicates, drops exactly that one |
| Sequences.AppendNoDups | src/utils.ts:95 | appending cells not yet present keeps a sequence duplicate-free |
| Sequences.PermutationNoDups | src/utils.ts:172 | a permutation of a duplicate-free frontier is duplicate-free |
| Sequences.SortBy | src/utils.ts:172 | the frontier sort is a permutation of its input |
| Sequences.SortBySorted | src/utils.ts:172 | under a total preorder the sort orders the frontier |
| Sequences.SortBySortedInput | src/utils.ts:193 | the sort is stable: an input already in order is left as it is |
| Search.Begin | src/utils.ts:82-84 | the start alone in the frontier satisfies the search invariant |
| Search.AdmitNext | src/utils.ts:93-95 | each neighbour is admitted exactly when it is neither visited nor queued, in neighbour order and once |
| Search.Discover | src/utils.ts:93-101 | the frontier grows by exactly the neighbours neither visited nor queued, in neighbour order; each gets the current cell as parent and one more depth; nothing else changes |
| Search.Expand | src/utils.ts:85-101 | taking a frontier cell and expanding it keeps the invariant: a parent tree of discovered cells, the frontier apart from the visited cells, and every step out of a visited cell discovered |
| Search.Pop | src/utils.ts:86-92 | taking a frontier cell without expanding it keeps everything but closure |
| Search.OrderOpen | src/utils.ts:87-88 | every visited cell after the start is open |
| Search.FinishFound | src/utils.ts:89-92 | taking the end ends the search with the end reachable and the visited order ending at it |
| Search.FinishExhausted | src/utils.ts:103 | an empty frontier without the end visited proves the end unreachable |
| Search.PathAfterSearch | src/utils.ts:23-32 | after a successful search from a start without parent, getPath(end) terminates and returns a walk from start to end |
| Search.Permuted | src/utils.ts:193 | reordering the frontier keeps its members, its separation from the visited cells and closure |
| Search.PermutedSearching | src/utils.ts:193 | reordering the frontier keeps the search invariant |
| Search.PopApart | src/utils.ts:152 | taking any frontier cell keeps the frontier apart from the visited cells |
| Search.Crossing | src/utils.ts:93-101 | every walk from a discovered cell to a cell not yet visited passes through the frontier |
| Search.WaitingNext | src/utils.ts:86-95 | after a frontier cell is taken and its new neighbours are appended, the frontier is exactly the cells not yet taken that are the start or next to a taken cell |
| Bfs.LayeredNext | src/utils.ts:85-101 | dequeuing the front and enqueuing its new neighbours one level deeper keeps the queue's depths non-decreasing and within one of each other |
| Bfs.NewCellWalk | src/utils.ts:85-101 | any walk from the start to a cell not yet discovered is longer than the front's depth plus one |
| Bfs.ShortestNext | src/utils.ts:85-101 | one dequeue-and-expand step keeps every depth at most the length of any walk to its cell |
| Bfs.BfsOn | src/utils.ts:82-103 | found exactly when the end is reachable; a visited order and parent tree as above; every depth is at most the length of any walk to its cell, so the tree is a shortest-path tree |
| Bfs.Bfs | src/utils.ts:74-104 | without distinct start and end, nothing changes; otherwise found exactly when reachable, parents written on discovered cells as a shortest-path tree, visited order stored only on success |
| Dfs.DfsOn | src/utils.ts:115-135 | found exactly when the end is reachable; a visited order and parent tree as above |
| Dfs.Dfs | src/utils.ts:106-137 | without distinct start and end, false and nothing changes; otherwise found exactly when reachable; parents change only on discovered cells other than the start and form a tree rooted at the start; on success the stored visited order starts at the start, holds each cell once, only open cells after the start, and ends at the end; on failure the visited order is kept |
| Dijkstra.ByGTotal | src/utils.ts:172 | the comparator `a.g - b.g` is a total preorder, Infinity included |
| Dijkstra.NoRelaxFromInfinity | src/utils.ts:161-162 | a relaxation never fires from a cell whose g is Infinity |
| Dijkstra.RegradeOne | src/utils.ts:163 | recording one more lowered g keeps the relaxation bookkeeping |
| Dijkstra.NotEarlier | src/utils.ts:4-13 | no neighbour repeats an earlier one |
| Dijkstra.Untouched | src/utils.ts:159-171 | a cell not relaxed keeps its g |
| Dijkstra.LowerNext | src/utils.ts:159-163 | one neighbour keeps the relaxation bookkeeping and leaves the current cell's g as it was |
| Dijkstra.LowerStep | src/utils.ts:159-163 | one neighbour is relaxed exactly when unvisited and g(current) + 1 < its g |
| Dijkstra.Relax | src/utils.ts:158-171 | exactly the unvisited neighbours with g(current) + 1 below their g get that g and the current cell as parent; unvisited neighbours not queued are appended in order |
| Dijkstra.Begin | src/utils.ts:143-150 | the start alone in the frontier satisfies the invariant |
| Dijkstra.GrowReached | src/utils.ts:170 | the cells added to the frontier are reachable and open |
| Dijkstra.GrowGraded | src/utils.ts:159-171 | each relaxed cell's parent is a visited neighbour whose g is one less |
| Dijkstra.GrowRooted | src/utils.ts:143 | with the start the only isStart node, every discovered cell but the start has been relaxed |
| Dijkstra.FrontLeast | src/utils.ts:151-172 | the front of the sorted frontier has the least g |
| Dijkstra.GAtLeast | src/utils.ts:143-171 | the g a cell has after a run of expansions is no greater than its initial g or than g(p) + 1 for any expanded cell p stepping onto it, and equals one of these |
| Dijkstra.GAtFrame | src/utils.ts:159-171 | that g depends only on the g of the expanded cells |
| Dijkstra.TrackNext | src/utils.ts:159-171 | after one relaxation pass every cell not yet expanded still has that g |
| Dijkstra.PickKept | src/utils.ts:152-172 | a recorded extraction stays true when later relaxations change only cells already expanded after it |
| Dijkstra.PickNew | src/utils.ts:152-154 | taking the front of the sorted frontier records the extraction of a waiting cell whose g, and the g of every other waiting cell, is that g, and the front's is the least |
| Dijkstra.PickedOne | src/utils.ts:151-172 | each extraction takes a waiting cell whose g is no greater than that of any other cell then waiting (the start or an unvisited neighbour of an expanded cell), with every g the one fixed by the earlier expansions |
| Dijkstra.Iterate | src/utils.ts:151-172 | one iteration, sort included, keeps the invariant |
| Dijkstra.Ending | src/utils.ts:151-174 | at any exit every relaxed cell is a reachable cell other than the start with a finite g, and with no isStart node no parent was written |
| Dijkstra.GradedTree | src/utils.ts:143-166 | with the start the only isStart node, the parents form a tree rooted at the start whose depths are the g values |
| Dijkstra.ClimbNext | src/utils.ts:151-172 | with the start the only isStart node, one iteration keeps the expanded g values non-decreasing and none above a frontier g |
| Dijkstra.ClimbTake | src/utils.ts:152 | taking the front of the frontier keeps the expanded g values non-decreasing |
| Dijkstra.RelaxedWalk | src/utils.ts:162-164 | a g lowered by a relaxation is below the length of every walk from the start to that cell |
| Dijkstra.BoundNext | src/utils.ts:159-171 | relaxation keeps every g below the length of every walk from the start to its cell |
| Dijkstra.RankNext | src/utils.ts:151-172 | one iteration, sort included, keeps that ordering and bounding invariant |
| Dijkstra.ShortestFrom | src/utils.ts:143-171 | g values bounded by walk lengths are shortest walk lengths |
| Dijkstra.RankedFrom | src/utils.ts:151-154 | expanded cells with non-decreasing g are expanded in order of distance |
| Dijkstra.Finish | src/utils.ts:152-157 | taking the end ends the search with it reachable and the visited order ending at it |
| Dijkstra.TakePicked | src/utils.ts:152-154 | taking the front of the sorted frontier records the extraction of a least-g cell among the waiting cells |
| Dijkstra.TakeRanked | src/utils.ts:152-154 | with the start the only isStart node, taking the front keeps the cells expanded in order of distance |
| Dijkstra.Settled | src/utils.ts:143-174 | at any exit only relaxed cells changed, and with the start the only isStart node the parents form a shortest-path tree whose depths are the g values |
| Dijkstra.Exhausted | src/utils.ts:151-174 | an empty frontier without the end visited proves the end unreachable, with the cells expanded in order of distance |
| Dijkstra.DijkstraOn | src/utils.ts:143-174 | found exactly when reachable; each extraction took a cell then waiting whose g was no greater than that of any cell then waiting, each g being the least of the initial g and g(p) + 1 over the cells p expanded before it; parents change only on relaxed reachable cells; with the start the only isStart node the parents form a shortest-path tree with depths g and cells are expanded in order of distance; with no isStart node nothing changes |
| Dijkstra.Dijkstra | src/utils.ts:139-175 | the guard; found exactly when reachable; the visited order stored only on success; parents written as DijkstraOn states, the shortest-path tree included, and on success the distance order and the least-g extraction order |
| AStar.ByFTotal | src/utils.ts:193 | the comparator `a.f - b.f` is a total preorder |
| AStar.Score | src/utils.ts:201-212 | exactly the neighbours neither visited nor queued join the frontier with the current cell as parent, g = g(current) + 1, h = distance to the end, f = g + h |
| AStar.FrontLeast | src/utils.ts:193-194 | the front of the sorted frontier has the least f |
| AStar.PickedOne | src/utils.ts:193-194 | with the frontier exactly the waiting cells, taking the front of the f-sorted frontier records the extraction of a waiting cell whose f is no greater than any waiting cell's |
| AStar.Rescore | src/utils.ts:187-205 | scores of new cells keep g equal to the tree depth, h the distance and f = g + h |
| AStar.Resorted | src/utils.ts:193-194 | sorting by f keeps the invariant, and its front is a least-f pick among the waiting cells |
| AStar.Popped | src/utils.ts:194-195 | the front is an in-bounds, scored, discovered cell not yet visited |
| AStar.FoundEnd | src/utils.ts:196-199 | taking the end ends the search with it reachable and the visited order ending at it |
| AStar.Advance | src/utils.ts:201-212 | expanding the current cell keeps the invariant, the least-f record included |
| AStar.AStarOn | src/utils.ts:181-214 | found exactly when reachable; the parent tree; the start has g = h = f = 0, every other scored cell g = depth, h = distance, f = g + h; each extracted cell was waiting when taken, and its f was no greater than that of any cell then waiting |
| AStar.AStar | src/utils.ts:177-215 | the guard, parents written, visited order stored only on success, with the scores and the least-f extraction order of AStarOn |
| Maze.Pick | src/utils.ts:248-249 | `Math.floor(r * (hi - lo + 1)) + lo` lies in `lo..hi` |
| Maze.SetWall | src/utils.ts:237 | only the node at the cell changes, and only to a wall |
| Maze.Outline | src/utils.ts:236-241 | exactly the border cells are walled and listed, in row-major order, and nothing else changes |
| Maze.WallOne | src/utils.ts:254-255 | walling and listing one more cell keeps the copy and the list in step |
| Maze.Draw | src/utils.ts:252-257 | the cells walled are exactly those of the line outside the gap other than the start and end, each listed once after the earlier walls |
| Maze.Halves | src/utils.ts:259-272 | the two pushed sections cover the region off the cut line and share no cell |
| Maze.HalvesLighter | src/utils.ts:242-297 | the two sections weigh less than the region, so the loop ends |
| Maze.PushTwo | src/utils.ts:259-260 | pushing two sections adds their weights |
| Maze.CutKeeps | src/utils.ts:250-296 | a cut and its walls keep the division invariant |
| Maze.StackSplits | src/utils.ts:259-260 | the new sections stay off the outline and apart from the rest of the stack |
| Maze.WallsOff | src/utils.ts:254-256 | the new sections hold no listed wall |
| Maze.LinesOff | src/utils.ts:259-260 | the new sections avoid every cut line |
| Maze.MazeGrows | src/utils.ts:250-258 | adding a cut's walls keeps the maze facts |
| Maze.Top | src/utils.ts:233 | the first region holds exactly the cells off the outline |
| Maze.Starts | src/utils.ts:233-241 | after the outline pass the division invariant holds with that region on the stack |
| Maze.SkipReaches | src/utils.ts:243-246 | skipping a thin region keeps every inner cell on a cut line, on the stack or in a skipped region |
| Maze.SpawnedGrows | src/utils.ts:259-260 | a region pushed before a cut still counts as pushed after it |
| Maze.LineageNext | src/utils.ts:242-260 | cutting the region on top of the stack, which was pushed and is not a region already cut, keeps every cut a division of the first region or of a half of an earlier cut |
| Maze.CutReaches | src/utils.ts:250-296 | replacing a cut region by its halves keeps every inner cell on a cut line, on the stack or in a skipped region |
| Maze.Divide | src/utils.ts:233-297 | the copy has exactly the listed cells walled, once each; the border is walled; every other wall is on a cut line outside its gap; every cut walls its line outside the gap, start and end; each cut follows the size and shape rule; each cut divides the first region or a half of an earlier cut, and no region is cut twice; every inner cell lies on a cut line or in a pushed region skipped as too thin |
| Maze.EndOnBorder | src/utils.ts:236-241 | an end on the outline is walled, so no maze reaches it |
| Maze.RecursiveDivision | src/utils.ts:220-304 | without distinct start and end or on a grid under 3 by 3, false and nothing changes; otherwise a maze divided down to thin regions by cuts that each divide the first region or a half of an earlier one, no region twice, true exactly when the walled copy leads from start to end, and then grid.walls is the listed walls; the grid's nodes never change |
| GridView.SetType | src/components/Grid.tsx:26 | only the clicked node's type changes |
| GridView.Without | src/components/Grid.tsx:66 | the filter drops exactly the clicked node, keeps a list duplicate-free and leaves a list without it unchanged |
| GridView.ClickStart | src/components/Grid.tsx:20-39 | an end or wall node is refused; the start is unset, swapped or defined; the cleared old start becomes default and every other node keeps its type |
| GridView.ClickEnd | src/components/Grid.tsx:40-59 | as ClickStart with start and end exchanged |
| GridView.ClickWall | src/components/Grid.tsx:60-71 | a start or end node is refused; otherwise the wall list is exactly the filtered or extended list, a removed wall becomes default and every other node keeps its type |
| GridView.Click | src/components/Grid.tsx:19-75 | only the mode's own field changes; any other mode changes nothing |
| GridView.Synced | src/components/Grid.tsx:77-99 | every node shows its role, walls over end over start; start, end and walls stay |
| GridView.SettlesIff | src/components/Grid.tsx:77-99 | a second run of the effect calls setGrid exactly when start, end and walls are not all different nodes |
| GridView.TypesExt | src/components/Grid.tsx:97 | boards whose node types agree are equal |
| GridView.SyncedShown | src/components/Grid.tsx:77-99 | on a board that shows its roles the effect changes nothing |
| GridView.SyncedTwice | src/components/Grid.tsx:77-99 | running the effect twice equals running it once |
| GridView.ClickShown | src/components/Grid.tsx:19-99 | a click followed by the effect keeps every node showing exactly its role, with start, end and walls apart |
| GridView.ShownApart | src/components/Grid.tsx:77-99 | on a board that shows its roles, start, end and walls are different nodes |
| GridView.ClickTwice | src/components/Grid.tsx:19-99 | clicking a default node twice in a drawing mode (with no start or end set for those modes), each click followed by the effect, restores the board |
| GridView.WithoutLast | src/components/Grid.tsx:66-68 | removing the wall just appended restores the list |
| GridView.MarkNext | src/components/Grid.tsx:91-96 | marking one more wall keeps the marking bookkeeping and raises the flag exactly when it was not shown as a wall |
| GridView.MarkEnds | src/components/Grid.tsx:81-90 | marks start then end; the flag says whether either changed |
| GridView.MarkedAll | src/components/Grid.tsx:91-97 | once every wall is marked the board is the synced one |
| GridView.Mark | src/components/Grid.tsx:79-96 | the marked board is the synced one and the flag is raised exactly when some role node did not show its role |
| GridView.GridView.HandleNodeClick | src/components/Grid.tsx:19-75 | with no grid nothing changes; otherwise the grid becomes Click of it |
| GridView.GridView.Sync | src/components/Grid.tsx:77-99 | with no grid nothing changes and no flag; otherwise the grid becomes Synced of it and the flag is raised exactly when it was not marked |

## Left out

- Node identity is by position. `grid.start === grid.end` and `includes` compare node objects; the model compares positions. Every node of a matrix has its own position, so the two agree.
- Node fields: the model keeps row, column, g, h, f, the flags utils.ts reads and writes (isStart, isEnd, isWall, isVisited, isPath) and the parent. It leaves out `id`, `neighbors` and `distance`, which the core never reads.
  - src/utils/types.ts does not declare the flags; the model follows utils.ts, which uses them.
- Grid fields left out: `width`, `height` and `size`, which the core does not use. `rows` and `cols` are kept as createGrid sets them.
- The searches' working copies are not modelled as objects.
  - The copy's `isVisited` is the caller's flag or membership in the set of cells taken so far.
  - The parent writes on the copy match those on the caller's nodes and are not kept separately.
- JavaScript numbers are Dafny `int` for coordinates and counts, `ExtNat` (a natural number or Infinity) for Dijkstra's g, and `real` for A*'s scores.
  - Floating-point rounding is left out.
  - The source's `Infinity - Infinity` in the sort comparator gives NaN, which the sort treats as equal; the model takes that reading.
- Dijkstra.DijkstraOn: the shortest-path tree and the distance order are stated only when the start is the only node marked `isStart`.
- Dijkstra.DijkstraOn and AStar.AStarOn do not state which of several waiting cells with the same least key is taken.
  - The stable sort keeps such cells in frontier order, and the first one is taken. With no node marked `isStart`, every g is Infinity, so Dijkstra takes the cells first-in first-out, as bfs does.
  - The model promises only that the cell taken was waiting and had a least key.
  - The copy gives g = 0 to every `isStart` node (src/utils.ts:143). A node left marked by an earlier start would then count as a second source, and g would not be the distance from the start.
- AStar.AStarOn: `getDistance` (src/utils.ts:15-21) uses `Math.sqrt`, which has no Dafny counterpart. The distance to the end is the parameter `dist`, so the model does not state that h is the Euclidean distance.
- AStar.Score writes the new cells' g, h and f after the neighbour loop, not inside it. The scores do not steer that loop, so the result is the same.
- Sequences.SortBy: `Array.prototype.sort` is modelled as a stable insertion sort. Any stable sort under the same comparator gives the same order.
- Maze.RecursiveDivision and Maze.Divide:
  - `Math.random()` is the parameter `rand`, a sequence of draws in [0, 1) taken in turn.
  - The bfs run on the walled copy writes its parents and visited order onto a discarded object, so the model uses only its answer.
  - `gap` is an integer.
- GridModel.GetPath and Search.PathAfterSearch: the searches never clear the parents an earlier run left on the caller's nodes, and never write the start's own parent.
  - So a second search from another start can close a parent cycle. On a 1 by 2 grid, run from (0,0) to (0,1) and then from (0,1) to (0,0); getPath then loops forever.
  - Nothing in the modelled files resets parents between runs.
  - The model promises that getPath ends only when the start has no parent. Search.PathAfterSearch and Walks.TreePathShortest require this, and GetPath takes a chain that ends.
- GridView: the board holds only each node's type and the grid's start, end and walls.
  - The visited order, path, rows, columns, mouse state and animation state of the component are not modelled.
  - `setGrid` is modelled as an immediate update.
  - The `console.log` calls are left out.
- GridView.GridView.Sync: the repeated runs of the effect after `setGrid` are not modelled as a loop. Sync models one run, and GridView.SettlesIff states when the next run stops.
- The `prims` and `kruskals` stubs (src/utils.ts:306-314) only answer false and are not modelled.
- The other components, the animation and window resizing are not part of this model.
