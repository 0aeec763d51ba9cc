/** bfs: breadth-first search with a FIFO queue (`shift`). */
module Bfs {
  import opened GridModel
  import opened Walks
  import opened Sequences
  import opened Search

  /** The queue holds discovered cells whose depths never decrease from
      front to back and span at most one level. */
  ghost predicate Layered(depth: map<Pos, nat>, queue: seq<Pos>) {
    (forall q :: q in queue ==> q in depth) &&
    forall i, j :: 0 <= i < j < |queue| ==> depth[queue[i]] <= depth[queue[j]] <= depth[queue[i]] + 1
  }

  /** Dequeuing the front and enqueuing its new neighbours one level
      deeper keeps the queue layered. */
  lemma LayeredNext(queue: seq<Pos>, depth: map<Pos, nat>, added: seq<Pos>, depth': map<Pos, nat>)
    requires Layered(depth, queue) && queue != []
    requires Deepened(depth, depth', queue[0], added)
    requires forall q :: q in added ==> q !in depth
    ensures Layered(depth', queue[1..] + added)
  {
    var cur, rest := queue[0], queue[1..];
    var queue' := rest + added;
    forall i, j | 0 <= i < j < |queue'|
      ensures depth'[queue'[i]] <= depth'[queue'[j]] <= depth'[queue'[i]] + 1
    {
      if j < |rest| {
        assert queue'[i] == queue[i + 1] && queue'[j] == queue[j + 1];
      } else if i < |rest| {
        assert queue'[i] == queue[i + 1] && queue'[j] in added;
        assert depth[queue[0]] <= depth[queue[i + 1]] <= depth[queue[0]] + 1;
      } else {
        assert queue'[i] in added && queue'[j] in added;
      }
    }
  }

  /** The cells bfs discovers while expanding the front of a layered queue
      get no larger depth than any walk to them takes moves: a walk to a
      new cell first meets the queue at a cell whose depth is at least the
      front's and at most the moves taken to reach it. */
  lemma ShortestNext(nodes: Nodes, s: Pos, seen: set<Pos>, queue: seq<Pos>,
                     depth: map<Pos, nat>, added: seq<Pos>, depth': map<Pos, nat>)
    requires ClosedBy(nodes, seen, queue) && s in depth
    requires forall q :: q in depth <==> q in seen || q in queue
    requires Layered(depth, queue) && Shortest(nodes, s, depth) && queue != []
    requires Deepened(depth, depth', queue[0], added)
    ensures Shortest(nodes, s, depth')
  {
    forall w | IsWalk(nodes, w) && w[0] == s && w[|w| - 1] in depth'
      ensures depth'[w[|w| - 1]] < |w|
    {
      if w[|w| - 1] !in depth {
        NewCellWalk(nodes, s, seen, queue, depth, w);
      }
    }
  }

  /** A walk from the start to an undiscovered cell takes more moves than
      the depth of the front of the queue. */
  lemma NewCellWalk(nodes: Nodes, s: Pos, seen: set<Pos>, queue: seq<Pos>,
                    depth: map<Pos, nat>, w: seq<Pos>)
    requires ClosedBy(nodes, seen, queue) && s in depth
    requires forall q :: q in depth <==> q in seen || q in queue
    requires Layered(depth, queue) && Shortest(nodes, s, depth) && queue != []
    requires IsWalk(nodes, w) && w[0] == s && w[|w| - 1] !in depth
    ensures depth[queue[0]] + 1 < |w|
  {
    Crossing(nodes, seen, queue, w);
    var k :| 0 <= k < |w| && w[k] in queue;
    PrefixWalk(nodes, w, k);
    assert depth[w[k]] < k + 1;
    var j :| 0 <= j < |queue| && queue[j] == w[k];
    assert depth[queue[0]] <= depth[w[k]] by {
      if j > 0 {
        assert depth[queue[0]] <= depth[queue[j]];
      }
    }
  }

  /** The search loop of bfs on the caller's `nodes`, from `s` to `e`:
      returns whether the end was dequeued, the order in which cells were
      dequeued, and `nodes` with the parent writes the search makes on the
      caller's grid. */
  method BfsOn(nodes: Nodes, s: Pos, e: Pos)
    returns (found: bool, order: seq<Pos>, linked: Nodes, ghost depth: map<Pos, nat>)
    requires Rect(nodes) && InBounds(nodes, s) && InBounds(nodes, e) && s != e
    ensures found <==> Reachable(nodes, s, e)
    ensures Outcome(nodes, s, e, found, order, linked, depth)
    ensures Shortest(nodes, s, depth)
  {
    var queue := [s];
    var seen: set<Pos> := {};
    order, linked, depth := [], nodes, map[s := 0];
    Begin(nodes, s);
    while queue != []
      invariant Searching(nodes, s, seen, queue, order, linked, depth)
      invariant e !in seen
      invariant Layered(depth, queue) && Shortest(nodes, s, depth)
      decreases Cells(nodes) - seen
    {
      ghost var queue0, seen0, order0 := queue, seen, order;
      var cur := queue[0];
      assert cur in depth;
      InCells(nodes, cur);
      queue := queue[1..];
      assert queue == RemoveAt(queue0, 0);
      seen := seen + {cur};
      order := order + [cur];
      if cur == e {
        Pop(nodes, s, seen0, queue0, order0, linked, depth, 0);
        FinishFound(nodes, s, e, seen, queue, order, linked, depth);
        return true, order, linked, depth;
      }
      var linked';
      ghost var depth', added;
      queue, linked', depth', added := Discover(nodes, seen, queue, cur, linked, depth);
      Expand(nodes, s, seen0, queue0, order0, linked, depth, 0, queue, linked', depth', added);
      LayeredNext(queue0, depth, added, depth');
      ShortestNext(nodes, s, seen0, queue0, depth, added, depth');
      linked, depth := linked', depth';
    }
    FinishExhausted(nodes, s, e, seen, order, linked, depth);
    found := false;
  }

  /** bfs(grid): on a grid with different start and end, runs the search,
      writes its parents onto `grid.nodes` and, when the end was reached,
      stores the visited order in `grid.visited`; otherwise changes nothing. */
  method Bfs(grid: Grid) returns (found: bool)
    requires grid.Valid()
    modifies grid
    ensures grid.Valid()
    ensures grid.start == old(grid.start) && grid.end == old(grid.end)
    ensures grid.walls == old(grid.walls) && grid.path == old(grid.path)
    ensures grid.rows == old(grid.rows) && grid.cols == old(grid.cols)
    ensures !Runs(old(grid.start), old(grid.end)) ==> !found && grid.nodes == old(grid.nodes) && grid.visited == old(grid.visited)
    ensures Runs(old(grid.start), old(grid.end)) ==>
      var s, e := old(grid.start).value, old(grid.end).value;
      (found <==> Reachable(old(grid.nodes), s, e)) &&
      (found ==> exists depth :: Outcome(old(grid.nodes), s, e, true, grid.visited, grid.nodes, depth) &&
                                 Shortest(old(grid.nodes), s, depth)) &&
      (!found ==> grid.visited == old(grid.visited) &&
                  exists depth :: Frame(old(grid.nodes), s, grid.nodes, depth) && ParentTree(old(grid.nodes), grid.nodes, s, depth) &&
                                  Shortest(old(grid.nodes), s, depth))
  {
    if !Runs(grid.start, grid.end) {
      return false;
    }
    var order, linked;
    ghost var depth;
    found, order, linked, depth := BfsOn(grid.nodes, grid.start.value, grid.end.value);
    grid.nodes := linked;
    if found {
      grid.visited := order;
    }
  }
}
