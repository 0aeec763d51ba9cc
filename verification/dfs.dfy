/** dfs: depth-first search with a LIFO stack (`pop`). */
module Dfs {
  import opened GridModel
  import opened Walks
  import opened Sequences
  import opened Search

  /** The search loop of dfs on the caller's `nodes`, from `s` to `e`:
      returns whether the end was popped, the order in which cells were
      popped, and `nodes` with the parent writes the search makes on the
      caller's grid. */
  method DfsOn(nodes: Nodes, s: Pos, e: Pos)
    returns (found: bool, order: seq<Pos>, linked: Nodes, ghost depth: map<Pos, nat>)
    requires Rect(nodes) && InBounds(nodes, s) && InBounds(nodes, e) && s != e
    ensures found <==> Reachable(nodes, s, e)
    ensures Outcome(nodes, s, e, found, order, linked, depth)
  {
    var stack := [s];
    var seen: set<Pos> := {};
    order, linked, depth := [], nodes, map[s := 0];
    Begin(nodes, s);
    while stack != []
      invariant Searching(nodes, s, seen, stack, order, linked, depth)
      invariant e !in seen
      decreases Cells(nodes) - seen
    {
      ghost var stack0, seen0, order0 := stack, seen, order;
      var cur := stack[|stack| - 1];
      assert cur in depth;
      InCells(nodes, cur);
      stack := stack[..|stack| - 1];
      assert stack == RemoveAt(stack0, |stack0| - 1);
      seen := seen + {cur};
      order := order + [cur];
      if cur == e {
        Pop(nodes, s, seen0, stack0, order0, linked, depth, |stack0| - 1);
        FinishFound(nodes, s, e, seen, stack, order, linked, depth);
        return true, order, linked, depth;
      }
      var linked';
      ghost var depth', added;
      stack, linked', depth', added := Discover(nodes, seen, stack, cur, linked, depth);
      Expand(nodes, s, seen0, stack0, order0, linked, depth, |stack0| - 1, stack, linked', depth', added);
      linked, depth := linked', depth';
    }
    FinishExhausted(nodes, s, e, seen, order, linked, depth);
    found := false;
  }

  /** dfs(grid): on a grid with different start and end, runs the search,
      writes its parents onto `grid.nodes` and, when the end was reached,
      stores the visited order in `grid.visited`; otherwise changes nothing. */
  method Dfs(grid: Grid) returns (found: bool)
    requires grid.Valid()
    modifies grid
    ensures grid.Valid()
    ensures grid.start == old(grid.start) && grid.end == old(grid.end)
    ensures grid.walls == old(grid.walls) && grid.path == old(grid.path)
    ensures grid.rows == old(grid.rows) && grid.cols == old(grid.cols)
    ensures !Runs(old(grid.start), old(grid.end)) ==> !found && grid.nodes == old(grid.nodes) && grid.visited == old(grid.visited)
    ensures Runs(old(grid.start), old(grid.end)) ==>
      var s, e := old(grid.start).value, old(grid.end).value;
      (found <==> Reachable(old(grid.nodes), s, e)) &&
      (found ==> exists depth :: Outcome(old(grid.nodes), s, e, true, grid.visited, grid.nodes, depth)) &&
      (!found ==> grid.visited == old(grid.visited) &&
                  exists depth :: Frame(old(grid.nodes), s, grid.nodes, depth) && ParentTree(old(grid.nodes), grid.nodes, s, depth))
  {
    if !Runs(grid.start, grid.end) {
      return false;
    }
    var order, linked;
    ghost var depth;
    found, order, linked, depth := DfsOn(grid.nodes, grid.start.value, grid.end.value);
    grid.nodes := linked;
    if found {
      grid.visited := order;
    }
  }
}
