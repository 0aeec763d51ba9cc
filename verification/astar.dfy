/** aStar: before each extraction the frontier is sorted by `f` and its
    first cell is taken. A cell gets `g = g(current) + 1`, `h` = its
    distance to the end and `f = g + h` once, when it is first discovered;
    the start has `g = h = f = 0`. The distance (getDistance, a square root)
    is the parameter `dist`. The scores are JavaScript numbers, modelled as
    reals. */
module AStar {
  import opened GridModel
  import opened Walks
  import opened Sequences
  import opened Search

  /** The `g`, `h` and `f` fields of a node of the working copy. */
  datatype Cost = Cost(g: real, h: real, f: real)

  /** The `f` the working copy holds for `q`: the one this run wrote, else
      the caller's. */
  function FOf(nodes: Nodes, cost: map<Pos, Cost>, q: Pos): real {
    if q in cost then cost[q].f else if InBounds(nodes, q) then Get(nodes, q).f else 0.0
  }

  /** The comparator `a.f - b.f` of the frontier sort. */
  function ByF(nodes: Nodes, cost: map<Pos, Cost>): (Pos, Pos) -> bool {
    (a: Pos, b: Pos) => FOf(nodes, cost, a) <= FOf(nodes, cost, b)
  }

  lemma ByFTotal(nodes: Nodes, cost: map<Pos, Cost>, s: seq<Pos>)
    ensures TotalOn(s, ByF(nodes, cost))
  {
  }

  /** `cost'` is `cost` with `g = gc + 1`, `h = dist` and `f = g + h` for
      each added cell, `gc` being the `g` of the expanded cell. */
  ghost predicate Costed(cost: map<Pos, Cost>, cost': map<Pos, Cost>, gc: real,
                         dist: Pos -> real, added: seq<Pos>)
  {
    (forall q :: q in cost' <==> q in cost || q in added) &&
    (forall q :: q in cost ==> cost'[q] == cost[q]) &&
    (forall q :: q in added ==> cost'[q] == Cost(gc + 1.0, dist(q), gc + 1.0 + dist(q)))
  }

  /** The inner loop of aStar over getNeighbors(current): every neighbour
      neither visited nor in the frontier joins the frontier, gets
      `current` as parent and gets its scores. The scores do not steer the
      loop, so they are written once the new cells are known. */
  method Score(nodes: Nodes, seen: set<Pos>, frontier: seq<Pos>, cur: Pos,
               linked: Nodes, ghost depth: map<Pos, nat>, cost: map<Pos, Cost>, dist: Pos -> real)
    returns (frontier': seq<Pos>, linked': Nodes, ghost depth': map<Pos, nat>, cost': map<Pos, Cost>,
             ghost added: seq<Pos>)
    requires Rect(nodes) && InBounds(nodes, cur) && SameShape(nodes, linked)
    requires cur in depth && cur in seen
    requires forall q :: q in depth <==> q in seen || q in frontier
    requires forall q :: q in cost <==> q in depth
    ensures Discovered(nodes, seen, frontier, cur, linked, depth, frontier', linked', depth', added)
    ensures Costed(cost, cost', cost[cur].g, dist, added)
  {
    frontier', linked', depth', added := Discover(nodes, seen, frontier, cur, linked, depth);
    var g := cost[cur].g + 1.0;
    var newCells := set q | q in frontier' && q !in cost;
    cost' := map q | q in cost.Keys + newCells :: if q in cost then cost[q] else Cost(g, dist(q), g + dist(q));
  }

  /** The scores this run wrote: exactly the discovered cells have one; the
      start has `g = h = f = 0`; every other cell has its depth in the
      parent tree as `g`, its distance to the end as `h`, and `f = g + h`. */
  ghost predicate Scored(s: Pos, depth: map<Pos, nat>, cost: map<Pos, Cost>, dist: Pos -> real) {
    (forall q :: q in cost <==> q in depth) &&
    (s in cost ==> cost[s] == Cost(0.0, 0.0, 0.0)) &&
    (forall q :: q in cost && q != s ==>
      cost[q].g == depth[q] as real && cost[q].h == dist(q) && cost[q].f == cost[q].g + cost[q].h)
  }

  /** Each expanded cell was the first of the frontier sorted by `f`: when
      the `i`-th cell was taken it was itself waiting, and every cell then
      waiting in the frontier (the cells `Waiting` after the first `i`
      expansions) had a score and none had a smaller `f`. A score is written once, so the final scores
      are the ones the sort saw. */
  ghost predicate PickedLeast(nodes: Nodes, s: Pos, cost: map<Pos, Cost>, order: seq<Pos>) {
    (forall i :: 0 <= i < |order| ==> Waiting(nodes, s, order[..i], order[i])) &&
    forall i, q :: 0 <= i < |order| && Waiting(nodes, s, order[..i], q) ==>
      order[i] in cost && q in cost && cost[order[i]].f <= cost[q].f
  }

  /** The loop invariant of aStar: the search invariant, the frontier as
      the waiting cells, the scores and the extractions so far. */
  ghost predicate Running(nodes: Nodes, s: Pos, seen: set<Pos>, frontier: seq<Pos>, order: seq<Pos>,
                          linked: Nodes, depth: map<Pos, nat>, cost: map<Pos, Cost>, dist: Pos -> real)
  {
    Searching(nodes, s, seen, frontier, order, linked, depth) && FrontierIs(nodes, s, order, frontier) &&
    Scored(s, depth, cost, dist) && PickedLeast(nodes, s, cost, order)
  }

  /** The first cell of the frontier sorted by `f` has the least `f`. */
  lemma FrontLeast(nodes: Nodes, cost: map<Pos, Cost>, frontier: seq<Pos>)
    requires Sorted(frontier, ByF(nodes, cost)) && frontier != []
    requires forall q :: q in frontier ==> q in cost
    ensures forall q :: q in frontier[1..] ==> cost[frontier[0]].f <= cost[q].f
  {
    forall q | q in frontier[1..]
      ensures cost[frontier[0]].f <= cost[q].f
    {
      var j :| 0 <= j < |frontier[1..]| && frontier[1..][j] == q;
      assert ByF(nodes, cost)(frontier[0], frontier[j + 1]);
    }
  }

  /** Taking the first cell of the sorted frontier keeps `PickedLeast`. */
  lemma PickedOne(nodes: Nodes, s: Pos, cost: map<Pos, Cost>, frontier: seq<Pos>, order: seq<Pos>)
    requires PickedLeast(nodes, s, cost, order) && Sorted(frontier, ByF(nodes, cost)) && frontier != []
    requires forall q :: q in frontier ==> q in cost
    requires FrontierIs(nodes, s, order, frontier)
    ensures PickedLeast(nodes, s, cost, order + [frontier[0]])
  {
    var order' := order + [frontier[0]];
    FrontLeast(nodes, cost, frontier);
    forall i | 0 <= i < |order'|
      ensures Waiting(nodes, s, order'[..i], order'[i])
    {
      if i < |order| {
        assert order'[..i] == order[..i] && order'[i] == order[i];
      } else {
        assert order'[..i] == order && frontier[0] in frontier;
      }
    }
    forall i, q | 0 <= i < |order'| && Waiting(nodes, s, order'[..i], q)
      ensures order'[i] in cost && q in cost && cost[order'[i]].f <= cost[q].f
    {
      if i < |order| {
        assert order'[..i] == order[..i] && order'[i] == order[i];
      } else {
        assert order'[..i] == order;
        assert q in frontier;
        if q != frontier[0] {
          assert q in frontier[1..];
        }
      }
    }
  }

  /** Scores written for newly discovered cells keep the score invariant
      and what earlier extractions saw. */
  lemma Rescore(nodes: Nodes, s: Pos, order: seq<Pos>, cur: Pos,
                depth: map<Pos, nat>, cost: map<Pos, Cost>, dist: Pos -> real,
                added: seq<Pos>, depth': map<Pos, nat>, cost': map<Pos, Cost>)
    requires Scored(s, depth, cost, dist) && PickedLeast(nodes, s, cost, order)
    requires s in depth && depth[s] == 0 && cur in depth
    requires forall q :: q in added ==> q !in depth
    requires Deepened(depth, depth', cur, added) && Costed(cost, cost', cost[cur].g, dist, added)
    ensures Scored(s, depth', cost', dist) && PickedLeast(nodes, s, cost', order)
  {
    forall q | q in added
      ensures cost'[q].g == depth'[q] as real
    {
      assert cost[cur].g == depth[cur] as real;
      assert depth'[q] == depth[cur] + 1;
    }
  }

  /** Sorting the frontier by `f` keeps the invariant, and taking its first
      cell keeps `PickedLeast`. */
  lemma Resorted(nodes: Nodes, s: Pos, seen: set<Pos>, frontier: seq<Pos>, order: seq<Pos>,
                 linked: Nodes, depth: map<Pos, nat>, cost: map<Pos, Cost>, dist: Pos -> real)
    requires Running(nodes, s, seen, frontier, order, linked, depth, cost, dist) && frontier != []
    ensures var sorted := SortBy(frontier, ByF(nodes, cost));
      Running(nodes, s, seen, sorted, order, linked, depth, cost, dist) && sorted != [] &&
      PickedLeast(nodes, s, cost, order + [sorted[0]])
  {
    var sorted := SortBy(frontier, ByF(nodes, cost));
    PermutedSearching(nodes, s, seen, frontier, sorted, order, linked, depth);
    Permuted(nodes, seen, frontier, sorted);
    ByFTotal(nodes, cost, frontier);
    SortBySorted(frontier, ByF(nodes, cost));
    PickedOne(nodes, s, cost, sorted, order);
  }

  /** What the loop body needs to know of the first cell of the frontier
      before expanding it. */
  lemma Popped(nodes: Nodes, s: Pos, seen: set<Pos>, frontier: seq<Pos>, order: seq<Pos>,
               linked: Nodes, depth: map<Pos, nat>, cost: map<Pos, Cost>, dist: Pos -> real)
    requires Running(nodes, s, seen, frontier, order, linked, depth, cost, dist) && frontier != []
    ensures var cur := frontier[0];
      Rect(nodes) && InBounds(nodes, cur) && SameShape(nodes, linked) && cur in depth && cur !in seen &&
      (forall q :: q in depth <==> q in seen + {cur} || q in frontier[1..]) &&
      (forall q :: q in cost <==> q in depth)
  {
    assert frontier[1..] == RemoveAt(frontier, 0);
    PopPartition(nodes, depth, seen, frontier, 0);
  }

  /** Taking the end from the frontier ends the search with the outcome
      aStar promises. */
  lemma FoundEnd(nodes: Nodes, s: Pos, e: Pos, seen: set<Pos>, frontier: seq<Pos>, order: seq<Pos>,
                 linked: Nodes, depth: map<Pos, nat>, cost: map<Pos, Cost>, dist: Pos -> real)
    requires Running(nodes, s, seen, frontier, order, linked, depth, cost, dist) && frontier != []
    requires frontier[0] == e
    ensures Outcome(nodes, s, e, true, order + [e], linked, depth) && Reachable(nodes, s, e)
    ensures Scored(s, depth, cost, dist)
  {
    Pop(nodes, s, seen, frontier, order, linked, depth, 0);
    assert RemoveAt(frontier, 0) == frontier[1..];
    FinishFound(nodes, s, e, seen + {e}, frontier[1..], order + [e], linked, depth);
  }

  /** Expanding the first cell of the frontier keeps the invariant. */
  lemma Advance(nodes: Nodes, s: Pos, seen: set<Pos>, frontier: seq<Pos>, order: seq<Pos>,
                linked: Nodes, depth: map<Pos, nat>, cost: map<Pos, Cost>, dist: Pos -> real,
                frontier': seq<Pos>, linked': Nodes, depth': map<Pos, nat>, cost': map<Pos, Cost>,
                added: seq<Pos>)
    requires Running(nodes, s, seen, frontier, order, linked, depth, cost, dist) && frontier != []
    requires PickedLeast(nodes, s, cost, order + [frontier[0]])
    requires Discovered(nodes, seen + {frontier[0]}, frontier[1..], frontier[0], linked, depth,
                        frontier', linked', depth', added)
    requires Costed(cost, cost', cost[frontier[0]].g, dist, added)
    ensures Running(nodes, s, seen + {frontier[0]}, frontier', order + [frontier[0]], linked', depth', cost', dist)
  {
    var cur := frontier[0];
    assert frontier[1..] == RemoveAt(frontier, 0);
    Expand(nodes, s, seen, frontier, order, linked, depth, 0, frontier', linked', depth', added);
    WaitingNext(nodes, s, seen, frontier, order, 0, added);
    Rescore(nodes, s, order + [cur], cur, depth, cost, dist, added, depth', cost');
  }

  /** The search loop of aStar on the caller's `nodes`, from `s` to `e`,
      with `dist(q)` the distance from `q` to the end: returns whether the
      end was taken from the frontier, the order in which cells were taken
      and `nodes` with the parent writes the search makes on the caller's
      grid; as ghosts, the depths and the scores the run wrote. */
  method AStarOn(nodes: Nodes, s: Pos, e: Pos, dist: Pos -> real)
    returns (found: bool, order: seq<Pos>, linked: Nodes,
             ghost depth: map<Pos, nat>, ghost cost: map<Pos, Cost>)
    requires Rect(nodes) && InBounds(nodes, s) && InBounds(nodes, e) && s != e
    ensures found <==> Reachable(nodes, s, e)
    ensures Outcome(nodes, s, e, found, order, linked, depth)
    ensures Scored(s, depth, cost, dist)
    ensures PickedLeast(nodes, s, cost, order)
  {
    var frontier := [s];
    var seen: set<Pos> := {};
    var costs: map<Pos, Cost> := map[s := Cost(0.0, 0.0, 0.0)];
    order, linked, depth := [], nodes, map[s := 0];
    Begin(nodes, s);
    while frontier != []
      invariant Running(nodes, s, seen, frontier, order, linked, depth, costs, dist)
      invariant e !in seen
      decreases Cells(nodes) - seen
    {
      Resorted(nodes, s, seen, frontier, order, linked, depth, costs, dist);
      frontier := SortBy(frontier, ByF(nodes, costs));
      ghost var frontier0, seen0, order0 := frontier, seen, order;
      var cur := frontier[0];
      Popped(nodes, s, seen, frontier, order, linked, depth, costs, dist);
      InCells(nodes, cur);
      if cur == e {
        FoundEnd(nodes, s, e, seen, frontier, order, linked, depth, costs, dist);
        return true, order + [cur], linked, depth, costs;
      }
      frontier := frontier[1..];
      seen := seen + {cur};
      order := order + [cur];
      var linked', costs';
      ghost var depth', added;
      frontier, linked', depth', costs', added := Score(nodes, seen, frontier, cur, linked, depth, costs, dist);
      Advance(nodes, s, seen0, frontier0, order0, linked, depth, costs, dist,
              frontier, linked', depth', costs', added);
      linked, depth, costs := linked', depth', costs';
    }
    FinishExhausted(nodes, s, e, seen, order, linked, depth);
    return false, order, linked, depth, costs;
  }

  /** aStar(grid): on a grid with different start and end, runs the
      search, writes its parents onto `grid.nodes` and, when the end was
      reached, stores the visited order in `grid.visited`; otherwise changes
      nothing. */
  method AStar(grid: Grid, dist: Pos -> real) returns (found: bool)
    requires grid.Valid()
    modifies grid
    ensures grid.Valid()
    ensures grid.start == old(grid.start) && grid.end == old(grid.end)
    ensures grid.walls == old(grid.walls) && grid.path == old(grid.path)
    ensures grid.rows == old(grid.rows) && grid.cols == old(grid.cols)
    ensures !Runs(old(grid.start), old(grid.end)) ==> !found && grid.nodes == old(grid.nodes) && grid.visited == old(grid.visited)
    ensures Runs(old(grid.start), old(grid.end)) ==>
      var s, e := old(grid.start).value, old(grid.end).value;
      (found <==> Reachable(old(grid.nodes), s, e)) &&
      (found ==> exists depth, cost :: Outcome(old(grid.nodes), s, e, true, grid.visited, grid.nodes, depth) &&
                                       Scored(s, depth, cost, dist) && PickedLeast(old(grid.nodes), s, cost, grid.visited)) &&
      (!found ==> grid.visited == old(grid.visited) &&
                  exists depth :: Frame(old(grid.nodes), s, grid.nodes, depth) && ParentTree(old(grid.nodes), grid.nodes, s, depth))
  {
    if !Runs(grid.start, grid.end) {
      return false;
    }
    var order, linked;
    ghost var depth, cost;
    found, order, linked, depth, cost := AStarOn(grid.nodes, grid.start.value, grid.end.value, dist);
    grid.nodes := linked;
    if found {
      grid.visited := order;
    }
  }
}
