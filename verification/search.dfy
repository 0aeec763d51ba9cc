/** What bfs and dfs share: the state of a search between two expansions,
    the inner neighbour loop that discovers new cells, and the outcome both
    promise. The working copy of the source (`gridCopy`) differs from the
    caller's nodes only in the `isVisited` flags of the cells expanded in
    this run (its parent writes are never read), so it is represented by
    the set `seen` of those cells. */
module Search {
  import opened GridModel
  import opened Walks
  import opened Sequences

  /** `linked` is `nodes` with parents written only on discovered cells
      other than the start. */
  ghost predicate Frame(nodes: Nodes, s: Pos, linked: Nodes, depth: map<Pos, nat>) {
    SameExceptParents(nodes, linked) &&
    forall q :: InBounds(nodes, q) && (q !in depth || q == s) ==> Get(linked, q) == Get(nodes, q)
  }

  /** The expanded cells and the frontier are cells of the matrix and are
      disjoint, and the frontier holds no cell twice. */
  ghost predicate Apart(nodes: Nodes, seen: set<Pos>, frontier: seq<Pos>) {
    (forall q :: q in seen || q in frontier ==> InBounds(nodes, q)) &&
    NoDups(frontier) && (forall q :: q in frontier ==> q !in seen)
  }

  /** The discovered cells are the expanded ones and the frontier. */
  ghost predicate Partition(nodes: Nodes, depth: map<Pos, nat>, seen: set<Pos>, frontier: seq<Pos>) {
    Apart(nodes, seen, frontier) &&
    (forall q :: q in depth <==> q in seen || q in frontier)
  }

  /** `order` lists the expanded cells once each, the start first. */
  ghost predicate OrderOf(s: Pos, seen: set<Pos>, order: seq<Pos>) {
    NoDups(order) && (forall q :: q in order <==> q in seen) &&
    (order != [] ==> order[0] == s)
  }

  /** Everything bfs and dfs keep true except closure. */
  ghost predicate Explored(nodes: Nodes, s: Pos, seen: set<Pos>, frontier: seq<Pos>,
                           order: seq<Pos>, linked: Nodes, depth: map<Pos, nat>)
  {
    Rect(nodes) && Frame(nodes, s, linked, depth) && ParentTree(nodes, linked, s, depth) &&
    Partition(nodes, depth, seen, frontier) && OrderOf(s, seen, order) &&
    (order == [] ==> frontier == [s])
  }

  /** Every step out of an expanded cell leads to a discovered cell. */
  ghost predicate ClosedBy(nodes: Nodes, seen: set<Pos>, frontier: seq<Pos>) {
    forall p, q :: p in seen && Step(nodes, p, q) ==> q in seen || q in frontier
  }

  /** The loop invariant of bfs and dfs. */
  ghost predicate Searching(nodes: Nodes, s: Pos, seen: set<Pos>, frontier: seq<Pos>,
                            order: seq<Pos>, linked: Nodes, depth: map<Pos, nat>)
  {
    Explored(nodes, s, seen, frontier, order, linked, depth) && ClosedBy(nodes, seen, frontier)
  }

  /** The state before the first iteration: the start alone in the frontier. */
  lemma Begin(nodes: Nodes, s: Pos)
    requires Rect(nodes) && InBounds(nodes, s)
    ensures Searching(nodes, s, {}, [s], [], nodes, map[s := 0])
  {
  }

  /** The cell the source's working copy shows as visited. */
  predicate VisitedNow(nodes: Nodes, seen: set<Pos>, q: Pos)
    requires InBounds(nodes, q)
  {
    Get(nodes, q).isVisited || q in seen
  }

  /** `added` lists, in neighbour order and once each, the cells one step
      from `cur` that are neither expanded nor in the frontier. */
  ghost predicate Admitted(nodes: Nodes, seen: set<Pos>, frontier: seq<Pos>, cur: Pos, added: seq<Pos>) {
    NoDups(added) && InDirOrder(cur, added) &&
    forall q :: q in added <==> Step(nodes, cur, q) && q !in seen && q !in frontier
  }

  /** `linked'` is `linked` with `cur` made the parent of each added cell. */
  ghost predicate Relinked(linked: Nodes, linked': Nodes, cur: Pos, added: seq<Pos>) {
    SameShape(linked, linked') &&
    (forall q :: q in added ==> InBounds(linked, q) && Get(linked', q) == Get(linked, q).(parent := Some(cur))) &&
    (forall q :: InBounds(linked, q) && q !in added ==> Get(linked', q) == Get(linked, q))
  }

  /** `depth'` is `depth` with each added cell one level below `cur`. */
  ghost predicate Deepened(depth: map<Pos, nat>, depth': map<Pos, nat>, cur: Pos, added: seq<Pos>)
    requires cur in depth
  {
    (forall q :: q in depth' <==> q in depth || q in added) &&
    (forall q :: q in depth ==> depth'[q] == depth[q]) &&
    (forall q :: q in added ==> depth'[q] == depth[cur] + 1)
  }

  /** The effect of expanding `cur`: the frontier grows by the admitted
      cells, each gets `cur` as parent and depth one more than `cur`'s,
      and nothing else changes. */
  ghost predicate Discovered(nodes: Nodes, seen: set<Pos>, frontier: seq<Pos>, cur: Pos,
                             linked: Nodes, depth: map<Pos, nat>,
                             frontier': seq<Pos>, linked': Nodes, depth': map<Pos, nat>, added: seq<Pos>)
    requires cur in depth
  {
    frontier' == frontier + added &&
    Admitted(nodes, seen, frontier, cur, added) &&
    Relinked(linked, linked', cur, added) &&
    Deepened(depth, depth', cur, added)
  }

  lemma RelinkOne(linked: Nodes, linked': Nodes, cur: Pos, added: seq<Pos>, q: Pos)
    requires Relinked(linked, linked', cur, added)
    requires InBounds(linked, q) && q !in added
    ensures Relinked(linked, SetParent(linked', q, cur), cur, added + [q])
  {
  }

  lemma DeepenOne(depth: map<Pos, nat>, depth': map<Pos, nat>, cur: Pos, added: seq<Pos>, q: Pos)
    requires cur in depth && Deepened(depth, depth', cur, added)
    requires q !in depth
    ensures Deepened(depth, depth'[q := depth[cur] + 1], cur, added + [q])
  {
  }

  /** `added` lists the cells of `nbrs[..i]` one step from `cur` that are
      neither expanded nor in the frontier, in their order. */
  ghost predicate AdmittedUpTo(nodes: Nodes, seen: set<Pos>, frontier: seq<Pos>, cur: Pos,
                               nbrs: seq<Pos>, i: int, added: seq<Pos>)
    requires 0 <= i <= |nbrs|
  {
    NoDups(added) && InDirOrder(cur, added) &&
    forall q :: q in added <==> q in nbrs[..i] && Step(nodes, cur, q) && q !in seen && q !in frontier
  }

  /** One iteration of the neighbour loop keeps the admission bookkeeping. */
  lemma AdmitNext(nodes: Nodes, seen: set<Pos>, frontier: seq<Pos>, cur: Pos,
                  nbrs: seq<Pos>, i: int, added: seq<Pos>)
    requires Rect(nodes) && InBounds(nodes, cur) && nbrs == Neighbors(nodes, cur)
    requires 0 <= i < |nbrs| && AdmittedUpTo(nodes, seen, frontier, cur, nbrs, i, added)
    ensures InBounds(nodes, nbrs[i])
    ensures var q := nbrs[i];
      var admit := !VisitedNow(nodes, seen, q) && q !in frontier + added;
      AdmittedUpTo(nodes, seen, frontier, cur, nbrs, i + 1, if admit then added + [q] else added) &&
      (admit ==> q !in added)
  {
    var q := nbrs[i];
    assert InBounds(nodes, q) && Adjacent(cur, q) && !Get(nodes, q).isWall by {
      assert q in nbrs;
    }
    var admit := !VisitedNow(nodes, seen, q) && q !in frontier + added;
    var added' := if admit then added + [q] else added;
    assert forall x :: x in added' <==> x in nbrs[..i + 1] && Step(nodes, cur, x) && x !in seen && x !in frontier by {
      assert Step(nodes, cur, q) <==> !Get(nodes, q).isVisited;
      PrefixNext(nbrs, i);
    }
    if admit {
      assert NoDups(added') && InDirOrder(cur, added') by {
        forall j | 0 <= j < |added|
          ensures Dir(cur, added[j]) < Dir(cur, q)
        {
          assert added[j] in nbrs[..i];
          var k :| 0 <= k < i && nbrs[k] == added[j];
        }
        AppendNoDups(added, [q]);
      }
    }
  }

  /** The inner loop of bfs and dfs over getNeighbors(current): push each
      neighbour that is neither visited nor already in the frontier and
      make `cur` its parent. */
  method Discover(nodes: Nodes, seen: set<Pos>, frontier: seq<Pos>, cur: Pos,
                  linked: Nodes, ghost depth: map<Pos, nat>)
    returns (frontier': seq<Pos>, linked': Nodes, ghost depth': map<Pos, nat>, ghost added: seq<Pos>)
    requires Rect(nodes) && InBounds(nodes, cur) && SameShape(nodes, linked)
    requires cur in depth && cur in seen
    requires forall q :: q in depth <==> q in seen || q in frontier
    ensures Discovered(nodes, seen, frontier, cur, linked, depth, frontier', linked', depth', added)
  {
    var nbrs := Neighbors(nodes, cur);
    frontier', linked', depth', added := frontier, linked, depth, [];
    for i := 0 to |nbrs|
      invariant frontier' == frontier + added
      invariant AdmittedUpTo(nodes, seen, frontier, cur, nbrs, i, added)
      invariant Relinked(linked, linked', cur, added)
      invariant Deepened(depth, depth', cur, added)
    {
      var q := nbrs[i];
      AdmitNext(nodes, seen, frontier, cur, nbrs, i, added);
      if !VisitedNow(nodes, seen, q) && q !in frontier' {
        assert q !in seen && q !in frontier;
        assert q !in depth;
        assert InBounds(linked, q);
        RelinkOne(linked, linked', cur, added, q);
        DeepenOne(depth, depth', cur, added, q);
        AppendOne(frontier, added, q);
        frontier' := frontier' + [q];
        linked' := SetParent(linked', q, cur);
        depth' := depth'[q := depth[cur] + 1];
        added := added + [q];
      }
    }
    assert nbrs[..|nbrs|] == nbrs;
  }

  lemma PopPartition(nodes: Nodes, depth: map<Pos, nat>, seen: set<Pos>, frontier: seq<Pos>, k: int)
    requires Partition(nodes, depth, seen, frontier) && 0 <= k < |frontier|
    ensures Partition(nodes, depth, seen + {frontier[k]}, RemoveAt(frontier, k))
  {
  }

  lemma PopOrder(s: Pos, seen: set<Pos>, order: seq<Pos>, cur: Pos)
    requires OrderOf(s, seen, order) && cur !in seen
    requires order == [] ==> cur == s
    ensures OrderOf(s, seen + {cur}, order + [cur])
  {
    AppendNoDups(order, [cur]);
  }

  lemma GrowPartition(nodes: Nodes, depth: map<Pos, nat>, seen: set<Pos>, rest: seq<Pos>,
                      cur: Pos, added: seq<Pos>, depth': map<Pos, nat>)
    requires Partition(nodes, depth, seen, rest) && cur in depth
    requires Admitted(nodes, seen, rest, cur, added) && Deepened(depth, depth', cur, added)
    ensures Partition(nodes, depth', seen, rest + added)
  {
    AppendNoDups(rest, added);
  }

  lemma GrowTree(nodes: Nodes, s: Pos, linked: Nodes, depth: map<Pos, nat>, cur: Pos,
                 added: seq<Pos>, linked': Nodes, depth': map<Pos, nat>)
    requires ParentTree(nodes, linked, s, depth) && cur in depth
    requires forall q :: q in added ==> q !in depth && Step(nodes, cur, q)
    requires Relinked(linked, linked', cur, added) && Deepened(depth, depth', cur, added)
    ensures ParentTree(nodes, linked', s, depth')
  {
    forall q | q in depth' && q != s
      ensures TreeEdge(nodes, linked', depth', q)
    {
      if q !in added {
        assert TreeEdge(nodes, linked, depth, q);
      }
    }
  }

  lemma GrowFrame(nodes: Nodes, s: Pos, linked: Nodes, depth: map<Pos, nat>, cur: Pos,
                  added: seq<Pos>, linked': Nodes, depth': map<Pos, nat>)
    requires Frame(nodes, s, linked, depth) && cur in depth && s in depth
    requires forall q :: q in added ==> q !in depth
    requires Relinked(linked, linked', cur, added) && Deepened(depth, depth', cur, added)
    ensures Frame(nodes, s, linked', depth')
  {
  }

  lemma GrowClosed(nodes: Nodes, seen: set<Pos>, frontier: seq<Pos>, k: int, added: seq<Pos>)
    requires ClosedBy(nodes, seen, frontier) && 0 <= k < |frontier|
    requires Admitted(nodes, seen + {frontier[k]}, RemoveAt(frontier, k), frontier[k], added)
    ensures ClosedBy(nodes, seen + {frontier[k]}, RemoveAt(frontier, k) + added)
  {
  }

  /** Taking `frontier[k]` out of the frontier and expanding it keeps the
      invariant. */
  lemma Expand(nodes: Nodes, s: Pos, seen: set<Pos>, frontier: seq<Pos>,
               order: seq<Pos>, linked: Nodes, depth: map<Pos, nat>, k: int,
               frontier': seq<Pos>, linked': Nodes, depth': map<Pos, nat>, added: seq<Pos>)
    requires Searching(nodes, s, seen, frontier, order, linked, depth)
    requires 0 <= k < |frontier| && frontier[k] in depth
    requires Discovered(nodes, seen + {frontier[k]}, RemoveAt(frontier, k), frontier[k],
                        linked, depth, frontier', linked', depth', added)
    ensures Searching(nodes, s, seen + {frontier[k]}, frontier', order + [frontier[k]], linked', depth')
  {
    var cur := frontier[k];
    var rest := RemoveAt(frontier, k);
    PopPartition(nodes, depth, seen, frontier, k);
    PopOrder(s, seen, order, cur);
    GrowPartition(nodes, depth, seen + {cur}, rest, cur, added, depth');
    GrowTree(nodes, s, linked, depth, cur, added, linked', depth');
    GrowFrame(nodes, s, linked, depth, cur, added, linked', depth');
    GrowClosed(nodes, seen, frontier, k, added);
  }

  /** Taking `frontier[k]` out of the frontier without expanding it keeps
      everything but closure. */
  lemma Pop(nodes: Nodes, s: Pos, seen: set<Pos>, frontier: seq<Pos>,
            order: seq<Pos>, linked: Nodes, depth: map<Pos, nat>, k: int)
    requires Explored(nodes, s, seen, frontier, order, linked, depth)
    requires 0 <= k < |frontier|
    ensures Explored(nodes, s, seen + {frontier[k]}, RemoveAt(frontier, k),
                     order + [frontier[k]], linked, depth)
  {
    PopPartition(nodes, depth, seen, frontier, k);
    PopOrder(s, seen, order, frontier[k]);
  }

  /** What bfs, dfs and aStar promise about their results besides
      reachability: parents change only on discovered cells other than the
      start and form a tree rooted at the start, and the visited order is
      as `Visits` says. */
  ghost predicate Outcome(nodes: Nodes, s: Pos, e: Pos, found: bool, order: seq<Pos>,
                          linked: Nodes, depth: map<Pos, nat>)
  {
    Frame(nodes, s, linked, depth) &&
    ParentTree(nodes, linked, s, depth) &&
    Visits(nodes, s, e, found, order) &&
    (forall q :: q in order ==> q in depth)
  }

  /** The visited order of a search from `s` to `e`: it starts at the start,
      holds each cell once and, after the start, only open cells (never a
      wall); it holds the end exactly when the search succeeded, and then
      as its last element. */
  ghost predicate Visits(nodes: Nodes, s: Pos, e: Pos, found: bool, order: seq<Pos>) {
    order != [] && order[0] == s && NoDups(order) &&
    (forall i :: 0 < i < |order| ==> Open(nodes, order[i])) &&
    (found <==> e in order) && (found ==> order[|order| - 1] == e)
  }

  lemma OrderOpen(nodes: Nodes, s: Pos, seen: set<Pos>, frontier: seq<Pos>,
                  order: seq<Pos>, linked: Nodes, depth: map<Pos, nat>)
    requires Explored(nodes, s, seen, frontier, order, linked, depth) && order != []
    ensures forall i :: 0 < i < |order| ==> Open(nodes, order[i])
  {
    forall i | 0 < i < |order|
      ensures Open(nodes, order[i])
    {
      assert order[i] != order[0];
      assert order[i] in depth;
      assert TreeEdge(nodes, linked, depth, order[i]);
    }
  }

  /** The search stops when it expands the end. */
  lemma FinishFound(nodes: Nodes, s: Pos, e: Pos, seen: set<Pos>, frontier: seq<Pos>,
                    order: seq<Pos>, linked: Nodes, depth: map<Pos, nat>)
    requires Explored(nodes, s, seen, frontier, order, linked, depth)
    requires order != [] && order[|order| - 1] == e
    ensures Outcome(nodes, s, e, true, order, linked, depth)
    ensures Reachable(nodes, s, e)
  {
    OrderOpen(nodes, s, seen, frontier, order, linked, depth);
    assert e in depth;
    TreeReachable(nodes, linked, s, depth, e);
  }

  /** The search stops when the frontier runs empty without the end having
      been expanded: then the end is unreachable. */
  lemma FinishExhausted(nodes: Nodes, s: Pos, e: Pos, seen: set<Pos>,
                        order: seq<Pos>, linked: Nodes, depth: map<Pos, nat>)
    requires Searching(nodes, s, seen, [], order, linked, depth)
    requires e !in seen
    ensures Outcome(nodes, s, e, false, order, linked, depth)
    ensures !Reachable(nodes, s, e)
  {
    OrderOpen(nodes, s, seen, [], order, linked, depth);
    assert s in seen;
    Unreachable(nodes, seen, s, e);
  }

  /** The guard every search and the maze generator open with: start and
      end are both set and are different nodes. */
  predicate Runs(start: Option<Pos>, end: Option<Pos>) {
    start.Some? && end.Some? && start.value != end.value
  }

  /** After a successful search from a start without parent, getPath(end)
      terminates, and what it returns is a walk from the start to the end
      through open cells. */
  lemma PathAfterSearch(nodes: Nodes, s: Pos, e: Pos, order: seq<Pos>, linked: Nodes,
                        depth: map<Pos, nat>, path: seq<Pos>)
    requires Outcome(nodes, s, e, true, order, linked, depth)
    requires Get(linked, s).parent == None
    ensures exists k: nat :: EndsWithin(linked, e, k)
    ensures path != [] && path[|path| - 1] == e && Linked(linked, path) &&
            InBounds(linked, path[0]) && Get(linked, path[0]).parent == None ==>
            path[0] == s && IsWalk(nodes, path)
  {
    assert e in depth;
    TreeEndsWithin(nodes, linked, s, depth, e);
    if path != [] && path[|path| - 1] == e && Linked(linked, path) &&
       InBounds(linked, path[0]) && Get(linked, path[0]).parent == None {
      TreePath(nodes, linked, s, depth, path);
    }
  }

  /** One extraction from a sorted frontier: the cell taken, its sort key
      and the keys of the cells left in the frontier. */
  datatype Pick<K> = Pick(cell: Pos, key: K, rest: map<Pos, K>)

  /** Taking the cell at `k` out of the frontier keeps `Apart`. */
  lemma PopApart(nodes: Nodes, seen: set<Pos>, frontier: seq<Pos>, k: int)
    requires Apart(nodes, seen, frontier) && 0 <= k < |frontier|
    ensures Apart(nodes, seen + {frontier[k]}, RemoveAt(frontier, k))
  {
  }

  /** Permuting the frontier keeps `Apart` and closure. */
  lemma Permuted(nodes: Nodes, seen: set<Pos>, frontier: seq<Pos>, frontier': seq<Pos>)
    requires multiset(frontier) == multiset(frontier')
    ensures forall q :: q in frontier <==> q in frontier'
    ensures Apart(nodes, seen, frontier) ==> Apart(nodes, seen, frontier')
    ensures ClosedBy(nodes, seen, frontier) ==> ClosedBy(nodes, seen, frontier')
  {
    SameMembers(frontier, frontier');
    if NoDups(frontier) {
      PermutationNoDups(frontier, frontier');
    }
  }

  /** Reordering the frontier (the sort aStar performs before each
      extraction) keeps the search invariant. */
  lemma PermutedSearching(nodes: Nodes, s: Pos, seen: set<Pos>, frontier: seq<Pos>, frontier': seq<Pos>,
                          order: seq<Pos>, linked: Nodes, depth: map<Pos, nat>)
    requires Searching(nodes, s, seen, frontier, order, linked, depth)
    requires multiset(frontier) == multiset(frontier')
    ensures Searching(nodes, s, seen, frontier', order, linked, depth)
  {
    Permuted(nodes, seen, frontier, frontier');
    if order == [] {
      assert |frontier'| == 1 && frontier'[0] in frontier';
    }
  }

  /** A walk that starts at a discovered cell and ends outside the expanded
      cells passes through the frontier. */
  lemma {:induction false} Crossing(nodes: Nodes, seen: set<Pos>, frontier: seq<Pos>, w: seq<Pos>)
    requires ClosedBy(nodes, seen, frontier) && IsWalk(nodes, w)
    requires w[0] in seen || w[0] in frontier
    requires w[|w| - 1] !in seen
    ensures exists k :: 0 <= k < |w| && w[k] in frontier
    decreases |w|
  {
    if w[|w| - 1] !in frontier {
      var w' := w[..|w| - 1];
      PrefixWalk(nodes, w, |w| - 2);
      assert w'[|w'| - 1] !in seen by {
        assert StepAt(nodes, w, |w| - 1);
      }
      Crossing(nodes, seen, frontier, w');
      var k :| 0 <= k < |w'| && w'[k] in frontier;
      assert w[k] == w'[k];
    }
  }

  /** The cells a search from `s` holds in its frontier once it has
      expanded the cells of `done`: the start and every open cell one step
      from an expanded cell, except the expanded cells themselves. */
  ghost predicate Waiting(nodes: Nodes, s: Pos, done: seq<Pos>, q: Pos) {
    q !in done && (q == s || exists p :: p in done && Step(nodes, p, q))
  }

  /** The frontier holds exactly the cells waiting after `order`. */
  ghost predicate FrontierIs(nodes: Nodes, s: Pos, order: seq<Pos>, frontier: seq<Pos>) {
    forall q :: q in frontier <==> Waiting(nodes, s, order, q)
  }

  /** Expanding `frontier[k]` keeps the frontier the set of waiting cells. */
  lemma WaitingNext(nodes: Nodes, s: Pos, seen: set<Pos>, frontier: seq<Pos>, order: seq<Pos>,
                    k: int, added: seq<Pos>)
    requires FrontierIs(nodes, s, order, frontier) && OrderOf(s, seen, order) && NoDups(frontier)
    requires 0 <= k < |frontier|
    requires Admitted(nodes, seen + {frontier[k]}, RemoveAt(frontier, k), frontier[k], added)
    ensures FrontierIs(nodes, s, order + [frontier[k]], RemoveAt(frontier, k) + added)
  {
    var cur, rest := frontier[k], RemoveAt(frontier, k);
    var order' := order + [cur];
    forall q
      ensures q in rest + added <==> Waiting(nodes, s, order', q)
    {
      if q in rest {
        assert q in frontier && q != cur;
        assert Waiting(nodes, s, order, q);
        if q != s {
          var p :| p in order && Step(nodes, p, q);
          assert p in order';
        }
      } else if q in added {
        assert cur in order';
      }
      if Waiting(nodes, s, order', q) && q !in rest {
        assert q != cur && q !in order;
        assert !Waiting(nodes, s, order, q);
        var p :| p in order' && Step(nodes, p, q);
        assert p == cur;
      }
    }
  }
}
