/** Walks through the node matrix and parent trees: the vocabulary in which
    the searches' results are stated. A search may step from a cell to an
    orthogonally adjacent cell that is neither a wall nor already flagged
    visited (getNeighbors drops walls; the `isVisited` guard drops visited
    nodes). */
module Walks {
  import opened GridModel

  /** A cell a search may enter. */
  ghost predicate Open(nodes: Nodes, q: Pos) {
    InBounds(nodes, q) && !Get(nodes, q).isWall && !Get(nodes, q).isVisited
  }

  /** One move of a search, from `p` to its neighbour `q`. */
  ghost predicate Step(nodes: Nodes, p: Pos, q: Pos) {
    InBounds(nodes, p) && Adjacent(p, q) && Open(nodes, q)
  }

  /** The move into `w[i]` is a step. */
  ghost predicate StepAt(nodes: Nodes, w: seq<Pos>, i: int)
    requires 0 < i < |w|
  {
    Step(nodes, w[i - 1], w[i])
  }

  ghost predicate IsWalk(nodes: Nodes, w: seq<Pos>) {
    w != [] && InBounds(nodes, w[0]) && forall i :: 0 < i < |w| ==> StepAt(nodes, w, i)
  }

  /** Some walk leads from `s` to `e`. The start itself may be a wall or
      flagged visited: the searches put it in the frontier unconditionally. */
  ghost predicate Reachable(nodes: Nodes, s: Pos, e: Pos) {
    exists w :: IsWalk(nodes, w) && w[0] == s && w[|w| - 1] == e
  }

  lemma ReachableRefl(nodes: Nodes, s: Pos)
    requires InBounds(nodes, s)
    ensures Reachable(nodes, s, s)
  {
    assert IsWalk(nodes, [s]);
  }

  lemma ReachableExtend(nodes: Nodes, s: Pos, p: Pos, q: Pos)
    requires Reachable(nodes, s, p) && Step(nodes, p, q)
    ensures Reachable(nodes, s, q)
  {
    var w :| IsWalk(nodes, w) && w[0] == s && w[|w| - 1] == p;
    var w' := w + [q];
    forall i | 0 < i < |w'|
      ensures StepAt(nodes, w', i)
    {
      if i < |w| {
        assert StepAt(nodes, w, i);
      }
    }
    assert IsWalk(nodes, w');
  }

  /** No step leaves `c`. */
  ghost predicate Closed(nodes: Nodes, c: set<Pos>) {
    forall p, q :: p in c && Step(nodes, p, q) ==> q in c
  }

  lemma {:induction false} ClosedKeepsWalk(nodes: Nodes, c: set<Pos>, w: seq<Pos>)
    requires Closed(nodes, c) && IsWalk(nodes, w) && w[0] in c
    ensures forall i :: 0 <= i < |w| ==> w[i] in c
  {
    if |w| > 1 {
      var w' := w[..|w| - 1];
      forall i | 0 < i < |w'|
        ensures StepAt(nodes, w', i)
      {
        assert StepAt(nodes, w, i);
      }
      ClosedKeepsWalk(nodes, c, w');
      assert StepAt(nodes, w, |w| - 1);
      assert w'[|w'| - 1] in c;
    }
  }

  /** A closed set holding `s` but not `e` shows that `e` cannot be reached. */
  lemma Unreachable(nodes: Nodes, c: set<Pos>, s: Pos, e: Pos)
    requires Closed(nodes, c) && s in c && e !in c
    ensures !Reachable(nodes, s, e)
  {
    forall w | IsWalk(nodes, w) && w[0] == s
      ensures w[|w| - 1] != e
    {
      ClosedKeepsWalk(nodes, c, w);
    }
  }

  /** The parent link of `q` in `linked` is a step of `nodes` from a cell one
      level nearer the root. */
  ghost predicate TreeEdge(nodes: Nodes, linked: Nodes, depth: map<Pos, nat>, q: Pos)
    requires q in depth
  {
    InBounds(linked, q) && Get(linked, q).parent.Some? &&
    var p := Get(linked, q).parent.value;
    p in depth && depth[q] == depth[p] + 1 && Step(nodes, p, q)
  }

  /** The cells of `depth` form a tree rooted at `s` through the parent
      links of `linked`, `depth` giving each cell's distance from the root
      along the tree. */
  ghost predicate ParentTree(nodes: Nodes, linked: Nodes, s: Pos, depth: map<Pos, nat>) {
    SameShape(nodes, linked) && InBounds(nodes, s) &&
    s in depth && depth[s] == 0 &&
    forall q {:trigger TreeEdge(nodes, linked, depth, q)} :: q in depth && q != s ==> TreeEdge(nodes, linked, depth, q)
  }

  /** Every cell of the tree is reachable from its root. */
  lemma {:induction false} TreeReachable(nodes: Nodes, linked: Nodes, s: Pos, depth: map<Pos, nat>, q: Pos)
    requires ParentTree(nodes, linked, s, depth) && q in depth
    ensures Reachable(nodes, s, q)
    decreases depth[q]
  {
    if q == s {
      ReachableRefl(nodes, s);
    } else {
      assert TreeEdge(nodes, linked, depth, q);
      var p := Get(linked, q).parent.value;
      TreeReachable(nodes, linked, s, depth, p);
      ReachableExtend(nodes, s, p, q);
    }
  }

  /** When the root has no parent, the parent chain of every tree cell ends
      within its depth, so getPath terminates on it. */
  lemma {:induction false} TreeEndsWithin(nodes: Nodes, linked: Nodes, s: Pos, depth: map<Pos, nat>, q: Pos)
    requires ParentTree(nodes, linked, s, depth) && Get(linked, s).parent == None
    requires q in depth
    ensures EndsWithin(linked, q, depth[q])
    decreases depth[q]
  {
    if q != s {
      assert TreeEdge(nodes, linked, depth, q);
      var p := Get(linked, q).parent.value;
      TreeEndsWithin(nodes, linked, s, depth, p);
    }
  }

  /** The path getPath returns for a tree cell (a parent-linked chain
      ending at it and starting at a cell without parent) is a walk from
      the root, one cell per level of the tree. */
  lemma {:induction false} TreePath(nodes: Nodes, linked: Nodes, s: Pos, depth: map<Pos, nat>, path: seq<Pos>)
    requires ParentTree(nodes, linked, s, depth) && Get(linked, s).parent == None
    requires path != [] && path[|path| - 1] in depth && Linked(linked, path)
    requires InBounds(linked, path[0]) && Get(linked, path[0]).parent == None
    ensures path[0] == s && IsWalk(nodes, path)
    ensures |path| == depth[path[|path| - 1]] + 1
  {
    var e := path[|path| - 1];
    if |path| == 1 {
      assert e != s ==> TreeEdge(nodes, linked, depth, e);
    } else {
      assert ParentBefore(linked, path, |path| - 1);
      assert e != s;
      assert TreeEdge(nodes, linked, depth, e);
      var front := path[..|path| - 1];
      forall i | 0 < i < |front|
        ensures ParentBefore(linked, front, i)
      {
        assert ParentBefore(linked, path, i);
      }
      TreePath(nodes, linked, s, depth, front);
      forall i | 0 < i < |path|
        ensures StepAt(nodes, path, i)
      {
        if i < |front| {
          assert StepAt(nodes, front, i);
        }
      }
    }
  }

  /** A prefix of a walk is a walk. */
  lemma PrefixWalk(nodes: Nodes, w: seq<Pos>, k: int)
    requires IsWalk(nodes, w) && 0 <= k < |w|
    ensures IsWalk(nodes, w[..k + 1]) && w[..k + 1][0] == w[0] && w[..k + 1][k] == w[k]
  {
    var w' := w[..k + 1];
    forall i | 0 < i < |w'|
      ensures StepAt(nodes, w', i)
    {
      assert StepAt(nodes, w, i);
    }
  }

  /** No walk from `s` reaches a cell of `depth` in fewer moves than the
      depth of that cell: a tree with these depths is a shortest-path tree. */
  ghost predicate Shortest(nodes: Nodes, s: Pos, depth: map<Pos, nat>) {
    forall w :: IsWalk(nodes, w) && w[0] == s && w[|w| - 1] in depth ==> depth[w[|w| - 1]] < |w|
  }

  /** In a shortest-path tree whose root has no parent, the path getPath
      returns for a tree cell is a walk from the root no longer than any
      other walk from the root to that cell. */
  lemma TreePathShortest(nodes: Nodes, linked: Nodes, s: Pos, depth: map<Pos, nat>, path: seq<Pos>)
    requires ParentTree(nodes, linked, s, depth) && Get(linked, s).parent == None
    requires Shortest(nodes, s, depth)
    requires path != [] && path[|path| - 1] in depth && Linked(linked, path)
    requires InBounds(linked, path[0]) && Get(linked, path[0]).parent == None
    ensures path[0] == s && IsWalk(nodes, path)
    ensures forall w :: IsWalk(nodes, w) && w[0] == s && w[|w| - 1] == path[|path| - 1] ==> |path| <= |w|
  {
    TreePath(nodes, linked, s, depth, path);
  }
}
