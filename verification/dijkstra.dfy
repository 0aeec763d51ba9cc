/** dijkstra: the frontier is taken from the front and re-sorted by `g`
    after every expansion. The working copy gives `g = 0` to nodes flagged
    `isStart` and Infinity to all others; a neighbour's `g` and parent are
    lowered only when `g(current) + 1` is strictly smaller. */
module Dijkstra {
  import opened GridModel
  import opened Walks
  import opened Sequences
  import opened Search

  /** A `g` value of the working copy: a natural number or Infinity. */
  datatype ExtNat = Fin(n: nat) | Inf

  /** `g + 1`, with Infinity + 1 = Infinity. */
  function Succ(x: ExtNat): ExtNat {
    match x
    case Fin(n) => Fin(n + 1)
    case Inf => Inf
  }

  /** `x < y` on numbers extended with Infinity. */
  predicate Less(x: ExtNat, y: ExtNat) {
    x.Fin? && (y.Inf? || x.n < y.n)
  }

  /** The sort comparator `a.g - b.g` does not put `x` after `y`: its
      result is not positive. Infinity - Infinity is NaN, which the sort
      treats as equal. */
  predicate NotAfter(x: ExtNat, y: ExtNat) {
    !Less(y, x)
  }

  /** The `g` the working copy starts from. */
  function Initial(nodes: Nodes, q: Pos): ExtNat {
    if InBounds(nodes, q) && Get(nodes, q).isStart then Fin(0) else Inf
  }

  /** The current `g` of a cell: the last value a relaxation wrote, else the
      initial one. */
  function GOf(nodes: Nodes, g: map<Pos, ExtNat>, q: Pos): ExtNat {
    if q in g then g[q] else Initial(nodes, q)
  }

  /** The comparator of the frontier sort. */
  function ByG(nodes: Nodes, g: map<Pos, ExtNat>): (Pos, Pos) -> bool {
    (a: Pos, b: Pos) => NotAfter(GOf(nodes, g, a), GOf(nodes, g, b))
  }

  /** The comparator is a total preorder, so the sort orders the frontier. */
  lemma ByGTotal(nodes: Nodes, g: map<Pos, ExtNat>, s: seq<Pos>)
    ensures TotalOn(s, ByG(nodes, g))
  {
    var le := ByG(nodes, g);
    forall a, b, c | a in s && b in s && c in s && le(a, b) && le(b, c)
      ensures le(a, c)
    {
      assert NotAfter(GOf(nodes, g, a), GOf(nodes, g, b));
    }
  }

  /** A relaxation never fires from a cell whose `g` is Infinity. */
  lemma NoRelaxFromInfinity(x: ExtNat, y: ExtNat)
    requires Less(Succ(x), y)
    ensures x.Fin? && Succ(x).Fin?
  {
  }

  /** No node flagged `isStart`. */
  ghost predicate NoStart(nodes: Nodes) {
    forall q :: InBounds(nodes, q) ==> !Get(nodes, q).isStart
  }

  /** The start is the only node flagged `isStart`. */
  ghost predicate StartOnly(nodes: Nodes, s: Pos) {
    forall q :: InBounds(nodes, q) ==> (Get(nodes, q).isStart <==> q == s)
  }

  /** `relaxed` lists once each the cells of `nbrs[..i]` one step from `cur`,
      not yet expanded, whose `g` exceeds `g(cur) + 1`. */
  ghost predicate LoweredUpTo(nodes: Nodes, seen: set<Pos>, g: map<Pos, ExtNat>, cur: Pos,
                              nbrs: seq<Pos>, i: int, relaxed: seq<Pos>)
    requires 0 <= i <= |nbrs|
  {
    NoDups(relaxed) &&
    forall q :: q in relaxed <==>
      q in nbrs[..i] && Step(nodes, cur, q) && q !in seen && Less(Succ(GOf(nodes, g, cur)), GOf(nodes, g, q))
  }

  /** `relaxed` lists once each the cells one step from `cur`, not yet
      expanded, whose `g` exceeds `g(cur) + 1`. */
  ghost predicate Lowered(nodes: Nodes, seen: set<Pos>, g: map<Pos, ExtNat>, cur: Pos, relaxed: seq<Pos>) {
    NoDups(relaxed) &&
    forall q :: q in relaxed <==>
      Step(nodes, cur, q) && q !in seen && Less(Succ(GOf(nodes, g, cur)), GOf(nodes, g, q))
  }

  /** `g'` is `g` with every relaxed cell set to `v`. */
  ghost predicate Regraded(g: map<Pos, ExtNat>, g': map<Pos, ExtNat>, relaxed: seq<Pos>, v: ExtNat) {
    (forall q :: q in g' <==> q in g || q in relaxed) &&
    (forall q :: q in relaxed ==> g'[q] == v) &&
    (forall q :: q in g && q !in relaxed ==> g'[q] == g[q])
  }

  lemma RegradeOne(g: map<Pos, ExtNat>, g': map<Pos, ExtNat>, relaxed: seq<Pos>, v: ExtNat, q: Pos)
    requires Regraded(g, g', relaxed, v) && q !in relaxed
    ensures Regraded(g, g'[q := v], relaxed + [q], v)
  {
  }

  /** The neighbours come in strictly increasing direction, so none repeats
      an earlier one. */
  lemma NotEarlier(cur: Pos, nbrs: seq<Pos>, i: int)
    requires InDirOrder(cur, nbrs) && 0 <= i < |nbrs|
    ensures nbrs[i] !in nbrs[..i]
  {
    forall k | 0 <= k < i
      ensures nbrs[k] != nbrs[i]
    {
      assert Dir(cur, nbrs[k]) < Dir(cur, nbrs[i]);
    }
  }

  /** A cell the relaxations so far have not touched keeps its `g`. */
  lemma Untouched(nodes: Nodes, g: map<Pos, ExtNat>, g': map<Pos, ExtNat>, relaxed: seq<Pos>, v: ExtNat, x: Pos)
    requires Regraded(g, g', relaxed, v) && x !in relaxed
    ensures GOf(nodes, g', x) == GOf(nodes, g, x)
  {
  }

  /** One iteration of the relaxation loop keeps its bookkeeping. */
  lemma LowerNext(nodes: Nodes, seen: set<Pos>, g: map<Pos, ExtNat>, g': map<Pos, ExtNat>, cur: Pos,
                  nbrs: seq<Pos>, i: int, relaxed: seq<Pos>)
    requires Rect(nodes) && InBounds(nodes, cur) && nbrs == Neighbors(nodes, cur) && cur in seen
    requires 0 <= i < |nbrs| && LoweredUpTo(nodes, seen, g, cur, nbrs, i, relaxed)
    requires Regraded(g, g', relaxed, Succ(GOf(nodes, g, cur)))
    ensures InBounds(nodes, nbrs[i]) && nbrs[i] !in relaxed
    ensures GOf(nodes, g', cur) == GOf(nodes, g, cur) && GOf(nodes, g', nbrs[i]) == GOf(nodes, g, nbrs[i])
    ensures var q := nbrs[i];
      var lower := !VisitedNow(nodes, seen, q) && Less(Succ(GOf(nodes, g', cur)), GOf(nodes, g', q));
      LoweredUpTo(nodes, seen, g, cur, nbrs, i + 1, if lower then relaxed + [q] else relaxed)
  {
    var q := nbrs[i];
    assert q in nbrs;
    NotEarlier(cur, nbrs, i);
    Untouched(nodes, g, g', relaxed, Succ(GOf(nodes, g, cur)), cur);
    Untouched(nodes, g, g', relaxed, Succ(GOf(nodes, g, cur)), q);
    LowerStep(nodes, seen, g, cur, nbrs, i, relaxed);
  }

  lemma LowerStep(nodes: Nodes, seen: set<Pos>, g: map<Pos, ExtNat>, cur: Pos,
                  nbrs: seq<Pos>, i: int, relaxed: seq<Pos>)
    requires Rect(nodes) && InBounds(nodes, cur) && nbrs == Neighbors(nodes, cur)
    requires 0 <= i < |nbrs| && LoweredUpTo(nodes, seen, g, cur, nbrs, i, relaxed)
    requires nbrs[i] !in relaxed
    ensures var q := nbrs[i];
      InBounds(nodes, q) &&
      var lower := !VisitedNow(nodes, seen, q) && Less(Succ(GOf(nodes, g, cur)), GOf(nodes, g, q));
      LoweredUpTo(nodes, seen, g, cur, nbrs, i + 1, if lower then relaxed + [q] else relaxed)
  {
    var q := nbrs[i];
    assert InBounds(nodes, q) && Adjacent(cur, q) && !Get(nodes, q).isWall by {
      assert q in nbrs;
    }
    var lower := !VisitedNow(nodes, seen, q) && Less(Succ(GOf(nodes, g, cur)), GOf(nodes, g, q));
    var relaxed' := if lower then relaxed + [q] else relaxed;
    assert forall x :: x in relaxed' <==>
      x in nbrs[..i + 1] && Step(nodes, cur, x) && x !in seen && Less(Succ(GOf(nodes, g, cur)), GOf(nodes, g, x)) by {
      assert Step(nodes, cur, q) <==> !Get(nodes, q).isVisited;
      PrefixNext(nbrs, i);
    }
    if lower {
      AppendNoDups(relaxed, [q]);
    }
  }

  /** The loop of dijkstra over getNeighbors(current): every
      neighbour not yet visited gets `g(current) + 1` and `current` as
      parent when that is strictly smaller than its `g`, and joins the
      frontier when it is not in it yet. */
  method Relax(nodes: Nodes, seen: set<Pos>, frontier: seq<Pos>, cur: Pos,
               linked: Nodes, g: map<Pos, ExtNat>)
    returns (frontier': seq<Pos>, linked': Nodes, g': map<Pos, ExtNat>,
             ghost added: seq<Pos>, ghost relaxed: seq<Pos>)
    requires Rect(nodes) && InBounds(nodes, cur) && SameShape(nodes, linked) && cur in seen
    ensures frontier' == frontier + added && Admitted(nodes, seen, frontier, cur, added)
    ensures Lowered(nodes, seen, g, cur, relaxed)
    ensures Relinked(linked, linked', cur, relaxed)
    ensures Regraded(g, g', relaxed, Succ(GOf(nodes, g, cur)))
  {
    var nbrs := Neighbors(nodes, cur);
    frontier', linked', g', added, relaxed := frontier, linked, g, [], [];
    for i := 0 to |nbrs|
      invariant frontier' == frontier + added
      invariant AdmittedUpTo(nodes, seen, frontier, cur, nbrs, i, added)
      invariant LoweredUpTo(nodes, seen, g, cur, nbrs, i, relaxed)
      invariant Relinked(linked, linked', cur, relaxed)
      invariant Regraded(g, g', relaxed, Succ(GOf(nodes, g, cur)))
    {
      var q := nbrs[i];
      AdmitNext(nodes, seen, frontier, cur, nbrs, i, added);
      LowerNext(nodes, seen, g, g', cur, nbrs, i, relaxed);
      if !VisitedNow(nodes, seen, q) {
        var newG := Succ(GOf(nodes, g', cur));
        if Less(newG, GOf(nodes, g', q)) {
          assert InBounds(linked, q);
          RelinkOne(linked, linked', cur, relaxed, q);
          RegradeOne(g, g', relaxed, newG, q);
          g' := g'[q := newG];
          linked' := SetParent(linked', q, cur);
          relaxed := relaxed + [q];
        }
        if q !in frontier' {
          AppendOne(frontier, added, q);
          frontier' := frontier' + [q];
          added := added + [q];
        }
      }
    }
    assert nbrs[..|nbrs|] == nbrs;
  }

  /** Every expanded or queued cell is reachable from the start and, apart
      from the start, open. */
  ghost predicate Reached(nodes: Nodes, s: Pos, seen: set<Pos>, frontier: seq<Pos>) {
    forall q :: q in seen || q in frontier ==> Reachable(nodes, s, q) && (q != s ==> Open(nodes, q))
  }

  /** The parent of a relaxed cell `q` is an expanded cell one step away
      whose `g` is one less than `q`'s. */
  ghost predicate GradeEdge(nodes: Nodes, linked: Nodes, seen: set<Pos>, g: map<Pos, ExtNat>, q: Pos)
    requires q in g
  {
    InBounds(linked, q) && Get(linked, q).parent.Some? &&
    var p := Get(linked, q).parent.value;
    p in seen && Step(nodes, p, q) && g[q].Fin? && g[q] == Succ(GOf(nodes, g, p))
  }

  /** Parents and `g` have changed only on relaxed cells, which are
      discovered cells other than the start, each linked to the expanded
      cell that last lowered it. */
  ghost predicate Graded(nodes: Nodes, s: Pos, seen: set<Pos>, frontier: seq<Pos>, linked: Nodes, g: map<Pos, ExtNat>) {
    SameExceptParents(nodes, linked) &&
    (forall q :: InBounds(nodes, q) && q !in g ==> Get(linked, q) == Get(nodes, q)) &&
    (forall q :: q in g ==> q != s && (q in seen || q in frontier)) &&
    (forall q {:trigger GradeEdge(nodes, linked, seen, g, q)} :: q in g ==> GradeEdge(nodes, linked, seen, g, q))
  }

  /** With the start as the only `isStart` node, every discovered cell
      other than the start has been relaxed. */
  ghost predicate Rooted(nodes: Nodes, s: Pos, seen: set<Pos>, frontier: seq<Pos>, g: map<Pos, ExtNat>) {
    StartOnly(nodes, s) ==> forall q :: q in seen || q in frontier ==> q == s || q in g
  }

  /** The `g` the working copy gives `q` once the cells of `done` have
      been expanded in turn: the initial value, lowered to `g(p) + 1` by
      each expanded neighbour `p` for which that is strictly smaller,
      where `g(p)` is the value `p` had when it was expanded (no later
      relaxation changes it). */
  ghost function GAt(nodes: Nodes, g: map<Pos, ExtNat>, done: seq<Pos>, q: Pos): ExtNat
    decreases |done|
  {
    if done == [] then Initial(nodes, q)
    else
      var p := done[|done| - 1];
      var before := GAt(nodes, g, done[..|done| - 1], q);
      if Step(nodes, p, q) && Less(Succ(GOf(nodes, g, p)), before) then Succ(GOf(nodes, g, p)) else before
  }

  /** `GAt` is the least of the initial `g` and of `g(p) + 1` over the
      expanded cells `p` one step away, and it is one of those values. */
  lemma {:induction false} GAtLeast(nodes: Nodes, g: map<Pos, ExtNat>, done: seq<Pos>, q: Pos)
    decreases |done|
    ensures NotAfter(GAt(nodes, g, done, q), Initial(nodes, q))
    ensures forall p :: p in done && Step(nodes, p, q) ==> NotAfter(GAt(nodes, g, done, q), Succ(GOf(nodes, g, p)))
    ensures GAt(nodes, g, done, q) == Initial(nodes, q) ||
            exists p :: p in done && Step(nodes, p, q) && GAt(nodes, g, done, q) == Succ(GOf(nodes, g, p))
  {
    if done != [] {
      var front, p := done[..|done| - 1], done[|done| - 1];
      GAtLeast(nodes, g, front, q);
      assert done == front + [p];
      var before, now := GAt(nodes, g, front, q), GAt(nodes, g, done, q);
      assert NotAfter(now, before);
      forall x | x in done && Step(nodes, x, q)
        ensures NotAfter(now, Succ(GOf(nodes, g, x)))
      {
        if x != p {
          NotAfterTrans(now, before, Succ(GOf(nodes, g, x)));
        }
      }
      NotAfterTrans(now, before, Initial(nodes, q));
      if now != before {
        assert p in done;
      } else if before != Initial(nodes, q) {
        var x :| x in front && Step(nodes, x, q) && before == Succ(GOf(nodes, g, x));
        assert x in done;
      }
    }
  }

  /** `GAt` reads `g` only on the cells of `done`. */
  lemma {:induction false} GAtFrame(nodes: Nodes, g: map<Pos, ExtNat>, g': map<Pos, ExtNat>, done: seq<Pos>)
    requires forall p :: p in done ==> GOf(nodes, g, p) == GOf(nodes, g', p)
    decreases |done|
    ensures forall q :: GAt(nodes, g, done, q) == GAt(nodes, g', done, q)
  {
    if done != [] {
      var front := done[..|done| - 1];
      assert forall p :: p in front ==> p in done;
      GAtFrame(nodes, g, g', front);
      assert done[|done| - 1] in done;
    }
  }

  /** Every cell not yet expanded has the `g` that `GAt` gives it. */
  ghost predicate Tracks(nodes: Nodes, g: map<Pos, ExtNat>, order: seq<Pos>) {
    forall q :: q !in order ==> GOf(nodes, g, q) == GAt(nodes, g, order, q)
  }

  /** Expanding `cur` and relaxing its neighbours keeps `Tracks`. */
  lemma TrackNext(nodes: Nodes, seen: set<Pos>, order: seq<Pos>, cur: Pos,
                  g: map<Pos, ExtNat>, relaxed: seq<Pos>, g': map<Pos, ExtNat>)
    requires Tracks(nodes, g, order) && cur !in order
    requires forall q :: q in order <==> q in seen
    requires Lowered(nodes, seen + {cur}, g, cur, relaxed)
    requires Regraded(g, g', relaxed, Succ(GOf(nodes, g, cur)))
    ensures Tracks(nodes, g', order + [cur])
  {
    var order' := order + [cur];
    var v := Succ(GOf(nodes, g, cur));
    forall p | p in order'
      ensures GOf(nodes, g, p) == GOf(nodes, g', p)
    {
      Untouched(nodes, g, g', relaxed, v, p);
    }
    GAtFrame(nodes, g, g', order);
    assert order'[..|order|] == order;
    forall q | q !in order'
      ensures GOf(nodes, g', q) == GAt(nodes, g', order', q)
    {
      if q !in relaxed {
        Untouched(nodes, g, g', relaxed, v, q);
      }
    }
  }

  /** The `i`-th extraction took `order[i]`, the first cell of the frontier
      the sort had ordered by `g`, so a cell then waiting: the pick records
      that cell and its `g`
      (then and at the end, as no later relaxation changes it) and the `g`
      each other cell waiting after the first `i` expansions had at that
      moment; none of those is smaller. */
  ghost predicate PickAt(nodes: Nodes, s: Pos, g: map<Pos, ExtNat>, order: seq<Pos>, picks: seq<Pick<ExtNat>>, i: int) {
    0 <= i < |picks| && i < |order| &&
    var pick, done := picks[i], order[..i];
    Waiting(nodes, s, done, order[i]) &&
    pick.cell == order[i] && pick.key == GOf(nodes, g, order[i]) && pick.key == GAt(nodes, g, done, order[i]) &&
    (forall q :: q in pick.rest <==> Waiting(nodes, s, done, q) && q != order[i]) &&
    (forall q :: q in pick.rest ==> pick.rest[q] == GAt(nodes, g, done, q) && NotAfter(pick.key, pick.rest[q]))
  }

  /** Each expanded cell was waiting when it was taken, and was a least-`g`
      cell among those then waiting. */
  ghost predicate PickedLeast(nodes: Nodes, s: Pos, g: map<Pos, ExtNat>, order: seq<Pos>, picks: seq<Pick<ExtNat>>) {
    |picks| == |order| && forall i :: 0 <= i < |picks| ==> PickAt(nodes, s, g, order, picks, i)
  }

  /** The loop invariant of dijkstra. */
  ghost predicate Running(nodes: Nodes, s: Pos, seen: set<Pos>, frontier: seq<Pos>, order: seq<Pos>,
                          linked: Nodes, g: map<Pos, ExtNat>, picks: seq<Pick<ExtNat>>)
  {
    Rect(nodes) && InBounds(nodes, s) &&
    Apart(nodes, seen, frontier) && OrderOf(s, seen, order) &&
    (order == [] ==> frontier == [s] && g == map[]) &&
    ClosedBy(nodes, seen, frontier) &&
    Reached(nodes, s, seen, frontier) &&
    Sorted(frontier, ByG(nodes, g)) &&
    Graded(nodes, s, seen, frontier, linked, g) &&
    (NoStart(nodes) ==> g == map[]) &&
    Rooted(nodes, s, seen, frontier, g) &&
    FrontierIs(nodes, s, order, frontier) &&
    Tracks(nodes, g, order) &&
    PickedLeast(nodes, s, g, order, picks)
  }

  lemma Begin(nodes: Nodes, s: Pos)
    requires Rect(nodes) && InBounds(nodes, s)
    ensures Running(nodes, s, {}, [s], [], nodes, map[], [])
  {
    ReachableRefl(nodes, s);
  }

  /** The effect of one relaxation pass on the discovered cells'
      reachability and openness. */
  lemma GrowReached(nodes: Nodes, s: Pos, seen: set<Pos>, frontier: seq<Pos>, cur: Pos, added: seq<Pos>)
    requires Reached(nodes, s, seen, frontier) && cur in frontier
    requires forall q :: q in added ==> Step(nodes, cur, q)
    ensures Reached(nodes, s, seen + {cur}, RemoveAt(frontier, IndexOf(frontier, cur)) + added)
  {
    var rest := RemoveAt(frontier, IndexOf(frontier, cur));
    forall q | q in seen + {cur} || q in rest + added
      ensures Reachable(nodes, s, q) && (q != s ==> Open(nodes, q))
    {
      if q in added {
        ReachableExtend(nodes, s, cur, q);
      }
    }
  }

  function IndexOf(s: seq<Pos>, x: Pos): (k: int)
    requires x in s
    ensures 0 <= k < |s| && s[k] == x
  {
    if s[0] == x then 0 else 1 + IndexOf(s[1..], x)
  }

  /** The effect of one relaxation pass on parents and `g`. */
  lemma GrowGraded(nodes: Nodes, s: Pos, seen: set<Pos>, frontier: seq<Pos>, cur: Pos,
                   linked: Nodes, g: map<Pos, ExtNat>, added: seq<Pos>, relaxed: seq<Pos>,
                   linked': Nodes, g': map<Pos, ExtNat>, frontier': seq<Pos>)
    requires Graded(nodes, s, seen, frontier, linked, g) && Rect(nodes)
    requires cur in frontier && cur !in seen && s in seen + {cur}
    requires forall q :: q in frontier' <==> (q in frontier && q != cur) || q in added
    requires forall q :: q in relaxed ==> Step(nodes, cur, q) && q !in seen + {cur} && q in frontier'
    requires Relinked(linked, linked', cur, relaxed)
    requires Regraded(g, g', relaxed, Succ(GOf(nodes, g, cur)))
    requires relaxed != [] ==> Succ(GOf(nodes, g, cur)).Fin?
    ensures Graded(nodes, s, seen + {cur}, frontier', linked', g')
  {
    var seen' := seen + {cur};
    forall q | q in g'
      ensures GradeEdge(nodes, linked', seen', g', q)
    {
      if q in relaxed {
        assert GOf(nodes, g', cur) == GOf(nodes, g, cur);
      } else {
        assert GradeEdge(nodes, linked, seen, g, q);
        var p := Get(linked, q).parent.value;
        assert p !in relaxed;
        assert GOf(nodes, g', p) == GOf(nodes, g, p);
      }
    }
    forall q | q in g'
      ensures q != s && (q in seen' || q in frontier')
    {
      if q !in relaxed {
        assert q in g;
      }
    }
  }

  /** The effect of one relaxation pass on the two `isStart` cases. */
  lemma GrowRooted(nodes: Nodes, s: Pos, seen: set<Pos>, frontier: seq<Pos>, cur: Pos,
                   g: map<Pos, ExtNat>, added: seq<Pos>, relaxed: seq<Pos>,
                   g': map<Pos, ExtNat>, frontier': seq<Pos>)
    requires Rooted(nodes, s, seen, frontier, g) && (NoStart(nodes) ==> g == map[])
    requires forall q :: q in g ==> q != s && g[q].Fin?
    requires cur in frontier && s in seen + {cur} && Rect(nodes) && InBounds(nodes, s)
    requires forall q :: q in frontier' <==> (q in frontier && q != cur) || q in added
    requires Admitted(nodes, seen + {cur}, RemoveAt(frontier, IndexOf(frontier, cur)), cur, added)
    requires Lowered(nodes, seen + {cur}, g, cur, relaxed)
    requires Regraded(g, g', relaxed, Succ(GOf(nodes, g, cur)))
    ensures Rooted(nodes, s, seen + {cur}, frontier', g') && (NoStart(nodes) ==> g' == map[])
  {
    if NoStart(nodes) {
      assert GOf(nodes, g, cur) == Inf;
      assert relaxed != [] ==> relaxed[0] in relaxed;
    }
    if StartOnly(nodes, s) {
      forall q | q in seen + {cur} || q in frontier'
        ensures q == s || q in g'
      {
        if q in added && q !in g {
          assert q != s;
          assert GOf(nodes, g, q) == Inf;
          assert cur == s || cur in g;
          assert GOf(nodes, g, cur).Fin?;
          assert q in relaxed;
        }
      }
    }
  }

  /** One iteration of the dijkstra loop, from popping the front of the
      sorted frontier to re-sorting it, keeps the invariant. */
  lemma Iterate(nodes: Nodes, s: Pos, seen: set<Pos>, frontier: seq<Pos>, order: seq<Pos>,
                linked: Nodes, g: map<Pos, ExtNat>, picks: seq<Pick<ExtNat>>,
                added: seq<Pos>, relaxed: seq<Pos>, linked': Nodes, g': map<Pos, ExtNat>)
    requires Running(nodes, s, seen, frontier, order, linked, g, picks) && frontier != []
    requires var cur := frontier[0];
      Admitted(nodes, seen + {cur}, frontier[1..], cur, added) &&
      Lowered(nodes, seen + {cur}, g, cur, relaxed) &&
      Relinked(linked, linked', cur, relaxed) &&
      Regraded(g, g', relaxed, Succ(GOf(nodes, g, cur)))
    ensures var cur := frontier[0];
      var pick := Pick(cur, GOf(nodes, g, cur), map q | q in frontier[1..] :: GOf(nodes, g, q));
      Running(nodes, s, seen + {cur}, SortBy(frontier[1..] + added, ByG(nodes, g')), order + [cur],
              linked', g', picks + [pick])
  {
    var cur := frontier[0];
    var seen' := seen + {cur};
    var rest := frontier[1..];
    var grown := rest + added;
    var sorted := SortBy(grown, ByG(nodes, g'));
    assert IndexOf(frontier, cur) == 0;
    assert rest == RemoveAt(frontier, 0);
    PopApart(nodes, seen, frontier, 0);
    PopOrder(s, seen, order, cur);
    assert s in seen';
    AppendNoDups(rest, added);
    assert Apart(nodes, seen', grown);
    Permuted(nodes, seen', grown, sorted);
    GrowClosed(nodes, seen, frontier, 0, added);
    GrowReached(nodes, s, seen, frontier, cur, added);
    forall q | q in relaxed
      ensures q in grown
    {
      if q !in rest {
        assert q in added;
      }
    }
    if relaxed != [] {
      NoRelaxFromInfinity(GOf(nodes, g, cur), GOf(nodes, g, relaxed[0]));
    }
    GrowGraded(nodes, s, seen, frontier, cur, linked, g, added, relaxed, linked', g', sorted);
    Ending(nodes, s, seen, frontier, order, linked, g, picks);
    GrowRooted(nodes, s, seen, frontier, cur, g, added, relaxed, g', sorted);
    ByGTotal(nodes, g', grown);
    SortBySorted(grown, ByG(nodes, g'));
    assert Reached(nodes, s, seen', sorted);
    WaitingNext(nodes, s, seen, frontier, order, 0, added);
    TrackNext(nodes, seen, order, cur, g, relaxed, g');
    PickedOne(nodes, s, seen, frontier, order, g, picks, relaxed, g');
  }

  /** The first cell of the sorted frontier has the least `g`. */
  lemma FrontLeast(nodes: Nodes, g: map<Pos, ExtNat>, frontier: seq<Pos>)
    requires Sorted(frontier, ByG(nodes, g)) && frontier != []
    ensures forall q :: q in frontier[1..] ==> NotAfter(GOf(nodes, g, frontier[0]), GOf(nodes, g, q))
  {
    forall q | q in frontier[1..]
      ensures NotAfter(GOf(nodes, g, frontier[0]), GOf(nodes, g, q))
    {
      var j :| 0 <= j < |frontier[1..]| && frontier[1..][j] == q;
      assert ByG(nodes, g)(frontier[0], frontier[j + 1]);
    }
  }

  /** Recording the extraction of the sorted frontier's first cell keeps
      `PickedLeast`. */
  lemma PickedOne(nodes: Nodes, s: Pos, seen: set<Pos>, frontier: seq<Pos>, order: seq<Pos>,
                  g: map<Pos, ExtNat>, picks: seq<Pick<ExtNat>>,
                  relaxed: seq<Pos>, g': map<Pos, ExtNat>)
    requires PickedLeast(nodes, s, g, order, picks) && Sorted(frontier, ByG(nodes, g)) && frontier != []
    requires FrontierIs(nodes, s, order, frontier) && NoDups(frontier) && Tracks(nodes, g, order)
    requires forall q :: q in order ==> q in seen
    requires forall q :: q in relaxed ==> q !in seen + {frontier[0]}
    requires Regraded(g, g', relaxed, Succ(GOf(nodes, g, frontier[0])))
    ensures var cur := frontier[0];
      var pick := Pick(cur, GOf(nodes, g, cur), map q | q in frontier[1..] :: GOf(nodes, g, q));
      PickedLeast(nodes, s, g', order + [cur], picks + [pick])
  {
    var cur := frontier[0];
    var pick := Pick(cur, GOf(nodes, g, cur), map q | q in frontier[1..] :: GOf(nodes, g, q));
    var picks' := picks + [pick];
    var order' := order + [cur];
    forall p | p in order'
      ensures GOf(nodes, g, p) == GOf(nodes, g', p)
    {
      Untouched(nodes, g, g', relaxed, Succ(GOf(nodes, g, cur)), p);
    }
    forall i | 0 <= i < |picks'|
      ensures PickAt(nodes, s, g', order', picks', i)
    {
      if i < |picks| {
        PickKept(nodes, s, g, g', order, cur, picks, pick, i);
      } else {
        PickNew(nodes, s, g, g', order, frontier, picks);
      }
    }
  }

  /** An earlier pick still holds once one more cell is expanded and `g`
      changes only off the expanded cells. */
  lemma PickKept(nodes: Nodes, s: Pos, g: map<Pos, ExtNat>, g': map<Pos, ExtNat>, order: seq<Pos>,
                 cur: Pos, picks: seq<Pick<ExtNat>>, pick: Pick<ExtNat>, i: int)
    requires PickAt(nodes, s, g, order, picks, i)
    requires forall p :: p in order ==> GOf(nodes, g, p) == GOf(nodes, g', p)
    ensures PickAt(nodes, s, g', order + [cur], picks + [pick], i)
  {
    var done := order[..i];
    assert (order + [cur])[..i] == done;
    assert order[i] in order;
    assert forall p :: p in done ==> p in order;
    GAtFrame(nodes, g, g', done);
  }

  /** The pick of the sorted frontier's first cell: its `g` and those of
      the cells left behind are the `GAt` values after `order`. */
  lemma PickNew(nodes: Nodes, s: Pos, g: map<Pos, ExtNat>, g': map<Pos, ExtNat>, order: seq<Pos>,
                frontier: seq<Pos>, picks: seq<Pick<ExtNat>>)
    requires Sorted(frontier, ByG(nodes, g)) && frontier != [] && |picks| == |order|
    requires FrontierIs(nodes, s, order, frontier) && NoDups(frontier) && Tracks(nodes, g, order)
    requires forall p :: p in order + [frontier[0]] ==> GOf(nodes, g, p) == GOf(nodes, g', p)
    ensures var cur := frontier[0];
      var pick := Pick(cur, GOf(nodes, g, cur), map q | q in frontier[1..] :: GOf(nodes, g, q));
      PickAt(nodes, s, g', order + [cur], picks + [pick], |picks|)
  {
    var cur := frontier[0];
    var order' := order + [cur];
    var rest := map q | q in frontier[1..] :: GOf(nodes, g, q);
    var pick := Pick(cur, GOf(nodes, g, cur), rest);
    assert order'[..|order|] == order && order'[|order|] == cur;
    assert forall p :: p in order ==> p in order';
    GAtFrame(nodes, g, g', order);
    assert cur in frontier;
    assert pick.key == GAt(nodes, g', order, cur);
    FrontLeast(nodes, g, frontier);
    assert forall q :: q in frontier[1..] <==> q in frontier && q != cur by {
      assert frontier == [cur] + frontier[1..];
    }
    forall q | q in rest
      ensures rest[q] == GAt(nodes, g', order, q) && NotAfter(pick.key, rest[q])
    {
      assert q in frontier;
    }
  }

  /** The depths the `g` values give when the start is the only `isStart`
      node. */
  ghost function Depths(g: map<Pos, ExtNat>, s: Pos): map<Pos, nat> {
    map q | q in g.Keys + {s} :: if q in g && g[q].Fin? then g[q].n else 0
  }

  /** With the start as the only `isStart` node the parents the run wrote
      form a tree rooted at the start whose depths are the `g` values. */
  lemma GradedTree(nodes: Nodes, s: Pos, seen: set<Pos>, frontier: seq<Pos>, order: seq<Pos>,
                   linked: Nodes, g: map<Pos, ExtNat>, picks: seq<Pick<ExtNat>>)
    requires Running(nodes, s, seen, frontier, order, linked, g, picks) && StartOnly(nodes, s)
    ensures ParentTree(nodes, linked, s, Depths(g, s))
    ensures forall q :: q in seen ==> q in Depths(g, s)
  {
    var depth := Depths(g, s);
    assert s !in g;
    assert GOf(nodes, g, s) == Fin(0);
    forall q | q in depth && q != s
      ensures TreeEdge(nodes, linked, depth, q)
    {
      assert GradeEdge(nodes, linked, seen, g, q);
      var p := Get(linked, q).parent.value;
      assert p == s || p in g;
    }
  }

  /** No walk from the start reaches a relaxed cell in as few moves as its
      `g`: every relaxed `g` is at most the length of a shortest walk. */
  ghost predicate Bounded(nodes: Nodes, s: Pos, g: map<Pos, ExtNat>) {
    forall w :: IsWalk(nodes, w) && w[0] == s && w[|w| - 1] in g ==> Less(g[w[|w| - 1]], Fin(|w|))
  }

  /** The cells of `order` come with `g` values that never decrease. */
  ghost predicate Climbs(nodes: Nodes, g: map<Pos, ExtNat>, order: seq<Pos>) {
    forall i, j :: 0 <= i < j < |order| ==> NotAfter(GOf(nodes, g, order[i]), GOf(nodes, g, order[j]))
  }

  /** No cell of the frontier has a smaller `g` than an expanded cell. */
  ghost predicate Below(nodes: Nodes, g: map<Pos, ExtNat>, order: seq<Pos>, frontier: seq<Pos>) {
    forall i, x :: 0 <= i < |order| && x in frontier ==> NotAfter(GOf(nodes, g, order[i]), GOf(nodes, g, x))
  }

  /** The second loop invariant of dijkstra, when the start is the only
      `isStart` node: cells are expanded in order of `g`, and every `g`
      is bounded by the walks to its cell. */
  ghost predicate Ranking(nodes: Nodes, s: Pos, g: map<Pos, ExtNat>, order: seq<Pos>, frontier: seq<Pos>) {
    StartOnly(nodes, s) ==> Climbs(nodes, g, order) && Below(nodes, g, order, frontier) && Bounded(nodes, s, g)
  }

  /** What the run leaves in the caller's nodes: parents and `g` change
      only on relaxed cells, which are reachable cells other than the start
      with a finite `g`; with the start as the only `isStart` node the
      parents form a shortest-path tree from the start whose depths are the
      `g` values. */
  ghost predicate Lowering(nodes: Nodes, s: Pos, linked: Nodes, g: map<Pos, ExtNat>) {
    SameExceptParents(nodes, linked) &&
    (forall q :: InBounds(nodes, q) && q !in g ==> Get(linked, q) == Get(nodes, q)) &&
    (forall q :: q in g ==> q != s && Reachable(nodes, s, q) && g[q].Fin?) &&
    (StartOnly(nodes, s) ==> ParentTree(nodes, linked, s, Depths(g, s)) && Shortest(nodes, s, Depths(g, s)))
  }

  /** With the start as the only `isStart` node, the cells were expanded
      in order of their distance from the start. */
  ghost predicate Ranked(nodes: Nodes, s: Pos, g: map<Pos, ExtNat>, order: seq<Pos>) {
    StartOnly(nodes, s) ==>
      (forall q :: q in order ==> q in Depths(g, s)) &&
      forall i, j :: 0 <= i < j < |order| ==> Depths(g, s)[order[i]] <= Depths(g, s)[order[j]]
  }

  lemma NotAfterTrans(x: ExtNat, y: ExtNat, z: ExtNat)
    requires NotAfter(x, y) && NotAfter(y, z)
    ensures NotAfter(x, z)
  {
  }

  /** One iteration keeps the expansion order climbing: the cell taken has
      the least `g` of the frontier, and every cell the iteration leaves in
      the frontier has at least its `g`. */
  lemma ClimbNext(nodes: Nodes, s: Pos, seen: set<Pos>, frontier: seq<Pos>, order: seq<Pos>,
                  g: map<Pos, ExtNat>, added: seq<Pos>, relaxed: seq<Pos>, g': map<Pos, ExtNat>,
                  frontier': seq<Pos>)
    requires StartOnly(nodes, s) && Sorted(frontier, ByG(nodes, g)) && frontier != []
    requires Climbs(nodes, g, order) && Below(nodes, g, order, frontier)
    requires forall q :: q in order ==> q in seen
    requires s in seen + {frontier[0]}
    requires forall q :: q in g ==> q in seen || q in frontier
    requires forall q :: q in added ==> q !in frontier && q !in seen
    requires forall q :: q in relaxed ==> q !in seen + {frontier[0]}
    requires Regraded(g, g', relaxed, Succ(GOf(nodes, g, frontier[0])))
    requires forall q :: q in frontier' <==> q in frontier[1..] || q in added
    ensures Climbs(nodes, g', order + [frontier[0]]) && Below(nodes, g', order + [frontier[0]], frontier')
  {
    var cur := frontier[0];
    var a := GOf(nodes, g, cur);
    var order' := order + [cur];
    FrontLeast(nodes, g, frontier);
    forall y | y in order'
      ensures GOf(nodes, g', y) == GOf(nodes, g, y)
    {
      Untouched(nodes, g, g', relaxed, Succ(a), y);
    }
    forall x | x in frontier'
      ensures NotAfter(a, GOf(nodes, g', x))
    {
      if x !in relaxed {
        Untouched(nodes, g, g', relaxed, Succ(a), x);
        if x !in frontier[1..] {
          assert x !in g && x != s;
        }
      }
    }
    forall i, j | 0 <= i < j < |order'|
      ensures NotAfter(GOf(nodes, g', order'[i]), GOf(nodes, g', order'[j]))
    {
      assert order'[i] in order' && order'[j] in order';
      if j < |order| {
        assert order'[i] == order[i] && order'[j] == order[j];
      } else {
        assert order'[i] == order[i] && cur in frontier;
      }
    }
    forall i, x | 0 <= i < |order'| && x in frontier'
      ensures NotAfter(GOf(nodes, g', order'[i]), GOf(nodes, g', x))
    {
      assert order'[i] in order';
      if i < |order| {
        assert order'[i] == order[i] && cur in frontier;
        NotAfterTrans(GOf(nodes, g, order[i]), a, GOf(nodes, g', x));
      }
    }
  }

  /** A walk from the start to a cell the iteration relaxes takes more
      moves than the new `g` of that cell: it meets the frontier at a cell
      whose `g` is at least that of the cell taken and at most the moves it
      took to get there. */
  lemma RelaxedWalk(nodes: Nodes, s: Pos, seen: set<Pos>, frontier: seq<Pos>, g: map<Pos, ExtNat>,
                    a: ExtNat, w: seq<Pos>)
    requires StartOnly(nodes, s) && InBounds(nodes, s) && Bounded(nodes, s, g)
    requires ClosedBy(nodes, seen, frontier)
    requires forall x :: x in frontier ==> NotAfter(a, GOf(nodes, g, x))
    requires s in seen || s in frontier
    requires forall q :: q in seen || q in frontier ==> q == s || q in g
    requires forall q :: q in g ==> q != s
    requires IsWalk(nodes, w) && w[0] == s
    requires w[|w| - 1] !in seen && w[|w| - 1] != s && Less(Succ(a), GOf(nodes, g, w[|w| - 1]))
    ensures Less(Succ(a), Fin(|w|))
  {
    Crossing(nodes, seen, frontier, w);
    var k :| 0 <= k < |w| && w[k] in frontier;
    PrefixWalk(nodes, w, k);
    assert NotAfter(a, GOf(nodes, g, w[k]));
    if w[k] == s {
      assert GOf(nodes, g, s) == Fin(0);
    } else {
      assert Less(g[w[k]], Fin(k + 1));
    }
  }

  /** One iteration keeps every relaxed `g` bounded by the walks. */
  lemma BoundNext(nodes: Nodes, s: Pos, seen: set<Pos>, frontier: seq<Pos>, g: map<Pos, ExtNat>,
                  relaxed: seq<Pos>, g': map<Pos, ExtNat>)
    requires StartOnly(nodes, s) && InBounds(nodes, s) && Bounded(nodes, s, g)
    requires ClosedBy(nodes, seen, frontier) && Sorted(frontier, ByG(nodes, g)) && frontier != []
    requires s in seen + {frontier[0]}
    requires forall q :: q in seen || q in frontier ==> q == s || q in g
    requires forall q :: q in g ==> q != s
    requires Lowered(nodes, seen + {frontier[0]}, g, frontier[0], relaxed)
    requires Regraded(g, g', relaxed, Succ(GOf(nodes, g, frontier[0])))
    ensures Bounded(nodes, s, g')
  {
    var cur := frontier[0];
    var a := GOf(nodes, g, cur);
    FrontLeast(nodes, g, frontier);
    assert forall x :: x in frontier ==> NotAfter(a, GOf(nodes, g, x)) by {
      assert frontier == [cur] + frontier[1..];
    }
    forall w | IsWalk(nodes, w) && w[0] == s && w[|w| - 1] in g'
      ensures Less(g'[w[|w| - 1]], Fin(|w|))
    {
      if w[|w| - 1] in relaxed {
        RelaxedWalk(nodes, s, seen, frontier, g, a, w);
      }
    }
  }

  /** One iteration of the dijkstra loop keeps `Ranking`. */
  lemma RankNext(nodes: Nodes, s: Pos, seen: set<Pos>, frontier: seq<Pos>, order: seq<Pos>,
                 linked: Nodes, g: map<Pos, ExtNat>, picks: seq<Pick<ExtNat>>,
                 added: seq<Pos>, relaxed: seq<Pos>, g': map<Pos, ExtNat>)
    requires Running(nodes, s, seen, frontier, order, linked, g, picks) && frontier != []
    requires Ranking(nodes, s, g, order, frontier)
    requires var cur := frontier[0];
      Admitted(nodes, seen + {cur}, frontier[1..], cur, added) &&
      Lowered(nodes, seen + {cur}, g, cur, relaxed) &&
      Regraded(g, g', relaxed, Succ(GOf(nodes, g, cur)))
    ensures Ranking(nodes, s, g', order + [frontier[0]], SortBy(frontier[1..] + added, ByG(nodes, g')))
  {
    if StartOnly(nodes, s) {
      var cur := frontier[0];
      var frontier' := SortBy(frontier[1..] + added, ByG(nodes, g'));
      Permuted(nodes, seen, frontier[1..] + added, frontier');
      assert s in seen + {cur} by {
        if order != [] {
          assert order[0] in order;
        }
      }
      ClimbNext(nodes, s, seen, frontier, order, g, added, relaxed, g', frontier');
      BoundNext(nodes, s, seen, frontier, g, relaxed, g');
    }
  }

  /** Taking the end from the sorted frontier keeps the order climbing. */
  lemma ClimbTake(nodes: Nodes, g: map<Pos, ExtNat>, order: seq<Pos>, frontier: seq<Pos>)
    requires Climbs(nodes, g, order) && Below(nodes, g, order, frontier) && frontier != []
    ensures Climbs(nodes, g, order + [frontier[0]])
  {
    var order' := order + [frontier[0]];
    forall i, j | 0 <= i < j < |order'|
      ensures NotAfter(GOf(nodes, g, order'[i]), GOf(nodes, g, order'[j]))
    {
      assert order'[i] == order[i];
      if j < |order| {
        assert order'[j] == order[j];
      }
    }
  }

  /** The bound on the relaxed `g` values makes the depths they give
      shortest. */
  lemma ShortestFrom(nodes: Nodes, s: Pos, g: map<Pos, ExtNat>)
    requires Bounded(nodes, s, g) && s !in g
    ensures Shortest(nodes, s, Depths(g, s))
  {
    forall w | IsWalk(nodes, w) && w[0] == s && w[|w| - 1] in Depths(g, s)
      ensures Depths(g, s)[w[|w| - 1]] < |w|
    {
      if w[|w| - 1] in g {
        assert Less(g[w[|w| - 1]], Fin(|w|));
      }
    }
  }

  /** A climbing order of cells whose `g` is finite ranks them by depth. */
  lemma RankedFrom(nodes: Nodes, s: Pos, g: map<Pos, ExtNat>, order: seq<Pos>)
    requires InBounds(nodes, s)
    requires forall q :: q in g ==> q != s && g[q].Fin?
    requires StartOnly(nodes, s) ==> Climbs(nodes, g, order) && forall q :: q in order ==> q == s || q in g
    ensures Ranked(nodes, s, g, order)
  {
    if StartOnly(nodes, s) {
      var depth := Depths(g, s);
      forall q | q in order
        ensures q in depth && GOf(nodes, g, q) == Fin(depth[q])
      {
      }
      forall i, j | 0 <= i < j < |order|
        ensures depth[order[i]] <= depth[order[j]]
      {
        assert order[i] in order && order[j] in order;
        assert NotAfter(GOf(nodes, g, order[i]), GOf(nodes, g, order[j]));
      }
    }
  }

  /** The search loop of dijkstra on the caller's `nodes`, from `s` to `e`:
      returns whether the end was taken from the frontier, the order in
      which cells were taken, `nodes` with the parent writes the search
      makes on the caller's grid, and (as ghosts) the relaxed `g` values
      and a record of each extraction. */
  method DijkstraOn(nodes: Nodes, s: Pos, e: Pos)
    returns (found: bool, order: seq<Pos>, linked: Nodes,
             ghost g: map<Pos, ExtNat>, ghost picks: seq<Pick<ExtNat>>)
    requires Rect(nodes) && InBounds(nodes, s) && InBounds(nodes, e) && s != e
    ensures found <==> Reachable(nodes, s, e)
    ensures Visits(nodes, s, e, found, order)
    ensures Lowering(nodes, s, linked, g)
    ensures Ranked(nodes, s, g, order)
    ensures PickedLeast(nodes, s, g, order, picks)
    ensures NoStart(nodes) ==> linked == nodes
  {
    var frontier := [s];
    var seen: set<Pos> := {};
    var gs: map<Pos, ExtNat> := map[];
    order, linked, picks := [], nodes, [];
    Begin(nodes, s);
    while frontier != []
      invariant Running(nodes, s, seen, frontier, order, linked, gs, picks)
      invariant Ranking(nodes, s, gs, order, frontier)
      invariant e !in seen
      decreases Cells(nodes) - seen
    {
      ghost var frontier0, seen0, order0, linked0, g0, picks0 := frontier, seen, order, linked, gs, picks;
      var cur := frontier[0];
      InCells(nodes, cur);
      frontier := frontier[1..];
      seen := seen + {cur};
      order := order + [cur];
      picks := picks + [Pick(cur, GOf(nodes, gs, cur), map q | q in frontier :: GOf(nodes, gs, q))];
      if cur == e {
        Settled(nodes, s, seen0, frontier0, order0, linked, gs, picks0);
        Finish(nodes, s, e, seen0, frontier0, order0, linked, gs, picks0);
        TakeRanked(nodes, s, seen0, frontier0, order0, linked, gs, picks0);
        TakePicked(nodes, s, seen0, frontier0, order0, linked, gs, picks0);
        return true, order, linked, gs, picks;
      }
      ghost var added, relaxed;
      frontier, linked, gs, added, relaxed := Relax(nodes, seen, frontier, cur, linked, gs);
      frontier := SortBy(frontier, ByG(nodes, gs));
      Iterate(nodes, s, seen0, frontier0, order0, linked0, g0, picks0, added, relaxed, linked, gs);
      RankNext(nodes, s, seen0, frontier0, order0, linked0, g0, picks0, added, relaxed, gs);
    }
    Settled(nodes, s, seen, frontier, order, linked, gs, picks);
    Exhausted(nodes, s, e, seen, order, linked, gs, picks);
    return false, order, linked, gs, picks;
  }

  /** What the invariants give about the caller's nodes at any exit of the
      loop. */
  lemma Settled(nodes: Nodes, s: Pos, seen: set<Pos>, frontier: seq<Pos>, order: seq<Pos>,
                linked: Nodes, g: map<Pos, ExtNat>, picks: seq<Pick<ExtNat>>)
    requires Running(nodes, s, seen, frontier, order, linked, g, picks)
    requires Ranking(nodes, s, g, order, frontier)
    ensures Lowering(nodes, s, linked, g) && (NoStart(nodes) ==> linked == nodes)
  {
    Ending(nodes, s, seen, frontier, order, linked, g, picks);
    if StartOnly(nodes, s) {
      GradedTree(nodes, s, seen, frontier, order, linked, g, picks);
      ShortestFrom(nodes, s, g);
    }
  }

  /** The postcondition when the end is taken from the frontier. */
  lemma Finish(nodes: Nodes, s: Pos, e: Pos, seen: set<Pos>, frontier: seq<Pos>, order: seq<Pos>,
               linked: Nodes, g: map<Pos, ExtNat>, picks: seq<Pick<ExtNat>>)
    requires Running(nodes, s, seen, frontier, order, linked, g, picks) && frontier != []
    requires frontier[0] == e && e !in seen
    ensures Reachable(nodes, s, e) && Visits(nodes, s, e, true, order + [e])
  {
    PopOrder(s, seen, order, e);
    var order' := order + [e];
    forall i | 0 < i < |order'|
      ensures Open(nodes, order'[i])
    {
      assert order'[i] != order'[0];
    }
  }

  /** Taking the first cell of the frontier keeps `PickedLeast`. */
  lemma TakePicked(nodes: Nodes, s: Pos, seen: set<Pos>, frontier: seq<Pos>, order: seq<Pos>,
                   linked: Nodes, g: map<Pos, ExtNat>, picks: seq<Pick<ExtNat>>)
    requires Running(nodes, s, seen, frontier, order, linked, g, picks) && frontier != []
    ensures var cur := frontier[0];
      PickedLeast(nodes, s, g, order + [cur],
                  picks + [Pick(cur, GOf(nodes, g, cur), map q | q in frontier[1..] :: GOf(nodes, g, q))])
  {
    PickedOne(nodes, s, seen, frontier, order, g, picks, [], g);
  }

  /** Taking the first cell of the frontier keeps the expanded cells ranked. */
  lemma TakeRanked(nodes: Nodes, s: Pos, seen: set<Pos>, frontier: seq<Pos>, order: seq<Pos>,
                   linked: Nodes, g: map<Pos, ExtNat>, picks: seq<Pick<ExtNat>>)
    requires Running(nodes, s, seen, frontier, order, linked, g, picks) && frontier != []
    requires Ranking(nodes, s, g, order, frontier)
    ensures Ranked(nodes, s, g, order + [frontier[0]])
  {
    Ending(nodes, s, seen, frontier, order, linked, g, picks);
    var order' := order + [frontier[0]];
    if StartOnly(nodes, s) {
      ClimbTake(nodes, g, order, frontier);
      assert forall q :: q in order' ==> q == s || q in g;
    }
    RankedFrom(nodes, s, g, order');
  }

  /** The postcondition when the frontier runs empty. */
  lemma Exhausted(nodes: Nodes, s: Pos, e: Pos, seen: set<Pos>, order: seq<Pos>,
                  linked: Nodes, g: map<Pos, ExtNat>, picks: seq<Pick<ExtNat>>)
    requires Running(nodes, s, seen, [], order, linked, g, picks) && e !in seen
    requires Ranking(nodes, s, g, order, [])
    ensures !Reachable(nodes, s, e) && Visits(nodes, s, e, false, order)
    ensures Ranked(nodes, s, g, order)
  {
    Ending(nodes, s, seen, [], order, linked, g, picks);
    assert s in seen;
    Unreachable(nodes, seen, s, e);
    forall i | 0 < i < |order|
      ensures Open(nodes, order[i])
    {
      assert order[i] != order[0];
    }
    RankedFrom(nodes, s, g, order);
  }

  /** What the invariant gives at any exit of the loop. */
  lemma Ending(nodes: Nodes, s: Pos, seen: set<Pos>, frontier: seq<Pos>, order: seq<Pos>,
               linked: Nodes, g: map<Pos, ExtNat>, picks: seq<Pick<ExtNat>>)
    requires Running(nodes, s, seen, frontier, order, linked, g, picks)
    ensures forall q :: q in g ==> q != s && Reachable(nodes, s, q) && g[q].Fin?
    ensures NoStart(nodes) ==> linked == nodes
  {
    forall q | q in g
      ensures g[q].Fin?
    {
      assert GradeEdge(nodes, linked, seen, g, q);
    }
    if NoStart(nodes) {
      MatrixExt(linked, nodes);
    }
  }

  /** dijkstra(grid): on a grid with different start and end, runs the
      search, writes its parents onto `grid.nodes` and, when the end was
      reached, stores the visited order in `grid.visited`; otherwise changes
      nothing. */
  method Dijkstra(grid: Grid) returns (found: bool)
    requires grid.Valid()
    modifies grid
    ensures grid.Valid()
    ensures grid.start == old(grid.start) && grid.end == old(grid.end)
    ensures grid.walls == old(grid.walls) && grid.path == old(grid.path)
    ensures grid.rows == old(grid.rows) && grid.cols == old(grid.cols)
    ensures !Runs(old(grid.start), old(grid.end)) ==> !found && grid.nodes == old(grid.nodes) && grid.visited == old(grid.visited)
    ensures Runs(old(grid.start), old(grid.end)) ==>
      var s, e := old(grid.start).value, old(grid.end).value;
      (found <==> Reachable(old(grid.nodes), s, e)) &&
      (found ==> Visits(old(grid.nodes), s, e, true, grid.visited)) &&
      (!found ==> grid.visited == old(grid.visited)) &&
      (NoStart(old(grid.nodes)) ==> grid.nodes == old(grid.nodes)) &&
      exists g :: Lowering(old(grid.nodes), s, grid.nodes, g) &&
                  (found ==> Ranked(old(grid.nodes), s, g, grid.visited) &&
                             exists picks :: PickedLeast(old(grid.nodes), s, g, grid.visited, picks))
  {
    if !Runs(grid.start, grid.end) {
      return false;
    }
    var order, linked;
    ghost var g, picks;
    ghost var nodes, s := grid.nodes, grid.start.value;
    found, order, linked, g, picks := DijkstraOn(grid.nodes, grid.start.value, grid.end.value);
    grid.nodes := linked;
    if found {
      grid.visited := order;
    }
    assert Lowering(nodes, s, grid.nodes, g) &&
           (found ==> Ranked(nodes, s, g, grid.visited) && PickedLeast(nodes, s, g, grid.visited, picks));
  }
}
