/** The board logic of the Grid component: the click handler that sets,
    moves and clears the start and end and toggles walls according to the
    draw mode, and the effect that afterwards makes every node's displayed
    `type` agree with the grid's start, end and walls. Nodes are shared
    objects, identified here by their coordinate; the React state `grid`
    (null before the grid is created) is the field `grid` of `GridView`. */
module GridView {
  import opened GridModel
  import opened Sequences

  /** The displayed role of a node. */
  datatype NodeType = Start | End | Wall | Visited | Path | Default

  /** What a click draws. */
  datatype DrawMode = DrawStart | DrawEnd | DrawWall | DrawDefault

  /** The part of the grid state the handler and the effect use: each
      node's `type`, and the start, end and walls of the grid. */
  datatype Board = Board(types: seq<seq<NodeType>>, start: Option<Pos>, end: Option<Pos>, walls: seq<Pos>)

  predicate Inside(types: seq<seq<NodeType>>, p: Pos) {
    0 <= p.row < |types| && 0 <= p.col < |types[p.row]|
  }

  /** Start, end and walls are nodes of the grid. */
  predicate Valid(b: Board) {
    (b.start.Some? ==> Inside(b.types, b.start.value)) &&
    (b.end.Some? ==> Inside(b.types, b.end.value)) &&
    forall w :: w in b.walls ==> Inside(b.types, w)
  }

  function TypeAt(b: Board, p: Pos): NodeType
    requires Inside(b.types, p)
  {
    b.types[p.row][p.col]
  }

  /** The node at `p` displayed as `t`. */
  function SetType(types: seq<seq<NodeType>>, p: Pos, t: NodeType): (r: seq<seq<NodeType>>)
    requires Inside(types, p)
    ensures |r| == |types| && forall i :: 0 <= i < |r| ==> |r[i]| == |types[i]|
    ensures r[p.row][p.col] == t
    ensures forall q :: Inside(types, q) && q != p ==> r[q.row][q.col] == types[q.row][q.col]
  {
    types[p.row := types[p.row][p.col := t]]
  }

  /** `walls.filter(wall => wall !== node)`. */
  function Without(walls: seq<Pos>, p: Pos): (r: seq<Pos>)
    ensures forall w :: w in r <==> w in walls && w != p
    ensures NoDups(walls) ==> NoDups(r)
    ensures p !in walls ==> r == walls
  {
    if walls == [] then []
    else if walls[0] == p then Without(walls[1..], p)
    else
      assert walls == [walls[0]] + walls[1..];
      var rest := Without(walls[1..], p);
      assert NoDups(walls) ==> NoDups([walls[0]] + rest) by {
        if NoDups(walls) {
          assert NoDups(walls[1..]) && walls[0] !in walls[1..];
          AppendNoDups([walls[0]], rest);
        }
      }
      [walls[0]] + rest
  }

  /** Only the node at `p` and the nodes of the old start and end may
      change their type, and only to default. */
  ghost predicate ClearsOnly(b: Board, r: Board, p: Pos)
    requires Valid(b)
  {
    Valid(r) && |r.types| == |b.types| &&
    (forall i :: 0 <= i < |r.types| ==> |r.types[i]| == |b.types[i]|) &&
    forall q :: Inside(b.types, q) && TypeAt(r, q) != TypeAt(b, q) ==>
      TypeAt(r, q) == Default && (q == p || Some(q) == b.start || Some(q) == b.end)
  }

  /** The types of `r` are those of `b` except that the node at `cleared`,
      if any, is displayed as default. */
  ghost predicate Repainted(b: Board, r: Board, cleared: Option<Pos>)
    requires Valid(b)
  {
    |r.types| == |b.types| && (forall i :: 0 <= i < |r.types| ==> |r.types[i]| == |b.types[i]|) &&
    forall q :: Inside(b.types, q) ==> TypeAt(r, q) == if Some(q) == cleared then Default else TypeAt(b, q)
  }

  /** Start mode: an end or wall node is refused; clicking the start
      clears it; otherwise the clicked node becomes the start and a
      previous start is displayed as default. */
  function ClickStart(b: Board, p: Pos): (r: Board)
    requires Valid(b) && Inside(b.types, p)
    ensures ClearsOnly(b, r, p) && r.end == b.end && r.walls == b.walls
    ensures TypeAt(b, p) == End || TypeAt(b, p) == Wall ==> r == b
    ensures r.start == if TypeAt(b, p) == End || TypeAt(b, p) == Wall then b.start
                       else if b.start == Some(p) then None else Some(p)
    ensures Repainted(b, r, if TypeAt(b, p) == End || TypeAt(b, p) == Wall then None else b.start)
  {
    var t := TypeAt(b, p);
    if t == End || t == Wall then b
    else if b.start == Some(p) then b.(types := SetType(b.types, p, Default), start := None)
    else if b.start.Some? then b.(types := SetType(b.types, b.start.value, Default), start := Some(p))
    else b.(start := Some(p))
  }

  /** End mode: start mode with start and end exchanged. */
  function ClickEnd(b: Board, p: Pos): (r: Board)
    requires Valid(b) && Inside(b.types, p)
    ensures ClearsOnly(b, r, p) && r.start == b.start && r.walls == b.walls
    ensures TypeAt(b, p) == Start || TypeAt(b, p) == Wall ==> r == b
    ensures r.end == if TypeAt(b, p) == Start || TypeAt(b, p) == Wall then b.end
                     else if b.end == Some(p) then None else Some(p)
    ensures Repainted(b, r, if TypeAt(b, p) == Start || TypeAt(b, p) == Wall then None else b.end)
  {
    var t := TypeAt(b, p);
    if t == Start || t == Wall then b
    else if b.end == Some(p) then b.(types := SetType(b.types, p, Default), end := None)
    else if b.end.Some? then b.(types := SetType(b.types, b.end.value, Default), end := Some(p))
    else b.(end := Some(p))
  }

  /** Wall mode: a start or end node is refused; a listed wall is
      displayed as default and leaves the list; any other node is appended
      to it. */
  function ClickWall(b: Board, p: Pos): (r: Board)
    requires Valid(b) && Inside(b.types, p)
    ensures ClearsOnly(b, r, p) && r.start == b.start && r.end == b.end
    ensures TypeAt(b, p) == Start || TypeAt(b, p) == End ==> r == b
    ensures TypeAt(b, p) != Start && TypeAt(b, p) != End ==>
      forall w :: w in r.walls <==> (w in b.walls <==> w != p)
    ensures TypeAt(b, p) != Start && TypeAt(b, p) != End ==>
      r.walls == if p in b.walls then Without(b.walls, p) else b.walls + [p]
    ensures Repainted(b, r, if TypeAt(b, p) != Start && TypeAt(b, p) != End && p in b.walls then Some(p) else None)
  {
    var t := TypeAt(b, p);
    if t == Start || t == End then b
    else if p in b.walls then b.(types := SetType(b.types, p, Default), walls := Without(b.walls, p))
    else b.(walls := b.walls + [p])
  }

  /** The effect of handleNodeClick on the grid state for a click on `p`
      in the given draw mode; any mode but start, end and wall changes
      nothing. */
  function Click(b: Board, mode: DrawMode, p: Pos): (r: Board)
    requires Valid(b) && Inside(b.types, p)
    ensures ClearsOnly(b, r, p)
    ensures mode != DrawStart ==> r.start == b.start
    ensures mode != DrawEnd ==> r.end == b.end
    ensures mode != DrawWall ==> r.walls == b.walls
    ensures mode == DrawDefault ==> r == b
  {
    match mode
    case DrawStart => ClickStart(b, p)
    case DrawEnd => ClickEnd(b, p)
    case DrawWall => ClickWall(b, p)
    case DrawDefault => b
  }

  /** The type the effect leaves at `p`: a listed wall shows as a wall,
      else the end as the end, else the start as the start (the effect
      marks the start, then the end, then each wall); any other node keeps
      its type. */
  function Role(b: Board, p: Pos): NodeType
    requires Inside(b.types, p)
  {
    if p in b.walls then Wall
    else if b.end == Some(p) then End
    else if b.start == Some(p) then Start
    else TypeAt(b, p)
  }

  /** The board after the effect. */
  function Synced(b: Board): (r: Board)
    requires Valid(b)
    ensures Valid(r) && r.start == b.start && r.end == b.end && r.walls == b.walls
    ensures |r.types| == |b.types| && forall i :: 0 <= i < |r.types| ==> |r.types[i]| == |b.types[i]|
    ensures forall q :: Inside(b.types, q) ==> TypeAt(r, q) == Role(b, q)
  {
    var types := seq(|b.types|, i requires 0 <= i < |b.types| =>
                     seq(|b.types[i]|, j requires 0 <= j < |b.types[i]| => Role(b, Pos(i, j))));
    b.(types := types)
  }

  /** Each role node already shows its role: the start as start, the end
      as end, each listed wall as a wall. The effect calls setGrid exactly
      when this fails. */
  predicate Marked(b: Board)
    requires Valid(b)
  {
    (b.start.Some? ==> TypeAt(b, b.start.value) == Start) &&
    (b.end.Some? ==> TypeAt(b, b.end.value) == End) &&
    forall w :: w in b.walls ==> TypeAt(b, w) == Wall
  }

  /** Start, end and the listed walls are different nodes. */
  predicate Apart(b: Board) {
    (b.start.Some? && b.end.Some? ==> b.start != b.end) &&
    (b.start.Some? ==> b.start.value !in b.walls) &&
    (b.end.Some? ==> b.end.value !in b.walls)
  }

  /** The effect settles after one run exactly when start, end and walls
      are different nodes: then the next run finds every role node marked
      and does not call setGrid; otherwise some node is marked over by a
      later role on every run, and the effect re-runs for ever. */
  lemma SettlesIff(b: Board)
    requires Valid(b)
    ensures Marked(Synced(b)) <==> Apart(b)
  {
    var r := Synced(b);
    if b.start.Some? {
      assert TypeAt(r, b.start.value) == Role(b, b.start.value);
    }
    if b.end.Some? {
      assert TypeAt(r, b.end.value) == Role(b, b.end.value);
    }
  }

  /** Every node shows its role and nothing else: exactly the start shows
      as start, exactly the end as end, exactly the listed walls as walls,
      and no wall is listed twice. */
  ghost predicate Shown(b: Board) {
    Valid(b) && NoDups(b.walls) &&
    forall q :: Inside(b.types, q) ==>
      (TypeAt(b, q) == Start <==> b.start == Some(q)) &&
      (TypeAt(b, q) == End <==> b.end == Some(q)) &&
      (TypeAt(b, q) == Wall <==> q in b.walls)
  }

  /** Two boards whose node types agree everywhere are equal. */
  lemma {:induction false} TypesExt(a: Board, b: Board)
    requires a.start == b.start && a.end == b.end && a.walls == b.walls
    requires |a.types| == |b.types| && forall i :: 0 <= i < |a.types| ==> |a.types[i]| == |b.types[i]|
    requires forall q :: Inside(a.types, q) ==> TypeAt(a, q) == TypeAt(b, q)
    ensures a == b
  {
    forall i | 0 <= i < |a.types|
      ensures a.types[i] == b.types[i]
    {
      forall j | 0 <= j < |a.types[i]|
        ensures a.types[i][j] == b.types[i][j]
      {
        assert Inside(a.types, Pos(i, j));
      }
    }
  }

  /** The effect changes nothing on a board that already shows its roles,
      so it does not call setGrid and does not run again. */
  lemma SyncedShown(b: Board)
    requires Shown(b)
    ensures Synced(b) == b
  {
    var r := Synced(b);
    forall q | Inside(b.types, q)
      ensures TypeAt(r, q) == TypeAt(b, q)
    {
    }
    TypesExt(r, b);
  }

  /** A second run of the effect changes nothing. */
  lemma SyncedTwice(b: Board)
    requires Valid(b)
    ensures Synced(Synced(b)) == Synced(b)
  {
    var r := Synced(b);
    forall q | Inside(r.types, q)
      ensures TypeAt(Synced(r), q) == TypeAt(r, q)
    {
      assert Inside(b.types, q);
    }
    TypesExt(Synced(r), r);
  }

  /** A click followed by the effect keeps every node showing its role. */
  lemma ClickShown(b: Board, mode: DrawMode, p: Pos)
    requires Shown(b) && Inside(b.types, p)
    ensures Shown(Synced(Click(b, mode, p))) && Apart(Synced(Click(b, mode, p)))
  {
    var c := Click(b, mode, p);
    var r := Synced(c);
    if mode == DrawWall && TypeAt(b, p) != Start && TypeAt(b, p) != End && p !in b.walls {
      AppendNoDups(b.walls, [p]);
    }
    forall q | Inside(r.types, q)
      ensures (TypeAt(r, q) == Start <==> r.start == Some(q)) &&
              (TypeAt(r, q) == End <==> r.end == Some(q)) &&
              (TypeAt(r, q) == Wall <==> q in r.walls)
    {
      assert Inside(b.types, q);
    }
    ShownApart(r);
  }

  /** On a board that shows its roles, start, end and walls are different
      nodes. */
  lemma ShownApart(b: Board)
    requires Shown(b)
    ensures Apart(b)
  {
    if b.start.Some? {
      assert Inside(b.types, b.start.value);
    }
    if b.end.Some? {
      assert Inside(b.types, b.end.value);
    }
  }

  /** Clicking a default node twice in a mode that draws it, followed each
      time by the effect, restores the board: for the start and end modes
      when no start (end) is set yet. */
  lemma ClickTwice(b: Board, mode: DrawMode, p: Pos)
    requires Shown(b) && Inside(b.types, p) && TypeAt(b, p) == Default
    requires mode != DrawDefault
    requires mode == DrawStart ==> b.start == None
    requires mode == DrawEnd ==> b.end == None
    ensures Synced(Click(Synced(Click(b, mode, p)), mode, p)) == b
  {
    var once := Synced(Click(b, mode, p));
    var twice := Synced(Click(once, mode, p));
    assert p !in b.walls && b.start != Some(p) && b.end != Some(p);
    if mode == DrawWall {
      assert once.walls == b.walls + [p] && TypeAt(once, p) == Wall;
      WithoutLast(b.walls, p);
      assert twice.walls == b.walls;
    } else if mode == DrawStart {
      assert once.start == Some(p) && TypeAt(once, p) == Start;
      assert twice.start == None;
    } else {
      assert once.end == Some(p) && TypeAt(once, p) == End;
      assert twice.end == None;
    }
    forall q | Inside(b.types, q)
      ensures TypeAt(twice, q) == TypeAt(b, q)
    {
    }
    TypesExt(twice, b);
  }

  lemma {:induction false} WithoutLast(walls: seq<Pos>, p: Pos)
    requires p !in walls
    ensures Without(walls + [p], p) == walls
  {
    if walls != [] {
      assert (walls + [p])[1..] == walls[1..] + [p];
      WithoutLast(walls[1..], p);
    }
  }

  /** After marking the start, the end and the first `i` walls of `b0`:
      roles unchanged, those walls shown as walls, the end and start
      shown as such unless marked over, every other node as before. */
  ghost predicate MarkedUpTo(b0: Board, b: Board, i: int)
    requires Valid(b0) && 0 <= i <= |b0.walls|
  {
    b.start == b0.start && b.end == b0.end && b.walls == b0.walls &&
    |b.types| == |b0.types| && (forall k :: 0 <= k < |b.types| ==> |b.types[k]| == |b0.types[k]|) &&
    forall q :: Inside(b0.types, q) ==>
      TypeAt(b, q) == if q in b0.walls[..i] then Wall else Role(b0.(walls := []), q)
  }

  /** The start, the end and the first `i` walls of `b` already show
      their roles. */
  predicate MarkedBefore(b: Board, i: int)
    requires Valid(b) && 0 <= i <= |b.walls|
  {
    (b.start.Some? ==> TypeAt(b, b.start.value) == Start) &&
    (b.end.Some? ==> TypeAt(b, b.end.value) == End) &&
    forall k :: 0 <= k < i ==> TypeAt(b, b.walls[k]) == Wall
  }

  lemma MarkNext(b0: Board, b: Board, i: int)
    requires Valid(b0) && 0 <= i < |b0.walls| && MarkedUpTo(b0, b, i)
    ensures Inside(b.types, b0.walls[i])
    ensures var w := b0.walls[i];
      MarkedUpTo(b0, if TypeAt(b, w) == Wall then b else b.(types := SetType(b.types, w, Wall)), i + 1)
    ensures MarkedBefore(b0, i) ==>
      (MarkedBefore(b0, i + 1) <==> TypeAt(b, b0.walls[i]) == Wall)
  {
    var w := b0.walls[i];
    assert b0.walls[..i + 1] == b0.walls[..i] + [w];
    assert w in b0.walls;
    if MarkedBefore(b0, i) && w in b0.walls[..i] {
      var k :| 0 <= k < i && b0.walls[k] == w;
    }
  }

  /** The first two steps of the effect: mark the start, then the end. */
  method MarkEnds(b0: Board) returns (b: Board, flag: bool)
    requires Valid(b0)
    ensures MarkedUpTo(b0, b, 0)
    ensures flag <==> !MarkedBefore(b0, 0)
  {
    b, flag := b0, false;
    if b.start.Some? && TypeAt(b, b.start.value) != Start {
      b := b.(types := SetType(b.types, b.start.value, Start));
      flag := true;
    }
    if b.end.Some? && TypeAt(b, b.end.value) != End {
      b := b.(types := SetType(b.types, b.end.value, End));
      flag := true;
    }
  }

  /** Once every wall is marked, the board is the synced one. */
  lemma MarkedAll(b0: Board, b: Board)
    requires Valid(b0) && MarkedUpTo(b0, b, |b0.walls|)
    ensures b == Synced(b0)
    ensures MarkedBefore(b0, |b0.walls|) <==> Marked(b0)
  {
    assert b0.walls[..|b0.walls|] == b0.walls;
    TypesExt(b, Synced(b0));
    if MarkedBefore(b0, |b0.walls|) {
      forall w | w in b0.walls
        ensures TypeAt(b0, w) == Wall
      {
        var k :| 0 <= k < |b0.walls| && b0.walls[k] == w;
      }
    }
  }

  /** The effect's marking pass on the board `b0`: returns the marked
      board and whether any node changed. */
  method Mark(b0: Board) returns (b: Board, flag: bool)
    requires Valid(b0)
    ensures b == Synced(b0)
    ensures flag <==> !Marked(b0)
  {
    b, flag := MarkEnds(b0);
    for i := 0 to |b.walls|
      invariant MarkedUpTo(b0, b, i)
      invariant flag <==> !MarkedBefore(b0, i)
    {
      var w := b.walls[i];
      MarkNext(b0, b, i);
      if TypeAt(b, w) != Wall {
        b := b.(types := SetType(b.types, w, Wall));
        flag := true;
      }
    }
    MarkedAll(b0, b);
  }

  /** The Grid component's state. */
  class GridView {
    var grid: Option<Board>

    /** handleNodeClick(node): with no grid, nothing changes; otherwise
        the grid becomes `Click` of it. */
    method HandleNodeClick(mode: DrawMode, p: Pos)
      requires grid.Some? ==> Valid(grid.value) && Inside(grid.value.types, p)
      modifies this
      ensures grid.None? ==> grid == old(grid)
      ensures old(grid).Some? ==> grid == Some(Click(old(grid).value, mode, p))
    {
      if grid.None? {
        return;
      }
      var b := grid.value;
      var t := TypeAt(b, p);
      if mode == DrawStart {
        if t == End || t == Wall {
        } else if b.start == Some(p) {
          grid := Some(b.(types := SetType(b.types, p, Default), start := None));
        } else if b.start.Some? {
          grid := Some(b.(types := SetType(b.types, b.start.value, Default), start := Some(p)));
        } else {
          grid := Some(b.(start := Some(p)));
        }
      } else if mode == DrawEnd {
        if t == Start || t == Wall {
        } else if b.end == Some(p) {
          grid := Some(b.(types := SetType(b.types, p, Default), end := None));
        } else if b.end.Some? {
          grid := Some(b.(types := SetType(b.types, b.end.value, Default), end := Some(p)));
        } else {
          grid := Some(b.(end := Some(p)));
        }
      } else if mode == DrawWall {
        if t == Start || t == End {
        } else if p in b.walls {
          grid := Some(b.(types := SetType(b.types, p, Default), walls := Without(b.walls, p)));
        } else {
          grid := Some(b.(walls := b.walls + [p]));
        }
      }
    }

    /** The effect on `grid`: marks the start, then the end, then each
        wall in list order, and answers whether any node changed (then the
        component calls setGrid and the effect runs again). */
    method Sync() returns (flag: bool)
      requires grid.Some? ==> Valid(grid.value)
      modifies this
      ensures grid.None? ==> grid == old(grid)
      ensures old(grid).Some? ==> grid == Some(Synced(old(grid).value))
      ensures old(grid).Some? ==> (flag <==> !Marked(old(grid).value))
      ensures old(grid).None? ==> !flag
    {
      flag := false;
      if grid.None? {
        return;
      }
      var b;
      b, flag := Mark(grid.value);
      grid := Some(b);
    }
  }
}
