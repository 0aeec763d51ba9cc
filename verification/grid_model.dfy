/** The node matrix shared by every search and by the maze generator:
    coordinates, nodes, neighbour enumeration (getNeighbors), grid
    construction (createGrid) and path reconstruction (getPath).
    A node is identified by its coordinate, so the object identity the
    source compares with `===` becomes equality of `Pos` values, and a
    `parent` reference becomes an optional coordinate. */
module GridModel {

  datatype Option<T> = None | Some(value: T)

  /** A cell coordinate: `row` indexes the outer array, `col` the inner one. */
  datatype Pos = Pos(row: int, col: int)

  /** One grid cell with the fields the search code reads and writes.
      (`id` and the always-empty `neighbors` list are not modelled.) */
  datatype Node = Node(
    row: int, col: int,
    g: real, h: real, f: real,
    isStart: bool, isEnd: bool, isWall: bool, isVisited: bool, isPath: bool,
    parent: Option<Pos>)

  /** The `nodes` matrix: `nodes[row][col]`. */
  type Nodes = seq<seq<Node>>

  predicate InBounds(nodes: Nodes, p: Pos) {
    0 <= p.row < |nodes| && 0 <= p.col < |nodes[p.row]|
  }

  /** Every row is as long as the first one (the neighbour code reads the
      width from row 0). */
  predicate Rect(nodes: Nodes) {
    forall r :: 0 <= r < |nodes| ==> |nodes[r]| == |nodes[0]|
  }

  function Get(nodes: Nodes, p: Pos): Node
    requires InBounds(nodes, p)
  {
    nodes[p.row][p.col]
  }

  ghost predicate SameShape(a: Nodes, b: Nodes) {
    |a| == |b| && forall r :: 0 <= r < |a| ==> |a[r]| == |b[r]|
  }

  /** `b` differs from `a` at most in the `parent` fields. */
  ghost predicate SameExceptParents(a: Nodes, b: Nodes) {
    SameShape(a, b) &&
    forall p :: InBounds(a, p) ==> Get(b, p) == Get(a, p).(parent := Get(b, p).parent)
  }

  /** The set of all coordinates of the matrix. */
  ghost function Cells(nodes: Nodes): set<Pos> {
    set r, c | 0 <= r < |nodes| && 0 <= c < |nodes[r]| :: Pos(r, c)
  }

  lemma InCells(nodes: Nodes, p: Pos)
    requires InBounds(nodes, p)
    ensures p in Cells(nodes)
  {
    assert p == Pos(p.row, p.col);
  }

  /** Two matrices of the same shape that agree on every cell are equal. */
  lemma {:induction false} MatrixExt(a: Nodes, b: Nodes)
    requires SameShape(a, b)
    requires forall p :: InBounds(a, p) ==> Get(a, p) == Get(b, p)
    ensures a == b
  {
    forall r | 0 <= r < |a|
      ensures a[r] == b[r]
    {
      forall c | 0 <= c < |a[r]|
        ensures a[r][c] == b[r][c]
      {
        assert InBounds(a, Pos(r, c));
      }
    }
  }

  /** `nodes` with the parent of `q` set to `p`. */
  function SetParent(nodes: Nodes, q: Pos, p: Pos): (r: Nodes)
    requires InBounds(nodes, q)
    ensures SameShape(nodes, r) && SameExceptParents(nodes, r)
    ensures Get(r, q).parent == Some(p)
    ensures forall x :: InBounds(nodes, x) && x != q ==> Get(r, x) == Get(nodes, x)
  {
    nodes[q.row := nodes[q.row][q.col := Get(nodes, q).(parent := Some(p))]]
  }

  /** Position of `q` around `p` in the order top, right, bottom, left
      (0 to 3); 4 when `q` is not orthogonally adjacent to `p`. */
  function Dir(p: Pos, q: Pos): int {
    if q.row == p.row - 1 && q.col == p.col then 0
    else if q.row == p.row && q.col == p.col + 1 then 1
    else if q.row == p.row + 1 && q.col == p.col then 2
    else if q.row == p.row && q.col == p.col - 1 then 3
    else 4
  }

  predicate Adjacent(p: Pos, q: Pos) {
    Dir(p, q) < 4
  }

  /** `s` lists cells in strictly increasing direction around `p`. */
  ghost predicate InDirOrder(p: Pos, s: seq<Pos>) {
    forall i, j :: 0 <= i < j < |s| ==> Dir(p, s[i]) < Dir(p, s[j])
  }

  /** The candidates of `s` whose node is not a wall, in their order. */
  function Unwalled(nodes: Nodes, s: seq<Pos>): (r: seq<Pos>)
    requires forall q :: q in s ==> InBounds(nodes, q)
    ensures |r| <= |s|
    ensures forall q :: q in r <==> q in s && !Get(nodes, q).isWall
  {
    if s == [] then []
    else (if Get(nodes, s[0]).isWall then [] else [s[0]]) + Unwalled(nodes, s[1..])
  }

  lemma {:induction false} UnwalledKeepsOrder(nodes: Nodes, p: Pos, s: seq<Pos>)
    requires forall q :: q in s ==> InBounds(nodes, q)
    requires InDirOrder(p, s)
    ensures InDirOrder(p, Unwalled(nodes, s))
  {
    if s != [] {
      UnwalledKeepsOrder(nodes, p, s[1..]);
      var rest := Unwalled(nodes, s[1..]);
      forall j | 0 <= j < |rest|
        ensures Dir(p, s[0]) < Dir(p, rest[j])
      {
        assert rest[j] in s[1..];
        var k :| 0 <= k < |s[1..]| && s[1..][k] == rest[j];
        assert s[k + 1] == rest[j];
      }
    }
  }

  /** The in-bounds cells above, right of, below and left of `p`, in that
      order: the four conditional pushes of getNeighbors. */
  function Around(nodes: Nodes, p: Pos): (r: seq<Pos>)
    requires Rect(nodes) && InBounds(nodes, p)
    ensures |r| <= 4
    ensures forall q :: q in r <==> InBounds(nodes, q) && Adjacent(p, q)
    ensures InDirOrder(p, r)
  {
    var up := if p.row > 0 then [Pos(p.row - 1, p.col)] else [];
    var right := if p.col < |nodes[0]| - 1 then [Pos(p.row, p.col + 1)] else [];
    var down := if p.row < |nodes| - 1 then [Pos(p.row + 1, p.col)] else [];
    var left := if p.col > 0 then [Pos(p.row, p.col - 1)] else [];
    assert |nodes[p.row]| == |nodes[0]|;
    assert p.row > 0 ==> |nodes[p.row - 1]| == |nodes[0]|;
    assert p.row < |nodes| - 1 ==> |nodes[p.row + 1]| == |nodes[0]|;
    up + right + down + left
  }

  /** getNeighbors: the in-bounds cells above, right of, below and left of
      `p`, in that order, without the walls. */
  function Neighbors(nodes: Nodes, p: Pos): (r: seq<Pos>)
    requires Rect(nodes) && InBounds(nodes, p)
    ensures |r| <= 4
    ensures forall q :: q in r <==> InBounds(nodes, q) && Adjacent(p, q) && !Get(nodes, q).isWall
    ensures InDirOrder(p, r)
  {
    var candidates := Around(nodes, p);
    UnwalledKeepsOrder(nodes, p, candidates);
    Unwalled(nodes, candidates)
  }

  function Max0(n: int): nat {
    if n < 0 then 0 else n
  }

  /** The state createGrid gives every node besides its coordinate: all
      flags false, g = h = f = 0 and no parent. */
  predicate Blank(n: Node) {
    n.g == 0.0 && n.h == 0.0 && n.f == 0.0 &&
    !n.isStart && !n.isEnd && !n.isWall && !n.isVisited && !n.isPath &&
    n.parent == None
  }

  /** The nested loops of createGrid: `width` rows of `height` nodes, the
      node at [x][y] carrying row x and column y. A negative count makes
      the loop run zero times. */
  method NewNodes(width: int, height: int) returns (nodes: Nodes)
    ensures |nodes| == Max0(width) && Rect(nodes)
    ensures forall x :: 0 <= x < |nodes| ==> |nodes[x]| == Max0(height)
    ensures forall x, y :: 0 <= x < |nodes| && 0 <= y < |nodes[x]| ==>
      nodes[x][y].row == x && nodes[x][y].col == y && Blank(nodes[x][y])
  {
    nodes := [];
    var x := 0;
    while x < width
      invariant 0 <= x <= Max0(width) && |nodes| == x
      invariant forall i :: 0 <= i < x ==> |nodes[i]| == Max0(height)
      invariant forall i, j :: 0 <= i < x && 0 <= j < |nodes[i]| ==>
        nodes[i][j].row == i && nodes[i][j].col == j && Blank(nodes[i][j])
    {
      var row: seq<Node> := [];
      var y := 0;
      while y < height
        invariant 0 <= y <= Max0(height) && |row| == y
        invariant forall j :: 0 <= j < y ==> row[j].row == x && row[j].col == j && Blank(row[j])
      {
        row := row + [Node(x, y, 0.0, 0.0, 0.0, false, false, false, false, false, None)];
        y := y + 1;
      }
      nodes := nodes + [row];
      x := x + 1;
    }
  }

  /** The grid object the search and maze functions receive and update. */
  class Grid {
    var nodes: Nodes
    var start: Option<Pos>
    var end: Option<Pos>
    var rows: int
    var cols: int
    var walls: seq<Pos>
    var visited: seq<Pos>
    var path: seq<Pos>

    /** The matrix is rectangular and start and end, when set, are cells
        of it (they are references to its nodes in the source). */
    ghost predicate Valid()
      reads this
    {
      Rect(nodes) &&
      (start.Some? ==> InBounds(nodes, start.value)) &&
      (end.Some? ==> InBounds(nodes, end.value))
    }

    /** createGrid(width, height). */
    constructor (width: int, height: int)
      ensures Valid()
      ensures |nodes| == Max0(width)
      ensures forall x :: 0 <= x < |nodes| ==> |nodes[x]| == Max0(height)
      ensures forall x, y :: 0 <= x < |nodes| && 0 <= y < |nodes[x]| ==>
        nodes[x][y].row == x && nodes[x][y].col == y && Blank(nodes[x][y])
      ensures start == None && end == None
      ensures rows == width && cols == height
      ensures walls == [] && visited == [] && path == []
    {
      var ns := NewNodes(width, height);
      nodes := ns;
      start, end := None, None;
      rows, cols := width, height;
      walls, visited, path := [], [], [];
    }
  }

  /** Following parent links from `q` reaches a node without a parent in at
      most `k` steps, every link staying inside the matrix. */
  ghost predicate EndsWithin(nodes: Nodes, q: Pos, k: nat)
    decreases k
  {
    InBounds(nodes, q) &&
    match Get(nodes, q).parent
    case None => true
    case Some(p) => k > 0 && EndsWithin(nodes, p, k - 1)
  }

  /** Each element of `path` after the first has the element before it as
      its parent. */
  ghost predicate Linked(nodes: Nodes, path: seq<Pos>) {
    forall i :: 0 < i < |path| ==> ParentBefore(nodes, path, i)
  }

  /** The parent of `path[i]` is `path[i - 1]`. */
  ghost predicate ParentBefore(nodes: Nodes, path: seq<Pos>, i: int)
    requires 0 < i < |path|
  {
    InBounds(nodes, path[i]) && Get(nodes, path[i]).parent == Some(path[i - 1])
  }

  lemma LinkedCons(nodes: Nodes, x: Pos, path: seq<Pos>)
    requires Linked(nodes, path)
    requires path != [] ==> InBounds(nodes, path[0]) && Get(nodes, path[0]).parent == Some(x)
    ensures Linked(nodes, [x] + path)
  {
    var p := [x] + path;
    forall i | 0 < i < |p|
      ensures ParentBefore(nodes, p, i)
    {
      if i > 1 {
        assert ParentBefore(nodes, path, i - 1);
      }
    }
  }

  /** getPath(end): walks the parent links back from `end`, putting each
      node in front, and stops at the first node without a parent. The
      source loops for ever on a cyclic chain, so the model asks for a
      chain that ends. */
  method GetPath(nodes: Nodes, end: Pos) returns (path: seq<Pos>)
    requires InBounds(nodes, end)
    requires exists k: nat :: EndsWithin(nodes, end, k)
    ensures path != [] && path[|path| - 1] == end
    ensures Linked(nodes, path)
    ensures InBounds(nodes, path[0]) && Get(nodes, path[0]).parent == None
    ensures Get(nodes, end).parent == None ==> path == [end]
  {
    path := [];
    var current := end;
    ghost var k: nat :| EndsWithin(nodes, end, k);
    while true
      invariant EndsWithin(nodes, current, k)
      invariant path == [] ==> current == end
      invariant path != [] ==>
        path[|path| - 1] == end && Linked(nodes, path) &&
        InBounds(nodes, path[0]) && Get(nodes, path[0]).parent == Some(current)
      decreases k
    {
      ghost var before := path;
      path := [current] + path;
      assert path[|path| - 1] == end by {
        if before != [] { assert path[|path| - 1] == before[|before| - 1]; }
      }
      LinkedCons(nodes, current, before);
      if Get(nodes, current).parent.None? {
        assert Get(nodes, end).parent == None ==> before == [] by {
          if before != [] && |before| > 1 {
            assert ParentBefore(nodes, before, |before| - 1);
          }
        }
        break;
      }
      current := Get(nodes, current).parent.value;
      k := k - 1;
    }
  }
}
