/** recursiveDivision: walls the outline of a working copy of the grid,
    then repeatedly takes a region off a stack, draws a wall across it at
    a random row or column (leaving a gap around a random crossing point
    and never walling the start or end) and pushes the two halves. The
    maze is kept only when bfs finds a way from start to end in the copy;
    then `grid.walls` lists the walled cells. `Math.random()` is the
    oracle `rand`: its i-th call returns `rand(i)`. */
module Maze {
  import opened GridModel
  import opened Walks
  import opened Sequences
  import opened Search
  import Bfs

  /** A section of the grid still to divide: rows `rowStart..rowEnd` and
      columns `colStart..colEnd`, bounds included. */
  datatype Region = Region(rowStart: int, rowEnd: int, colStart: int, colEnd: int)

  predicate Within(p: Pos, r: Region) {
    r.rowStart <= p.row <= r.rowEnd && r.colStart <= p.col <= r.colEnd
  }

  /** One division step: the region, whether the wall runs along row `row`
      (horizontal) or along column `col`, and the random row and column. */
  datatype Cut = Cut(region: Region, horizontal: bool, row: int, col: int)

  /** `p` lies on the wall line of `c` inside its region. */
  predicate OnLine(p: Pos, c: Cut) {
    Within(p, c.region) && if c.horizontal then p.row == c.row else p.col == c.col
  }

  /** `p` is strictly closer than `gap` to the crossing point along the
      line, so it stays open. */
  predicate InGap(p: Pos, c: Cut, gap: int) {
    if c.horizontal then c.col - gap < p.col < c.col + gap
    else c.row - gap < p.row < c.row + gap
  }

  /** The cells a cut walls: its line without the gap, the start and the end. */
  predicate Blocks(p: Pos, c: Cut, gap: int, s: Pos, e: Pos) {
    OnLine(p, c) && !InGap(p, c, gap) && p != s && p != e
  }

  /** A cell of the first or last row or column. */
  predicate OnBorder(nodes: Nodes, p: Pos)
    requires |nodes| > 0
  {
    p.row == 0 || p.row == |nodes| - 1 || p.col == 0 || p.col == |nodes[0]| - 1
  }

  /** The region lies off the outline (it may be empty). */
  predicate Interior(nodes: Nodes, r: Region)
    requires |nodes| > 0
  {
    1 <= r.rowStart && r.rowEnd <= |nodes| - 2 && 1 <= r.colStart && r.colEnd <= |nodes[0]| - 2
  }

  /** The grid is big enough to divide: at least three rows and columns. */
  predicate Roomy(nodes: Nodes) {
    |nodes| >= 3 && |nodes[0]| >= 3
  }

  /** `Math.floor(r * (hi - lo + 1)) + lo` for a draw `r` of
      `Math.random()`: a row or column of `lo..hi`. */
  function Pick(r: real, lo: int, hi: int): (x: int)
    requires 0.0 <= r < 1.0 && lo <= hi
    ensures lo <= x <= hi
  {
    var n := (hi - lo + 1) as real;
    assert 0.0 <= r * n < n by {
      assert r * n <= 1.0 * n;
      assert r * n != n;
    }
    (r * n).Floor + lo
  }

  /** The rule a cut follows: it stays in its region, which lies off the
      outline and is at least two cells each way; a region taller than
      wide is cut along a row, one wider than tall along a column. */
  predicate Chosen(nodes: Nodes, c: Cut)
    requires |nodes| > 0
  {
    var r := c.region;
    Interior(nodes, r) && r.rowEnd - r.rowStart >= 1 && r.colEnd - r.colStart >= 1 &&
    r.rowStart <= c.row <= r.rowEnd && r.colStart <= c.col <= r.colEnd &&
    (r.rowEnd - r.rowStart > r.colEnd - r.colStart ==> c.horizontal) &&
    (r.rowEnd - r.rowStart < r.colEnd - r.colStart ==> !c.horizontal)
  }

  /** `nodes` with the node at `q` made a wall. */
  function SetWall(nodes: Nodes, q: Pos): (r: Nodes)
    requires InBounds(nodes, q)
    ensures SameShape(nodes, r)
    ensures Get(r, q) == Get(nodes, q).(isWall := true)
    ensures forall x :: InBounds(nodes, x) && x != q ==> Get(r, x) == Get(nodes, x)
  {
    nodes[q.row := nodes[q.row][q.col := Get(nodes, q).(isWall := true)]]
  }

  /** `carved` is `nodes` with exactly the cells of `walls` made walls. */
  ghost predicate WalledAt(nodes: Nodes, carved: Nodes, walls: seq<Pos>) {
    SameShape(nodes, carved) &&
    forall p :: InBounds(nodes, p) ==>
      Get(carved, p) == Get(nodes, p).(isWall := Get(nodes, p).isWall || p in walls)
  }

  /** Row-major order, the order of `nodes.flat()`. */
  predicate Before(p: Pos, q: Pos) {
    p.row < q.row || (p.row == q.row && p.col < q.col)
  }

  /** The outline pass over `gridCopy.flat()`: every cell of the first or
      last row or column becomes a wall and is listed, in row-major order. */
  method Outline(nodes: Nodes) returns (carved: Nodes, walls: seq<Pos>)
    requires Rect(nodes) && Roomy(nodes)
    ensures WalledAt(nodes, carved, walls)
    ensures forall p :: p in walls <==> InBounds(nodes, p) && OnBorder(nodes, p)
    ensures forall i, j :: 0 <= i < j < |walls| ==> Before(walls[i], walls[j])
  {
    carved, walls := nodes, [];
    for r := 0 to |nodes|
      invariant WalledAt(nodes, carved, walls)
      invariant forall p :: p in walls <==> InBounds(nodes, p) && OnBorder(nodes, p) && p.row < r
      invariant forall i, j :: 0 <= i < j < |walls| ==> Before(walls[i], walls[j])
    {
      for c := 0 to |nodes[r]|
        invariant WalledAt(nodes, carved, walls)
        invariant forall p :: p in walls <==>
          InBounds(nodes, p) && OnBorder(nodes, p) && (p.row < r || (p.row == r && p.col < c))
        invariant forall i, j :: 0 <= i < j < |walls| ==> Before(walls[i], walls[j])
      {
        var q := Pos(r, c);
        if r == 0 || r == |nodes| - 1 || c == 0 || c == |nodes[0]| - 1 {
          carved := SetWall(carved, q);
          walls := walls + [q];
        }
      }
    }
  }

  lemma WallOne(nodes: Nodes, carved: Nodes, walls: seq<Pos>, q: Pos)
    requires WalledAt(nodes, carved, walls) && InBounds(nodes, q)
    ensures WalledAt(nodes, SetWall(carved, q), walls + [q])
  {
  }

  /** Position along the line of `c`: the column of a horizontal wall, the
      row of a vertical one. */
  function Along(p: Pos, c: Cut): int {
    if c.horizontal then p.col else p.row
  }

  /** One of the wall-drawing loops: walks the line of `c` across its
      region and walls each cell outside the gap that is neither the start
      nor the end, appending it to `walls`. */
  method Draw(ghost nodes: Nodes, carved: Nodes, walls: seq<Pos>, c: Cut, s: Pos, e: Pos, gap: int)
    returns (carved': Nodes, walls': seq<Pos>, ghost added: seq<Pos>)
    requires Rect(nodes) && Roomy(nodes) && Chosen(nodes, c)
    requires WalledAt(nodes, carved, walls)
    ensures WalledAt(nodes, carved', walls')
    ensures walls' == walls + added
    ensures forall p :: p in added <==> Blocks(p, c, gap, s, e)
    ensures NoDups(added)
  {
    var r := c.region;
    var lo, hi, center := r.colStart, r.colEnd, c.col;
    if !c.horizontal {
      lo, hi, center := r.rowStart, r.rowEnd, c.row;
    }
    carved', walls', added := carved, walls, [];
    for i := lo to hi + 1
      invariant WalledAt(nodes, carved', walls')
      invariant walls' == walls + added
      invariant forall p :: p in added <==> Blocks(p, c, gap, s, e) && Along(p, c) < i
      invariant forall j, k :: 0 <= j < k < |added| ==> Along(added[j], c) < Along(added[k], c)
    {
      var q := if c.horizontal then Pos(c.row, i) else Pos(i, c.col);
      assert |nodes[q.row]| == |nodes[0]|;
      if !(i < center + gap && i > center - gap) && q != s && q != e {
        WallOne(nodes, carved', walls', q);
        carved' := SetWall(carved', q);
        walls' := walls' + [q];
        added := added + [q];
      }
    }
  }

  /** What a division run leaves behind: the copy has exactly the listed
      cells walled, each listed once; the whole outline is listed; every
      other listed cell was walled by a cut, which never walls its gap,
      the start or the end, and walls every other cell of its line; and
      each cut follows the choice rule. */
  ghost predicate Maze(nodes: Nodes, s: Pos, e: Pos, gap: int, carved: Nodes, walls: seq<Pos>, cuts: seq<Cut>)
    requires |nodes| > 0
  {
    WalledAt(nodes, carved, walls) && NoDups(walls) &&
    (forall p :: p in walls ==> InBounds(nodes, p)) &&
    (forall p :: InBounds(nodes, p) && OnBorder(nodes, p) ==> p in walls) &&
    (forall p :: p in walls && !OnBorder(nodes, p) ==>
      exists i :: 0 <= i < |cuts| && Blocks(p, cuts[i], gap, s, e)) &&
    (forall i, p :: 0 <= i < |cuts| && Blocks(p, cuts[i], gap, s, e) ==> p in walls) &&
    (forall i, p :: 0 <= i < |cuts| && OnLine(p, cuts[i]) && InGap(p, cuts[i], gap) ==> p !in walls) &&
    (forall i :: 0 <= i < |cuts| ==> Chosen(nodes, cuts[i]))
  }

  /** The loop invariant of the division: the maze so far, and a stack of
      regions off the outline that share no cell with each other, with a
      listed wall or with the line of an earlier cut. */
  ghost predicate Dividing(nodes: Nodes, s: Pos, e: Pos, gap: int, carved: Nodes, walls: seq<Pos>,
                           cuts: seq<Cut>, stack: seq<Region>)
    requires |nodes| > 0
  {
    Maze(nodes, s, e, gap, carved, walls, cuts) &&
    (forall k :: 0 <= k < |stack| ==> Interior(nodes, stack[k])) &&
    (forall p, j, k :: 0 <= j < k < |stack| && Within(p, stack[j]) ==> !Within(p, stack[k])) &&
    (forall p, k :: p in walls && 0 <= k < |stack| ==> !Within(p, stack[k])) &&
    (forall p, i, k :: 0 <= i < |cuts| && OnLine(p, cuts[i]) && 0 <= k < |stack| ==> !Within(p, stack[k]))
  }

  /** The two sections pushed after cut `c`: above and below its row, or
      left and right of its column. */
  function Halves(c: Cut): (h: seq<Region>)
    requires c.region.rowStart <= c.row <= c.region.rowEnd && c.region.colStart <= c.col <= c.region.colEnd
    ensures |h| == 2
    ensures forall p :: Within(p, h[0]) || Within(p, h[1]) <==> Within(p, c.region) && !OnLine(p, c)
    ensures forall p :: !(Within(p, h[0]) && Within(p, h[1]))
  {
    var r := c.region;
    if c.horizontal then
      [Region(r.rowStart, c.row - 1, r.colStart, r.colEnd), Region(c.row + 1, r.rowEnd, r.colStart, r.colEnd)]
    else
      [Region(r.rowStart, r.rowEnd, r.colStart, c.col - 1), Region(r.rowStart, r.rowEnd, c.col + 1, r.colEnd)]
  }

  /** Twice the number of cells of a region, plus one. */
  function Weight(r: Region): nat {
    2 * Max0(r.rowEnd - r.rowStart + 1) * Max0(r.colEnd - r.colStart + 1) + 1
  }

  function Total(stack: seq<Region>): nat {
    if stack == [] then 0 else Total(stack[..|stack| - 1]) + Weight(stack[|stack| - 1])
  }

  /** The halves of a cut weigh less than the region it divides, so the
      division loop ends. */
  lemma HalvesLighter(c: Cut)
    requires c.region.rowEnd - c.region.rowStart >= 1 && c.region.colEnd - c.region.colStart >= 1
    requires c.region.rowStart <= c.row <= c.region.rowEnd && c.region.colStart <= c.col <= c.region.colEnd
    ensures Weight(Halves(c)[0]) + Weight(Halves(c)[1]) < Weight(c.region)
  {
    var r := c.region;
    var h, w := r.rowEnd - r.rowStart + 1, r.colEnd - r.colStart + 1;
    if c.horizontal {
      var h1, h2 := c.row - r.rowStart, r.rowEnd - c.row;
      assert h1 * w + h2 * w == (h - 1) * w;
      assert (h - 1) * w == h * w - w;
    } else {
      var w1, w2 := c.col - r.colStart, r.colEnd - c.col;
      assert h * w1 + h * w2 == h * (w - 1);
      assert h * (w - 1) == h * w - h;
    }
  }

  lemma PopOne(stack: seq<Region>)
    requires stack != []
    ensures stack == stack[..|stack| - 1] + [stack[|stack| - 1]]
    ensures Total(stack) == Total(stack[..|stack| - 1]) + Weight(stack[|stack| - 1])
    ensures Total(stack[..|stack| - 1]) < Total(stack)
  {
  }

  lemma PushTwo(front: seq<Region>, a: Region, b: Region)
    ensures Total(front + [a, b]) == Total(front) + Weight(a) + Weight(b)
  {
    assert (front + [a, b])[..|front| + 1] == front + [a];
    assert (front + [a])[..|front|] == front;
  }

  /** The first region on the stack: everything inside the outline. */
  function Top(nodes: Nodes): (r: Region)
    requires |nodes| > 0
    ensures Rect(nodes) ==> forall p :: Within(p, r) <==> InBounds(nodes, p) && !OnBorder(nodes, p)
  {
    Region(1, |nodes| - 2, 1, |nodes[0]| - 2)
  }

  /** A region the loop skips: less than two rows or less than two columns. */
  predicate Thin(r: Region) {
    r.rowEnd - r.rowStart < 1 || r.colEnd - r.colStart < 1
  }

  /** `r` was pushed on the stack: it is the first region or a half of a cut. */
  ghost predicate Spawned(nodes: Nodes, cuts: seq<Cut>, r: Region)
    requires |nodes| > 0
  {
    r == Top(nodes) || exists i :: 0 <= i < |cuts| && Chosen(nodes, cuts[i]) && r in Halves(cuts[i])
  }

  /** `p` lies on the line of one of the cuts. */
  ghost predicate OnCut(p: Pos, cuts: seq<Cut>) {
    exists i :: 0 <= i < |cuts| && OnLine(p, cuts[i])
  }

  /** `p` lies in one of the regions. */
  ghost predicate InAny(p: Pos, regions: seq<Region>) {
    exists k :: 0 <= k < |regions| && Within(p, regions[k])
  }

  /** The cuts follow the recursion: each divides the first region or a
      half of an earlier cut, and no region is cut twice. */
  ghost predicate Lineage(nodes: Nodes, cuts: seq<Cut>)
    requires |nodes| > 0
  {
    (forall i :: 0 <= i < |cuts| ==> Spawned(nodes, cuts[..i], cuts[i].region)) &&
    (forall i, j :: 0 <= i < j < |cuts| ==> cuts[i].region != cuts[j].region)
  }

  /** The division went all the way down: the cuts follow the recursion,
      every cell inside the outline lies on the line of a cut or in one of
      `thin`, and every region of `thin` was pushed and then skipped as too
      thin to cut. */
  ghost predicate Covered(nodes: Nodes, cuts: seq<Cut>, thin: seq<Region>)
    requires |nodes| > 0
  {
    Lineage(nodes, cuts) &&
    (forall p :: Within(p, Top(nodes)) ==> OnCut(p, cuts) || InAny(p, thin)) &&
    (forall k :: 0 <= k < |thin| ==> Thin(thin[k]) && Spawned(nodes, cuts, thin[k]))
  }

  /** The coverage part of the loop invariant: every cell inside the
      outline is on a cut's line, in a region still on the stack or in a
      skipped one, and every region on the stack was pushed. */
  ghost predicate Reaching(nodes: Nodes, cuts: seq<Cut>, stack: seq<Region>, thin: seq<Region>)
    requires |nodes| > 0
  {
    (forall p :: Within(p, Top(nodes)) ==> OnCut(p, cuts) || InAny(p, stack) || InAny(p, thin)) &&
    (forall k :: 0 <= k < |stack| ==> Spawned(nodes, cuts, stack[k])) &&
    (forall k :: 0 <= k < |thin| ==> Thin(thin[k]) && Spawned(nodes, cuts, thin[k]))
  }

  /** Skipping a thin region moves it from the stack to the skipped ones. */
  lemma SkipReaches(nodes: Nodes, cuts: seq<Cut>, front: seq<Region>, r: Region, thin: seq<Region>)
    requires |nodes| > 0 && Reaching(nodes, cuts, front + [r], thin) && Thin(r)
    ensures Reaching(nodes, cuts, front, thin + [r])
  {
    var stack, thin' := front + [r], thin + [r];
    forall p | Within(p, Top(nodes))
      ensures OnCut(p, cuts) || InAny(p, front) || InAny(p, thin')
    {
      if InAny(p, stack) {
        var k :| 0 <= k < |stack| && Within(p, stack[k]);
        if k < |front| {
          assert stack[k] == front[k];
        } else {
          assert thin'[|thin|] == r;
        }
      } else if InAny(p, thin) {
        var k :| 0 <= k < |thin| && Within(p, thin[k]);
        assert thin'[k] == thin[k];
      }
    }
    forall k | 0 <= k < |front|
      ensures Spawned(nodes, cuts, front[k])
    {
      assert stack[k] == front[k];
    }
    assert stack[|front|] == r;
  }

  /** A region pushed before a cut was also pushed after it. */
  lemma SpawnedGrows(nodes: Nodes, cuts: seq<Cut>, c: Cut, r: Region)
    requires |nodes| > 0 && Spawned(nodes, cuts, r)
    ensures Spawned(nodes, cuts + [c], r)
  {
    if r != Top(nodes) {
      var i :| 0 <= i < |cuts| && Chosen(nodes, cuts[i]) && r in Halves(cuts[i]);
      assert (cuts + [c])[i] == cuts[i];
    }
  }

  /** Cutting the region on top of the stack replaces it by its halves:
      each of its cells is on the new line or in a half. */
  lemma CutReaches(nodes: Nodes, cuts: seq<Cut>, front: seq<Region>, c: Cut, thin: seq<Region>)
    requires |nodes| > 0 && Reaching(nodes, cuts, front + [c.region], thin) && Chosen(nodes, c)
    ensures Reaching(nodes, cuts + [c], front + Halves(c), thin)
  {
    var stack, stack', cuts' := front + [c.region], front + Halves(c), cuts + [c];
    var h := Halves(c);
    assert stack'[|front|] == h[0] && stack'[|front| + 1] == h[1];
    forall p | Within(p, Top(nodes))
      ensures OnCut(p, cuts') || InAny(p, stack') || InAny(p, thin)
    {
      if OnCut(p, cuts) {
        var i :| 0 <= i < |cuts| && OnLine(p, cuts[i]);
        assert cuts'[i] == cuts[i];
      } else if InAny(p, stack) {
        var k :| 0 <= k < |stack| && Within(p, stack[k]);
        if k < |front| {
          assert stack[k] == front[k] && stack'[k] == front[k];
        } else if OnLine(p, c) {
          assert cuts'[|cuts|] == c;
        }
      }
    }
    forall k | 0 <= k < |stack'|
      ensures Spawned(nodes, cuts', stack'[k])
    {
      if k < |front| {
        assert stack[k] == front[k] && stack'[k] == front[k];
        SpawnedGrows(nodes, cuts, c, front[k]);
      } else {
        assert cuts'[|cuts|] == c && stack'[k] in h;
      }
    }
    forall k | 0 <= k < |thin|
      ensures Thin(thin[k]) && Spawned(nodes, cuts', thin[k])
    {
      SpawnedGrows(nodes, cuts, c, thin[k]);
    }
  }

  /** Cutting the region on top of the stack keeps the lineage: that
      region was pushed, and it holds no cell of an earlier cut's line,
      while every earlier cut's region holds the crossing point of its
      own line. */
  lemma LineageNext(nodes: Nodes, s: Pos, e: Pos, gap: int, carved: Nodes, walls: seq<Pos>,
                    cuts: seq<Cut>, front: seq<Region>, thin: seq<Region>, c: Cut)
    requires |nodes| > 0 && Lineage(nodes, cuts)
    requires Dividing(nodes, s, e, gap, carved, walls, cuts, front + [c.region])
    requires Reaching(nodes, cuts, front + [c.region], thin)
    ensures Lineage(nodes, cuts + [c])
  {
    var stack, cuts' := front + [c.region], cuts + [c];
    assert stack[|front|] == c.region;
    assert cuts'[..|cuts|] == cuts;
    forall i | 0 <= i < |cuts'|
      ensures Spawned(nodes, cuts'[..i], cuts'[i].region)
    {
      if i < |cuts| {
        assert cuts'[..i] == cuts[..i] && cuts'[i] == cuts[i];
      }
    }
    forall i, j | 0 <= i < j < |cuts'|
      ensures cuts'[i].region != cuts'[j].region
    {
      assert cuts'[i] == cuts[i];
      if j < |cuts| {
        assert cuts'[j] == cuts[j];
      } else {
        var p := Pos(cuts[i].row, cuts[i].col);
        assert Chosen(nodes, cuts[i]) && OnLine(p, cuts[i]);
        assert !Within(p, stack[|front|]);
      }
    }
  }

  /** A cut of the region on top of the stack, with the walls it draws,
      keeps the invariant once the region is replaced by its halves. */
  lemma CutKeeps(nodes: Nodes, s: Pos, e: Pos, gap: int, carved: Nodes, walls: seq<Pos>,
                 cuts: seq<Cut>, front: seq<Region>, c: Cut,
                 carved': Nodes, walls': seq<Pos>, added: seq<Pos>)
    requires Rect(nodes) && Roomy(nodes)
    requires Dividing(nodes, s, e, gap, carved, walls, cuts, front + [c.region])
    requires Chosen(nodes, c)
    requires WalledAt(nodes, carved', walls') && walls' == walls + added && NoDups(added)
    requires forall p :: p in added <==> Blocks(p, c, gap, s, e)
    ensures Dividing(nodes, s, e, gap, carved', walls', cuts + [c], front + Halves(c))
  {
    var stack := front + [c.region];
    assert stack[|front|] == c.region;
    assert forall k :: 0 <= k < |front| ==> stack[k] == front[k];
    assert forall p :: p in walls ==> !Within(p, c.region);
    AppendNoDups(walls, added);
    assert forall p, i :: 0 <= i < |cuts| && OnLine(p, cuts[i]) ==> !Within(p, c.region);
    MazeGrows(nodes, s, e, gap, carved, walls, cuts, c, carved', walls', added);
    StackSplits(nodes, front, c);
    WallsOff(front, c, walls, added);
    LinesOff(front, c, cuts);
  }

  /** Replacing the top region by the halves of a cut keeps the regions
      off the outline and apart. */
  lemma StackSplits(nodes: Nodes, front: seq<Region>, c: Cut)
    requires |nodes| > 0 && Chosen(nodes, c)
    requires forall k :: 0 <= k < |front| ==> Interior(nodes, front[k])
    requires forall p, j, k :: 0 <= j < k < |front| && Within(p, front[j]) ==> !Within(p, front[k])
    requires forall p, k :: 0 <= k < |front| && Within(p, c.region) ==> !Within(p, front[k])
    ensures var stack' := front + Halves(c);
      (forall k :: 0 <= k < |stack'| ==> Interior(nodes, stack'[k])) &&
      (forall p, j, k :: 0 <= j < k < |stack'| && Within(p, stack'[j]) ==> !Within(p, stack'[k]))
  {
    var stack' := front + Halves(c);
    forall p, j, k | 0 <= j < k < |stack'| && Within(p, stack'[j])
      ensures !Within(p, stack'[k])
    {
      if k < |front| {
        assert stack'[j] == front[j] && stack'[k] == front[k];
      } else if j < |front| {
        assert stack'[j] == front[j];
      }
    }
  }

  /** Walls already listed and the walls of the cut lie outside the
      halves and the regions below them. */
  lemma WallsOff(front: seq<Region>, c: Cut, walls: seq<Pos>, added: seq<Pos>)
    requires c.region.rowStart <= c.row <= c.region.rowEnd && c.region.colStart <= c.col <= c.region.colEnd
    requires forall p, k :: p in walls && 0 <= k < |front| ==> !Within(p, front[k])
    requires forall p :: p in walls ==> !Within(p, c.region)
    requires forall p :: p in added ==> OnLine(p, c)
    requires forall p, k :: 0 <= k < |front| && Within(p, c.region) ==> !Within(p, front[k])
    ensures forall p, k :: p in walls + added && 0 <= k < |front + Halves(c)| ==> !Within(p, (front + Halves(c))[k])
  {
    var stack' := front + Halves(c);
    forall p, k | p in walls + added && 0 <= k < |stack'|
      ensures !Within(p, stack'[k])
    {
      if k < |front| {
        assert stack'[k] == front[k];
      }
    }
  }

  /** The lines of earlier cuts and of the new one lie outside the halves
      and the regions below them. */
  lemma LinesOff(front: seq<Region>, c: Cut, cuts: seq<Cut>)
    requires c.region.rowStart <= c.row <= c.region.rowEnd && c.region.colStart <= c.col <= c.region.colEnd
    requires forall p, i, k :: 0 <= i < |cuts| && OnLine(p, cuts[i]) && 0 <= k < |front| ==> !Within(p, front[k])
    requires forall p, i :: 0 <= i < |cuts| && OnLine(p, cuts[i]) ==> !Within(p, c.region)
    requires forall p, k :: 0 <= k < |front| && Within(p, c.region) ==> !Within(p, front[k])
    ensures var cuts', stack' := cuts + [c], front + Halves(c);
      forall p, i, k :: 0 <= i < |cuts'| && OnLine(p, cuts'[i]) && 0 <= k < |stack'| ==> !Within(p, stack'[k])
  {
    var cuts', stack' := cuts + [c], front + Halves(c);
    forall p, i, k | 0 <= i < |cuts'| && OnLine(p, cuts'[i]) && 0 <= k < |stack'|
      ensures !Within(p, stack'[k])
    {
      if i < |cuts| {
        assert cuts'[i] == cuts[i];
      }
      if k < |front| {
        assert stack'[k] == front[k];
      }
    }
  }

  /** The maze part of `CutKeeps`: the new walls lie on the cut's line in
      a region that no earlier wall or line touches. */
  lemma MazeGrows(nodes: Nodes, s: Pos, e: Pos, gap: int, carved: Nodes, walls: seq<Pos>,
                  cuts: seq<Cut>, c: Cut, carved': Nodes, walls': seq<Pos>, added: seq<Pos>)
    requires Rect(nodes) && Roomy(nodes)
    requires Maze(nodes, s, e, gap, carved, walls, cuts)
    requires Chosen(nodes, c)
    requires forall p :: p in walls ==> !Within(p, c.region)
    requires forall p, i :: 0 <= i < |cuts| && OnLine(p, cuts[i]) ==> !Within(p, c.region)
    requires WalledAt(nodes, carved', walls') && walls' == walls + added && NoDups(walls')
    requires forall p :: p in added <==> Blocks(p, c, gap, s, e)
    ensures Maze(nodes, s, e, gap, carved', walls', cuts + [c])
  {
    var cuts' := cuts + [c];
    forall p | p in walls'
      ensures InBounds(nodes, p)
    {
      if p in added {
        assert |nodes[p.row]| == |nodes[0]|;
      }
    }
    forall p | p in walls' && !OnBorder(nodes, p)
      ensures exists i :: 0 <= i < |cuts'| && Blocks(p, cuts'[i], gap, s, e)
    {
      if p in walls {
        var i :| 0 <= i < |cuts| && Blocks(p, cuts[i], gap, s, e);
        assert cuts'[i] == cuts[i];
      } else {
        assert cuts'[|cuts|] == c;
      }
    }
    forall i, p | 0 <= i < |cuts'| && Blocks(p, cuts'[i], gap, s, e)
      ensures p in walls'
    {
      if i < |cuts| {
        assert cuts'[i] == cuts[i];
      }
    }
    forall i, p | 0 <= i < |cuts'| && OnLine(p, cuts'[i]) && InGap(p, cuts'[i], gap)
      ensures p !in walls'
    {
      if i < |cuts| {
        assert cuts'[i] == cuts[i];
        assert !Within(p, c.region);
      }
    }
    forall i | 0 <= i < |cuts'|
      ensures Chosen(nodes, cuts'[i])
    {
      if i < |cuts| {
        assert cuts'[i] == cuts[i];
      }
    }
  }

  /** After the outline pass the invariant holds with the single region
      inside the outline on the stack. */
  lemma Starts(nodes: Nodes, s: Pos, e: Pos, gap: int, carved: Nodes, walls: seq<Pos>)
    requires Rect(nodes) && Roomy(nodes)
    requires WalledAt(nodes, carved, walls)
    requires forall p :: p in walls <==> InBounds(nodes, p) && OnBorder(nodes, p)
    requires forall i, j :: 0 <= i < j < |walls| ==> Before(walls[i], walls[j])
    ensures Dividing(nodes, s, e, gap, carved, walls, [], [Top(nodes)])
    ensures Reaching(nodes, [], [Top(nodes)], [])
  {
    assert NoDups(walls) by {
      forall i, j | 0 <= i < j < |walls|
        ensures walls[i] != walls[j]
      {
        assert Before(walls[i], walls[j]);
      }
    }
    var stack := [Top(nodes)];
    forall p | Within(p, Top(nodes))
      ensures InAny(p, stack)
    {
      assert Within(p, stack[0]);
    }
    forall p, k | p in walls && 0 <= k < |stack|
      ensures !Within(p, stack[k])
    {
      assert |nodes[p.row]| == |nodes[0]|;
    }
  }

  /** The division on a copy of `nodes` with start `s` and end `e`: walls
      the outline, then divides the regions of the stack until it is
      empty, drawing `rand(k)` for each random choice in turn. Returns the
      walled copy and the list of walled cells; as a ghost, the cuts. */
  method Divide(nodes: Nodes, s: Pos, e: Pos, gap: int, rand: nat -> real)
    returns (carved: Nodes, walls: seq<Pos>, ghost cuts: seq<Cut>, ghost thin: seq<Region>)
    requires Rect(nodes) && Roomy(nodes)
    requires forall i :: 0.0 <= rand(i) < 1.0
    ensures Maze(nodes, s, e, gap, carved, walls, cuts)
    ensures Covered(nodes, cuts, thin)
  {
    var stack := [Top(nodes)];
    carved, walls := Outline(nodes);
    cuts, thin := [], [];
    Starts(nodes, s, e, gap, carved, walls);
    var k := 0;
    while stack != []
      invariant Dividing(nodes, s, e, gap, carved, walls, cuts, stack)
      invariant Reaching(nodes, cuts, stack, thin)
      invariant Lineage(nodes, cuts)
      decreases Total(stack)
    {
      var r := stack[|stack| - 1];
      var front := stack[..|stack| - 1];
      ghost var before := Total(stack);
      PopOne(stack);
      stack := front;
      if r.rowEnd - r.rowStart < 1 || r.colEnd - r.colStart < 1 {
        SkipReaches(nodes, cuts, front, r, thin);
        thin := thin + [r];
        assert Total(stack) < before;
        continue;
      }
      var row := Pick(rand(k), r.rowStart, r.rowEnd);
      var col := Pick(rand(k + 1), r.colStart, r.colEnd);
      k := k + 2;
      var horizontal: bool;
      if r.rowEnd - r.rowStart > r.colEnd - r.colStart {
        horizontal := true;
      } else if r.rowEnd - r.rowStart < r.colEnd - r.colStart {
        horizontal := false;
      } else {
        horizontal := rand(k) < 0.5;
        k := k + 1;
      }
      var c := Cut(r, horizontal, row, col);
      ghost var carved0, walls0 := carved, walls;
      ghost var added;
      carved, walls, added := Draw(nodes, carved, walls, c, s, e, gap);
      CutKeeps(nodes, s, e, gap, carved0, walls0, cuts, front, c, carved, walls, added);
      LineageNext(nodes, s, e, gap, carved0, walls0, cuts, front, thin, c);
      CutReaches(nodes, cuts, front, c, thin);
      HalvesLighter(c);
      PushTwo(front, Halves(c)[0], Halves(c)[1]);
      stack := front + Halves(c);
      cuts := cuts + [c];
      assert Total(stack) < before;
    }
  }

  /** A maze never succeeds with the end on the outline: the outline pass
      walls it, and a search cannot enter a wall. */
  lemma EndOnBorder(nodes: Nodes, s: Pos, e: Pos, gap: int, carved: Nodes, walls: seq<Pos>, cuts: seq<Cut>)
    requires |nodes| > 0 && Maze(nodes, s, e, gap, carved, walls, cuts)
    requires InBounds(nodes, e) && OnBorder(nodes, e) && s != e
    ensures !Reachable(carved, s, e)
  {
    assert Get(carved, e).isWall;
    forall w | IsWalk(carved, w) && w[0] == s
      ensures w[|w| - 1] != e
    {
      if |w| > 1 {
        assert StepAt(carved, w, |w| - 1);
      }
    }
  }

  /** recursiveDivision(grid, gap): with start and end set and distinct on
      a grid of at least three rows and columns, divides a copy of the
      grid; when bfs then finds a way from start to end in the copy, sets
      `grid.walls` to the walled cells and answers true. The grid's own
      nodes are never changed. */
  method RecursiveDivision(grid: Grid, gap: int, rand: nat -> real)
    returns (ok: bool, ghost carved: Nodes, ghost walls: seq<Pos>, ghost cuts: seq<Cut>, ghost thin: seq<Region>)
    requires grid.Valid()
    requires forall i :: 0.0 <= rand(i) < 1.0
    modifies grid
    ensures grid.Valid()
    ensures grid.nodes == old(grid.nodes) && grid.start == old(grid.start) && grid.end == old(grid.end)
    ensures grid.rows == old(grid.rows) && grid.cols == old(grid.cols)
    ensures grid.visited == old(grid.visited) && grid.path == old(grid.path)
    ensures !(Runs(old(grid.start), old(grid.end)) && Roomy(old(grid.nodes))) ==>
      !ok && grid.walls == old(grid.walls)
    ensures Runs(old(grid.start), old(grid.end)) && Roomy(old(grid.nodes)) ==>
      var s, e := old(grid.start).value, old(grid.end).value;
      Maze(old(grid.nodes), s, e, gap, carved, walls, cuts) && Covered(old(grid.nodes), cuts, thin) &&
      (ok <==> Reachable(carved, s, e))
    ensures ok ==> grid.walls == walls
    ensures !ok ==> grid.walls == old(grid.walls)
  {
    carved, walls, cuts, thin := grid.nodes, [], [], [];
    if !Runs(grid.start, grid.end) {
      return false, carved, walls, cuts, thin;
    }
    if |grid.nodes| < 3 || |grid.nodes[0]| < 3 {
      return false, carved, walls, cuts, thin;
    }
    var s, e := grid.start.value, grid.end.value;
    var copy, list;
    copy, list, cuts, thin := Divide(grid.nodes, s, e, gap, rand);
    carved, walls := copy, list;
    assert Rect(copy) by {
      forall r | 0 <= r < |copy|
        ensures |copy[r]| == |copy[0]|
      {
        assert |grid.nodes[r]| == |grid.nodes[0]|;
      }
    }
    var found, order, linked;
    ghost var depth;
    found, order, linked, depth := Bfs.BfsOn(copy, s, e);
    if !found {
      return false, carved, walls, cuts, thin;
    }
    grid.walls := list;
    return true, carved, walls, cuts, thin;
  }
}
