/** The maze of server/internal/maze/maze.go: generation by iterative backtracking, and play.
    Generation digs a spanning tree of the grid whatever the random source answers. */
module Maze {
  import opened Options
  import opened Bytes

  datatype Dir = North | East | South | West

  datatype Cell = Cell(x: int, y: int)

  datatype Neighbor = Neighbor(cell: Cell, dir: Dir)

  /** The wall masks, row by row: bit 0 north, 1 east, 2 south, 3 west. */
  type Cells = seq<seq<byte>>

  const ALL_WALLS: byte := 15

  function BitOf(d: Dir): nat {
    match d case North => 0 case East => 1 case South => 2 case West => 3
  }

  function Opposite(d: Dir): Dir {
    match d case North => South case South => North case East => West case West => East
  }

  function Ahead(c: Cell, d: Dir): Cell {
    match d
    case North => Cell(c.x, c.y - 1)
    case East => Cell(c.x + 1, c.y)
    case South => Cell(c.x, c.y + 1)
    case West => Cell(c.x - 1, c.y)
  }

  predicate Inside(c: Cell, w: int, h: int) { 0 <= c.x < w && 0 <= c.y < h }

  predicate Shape<T>(rows: seq<seq<T>>, w: int, h: int) {
    |rows| == h && forall y :: 0 <= y < h ==> |rows[y]| == w
  }

  /** Is there a wall on that side of the cell? */
  predicate WallAt(cells: Cells, c: Cell, d: Dir)
    requires 0 <= c.y < |cells| && 0 <= c.x < |cells[c.y]|
  {
    Bit(cells[c.y][c.x], BitOf(d))
  }

  function At<T>(rows: seq<seq<T>>, c: Cell): T
    requires 0 <= c.y < |rows| && 0 <= c.x < |rows[c.y]|
  {
    rows[c.y][c.x]
  }

  function Set<T>(rows: seq<seq<T>>, c: Cell, v: T): seq<seq<T>>
    requires 0 <= c.y < |rows| && 0 <= c.x < |rows[c.y]|
  {
    rows[c.y := rows[c.y][c.x := v]]
  }

  // ---------------------------------------------------------------- growing a tree

  /** The cells in the order they were reached, and for each the index of the cell it was reached from. */
  datatype Growth = Growth(order: seq<Cell>, parent: seq<nat>)

  ghost predicate Distinct<T>(s: seq<T>) { forall i, j :: 0 <= i < j < |s| ==> s[i] != s[j] }

  ghost predicate Grown(g: Growth) {
    && |g.parent| == |g.order| && Distinct(g.order)
    && forall i :: 1 <= i < |g.order| ==> g.parent[i] < i
  }

  /** a and b are a cell and the one it was reached from, or the other way round. */
  ghost predicate EdgeAt(g: Growth, i: nat, a: Cell, b: Cell)
    requires Grown(g)
  {
    1 <= i < |g.order| && ((a == g.order[i] && b == g.order[g.parent[i]])
        || (b == g.order[i] && a == g.order[g.parent[i]]))
  }

  ghost predicate Edge(g: Growth, a: Cell, b: Cell)
    requires Grown(g)
  {
    exists i: nat :: EdgeAt(g, i, a, b)
  }

  /** A simple path from a to b through the first n cells reached. */
  ghost predicate TreePath(g: Growth, n: nat, p: seq<Cell>, a: Cell, b: Cell)
    requires Grown(g) && n <= |g.order|
  {
    && p != [] && p[0] == a && p[|p| - 1] == b && Distinct(p)
    && (forall i :: 0 <= i < |p| ==> p[i] in g.order[..n])
    && (forall i :: 0 <= i < |p| - 1 ==> Edge(g, p[i], p[i + 1]))
  }

  /** Among the first n cells, the last one reached has its parent for only neighbour. */
  lemma LeafEdge(g: Growth, n: nat, u: Cell)
    requires Grown(g) && 1 <= n <= |g.order| && u in g.order[..n]
    requires Edge(g, g.order[n - 1], u) || Edge(g, u, g.order[n - 1])
    ensures n >= 2 && u == g.order[g.parent[n - 1]] && u in g.order[..n - 1]
  {
    var v := g.order[n - 1];
    if Edge(g, u, v) { EdgeSymmetric(g, u, v); }
    var i: nat :| EdgeAt(g, i, v, u);
    var k :| 0 <= k < n && g.order[k] == u;
    SameIndex(g.order, i, n - 1);
  }

  lemma SameIndex(s: seq<Cell>, i: nat, j: nat)
    requires Distinct(s) && i < |s| && j < |s| && s[i] == s[j]
    ensures i == j
  {}

  lemma EdgeSymmetric(g: Growth, a: Cell, b: Cell)
    requires Grown(g) && Edge(g, a, b)
    ensures Edge(g, b, a)
  {
    var i: nat :| EdgeAt(g, i, a, b);
    assert EdgeAt(g, i, b, a);
  }

  /** A simple path has no room to visit the last leaf except at its ends. */
  lemma LeafNotInside(g: Growth, n: nat, p: seq<Cell>, a: Cell, b: Cell, k: nat)
    requires Grown(g) && 1 <= n <= |g.order| && TreePath(g, n, p, a, b) && 0 < k < |p| - 1
    ensures p[k] != g.order[n - 1]
  {
    if p[k] == g.order[n - 1] {
      assert Edge(g, p[k - 1], p[k - 1 + 1]);
      LeafEdge(g, n, p[k - 1]);
      LeafEdge(g, n, p[k + 1]);
      assert false;
    }
  }

  lemma InFirst(g: Growth, n: nat, c: Cell)
    requires 1 <= n <= |g.order| && c in g.order[..n] && c != g.order[n - 1]
    ensures c in g.order[..n - 1]
  {}

  lemma WithoutLeaf(g: Growth, n: nat, p: seq<Cell>, a: Cell, b: Cell)
    requires Grown(g) && 1 <= n <= |g.order| && TreePath(g, n, p, a, b)
    requires a != g.order[n - 1] && b != g.order[n - 1]
    ensures TreePath(g, n - 1, p, a, b)
  {
    forall k | 0 <= k < |p| ensures p[k] in g.order[..n - 1] {
      if 0 < k < |p| - 1 { LeafNotInside(g, n, p, a, b, k);
    }
      InFirst(g, n, p[k]);
    }
  }

  /** A path that starts at the last leaf goes on from its parent among the cells before it. */
  lemma FromLeaf(g: Growth, n: nat, p: seq<Cell>, b: Cell)
    requires Grown(g) && 1 <= n <= |g.order| && TreePath(g, n, p, g.order[n - 1], b) && b != g.order[n - 1]
    ensures n >= 2 && |p| >= 2 && TreePath(g, n - 1, p[1..], g.order[g.parent[n - 1]], b)
    ensures p == [g.order[n - 1]] + p[1..]
  {
    assert Edge(g, p[0], p[0 + 1]);
    LeafEdge(g, n, p[1]);
    var q := p[1..];
    forall i | 0 <= i < |q| ensures q[i] in g.order[..n - 1] {
      assert q[i] == p[i + 1];
      InFirst(g, n, p[i + 1]);
    }
    forall i | 0 <= i < |q| - 1 ensures Edge(g, q[i], q[i + 1]) {
      assert Edge(g, p[i + 1], p[i + 1 + 1]);
    }
  }

  /** And one that ends there comes to it from its parent. */
  lemma ToLeaf(g: Growth, n: nat, p: seq<Cell>, a: Cell)
    requires Grown(g) && 1 <= n <= |g.order| && TreePath(g, n, p, a, g.order[n - 1]) && a != g.order[n - 1]
    ensures n >= 2 && |p| >= 2 && TreePath(g, n - 1, p[..|p| - 1], a, g.order[g.parent[n - 1]])
    ensures p == p[..|p| - 1] + [g.order[n - 1]]
  {
    assert Edge(g, p[|p| - 2], p[|p| - 2 + 1]);
    LeafEdge(g, n, p[|p| - 2]);
    var q := p[..|p| - 1];
    forall i | 0 <= i < |q| ensures q[i] in g.order[..n - 1] {
      InFirst(g, n, p[i]);
    }
    forall i | 0 <= i < |q| - 1 ensures Edge(g, q[i], q[i + 1]) {
      assert Edge(g, p[i], p[i + 1]);
    }
  }

  /** Any two simple paths between the same two cells are the same path. */
  lemma {:induction false} PathUnique(g: Growth, n: nat, p: seq<Cell>, q: seq<Cell>, a: Cell, b: Cell)
    requires Grown(g) && n <= |g.order| && TreePath(g, n, p, a, b) && TreePath(g, n, q, a, b)
    ensures p == q
    decreases n
  {
    PathEnds(g, n, p, a, b);
    PathEnds(g, n, q, a, b);
    hide TreePath, Distinct, Grown, Edge;
    var v := g.order[n - 1];
    if a == b {
    } else if a == v {
      FromLeaf(g, n, p, b);
      FromLeaf(g, n, q, b);
      PathUnique(g, n - 1, p[1..], q[1..], g.order[g.parent[n - 1]], b);
    } else if b == v {
      ToLeaf(g, n, p, a);
      ToLeaf(g, n, q, a);
      PathUnique(g, n - 1, p[..|p| - 1], q[..|q| - 1], a, g.order[g.parent[n - 1]]);
    } else {
      WithoutLeaf(g, n, p, a, b);
      WithoutLeaf(g, n, q, a, b);
      PathUnique(g, n - 1, p, q, a, b);
    }
  }

  lemma PathEnds(g: Growth, n: nat, p: seq<Cell>, a: Cell, b: Cell)
    requires Grown(g) && n <= |g.order| && TreePath(g, n, p, a, b)
    ensures 1 <= n && a in g.order[..n] && b in g.order[..n]
    ensures p != [] && p[0] == a && p[|p| - 1] == b && (a == b ==> p == [a])
  {
    assert p[0] in g.order[..n] && p[|p| - 1] in g.order[..n];
  }

  /** Any two cells are joined by a simple path. */
  lemma {:induction false} PathExists(g: Growth, n: nat, a: Cell, b: Cell) returns (p: seq<Cell>)
    requires Grown(g) && n <= |g.order| && a in g.order[..n] && b in g.order[..n]
    ensures TreePath(g, n, p, a, b)
    decreases n
  {
    var v := g.order[n - 1];
    if a == b {
      p := [a];
    } else if a == v {
      InFirst(g, n, b);
      var u := ParentOf(g, n);
      var q := PathExists(g, n - 1, u, b);
      p := [a] + q;
      Prepended(g, n, q, a, u, b);
    } else if b == v {
      InFirst(g, n, a);
      var u := ParentOf(g, n);
      var q := PathExists(g, n - 1, a, u);
      p := q + [b];
      Appended(g, n, q, a, u, b);
    } else {
      InFirst(g, n, a);
      InFirst(g, n, b);
      p := PathExists(g, n - 1, a, b);
    }
  }

  lemma ParentOf(g: Growth, n: nat) returns (u: Cell)
    requires Grown(g) && 2 <= n <= |g.order|
    ensures u in g.order[..n - 1] && Edge(g, g.order[n - 1], u) && Edge(g, u, g.order[n - 1])
    ensures g.order[n - 1] !in g.order[..n - 1]
  {
    u := g.order[g.parent[n - 1]];
    assert EdgeAt(g, n - 1, g.order[n - 1], u) && EdgeAt(g, n - 1, u, g.order[n - 1]);
  }

  lemma Prepended(g: Growth, n: nat, q: seq<Cell>, a: Cell, u: Cell, b: Cell)
    requires Grown(g) && 2 <= n <= |g.order| && TreePath(g, n - 1, q, u, b)
    requires a == g.order[n - 1] && Edge(g, a, u)
    ensures TreePath(g, n, [a] + q, a, b)
  {
    var p := [a] + q;
    forall i | 0 <= i < |p| - 1 ensures Edge(g, p[i], p[i + 1]) {
      if i > 0 { assert Edge(g, q[i - 1], q[i - 1 + 1]);
    }
    }
    forall i | 1 <= i < |p| ensures p[i] in g.order[..n - 1] { assert p[i] == q[i - 1]; }
  }

  lemma Appended(g: Growth, n: nat, q: seq<Cell>, a: Cell, u: Cell, b: Cell)
    requires Grown(g) && 2 <= n <= |g.order| && TreePath(g, n - 1, q, a, u)
    requires b == g.order[n - 1] && Edge(g, u, b)
    ensures TreePath(g, n, q + [b], a, b)
  {
    var p := q + [b];
    forall i | 0 <= i < |p| - 1 ensures Edge(g, p[i], p[i + 1]) {
      if i < |q| - 1 { assert Edge(g, q[i], q[i + 1]);
    }
    }
    forall i | 0 <= i < |q| ensures p[i] in g.order[..n - 1] { assert p[i] == q[i]; }
  }

  // ---------------------------------------------------------------- walls and passages

  /** The walls are down exactly between the cells that tree edges join. */
  ghost predicate Tied(cells: Cells, w: int, h: int, g: Growth)
    requires Shape(cells, w, h) && Grown(g)
  {
    forall c, d | Inside(c, w, h) :: WallAt(cells, c, d) <==> !Edge(g, c, Ahead(c, d))
  }

  ghost predicate AllInside(g: Growth, w: int, h: int) { forall c :: c in g.order ==> Inside(c, w, h) }

  /** Tree edges join neighbours. */
  ghost predicate Adjacent(g: Growth)
    requires Grown(g)
  {
    forall a, b :: Edge(g, a, b) ==> exists d :: b == Ahead(a, d)
  }

  /** The growth with cell n reached from the cell of index k. */
  function Extended(g: Growth, n: Cell, k: nat): Growth {
    Growth(g.order + [n], g.parent + [k])
  }

  lemma ExtendedEdge(g: Growth, n: Cell, k: nat, a: Cell, b: Cell)
    requires Grown(g) && k < |g.order| && n !in g.order
    ensures Grown(Extended(g, n, k))
    ensures Edge(Extended(g, n, k), a, b)
            <==> Edge(g, a, b) || (a == n && b == g.order[k]) || (b == n && a == g.order[k])
  {
    var g' := Extended(g, n, k);
    if i: nat :| EdgeAt(g, i, a, b) { assert EdgeAt(g', i, a, b); }
    if (a == n && b == g.order[k]) || (b == n && a == g.order[k]) { assert EdgeAt(g', |g.order|, a, b); }
    if i: nat :| EdgeAt(g', i, a, b) {
      if i < |g.order| { assert EdgeAt(g, i, a, b); }
    }
  }

  /** Taking down the wall on side d of c, on that side only. */
  function Carved(cells: Cells, c: Cell, d: Dir): Cells
    requires 0 <= c.y < |cells| && 0 <= c.x < |cells[c.y]|
  {
    Set(cells, c, WriteBit(At(cells, c), BitOf(d), false))
  }

  lemma CarvedWall(cells: Cells, w: int, h: int, c: Cell, d: Dir, c': Cell, d': Dir)
    requires Shape(cells, w, h) && Inside(c, w, h) && Inside(c', w, h)
    ensures Shape(Carved(cells, c, d), w, h)
    ensures WallAt(Carved(cells, c, d), c', d') <==> WallAt(cells, c', d') && !(c' == c && d' == d)
  {
    BitWritten(At(cells, c), BitOf(d), false, BitOf(d'));
  }

  /** A passage dug from cell k of the tree to a new neighbour keeps walls and tree tied. */
  lemma CarvedTied(cells: Cells, w: int, h: int, g: Growth, k: nat, d: Dir)
    requires Shape(cells, w, h) && Grown(g) && Tied(cells, w, h, g) && AllInside(g, w, h) && Adjacent(g)
             && k < |g.order|
    requires var n := Ahead(g.order[k], d); Inside(n, w, h) && n !in g.order
    ensures var n := Ahead(g.order[k], d); var g' := Extended(g, n, k);
            var cells' := Carved(Carved(cells, g.order[k], d), n, Opposite(d));
            Shape(cells', w, h) && Grown(g') && Tied(cells', w, h, g') && AllInside(g', w, h) && Adjacent(g')
  {
    var cur := g.order[k];
    var n := Ahead(cur, d);
    var half := Carved(cells, cur, d);
    var cells' := Carved(half, n, Opposite(d));
    assert cur in g.order;
    CarvedWall(cells, w, h, cur, d, cur, d);
    CarvedWall(half, w, h, n, Opposite(d), n, d);
    ExtendedEdge(g, n, k, cur, n);
    forall c, e | Inside(c, w, h) ensures WallAt(cells', c, e) <==> !Edge(Extended(g, n, k), c, Ahead(c, e)) {
      CarvedWall(cells, w, h, cur, d, c, e);
      CarvedWall(half, w, h, n, Opposite(d), c, e);
      ExtendedEdge(g, n, k, c, Ahead(c, e));
    }
    forall a, b | Edge(Extended(g, n, k), a, b) ensures exists e :: b == Ahead(a, e) {
      ExtendedEdge(g, n, k, a, b);
      AheadOpposite(cur, d);
    }
  }

  // ---------------------------------------------------------------- generation

  /** `unvisitedNeighbors`, clockwise from the north. */
  function UnvisitedNeighbors(c: Cell, w: int, h: int, visited: seq<seq<bool>>): (nb: seq<Neighbor>)
    requires Shape(visited, w, h) && Inside(c, w, h)
    ensures forall n :: n in nb ==> n.cell == Ahead(c, n.dir) && Inside(n.cell, w, h) && !At(visited, n.cell)
    ensures nb == [] ==> forall d :: Inside(Ahead(c, d), w, h) ==> At(visited, Ahead(c, d))
  {
    var north := if c.y > 0 && !visited[c.y - 1][c.x] then [Neighbor(Cell(c.x, c.y - 1), North)] else [];
    var east := if c.x < w - 1 && !visited[c.y][c.x + 1] then [Neighbor(Cell(c.x + 1, c.y), East)] else [];
    var south := if c.y < h - 1 && !visited[c.y + 1][c.x] then [Neighbor(Cell(c.x, c.y + 1), South)] else [];
    var west := if c.x > 0 && !visited[c.y][c.x - 1] then [Neighbor(Cell(c.x - 1, c.y), West)] else [];
    SidesOpen(c, w, h, visited);
    north + east + south + west
  }

  lemma SidesOpen(c: Cell, w: int, h: int, visited: seq<seq<bool>>)
    requires Shape(visited, w, h) && Inside(c, w, h)
    ensures (forall d :: Inside(Ahead(c, d), w, h) ==> At(visited, Ahead(c, d))) <==>
            && (c.y > 0 ==> visited[c.y - 1][c.x]) && (c.x < w - 1 ==> visited[c.y][c.x + 1])
            && (c.y < h - 1 ==> visited[c.y + 1][c.x]) && (c.x > 0 ==> visited[c.y][c.x - 1])
  {
    assert Ahead(c, North) == Cell(c.x, c.y - 1) && Ahead(c, East) == Cell(c.x + 1, c.y);
    assert Ahead(c, South) == Cell(c.x, c.y + 1) && Ahead(c, West) == Cell(c.x - 1, c.y);
  }

  ghost predicate Marks(visited: seq<seq<bool>>, w: int, h: int, g: Growth)
    requires Shape(visited, w, h)
  {
    forall c | Inside(c, w, h) :: At(visited, c) <==> c in g.order
  }

  /** Every cell that has left the stack has no unvisited neighbour. */
  ghost predicate Exhausted(w: int, h: int, g: Growth, stack: seq<Cell>) {
    forall c, d :: c in g.order && c !in stack && Inside(Ahead(c, d), w, h) ==> Ahead(c, d) in g.order
  }

  /** With nothing left on the stack, the whole grid has been reached. */
  lemma {:induction false} AllReached(w: int, h: int, g: Growth, c: Cell)
    requires Exhausted(w, h, g, []) && Cell(0, 0) in g.order && Inside(c, w, h)
    ensures c in g.order
    decreases c.x + c.y
  {
    if c.x > 0 {
      AllReached(w, h, g, Cell(c.x - 1, c.y));
      assert Ahead(Cell(c.x - 1, c.y), East) == c;
    } else if c.y > 0 {
      AllReached(w, h, g, Cell(c.x, c.y - 1));
      assert Ahead(Cell(c.x, c.y - 1), South) == c;
    }
  }

  /** A random source: what it answers at its k-th call for n choices. */
  type Source = (nat, nat) -> nat

  ghost predicate Honest(rnd: Source) { forall k: nat, n: nat :: n > 0 ==> rnd(k, n) < n }

  // ---------------------------------------------------------------- what the source decides

  /** The indices of the cells on the way from the first cell reached to cell i. */
  ghost function Way(g: Growth, i: nat): seq<nat>
    requires Grown(g) && i < |g.order|
  {
    if i == 0 then [0] else Way(g, g.parent[i]) + [i]
  }

  function Side(c: Cell, d: Dir, w: int, h: int, reached: seq<Cell>): seq<Cell> {
    if Inside(Ahead(c, d), w, h) && Ahead(c, d) !in reached then [Ahead(c, d)] else []
  }

  /** The neighbours of c not yet reached, clockwise from the north. */
  function Free(c: Cell, w: int, h: int, reached: seq<Cell>): seq<Cell> {
    Side(c, North, w, h, reached) + Side(c, East, w, h, reached)
    + Side(c, South, w, h, reached) + Side(c, West, w, h, reached)
  }

  /** Of the way to the cell reached last among the first k, p is the last one that has a neighbour not
      yet reached. */
  ghost predicate Deepest(g: Growth, w: int, h: int, k: nat, p: nat)
    requires Grown(g) && 1 <= k <= |g.order|
  {
    && p in Way(g, k - 1) && p < |g.order|
    && Free(g.order[p], w, h, g.order[..k]) != []
    && forall j :: j in Way(g, k - 1) && p < j < |g.order| ==> Free(g.order[j], w, h, g.order[..k]) == []
  }

  /** Cell k is the one the source answers among the neighbours its parent offers, and its parent the
      last one on the way that offers any. */
  ghost predicate ChosenAt(g: Growth, w: int, h: int, rnd: Source, k: nat)
    requires Grown(g) && 1 <= k < |g.order|
  {
    && Deepest(g, w, h, k, g.parent[k])
    && var free := Free(g.order[g.parent[k]], w, h, g.order[..k]);
       rnd(k - 1, |free|) < |free| && g.order[k] == free[rnd(k - 1, |free|)]
  }

  ghost predicate Chosen(g: Growth, w: int, h: int, rnd: Source)
    requires Grown(g)
  {
    forall k | 1 <= k < |g.order| :: ChosenAt(g, w, h, rnd, k)
  }

  /** The stack is the beginning of the way to the cell reached last; what has left it is exhausted. */
  ghost predicate OnWay(g: Growth, stack: seq<Cell>, w: int, h: int)
    requires Grown(g) && g.order != []
  {
    Along(g.order, Way(g, |g.order| - 1), stack, w, h)
  }

  ghost predicate Along(order: seq<Cell>, way: seq<nat>, stack: seq<Cell>, w: int, h: int) {
    && |stack| <= |way|
    && (forall j :: 0 <= j < |way| ==> way[j] < |order|)
    && (forall j :: 0 <= j < |stack| ==> stack[j] == order[way[j]])
    && (forall j :: |stack| <= j < |way| ==> Free(order[way[j]], w, h, order) == [])
  }

  lemma {:induction false} WayIs(g: Growth, i: nat)
    requires Grown(g) && i < |g.order|
    ensures var way := Way(g, i);
            && way != [] && way[0] == 0 && way[|way| - 1] == i
            && (forall j :: 0 <= j < |way| ==> way[j] <= i)
            && (forall j, k :: 0 <= j < k < |way| ==> way[j] < way[k])
  {
    if i > 0 { WayIs(g, g.parent[i]); }
  }

  /** The way to a cell on the way is the way up to it. */
  lemma {:induction false} WayPrefix(g: Growth, i: nat, m: nat)
    requires Grown(g) && i < |g.order| && 1 <= m <= |Way(g, i)|
    ensures Way(g, i)[m - 1] <= i && Way(g, Way(g, i)[m - 1]) == Way(g, i)[..m]
  {
    WayIs(g, i);
    if m < |Way(g, i)| {
      WayPrefix(g, g.parent[i], m);
      assert Way(g, i)[..m] == Way(g, g.parent[i])[..m];
    } else {
      assert Way(g, i)[..m] == Way(g, i);
    }
  }

  lemma {:induction false} WayExtended(g: Growth, n: Cell, k: nat, i: nat)
    requires Grown(g) && k < |g.order| && Grown(Extended(g, n, k)) && i < |g.order|
    ensures Way(Extended(g, n, k), i) == Way(g, i)
  {
    if i > 0 { WayExtended(g, n, k, g.parent[i]); }
  }

  lemma DeepestExtended(g: Growth, n: Cell, p: nat, w: int, h: int, k: nat, q: nat)
    requires Grown(g) && p < |g.order| && Grown(Extended(g, n, p)) && 1 <= k <= |g.order|
    ensures Deepest(g, w, h, k, q) <==> Deepest(Extended(g, n, p), w, h, k, q)
  {
    hide Free;
    var g' := Extended(g, n, p);
    WayExtended(g, n, p, k - 1);
    WayIs(g, k - 1);
    assert g'.order[..k] == g.order[..k];
  }

  /** One more cell, taken from the top of the stack. */
  lemma ChosenOn(g: Growth, stack: seq<Cell>, w: int, h: int, rnd: Source, n: Cell)
    requires Grown(g) && g.order != [] && OnWay(g, stack, w, h) && stack != [] && Chosen(g, w, h, rnd)
    requires n !in g.order
    requires var free := Free(stack[|stack| - 1], w, h, g.order);
             var r := rnd(|g.order| - 1, |free|); r < |free| && n == free[r]
    ensures var p := Way(g, |g.order| - 1)[|stack| - 1]; var g' := Extended(g, n, p);
            && p < |g.order| && g.order[p] == stack[|stack| - 1]
            && Grown(g') && Chosen(g', w, h, rnd) && OnWay(g', stack + [n], w, h)
  {
    hide Free, Deepest, ChosenAt;
    var last := |g.order| - 1;
    var p := Way(g, last)[|stack| - 1];
    var g' := Extended(g, n, p);
    ExtendedEdge(g, n, p, n, n);
    WayIs(g, last);
    StackOn(g, stack, w, h, n);
    WayOn(g, n, |stack|);
    StackDeepest(g, stack, w, h);
    forall k | 1 <= k < |g'.order| ensures ChosenAt(g', w, h, rnd, k) {
      if k <= last {
        ChosenExtended(g, n, p, w, h, rnd, k);
      } else {
        ChosenLast(g, n, p, w, h, rnd);
      }
    }
  }

  lemma ChosenExtended(g: Growth, n: Cell, p: nat, w: int, h: int, rnd: Source, k: nat)
    requires Grown(g) && p < |g.order| && Grown(Extended(g, n, p)) && 1 <= k < |g.order|
    requires ChosenAt(g, w, h, rnd, k)
    ensures ChosenAt(Extended(g, n, p), w, h, rnd, k)
  {
    hide Free, Deepest;
    DeepestExtended(g, n, p, w, h, k, g.parent[k]);
    assert Extended(g, n, p).order[..k] == g.order[..k];
  }

  lemma ChosenLast(g: Growth, n: Cell, p: nat, w: int, h: int, rnd: Source)
    requires Grown(g) && p < |g.order| && Grown(Extended(g, n, p)) && Deepest(g, w, h, |g.order|, p)
    requires var free := Free(g.order[p], w, h, g.order);
             var r := rnd(|g.order| - 1, |free|); r < |free| && n == free[r]
    ensures ChosenAt(Extended(g, n, p), w, h, rnd, |g.order|)
  {
    hide Free, Deepest;
    DeepestExtended(g, n, p, w, h, |g.order|, p);
    assert Extended(g, n, p).order[..|g.order|] == g.order;
  }

  /** The way to a new cell is the part of the way that leads to its parent, and the cell. */
  lemma WayOn(g: Growth, n: Cell, m: nat)
    requires Grown(g) && g.order != [] && 1 <= m <= |Way(g, |g.order| - 1)|
    ensures var way := Way(g, |g.order| - 1); var p := way[m - 1]; var g' := Extended(g, n, p);
            p < |g.order| && (Grown(g') ==> Way(g', |g.order|) == way[..m] + [|g.order|])
  {
    var last := |g.order| - 1;
    var p := Way(g, last)[m - 1];
    WayPrefix(g, last, m);
    if Grown(Extended(g, n, p)) { WayExtended(g, n, p, p); }
  }

  lemma StackOn(g: Growth, stack: seq<Cell>, w: int, h: int, n: Cell)
    requires Grown(g) && g.order != [] && OnWay(g, stack, w, h) && stack != []
    requires var p := Way(g, |g.order| - 1)[|stack| - 1]; p < |g.order| && Grown(Extended(g, n, p))
    ensures OnWay(Extended(g, n, Way(g, |g.order| - 1)[|stack| - 1]), stack + [n], w, h)
  {
    hide Free, Grown, Way;
    WayOn(g, n, |stack|);
    AlongOn(g.order, Way(g, |g.order| - 1), stack, w, h, n);
  }

  lemma AlongOn(order: seq<Cell>, way: seq<nat>, stack: seq<Cell>, w: int, h: int, n: Cell)
    requires Along(order, way, stack, w, h) && stack != []
    ensures Along(order + [n], way[..|stack|] + [|order|], stack + [n], w, h)
  {
    hide Free;
  }

  lemma StackDeepest(g: Growth, stack: seq<Cell>, w: int, h: int)
    requires Grown(g) && g.order != [] && OnWay(g, stack, w, h) && stack != []
    requires Free(stack[|stack| - 1], w, h, g.order) != []
    ensures Deepest(g, w, h, |g.order|, Way(g, |g.order| - 1)[|stack| - 1])
  {
    hide Free;
    var way := Way(g, |g.order| - 1);
    WayIs(g, |g.order| - 1);
    assert g.order[..|g.order|] == g.order;
  }

  /** The neighbours the loop finds are those. */
  lemma FreeFound(c: Cell, w: int, h: int, visited: seq<seq<bool>>, g: Growth)
    requires Shape(visited, w, h) && Inside(c, w, h) && Marks(visited, w, h, g)
    ensures SameCells(UnvisitedNeighbors(c, w, h, visited), Free(c, w, h, g.order))
  {
    hide Shape, Marks, Side, Found, SameCells;
    UnvisitedSides(c, w, h, visited);
    var n1, n2 := Found(c, North, w, h, visited), Found(c, East, w, h, visited);
    var n3, n4 := Found(c, South, w, h, visited), Found(c, West, w, h, visited);
    var c1, c2 := Side(c, North, w, h, g.order), Side(c, East, w, h, g.order);
    var c3, c4 := Side(c, South, w, h, g.order), Side(c, West, w, h, g.order);
    SideFound(c, North, w, h, visited, g);
    SideFound(c, East, w, h, visited, g);
    SideFound(c, South, w, h, visited, g);
    SideFound(c, West, w, h, visited, g);
    SameBoth(n1, c1, n2, c2);
    SameBoth(n1 + n2, c1 + c2, n3, c3);
    SameBoth(n1 + n2 + n3, c1 + c2 + c3, n4, c4);
  }

  ghost predicate SameCells(nb: seq<Neighbor>, cells: seq<Cell>) {
    |nb| == |cells| && forall i :: 0 <= i < |nb| ==> nb[i].cell == cells[i]
  }

  lemma SameBoth(a: seq<Neighbor>, b: seq<Cell>, a': seq<Neighbor>, b': seq<Cell>)
    requires SameCells(a, b) && SameCells(a', b')
    ensures SameCells(a + a', b + b')
  {}

  ghost function Found(c: Cell, d: Dir, w: int, h: int, visited: seq<seq<bool>>): seq<Neighbor>
    requires Shape(visited, w, h)
  {
    var n := Ahead(c, d);
    if Inside(n, w, h) && !At(visited, n) then [Neighbor(n, d)] else []
  }

  lemma UnvisitedSides(c: Cell, w: int, h: int, visited: seq<seq<bool>>)
    requires Shape(visited, w, h) && Inside(c, w, h)
    ensures UnvisitedNeighbors(c, w, h, visited) ==
            Found(c, North, w, h, visited) + Found(c, East, w, h, visited)
            + Found(c, South, w, h, visited) + Found(c, West, w, h, visited)
  {}

  lemma SideFound(c: Cell, d: Dir, w: int, h: int, visited: seq<seq<bool>>, g: Growth)
    requires Shape(visited, w, h) && Inside(c, w, h) && Marks(visited, w, h, g)
    ensures SameCells(Found(c, d, w, h, visited), Side(c, d, w, h, g.order))
  {}

  /** The loop state between two turns. */
  ghost predicate Growing(cells: Cells, visited: seq<seq<bool>>, stack: seq<Cell>, w: int, h: int, g: Growth) {
    && Shape(cells, w, h) && Shape(visited, w, h) && Grown(g)
    && Tied(cells, w, h, g) && AllInside(g, w, h) && Adjacent(g) && Marks(visited, w, h, g)
    && (forall c :: c in stack ==> c in g.order)
    && Cell(0, 0) in g.order && Exhausted(w, h, g, stack)
  }

  ghost function Unreached(w: int, h: int, g: Growth): set<Cell> {
    (set x, y | 0 <= x < w && 0 <= y < h :: Cell(x, y)) - (set c | c in g.order)
  }

  lemma GrowingStart(w: int, h: int)
    requires 1 <= w && 1 <= h
    ensures Growing(AllClosed(w, h), Set(NoneVisited(w, h), Cell(0, 0), true), [Cell(0, 0)], w, h,
            Growth([Cell(0, 0)], [0]))
  {
    var g := Growth([Cell(0, 0)], [0]);
    forall c, d | Inside(c, w, h) ensures WallAt(AllClosed(w, h), c, d) && !Edge(g, c, Ahead(c, d)) {
      AllWallsStand(d);
    }
  }

  lemma AllWallsStand(d: Dir)
    ensures Bit(ALL_WALLS, BitOf(d))
  {
    assert Bit(15, 0) && Bit(15, 1) && Bit(15, 2) && Bit(15, 3) by {
      assert Bit(7, 0) && Bit(3, 0) && Bit(1, 0);
      assert Bit(7, 1) && Bit(3, 1);
      assert Bit(7, 2);
    }
  }

  function AllClosed(w: nat, h: nat): Cells { seq(h, _ => seq(w, _ => ALL_WALLS)) }

  function NoneVisited(w: nat, h: nat): seq<seq<bool>> { seq(h, _ => seq(w, _ => false)) }

  /** A dead end leaves the stack. */
  lemma GrowingBack(cells: Cells, visited: seq<seq<bool>>, stack: seq<Cell>, w: int, h: int, g: Growth)
    requires Growing(cells, visited, stack, w, h, g) && stack != []
    ensures Inside(stack[|stack| - 1], w, h)
    ensures UnvisitedNeighbors(stack[|stack| - 1], w, h, visited) == []
            ==> Growing(cells, visited, stack[..|stack| - 1], w, h, g)
  {
    var cur := stack[|stack| - 1];
    assert cur in stack;
    if UnvisitedNeighbors(cur, w, h, visited) == [] {
      forall c, d | c in g.order && c !in stack[..|stack| - 1] && Inside(Ahead(c, d), w, h)
          ensures Ahead(c, d) in g.order {
        if c in stack { assert c == cur; }
      }
    }
  }

  /** A neighbour is reached. */
  lemma GrowingOn(cells: Cells, visited: seq<seq<bool>>, stack: seq<Cell>, w: int, h: int, g: Growth, n: Neighbor,
      k: nat)
    requires Growing(cells, visited, stack, w, h, g) && stack != []
    requires k < |g.order| && g.order[k] == stack[|stack| - 1]
    requires var cur := stack[|stack| - 1]; Inside(cur, w, h) && n in UnvisitedNeighbors(cur, w, h, visited)
    ensures var cur := stack[|stack| - 1]; var g' := Extended(g, n.cell, k);
            && Inside(n.cell, w, h) && Shape(Carved(cells, cur, n.dir), w, h)
            && Growing(Carved(Carved(cells, cur, n.dir), n.cell, Opposite(n.dir)), Set(visited, n.cell, true),
                       stack + [n.cell], w, h, g')
            && Unreached(w, h, g') < Unreached(w, h, g) && n.cell !in g.order
  {
    var cur := stack[|stack| - 1];
    CarvedWall(cells, w, h, cur, n.dir, cur, n.dir);
    CarvedTied(cells, w, h, g, k, n.dir);
    assert n.cell in Unreached(w, h, g);
  }

  /** The walls of the grid are those of a tree that has reached every cell, from the origin on. */
  ghost predicate Rooted(cells: Cells, w: int, h: int, g: Growth) {
    && Shape(cells, w, h) && Grown(g) && Tied(cells, w, h, g) && AllInside(g, w, h) && Adjacent(g)
    && g.order != [] && g.order[0] == Cell(0, 0)
    && forall c :: Inside(c, w, h) ==> c in g.order
  }

  /** And the tree is the one the source decides. */
  ghost predicate Dug(cells: Cells, w: int, h: int, g: Growth, rnd: Source) {
    Rooted(cells, w, h, g) && Chosen(g, w, h, rnd)
  }

  /** The loop state, with what the source has decided so far. */
  ghost predicate Digging(cells: Cells, visited: seq<seq<bool>>, stack: seq<Cell>, w: int, h: int, g: Growth,
                          rnd: Source)
  {
    && Growing(cells, visited, stack, w, h, g)
    && g.order != [] && g.order[0] == Cell(0, 0)
    && OnWay(g, stack, w, h) && Chosen(g, w, h, rnd)
  }

  /** The grid `Generate` makes: for any size (raised to 1) and any honest source. */
  method Dig(w0: int, h0: int, rnd: Source) returns (w: nat, h: nat, cells: Cells, ghost g: Growth)
    requires Honest(rnd)
    ensures w == (if w0 < 1 then 1 else w0) && h == (if h0 < 1 then 1 else h0)
    ensures Dug(cells, w, h, g, rnd)
  {
    w := if w0 < 1 then 1 else w0;
    h := if h0 < 1 then 1 else h0;
    cells := AllClosed(w, h);
    var visited := NoneVisited(w, h);
    var stack := [Cell(0, 0)];
    visited := Set(visited, Cell(0, 0), true);
    g := Growth([Cell(0, 0)], [0]);
    var draws := 0;
    hide Digging, Dug, UnvisitedNeighbors, Unreached, AllClosed, NoneVisited;
    DiggingStart(w, h, rnd);
    while |stack| > 0
      invariant Digging(cells, visited, stack, w, h, g, rnd) && draws == |g.order| - 1
      decreases Unreached(w, h, g), |stack|
    {
      var cur := stack[|stack| - 1];
      DiggingBack(cells, visited, stack, w, h, g, rnd);
      var nb := UnvisitedNeighbors(cur, w, h, visited);
      if |nb| == 0 {
        stack := stack[..|stack| - 1];
        continue;
      }
      var n := nb[rnd(draws, |nb|)];
      draws := draws + 1;
      g := DiggingOn(cells, visited, stack, w, h, g, rnd, n);
      cells := Carved(cells, cur, n.dir);
      cells := Carved(cells, n.cell, Opposite(n.dir));
      visited := Set(visited, n.cell, true);
      stack := stack + [n.cell];
    }
    DiggingEnds(cells, visited, w, h, g, rnd);
  }

  lemma DiggingStart(w: int, h: int, rnd: Source)
    requires 1 <= w && 1 <= h
    ensures Digging(AllClosed(w, h), Set(NoneVisited(w, h), Cell(0, 0), true), [Cell(0, 0)], w, h,
                    Growth([Cell(0, 0)], [0]), rnd)
  {
    GrowingStart(w, h);
    hide Growing;
  }

  /** A dead end leaves the stack. */
  lemma DiggingBack(cells: Cells, visited: seq<seq<bool>>, stack: seq<Cell>, w: int, h: int, g: Growth, rnd: Source)
    requires Digging(cells, visited, stack, w, h, g, rnd) && stack != []
    ensures Shape(visited, w, h) && Inside(stack[|stack| - 1], w, h)
    ensures UnvisitedNeighbors(stack[|stack| - 1], w, h, visited) == []
            ==> Digging(cells, visited, stack[..|stack| - 1], w, h, g, rnd)
  {
    hide Free, UnvisitedNeighbors, Chosen, Tied, Adjacent, Marks, AllInside, Exhausted;
    GrowingBack(cells, visited, stack, w, h, g);
    FreeFound(stack[|stack| - 1], w, h, visited, g);
  }

  /** One turn that reaches the neighbour the source answers. */
  lemma DiggingOn(cells: Cells, visited: seq<seq<bool>>, stack: seq<Cell>, w: int, h: int, g: Growth, rnd: Source,
      n: Neighbor) returns (g': Growth)
    requires Digging(cells, visited, stack, w, h, g, rnd) && stack != []
    requires var cur := stack[|stack| - 1];
             && Shape(visited, w, h) && Inside(cur, w, h)
             && var nb := UnvisitedNeighbors(cur, w, h, visited);
                var r := rnd(|g.order| - 1, |nb|); r < |nb| && n == nb[r]
    ensures var cur := stack[|stack| - 1];
            && Inside(n.cell, w, h) && Shape(cells, w, h) && Shape(Carved(cells, cur, n.dir), w, h)
            && Digging(Carved(Carved(cells, cur, n.dir), n.cell, Opposite(n.dir)), Set(visited, n.cell, true),
                       stack + [n.cell], w, h, g', rnd)
            && Unreached(w, h, g') < Unreached(w, h, g) && |g'.order| == |g.order| + 1
  {
    hide Free, UnvisitedNeighbors, Chosen;
    var cur := stack[|stack| - 1];
    var p := Way(g, |g.order| - 1)[|stack| - 1];
    FreeFound(cur, w, h, visited, g);
    GrowingOn(cells, visited, stack, w, h, g, n, p);
    ChosenOn(g, stack, w, h, rnd, n.cell);
    g' := Extended(g, n.cell, p);
  }

  /** An empty stack leaves no cell out. */
  lemma DiggingEnds(cells: Cells, visited: seq<seq<bool>>, w: int, h: int, g: Growth, rnd: Source)
    requires Digging(cells, visited, [], w, h, g, rnd)
    ensures Dug(cells, w, h, g, rnd)
  {
    hide Tied, Adjacent, Marks, Chosen, OnWay;
    forall c | Inside(c, w, h) ensures c in g.order { AllReached(w, h, g, c); }
  }

  // ---------------------------------------------------------------- what was dug is a spanning tree

  /** One can step from a to b. */
  ghost predicate Open(cells: Cells, w: int, h: int, a: Cell, b: Cell)
    requires Shape(cells, w, h)
  {
    Inside(a, w, h) && Inside(b, w, h) && exists d :: b == Ahead(a, d) && !WallAt(cells, a, d)
  }

  /** A path from a to b through open passages that visits no cell twice. */
  ghost predicate SimplePath(cells: Cells, w: int, h: int, p: seq<Cell>, a: Cell, b: Cell)
    requires Shape(cells, w, h)
  {
    && p != [] && p[0] == a && p[|p| - 1] == b && Distinct(p)
    && (forall i :: 0 <= i < |p| ==> Inside(p[i], w, h))
    && (forall i :: 0 <= i < |p| - 1 ==> Open(cells, w, h, p[i], p[i + 1]))
  }

  /** Any two cells are joined by exactly one simple path. */
  ghost predicate SpanningTree(cells: Cells, w: int, h: int)
    requires Shape(cells, w, h)
  {
    forall a, b | Inside(a, w, h) && Inside(b, w, h) ::
      && (exists p :: SimplePath(cells, w, h, p, a, b))
      && (forall p, q :: SimplePath(cells, w, h, p, a, b) && SimplePath(cells, w, h, q, a, b) ==> p == q)
  }

  /** Walls are the same seen from both sides, and the border is closed. */
  ghost predicate Sealed(cells: Cells, w: int, h: int)
    requires Shape(cells, w, h)
  {
    forall c, d {:trigger Ahead(c, d)} | Inside(c, w, h) && !WallAt(cells, c, d) ::
      Inside(Ahead(c, d), w, h) && !WallAt(cells, Ahead(c, d), Opposite(d))
  }

  lemma AheadOpposite(c: Cell, d: Dir)
    ensures Ahead(Ahead(c, d), Opposite(d)) == c
  {}

  lemma TreeSealed(cells: Cells, w: int, h: int, g: Growth)
    requires Shape(cells, w, h) && Grown(g) && Tied(cells, w, h, g) && AllInside(g, w, h)
    ensures Sealed(cells, w, h)
  {
    forall c, d | Inside(c, w, h) && !WallAt(cells, c, d)
      ensures Inside(Ahead(c, d), w, h) && !WallAt(cells, Ahead(c, d), Opposite(d))
    {
      EdgeSymmetric(g, c, Ahead(c, d));
      EdgeEnds(g, Ahead(c, d), c);
      AheadOpposite(c, d);
    }
  }

  lemma EdgeEnds(g: Growth, a: Cell, b: Cell)
    requires Grown(g) && Edge(g, a, b)
    ensures a in g.order && b in g.order
  {
    var i: nat :| EdgeAt(g, i, a, b);
  }

  /** Between neighbours, open passages are tree edges. */
  lemma OpenIsEdge(cells: Cells, w: int, h: int, g: Growth, a: Cell, b: Cell)
    requires Shape(cells, w, h) && Grown(g) && Tied(cells, w, h, g) && AllInside(g, w, h)
    ensures Open(cells, w, h, a, b) ==> Edge(g, a, b)
    ensures Edge(g, a, b) && (exists d :: b == Ahead(a, d)) ==> Open(cells, w, h, a, b)
  {
    if Edge(g, a, b) { EdgeEnds(g, a, b); }
  }

  lemma PathIsTreePath(cells: Cells, w: int, h: int, g: Growth, p: seq<Cell>, a: Cell, b: Cell)
    requires Shape(cells, w, h) && Grown(g) && Tied(cells, w, h, g) && AllInside(g, w, h) && Adjacent(g)
    requires forall c :: Inside(c, w, h) ==> c in g.order
    ensures SimplePath(cells, w, h, p, a, b) <==> TreePath(g, |g.order|, p, a, b)
  {
    hide Edge, Tied, Open;
    assert g.order[..|g.order|] == g.order;
    forall i | 0 <= i < |p| - 1 ensures Open(cells, w, h, p[i], p[i + 1]) <==> Edge(g, p[i], p[i + 1]) {
      OpenIsEdge(cells, w, h, g, p[i], p[i + 1]);
    }
  }

  /** A grid tied to a growth that reached every cell is a spanning tree. */
  lemma TreeSpans(cells: Cells, w: int, h: int, g: Growth)
    requires Shape(cells, w, h) && Grown(g) && Tied(cells, w, h, g) && AllInside(g, w, h) && Adjacent(g)
    requires forall c :: Inside(c, w, h) ==> c in g.order
    ensures SpanningTree(cells, w, h)
  {
    hide SimplePath, TreePath, Tied, Adjacent, Grown;
    var n := |g.order|;
    assert g.order[..n] == g.order;
    forall a, b | Inside(a, w, h) && Inside(b, w, h)
      ensures exists p :: SimplePath(cells, w, h, p, a, b)
      ensures forall p, q :: SimplePath(cells, w, h, p, a, b) && SimplePath(cells, w, h, q, a, b) ==> p == q
    {
      var p := PathExists(g, n, a, b);
      PathIsTreePath(cells, w, h, g, p, a, b);
      forall p, q | SimplePath(cells, w, h, p, a, b) && SimplePath(cells, w, h, q, a, b) ensures p == q {
        PathIsTreePath(cells, w, h, g, p, a, b);
        PathIsTreePath(cells, w, h, g, q, a, b);
        PathUnique(g, n, p, q, a, b);
      }
    }
  }

  // ---------------------------------------------------------------- play

  function MoveTo(cells: Cells, at: Cell, d: Dir): Cell
    requires 0 <= at.y < |cells| && 0 <= at.x < |cells[at.y]|
  {
    if WallAt(cells, at, d) then at else Ahead(at, d)
  }

  ghost function Played(cells: Cells, w: int, h: int, at: Cell, dirs: seq<Dir>): (c: Cell)
    requires Shape(cells, w, h) && Sealed(cells, w, h) && Inside(at, w, h)
    ensures Inside(c, w, h)
    decreases |dirs|
  {
    if dirs == [] then at else Played(cells, w, h, MoveTo(cells, at, dirs[0]), dirs[1..])
  }

  /** A move that succeeds is undone by the opposite move. */
  lemma MoveUndone(cells: Cells, w: int, h: int, at: Cell, d: Dir)
    requires Shape(cells, w, h) && Sealed(cells, w, h) && Inside(at, w, h) && !WallAt(cells, at, d)
    ensures Inside(MoveTo(cells, at, d), w, h) && MoveTo(cells, MoveTo(cells, at, d), Opposite(d)) == at
  {
    AheadOpposite(at, d);
  }

  lemma {:induction false} PathPlayed(cells: Cells, w: int, h: int, p: seq<Cell>, a: Cell, b: Cell)
      returns (dirs: seq<Dir>)
    requires Shape(cells, w, h) && Sealed(cells, w, h) && SimplePath(cells, w, h, p, a, b)
    ensures Inside(a, w, h) && Played(cells, w, h, a, dirs) == b && |dirs| == |p| - 1
    decreases |p|
  {
    assert Inside(p[0], w, h);
    if |p| == 1 {
      dirs := [];
    } else {
      var d := PathTail(cells, w, h, p, a, b);
      hide SimplePath, Sealed, WallAt;
      var rest := PathPlayed(cells, w, h, p[1..], p[1], b);
      dirs := [d] + rest;
      assert dirs[1..] == rest;
    }
  }

  lemma PathTail(cells: Cells, w: int, h: int, p: seq<Cell>, a: Cell, b: Cell) returns (d: Dir)
    requires Shape(cells, w, h) && SimplePath(cells, w, h, p, a, b) && |p| >= 2
    ensures Inside(a, w, h) && Inside(p[1], w, h) && !WallAt(cells, a, d) && MoveTo(cells, a, d) == p[1]
    ensures SimplePath(cells, w, h, p[1..], p[1], b)
  {
    assert Open(cells, w, h, p[0], p[0 + 1]);
    d :| p[1] == Ahead(p[0], d) && !WallAt(cells, p[0], d);
    var q := p[1..];
    forall i | 0 <= i < |q| - 1 ensures Open(cells, w, h, q[i], q[i + 1]) {
      assert Open(cells, w, h, p[i + 1], p[i + 1 + 1]);
    }
  }

  /** From any position, some sequence of moves reaches any cell: the exit in particular. */
  lemma AlwaysSolvable(cells: Cells, w: int, h: int, at: Cell, goal: Cell)
    requires Shape(cells, w, h) && SpanningTree(cells, w, h) && Sealed(cells, w, h) && Inside(at, w, h)
             && Inside(goal, w, h)
    ensures exists dirs :: Played(cells, w, h, at, dirs) == goal
  {
    var p :| SimplePath(cells, w, h, p, at, goal);
    var dirs := PathPlayed(cells, w, h, p, at, goal);
  }

  /** `Maze`: the grid and the player. */
  class Maze {
    const w: int
    const h: int
    const cells: Cells
    var px: int
    var py: int

    ghost predicate Valid()
      reads this
    {
      && 1 <= w && 1 <= h && Shape(cells, w, h)
      && SpanningTree(cells, w, h) && Sealed(cells, w, h)
      && Inside(Cell(px, py), w, h)
    }

    /** `Generate` */
    constructor Generate(w0: int, h0: int, rnd: Source)
      requires Honest(rnd)
      ensures Valid() && px == 0 && py == 0
      ensures w == (if w0 < 1 then 1 else w0) && h == (if h0 < 1 then 1 else h0)
      ensures exists g :: Dug(cells, w, h, g, rnd)
    {
      var width, height, grid, g := Dig(w0, h0, rnd);
      w, h, cells := width, height, grid;
      px, py := 0, 0;
      new;
      TreeSealed(cells, w, h, g);
      TreeSpans(cells, w, h, g);
    }

    /** `Wall`, for any mask of directions; outside the grid, everything is a wall. */
    method Wall(x: int, y: int, mask: nat) returns (wall: bool)
      requires Valid()
      ensures wall <==> !Inside(Cell(x, y), w, h) || Hits(cells[y][x], mask)
      ensures DirOf(mask).Some? ==>
                (!wall <==>
                 Inside(Cell(x, y), w, h) && Open(cells, w, h, Cell(x, y), Ahead(Cell(x, y), DirOf(mask).value)))
    {
      hide SpanningTree;
      if x < 0 || x >= w || y < 0 || y >= h { return true; }
      wall := Hits(cells[y][x], mask);
      if DirOf(mask).Some? {
        OneDirection(cells[y][x], mask);
        OpenAhead(cells, w, h, Cell(x, y), DirOf(mask).value);
      }
    }

    /** `Move`: a mask that is not one of the four directions moves nobody. */
    method Move(mask: nat) returns (moved: bool)
      requires Valid()
      modifies this`px, this`py
      ensures Valid() && (moved <==> !Hits(cells[old(py)][old(px)], mask))
      ensures match DirOf(mask)
              case None => px == old(px) && py == old(py)
              case Some(d) => Cell(px, py) == MoveTo(cells, Cell(old(px), old(py)), d)
                              && (moved <==> Open(cells, w, h, Cell(old(px), old(py)),
                                 Ahead(Cell(old(px), old(py)), d)))
    {
      ghost var at := Cell(px, py);
      if DirOf(mask).Some? {
        OneDirection(cells[py][px], mask);
        OpenAhead(cells, w, h, at, DirOf(mask).value);
      }
      hide SpanningTree, Sealed, Open, Shape, Hits, WallAt;
      if Hits(cells[py][px], mask) { return false; }
      var x, y := px, py;
      if mask == NORTH {
        y := y - 1;
      } else if mask == SOUTH {
        y := y + 1;
      } else if mask == EAST {
        x := x + 1;
      } else if mask == WEST {
        x := x - 1;
      }
      px, py := x, y;
      return true;
    }

    /** `Solved` */
    method Solved() returns (solved: bool)
      requires Valid()
      ensures solved <==> Cell(px, py) == Cell(w - 1, h - 1)
    {
      solved := px == w - 1 && py == h - 1;
    }
  }

  const NORTH: nat := 1
  const EAST: nat := 2
  const SOUTH: nat := 4
  const WEST: nat := 8

  /** The direction a mask stands for, if it stands for one. */
  function DirOf(mask: nat): Option<Dir> {
    if mask == NORTH then Some(North)
    else if mask == EAST then Some(East)
    else if mask == SOUTH then Some(South)
    else if mask == WEST then Some(West)
    else None
  }

  /** `b & m != 0` */
  predicate Hits(b: nat, m: nat) { b > 0 && m > 0 && ((b % 2 == 1 && m % 2 == 1) || Hits(b / 2, m / 2)) }

  lemma OneDirection(b: nat, mask: nat)
    requires DirOf(mask).Some?
    ensures Hits(b, mask) <==> Bit(b, BitOf(DirOf(mask).value))
  {
    OneBit(b, BitOf(DirOf(mask).value));
    assert Power2(0) == NORTH && Power2(1) == EAST && Power2(2) == SOUTH && Power2(3) == WEST;
  }

  /** A mask of one bit asks for that bit. */
  lemma {:induction false} OneBit(b: nat, k: nat)
    ensures Hits(b, Power2(k)) <==> Bit(b, k)
    decreases k
  {
    hide Power2;
    if k == 0 {
      assert Power2(0) == 1 by { FirstPower(); }
      assert !Hits(b / 2, 0);
    } else {
      NextPower(k);
      OneBit(b / 2, k - 1);
      if b == 0 { OneBit(0, k - 1); }
    }
  }

  lemma FirstPower()
    ensures Power2(0) == 1
  {}

  lemma NextPower(k: nat)
    requires k > 0
    ensures Power2(k) == 2 * Power2(k - 1) && Power2(k) % 2 == 0 && Power2(k) / 2 == Power2(k - 1) && Power2(k) > 0
  {
    Positive(k - 1);
  }

  lemma {:induction false} Positive(k: nat)
    ensures Power2(k) > 0
  {
    if k > 0 { Positive(k - 1); }
  }

  lemma OpenAhead(cells: Cells, w: int, h: int, c: Cell, d: Dir)
    requires Shape(cells, w, h) && Sealed(cells, w, h) && Inside(c, w, h)
    ensures Open(cells, w, h, c, Ahead(c, d)) <==> !WallAt(cells, c, d)
    ensures !WallAt(cells, c, d) ==> Inside(Ahead(c, d), w, h)
  {
    if e :| Ahead(c, d) == Ahead(c, e) && !WallAt(cells, c, e) { assert e == d; }
  }
}
