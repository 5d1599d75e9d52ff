/** Which mazes there are: the source decides the whole grid, and what it can decide is exactly a
    depth-first spanning tree, one in which of two neighbouring cells one is always on the way from
    the origin to the other. */
module MazeTrees {
  import opened Maze

  // ---------------------------------------------------------------- one source, one maze

  /** The trees agree on the first n cells. */
  ghost predicate Agree(g: Growth, t: Growth, n: nat)
    requires Grown(g) && Grown(t)
  {
    && n <= |g.order| && n <= |t.order| && g.order[..n] == t.order[..n]
    && forall k :: 1 <= k < n ==> g.parent[k] == t.parent[k]
  }

  lemma {:induction false} SameWay(g: Growth, t: Growth, n: nat, i: nat)
    requires Grown(g) && Grown(t) && Agree(g, t, n) && i < n
    ensures Way(g, i) == Way(t, i)
  {
    if i > 0 { SameWay(g, t, n, g.parent[i]); }
  }

  lemma SameDeepest(g: Growth, t: Growth, w: int, h: int, k: nat, p: nat, q: nat)
    requires Grown(g) && Grown(t) && Agree(g, t, k) && 1 <= k
    requires Deepest(g, w, h, k, p) && Deepest(t, w, h, k, q)
    ensures p == q
  {
    hide Free, Grown;
    SameWay(g, t, k, k - 1);
    WayIs(g, k - 1);
    assert forall j :: 0 <= j < k ==> g.order[..k][j] == t.order[..k][j];
  }

  lemma {:induction false} SamePrefix(g: Growth, t: Growth, w: int, h: int, rnd: Source, n: nat)
    requires Grown(g) && Grown(t) && Chosen(g, w, h, rnd) && Chosen(t, w, h, rnd)
    requires 1 <= n <= |g.order| && n <= |t.order| && g.order[0] == t.order[0]
    ensures Agree(g, t, n)
  {
    hide Free, Deepest;
    if n > 1 {
      var k := n - 1;
      SamePrefix(g, t, w, h, rnd, k);
      assert ChosenAt(g, w, h, rnd, k) && ChosenAt(t, w, h, rnd, k);
      SameDeepest(g, t, w, h, k, g.parent[k], t.parent[k]);
      assert g.order[g.parent[k]] == g.order[..k][g.parent[k]] == t.order[t.parent[k]];
      assert g.order[..n] == g.order[..k] + [g.order[k]] && t.order[..n] == t.order[..k] + [t.order[k]];
    }
  }

  /** Two growths that have reached every cell have reached as many. */
  lemma NoLonger(g: Growth, t: Growth, w: int, h: int, cells: Cells, cells': Cells)
    requires Rooted(cells, w, h, g) && Rooted(cells', w, h, t)
    requires |g.order| <= |t.order| && g.order == t.order[..|g.order|]
    ensures |g.order| == |t.order|
  {
    hide Tied, Adjacent, Shape, Grown;
    if |g.order| < |t.order| { OneBeyond(t, |g.order|, w, h); }
  }

  lemma OneBeyond(t: Growth, n: nat, w: int, h: int)
    requires Grown(t) && AllInside(t, w, h) && n < |t.order|
    ensures t.order[n] !in t.order[..n] && Inside(t.order[n], w, h)
  {
    assert t.order[n] in t.order;
  }

  /** One source digs one maze. */
  lemma OneMaze(cells: Cells, cells': Cells, w: int, h: int, g: Growth, t: Growth, rnd: Source)
    requires Dug(cells, w, h, g, rnd) && Dug(cells', w, h, t, rnd)
    ensures g.order == t.order
    ensures forall c, d | Inside(c, w, h) :: WallAt(cells, c, d) <==> WallAt(cells', c, d)
  {
    var n := if |g.order| < |t.order| then |g.order| else |t.order|;
    SamePrefix(g, t, w, h, rnd, n);
    assert g.order[..|g.order|] == g.order && t.order[..|t.order|] == t.order;
    if n == |g.order| { NoLonger(g, t, w, h, cells, cells'); } else { NoLonger(t, g, w, h, cells', cells); }
    forall c, d | Inside(c, w, h) ensures WallAt(cells, c, d) <==> WallAt(cells', c, d) {
      SameEdges(g, t, c, Ahead(c, d));
      SameEdges(t, g, c, Ahead(c, d));
    }
  }

  lemma SameEdges(g: Growth, t: Growth, a: Cell, b: Cell)
    requires Grown(g) && Grown(t) && |g.order| == |t.order| && Agree(g, t, |g.order|)
    ensures Edge(g, a, b) ==> Edge(t, a, b)
  {
    assert g.order[..|g.order|] == g.order && t.order[..|t.order|] == t.order;
    if i: nat :| EdgeAt(g, i, a, b) { assert EdgeAt(t, i, a, b); }
  }

  // ---------------------------------------------------------------- depth-first trees

  /** Of two neighbouring cells one is on the way from the origin to the other. */
  ghost predicate NeighboursOnWay(g: Growth)
    requires Grown(g)
  {
    forall i, j, d | 0 <= i < |g.order| && 0 <= j < |g.order| && g.order[j] == Ahead(g.order[i], d) ::
      i in Way(g, j) || j in Way(g, i)
  }

  /** Every cell comes from the deepest one that has a free neighbour. */
  ghost predicate DepthFirst(g: Growth, w: int, h: int)
    requires Grown(g)
  {
    forall k | 1 <= k < |g.order| ::
      Deepest(g, w, h, k, g.parent[k]) && g.order[k] in Free(g.order[g.parent[k]], w, h, g.order[..k])
  }

  lemma ChosenIsDepthFirst(g: Growth, w: int, h: int, rnd: Source)
    requires Grown(g) && Chosen(g, w, h, rnd)
    ensures DepthFirst(g, w, h)
  {
    hide Free, Deepest;
    forall k | 1 <= k < |g.order|
      ensures Deepest(g, w, h, k, g.parent[k]) && g.order[k] in Free(g.order[g.parent[k]], w, h, g.order[..k])
    {
      assert ChosenAt(g, w, h, rnd, k);
    }
  }

  lemma FreeIs(c: Cell, w: int, h: int, reached: seq<Cell>, n: Cell)
    ensures n in Free(c, w, h, reached) <==> Inside(n, w, h) && n !in reached && exists d :: n == Ahead(c, d)
  {
    assert n in Side(c, North, w, h, reached) <==> n == Ahead(c, North) && Inside(n, w, h) && n !in reached;
    assert n in Side(c, East, w, h, reached) <==> n == Ahead(c, East) && Inside(n, w, h) && n !in reached;
    assert n in Side(c, South, w, h, reached) <==> n == Ahead(c, South) && Inside(n, w, h) && n !in reached;
    assert n in Side(c, West, w, h, reached) <==> n == Ahead(c, West) && Inside(n, w, h) && n !in reached;
    if d :| n == Ahead(c, d) { match d case North => case East => case South => case West => }
  }

  /** What offers nothing goes on offering nothing. */
  lemma FreeShrinks(c: Cell, w: int, h: int, few: seq<Cell>, many: seq<Cell>)
    requires Free(c, w, h, few) == [] && forall x :: x in few ==> x in many
    ensures Free(c, w, h, many) == []
  {
    hide Inside;
    assert Side(c, North, w, h, few) == [] && Side(c, East, w, h, few) == [];
    assert Side(c, South, w, h, few) == [] && Side(c, West, w, h, few) == [];
  }

  /** Cells that are not on the way to the last one offer nothing. */
  lemma {:induction false} OffWay(g: Growth, w: int, h: int, k: nat, i: nat)
    requires Grown(g) && DepthFirst(g, w, h) && 1 <= k <= |g.order| && i < k && i !in Way(g, k - 1)
    ensures Free(g.order[i], w, h, g.order[..k]) == []
    decreases k, 0
  {
    hide Free, DepthFirst, Way, Grown;
    WayLast(g, k - 1);
    if k > 1 {
      OffParent(g, w, h, k - 1, i);
      FreeShrinks(g.order[i], w, h, g.order[..k - 1], g.order[..k]);
    }
  }

  lemma WayLast(g: Growth, i: nat)
    requires Grown(g) && i < |g.order|
    ensures i == 0 ==> Way(g, i) == [0]
    ensures i > 0 ==> g.parent[i] < i && Way(g, i) == Way(g, g.parent[i]) + [i]
  {}

  /** When cell k is reached, of the cells before it only those on its way have had something to offer. */
  lemma {:induction false} OffParent(g: Growth, w: int, h: int, k: nat, i: nat)
    requires Grown(g) && DepthFirst(g, w, h) && 1 <= k < |g.order| && i < k && i !in Way(g, g.parent[k])
    ensures Free(g.order[i], w, h, g.order[..k]) == []
    decreases k, 1
  {
    hide Free, DepthFirst, Deepest, Way;
    var p := g.parent[k];
    DepthFirstAt(g, w, h, k);
    if i in Way(g, k - 1) {
      Beyond(g, k - 1, p, i);
      NoneBeyond(g, w, h, k, p, i);
    } else {
      OffWay(g, w, h, k, i);
    }
  }

  lemma DepthFirstAt(g: Growth, w: int, h: int, k: nat)
    requires Grown(g) && DepthFirst(g, w, h) && 1 <= k < |g.order|
    ensures Deepest(g, w, h, k, g.parent[k]) && g.parent[k] in Way(g, k - 1)
  {
    hide Free;
  }

  lemma NoneBeyond(g: Growth, w: int, h: int, k: nat, p: nat, j: nat)
    requires Grown(g) && 1 <= k <= |g.order| && Deepest(g, w, h, k, p) && j in Way(g, k - 1) && p < j < k
    ensures Free(g.order[j], w, h, g.order[..k]) == []
  {
    hide Free;
  }

  /** What is on the way to cell k but not on the way to p, which is on it too, comes after p. */
  lemma Beyond(g: Growth, k: nat, p: nat, i: nat)
    requires Grown(g) && k < |g.order| && p in Way(g, k) && i in Way(g, k)
    ensures p < |g.order| && (i !in Way(g, p) ==> p < i)
  {
    var m := PlaceOf(Way(g, k), p);
    var x := PlaceOf(Way(g, k), i);
    WayPrefix(g, k, m + 1);
    WayIs(g, k);
    hide Grown;
    if x <= m { assert Way(g, k)[..m + 1][x] == i; }
  }

  lemma PlaceOf(s: seq<nat>, x: nat) returns (m: nat)
    requires x in s
    ensures m < |s| && s[m] == x
  {
    m :| m < |s| && s[m] == x;
  }

  /** What a source digs is depth-first. */
  lemma DugOnWay(g: Growth, w: int, h: int)
    requires Grown(g) && DepthFirst(g, w, h) && AllInside(g, w, h)
    ensures NeighboursOnWay(g)
  {
    forall i, j, d | 0 <= i < |g.order| && 0 <= j < |g.order| && g.order[j] == Ahead(g.order[i], d)
      ensures i in Way(g, j) || j in Way(g, i)
    {
      AheadOpposite(g.order[i], d);
      if i < j { EarlierOnWay(g, w, h, i, j, d); } else if j < i { EarlierOnWay(g, w, h, j, i, Opposite(d)); }
      else { assert false; }
    }
  }

  lemma EarlierOnWay(g: Growth, w: int, h: int, i: nat, j: nat, d: Dir)
    requires Grown(g) && DepthFirst(g, w, h) && AllInside(g, w, h)
    requires i < j < |g.order| && g.order[j] == Ahead(g.order[i], d)
    ensures i in Way(g, j)
  {
    hide Free, DepthFirst;
    if i !in Way(g, g.parent[j]) {
      OffParent(g, w, h, j, i);
      assert g.order[j] in g.order && g.order[j] !in g.order[..j];
      FreeIs(g.order[i], w, h, g.order[..j], g.order[j]);
      assert false;
    }
  }

  // ---------------------------------------------------------------- digging a given tree

  ghost predicate Copies(t: Growth, x: nat, c: Cell, q: Cell)
    requires Grown(t)
  {
    1 <= x < |t.order| && t.order[x] == c && t.order[t.parent[x]] == q
  }

  ghost predicate Copied(g: Growth, t: Growth, k: nat)
    requires Grown(g) && Grown(t) && 1 <= k < |g.order|
  {
    exists x: nat :: Copies(t, x, g.order[k], g.order[g.parent[k]])
  }

  /** g is a part of the tree t: each cell comes from the one it comes from there. */
  ghost predicate PartOf(g: Growth, t: Growth)
    requires Grown(g) && Grown(t)
  {
    && g.order != [] && t.order != [] && g.order[0] == t.order[0]
    && forall k | 1 <= k < |g.order| :: Copied(g, t, k)
  }

  lemma IndexOf(s: seq<Cell>, c: Cell) returns (i: nat)
    requires c in s
    ensures i < |s| && s[i] == c
  {
    i :| i < |s| && s[i] == c;
  }

  /** The place in t of cell k of its part, and of that cell's parent. */
  lemma ParentThere(g: Growth, t: Growth, k: nat, x: nat)
    requires Grown(g) && Grown(t) && PartOf(g, t) && k < |g.order| && x < |t.order| && g.order[k] == t.order[x]
    ensures x > 0 <==> k > 0
    ensures k > 0 ==> g.order[g.parent[k]] == t.order[t.parent[x]]
  {
    if k > 0 {
      assert Copied(g, t, k);
      var y: nat :| Copies(t, y, g.order[k], g.order[g.parent[k]]);
      SameIndex(t.order, x, y);
    } else {
      SameIndex(t.order, x, 0);
    }
  }

  lemma CellThere(g: Growth, t: Growth, k: nat) returns (x: nat)
    requires Grown(g) && Grown(t) && PartOf(g, t) && k < |g.order|
    ensures x < |t.order| && g.order[k] == t.order[x]
  {
    x := 0;
    if k > 0 {
      assert Copied(g, t, k);
      x :| Copies(t, x, g.order[k], g.order[g.parent[k]]);
    }
  }

  /** What is on the way to a cell of the part has been reached before it. */
  lemma {:induction false} ReachedBefore(g: Growth, t: Growth, k: nat, x: nat, a: nat) returns (i: nat)
    requires Grown(g) && Grown(t) && PartOf(g, t) && k < |g.order| && x < |t.order| && g.order[k] == t.order[x]
    requires a in Way(t, x) && a != x
    ensures a < |t.order| && i < k && g.order[i] == t.order[a]
    decreases k
  {
    hide PartOf;
    WayLast(t, x);
    ParentThere(g, t, k, x);
    if a == t.parent[x] {
      i := g.parent[k];
    } else {
      i := ReachedBefore(g, t, g.parent[k], t.parent[x], a);
    }
  }

  /** On the way from a reached cell to an unreached one there is a first unreached one. */
  lemma {:induction false} Boundary(g: Growth, t: Growth, a: nat, z: nat) returns (x: nat)
    requires Grown(g) && Grown(t) && a < |t.order| && z < |t.order| && a in Way(t, z)
    requires t.order[a] in g.order && t.order[z] !in g.order
    ensures 1 <= x < |t.order| && t.order[x] !in g.order
    ensures t.order[t.parent[x]] in g.order && a in Way(t, t.parent[x])
    decreases z
  {
    WayLast(t, z);
    if t.order[t.parent[z]] in g.order {
      x := z;
    } else {
      x := Boundary(g, t, a, t.parent[z]);
    }
  }

  /** t is a tree on the whole grid of the kind that can be dug. */
  ghost predicate Diggable(t: Growth, w: int, h: int) {
    && Grown(t) && AllInside(t, w, h) && Adjacent(t) && NeighboursOnWay(t)
    && t.order != [] && t.order[0] == Cell(0, 0) && forall c :: Inside(c, w, h) ==> c in t.order
  }

  lemma TreeStep(t: Growth, x: nat, w: int, h: int, reached: seq<Cell>)
    requires Grown(t) && AllInside(t, w, h) && Adjacent(t) && 1 <= x < |t.order| && t.order[x] !in reached
    ensures t.order[x] in Free(t.order[t.parent[x]], w, h, reached)
  {
    var c, q := t.order[x], t.order[t.parent[x]];
    assert c in t.order;
    assert EdgeAt(t, x, q, c);
    assert Edge(t, q, c);
    FreeIs(q, w, h, reached, c);
  }

  /** A cell that has an unreached neighbour has an unreached cell beyond it in the tree. */
  lemma Beneath(g: Growth, t: Growth, w: int, h: int, p: nat) returns (a: nat, z: nat)
    requires Grown(g) && Diggable(t, w, h) && PartOf(g, t) && p < |g.order| && Free(g.order[p], w, h, g.order) != []
    ensures a < |t.order| && z < |t.order| && a in Way(t, z)
    ensures t.order[a] == g.order[p] && t.order[z] !in g.order
  {
    hide PartOf, Way, Free, Adjacent;
    var u := Free(g.order[p], w, h, g.order)[0];
    FreeIs(g.order[p], w, h, g.order, u);
    var d :| u == Ahead(g.order[p], d);
    z := IndexOf(t.order, u);
    a := CellThere(g, t, p);
    assert t.order[z] == Ahead(t.order[a], d);
    if z in Way(t, a) {
      var i := ReachedBefore(g, t, p, a, z);
    }
  }

  /** The deepest cell with a free neighbour has a free child in the tree. */
  lemma NextCell(g: Growth, t: Growth, w: int, h: int, p: nat) returns (x: nat)
    requires Grown(g) && g.order != [] && DepthFirst(g, w, h) && Diggable(t, w, h) && PartOf(g, t)
    requires Deepest(g, w, h, |g.order|, p)
    ensures 1 <= x < |t.order| && t.order[t.parent[x]] == g.order[p]
    ensures t.order[x] in Free(g.order[p], w, h, g.order)
  {
    hide PartOf, Way, Free, Adjacent, DepthFirst, NeighboursOnWay;
    assert g.order[..|g.order|] == g.order;
    var a, z := Beneath(g, t, w, h, p);
    x := Boundary(g, t, a, z);
    TreeStep(t, x, w, h, g.order);
    var y := t.parent[x];
    if y != a {
      var q := IndexOf(g.order, t.order[y]);
      var i := ReachedBefore(g, t, q, y, a);
      SameIndex(g.order, i, p);
      NotBeyond(g, w, h, p, q);
    }
  }

  lemma NotBeyond(g: Growth, w: int, h: int, p: nat, q: nat)
    requires Grown(g) && g.order != [] && DepthFirst(g, w, h) && Deepest(g, w, h, |g.order|, p)
    requires q < |g.order| && Free(g.order[q], w, h, g.order) != []
    ensures q <= p
  {
    hide Way, Free, DepthFirst;
    assert g.order[..|g.order|] == g.order;
    if q !in Way(g, |g.order| - 1) { OffWay(g, w, h, |g.order|, q); }
  }

  /** While a cell is missing, some cell on the way has a free neighbour. */
  lemma {:induction false} SomeDeepest(g: Growth, w: int, h: int, m: nat, c: Cell) returns (p: nat)
    requires Grown(g) && g.order != [] && g.order[0] == Cell(0, 0) && DepthFirst(g, w, h)
    requires Inside(c, w, h) && c !in g.order
    requires var way := Way(g, |g.order| - 1);
             m <= |way|
             && forall j :: m <= j < |way| && way[j] < |g.order| ==> Free(g.order[way[j]], w, h, g.order) == []
    ensures Deepest(g, w, h, |g.order|, p)
    decreases m
  {
    hide Free, DepthFirst, Way;
    var way := Way(g, |g.order| - 1);
    WayIs(g, |g.order| - 1);
    assert g.order[..|g.order|] == g.order;
    if m == 0 {
      NothingFree(g, w, h);
      AllReached(w, h, g, c);
      assert false;
    } else if Free(g.order[way[m - 1]], w, h, g.order) != [] {
      p := way[m - 1];
    } else {
      p := SomeDeepest(g, w, h, m - 1, c);
    }
  }

  lemma NothingFree(g: Growth, w: int, h: int)
    requires Grown(g) && g.order != [] && DepthFirst(g, w, h)
    requires forall i :: i in Way(g, |g.order| - 1) && i < |g.order| ==> Free(g.order[i], w, h, g.order) == []
    ensures Exhausted(w, h, g, [])
  {
    hide Free, DepthFirst, Way, Grown;
    assert g.order[..|g.order|] == g.order;
    forall c, d | c in g.order && Inside(Ahead(c, d), w, h) ensures Ahead(c, d) in g.order {
      var i := IndexOf(g.order, c);
      if i !in Way(g, |g.order| - 1) { OffWay(g, w, h, |g.order|, i); }
      FreeIs(c, w, h, g.order, Ahead(c, d));
    }
  }

  /** One more cell of the tree. */
  lemma OneMore(g: Growth, t: Growth, w: int, h: int, p: nat, x: nat)
    requires Grown(g) && Grown(t) && PartOf(g, t) && DepthFirst(g, w, h) && AllInside(g, w, h)
    requires p < |g.order| && Deepest(g, w, h, |g.order|, p)
    requires 1 <= x < |t.order| && t.order[t.parent[x]] == g.order[p] && t.order[x] in Free(g.order[p], w, h, g.order)
    ensures var g' := Extended(g, t.order[x], p);
            && Grown(g') && PartOf(g', t) && DepthFirst(g', w, h) && AllInside(g', w, h)
            && Unreached(w, h, g') < Unreached(w, h, g)
  {
    hide Free, Deepest;
    var c := t.order[x];
    var g' := Extended(g, c, p);
    FreeIs(g.order[p], w, h, g.order, c);
    ExtendedEdge(g, c, p, c, c);
    assert c in Unreached(w, h, g) && c !in Unreached(w, h, g');
    PartMore(g, t, p, x);
    DepthFirstMore(g, c, p, w, h);
  }

  lemma PartMore(g: Growth, t: Growth, p: nat, x: nat)
    requires Grown(g) && Grown(t) && PartOf(g, t) && p < |g.order| && 1 <= x < |t.order|
    requires t.order[t.parent[x]] == g.order[p] && Grown(Extended(g, t.order[x], p))
    ensures PartOf(Extended(g, t.order[x], p), t)
  {
    var g' := Extended(g, t.order[x], p);
    assert Copies(t, x, t.order[x], g.order[p]);
    forall k | 1 <= k < |g'.order| ensures Copied(g', t, k) {
      if k < |g.order| {
        assert Copied(g, t, k);
        var y: nat :| Copies(t, y, g.order[k], g.order[g.parent[k]]);
        assert Copies(t, y, g'.order[k], g'.order[g'.parent[k]]);
      } else {
        assert Copies(t, x, g'.order[k], g'.order[g'.parent[k]]);
      }
    }
  }

  lemma DepthFirstMore(g: Growth, c: Cell, p: nat, w: int, h: int)
    requires Grown(g) && DepthFirst(g, w, h) && p < |g.order| && Grown(Extended(g, c, p))
    requires Deepest(g, w, h, |g.order|, p) && c in Free(g.order[p], w, h, g.order)
    ensures DepthFirst(Extended(g, c, p), w, h)
  {
    hide Free, Deepest;
    var g' := Extended(g, c, p);
    forall k | 1 <= k < |g'.order|
      ensures Deepest(g', w, h, k, g'.parent[k]) && g'.order[k] in Free(g'.order[g'.parent[k]], w, h, g'.order[..k])
    {
      DeepestExtended(g, c, p, w, h, k, g'.parent[k]);
      assert g'.order[..k] == g.order[..k];
      assert k == |g.order| ==> g.order[..k] == g.order;
    }
  }

  /** Any such tree is grown depth first. */
  lemma {:induction false} Grow(g: Growth, t: Growth, w: int, h: int) returns (all: Growth)
    requires Grown(g) && Diggable(t, w, h) && PartOf(g, t) && DepthFirst(g, w, h) && AllInside(g, w, h)
    ensures Grown(all) && PartOf(all, t) && DepthFirst(all, w, h) && AllInside(all, w, h)
    ensures forall c :: Inside(c, w, h) ==> c in all.order
    decreases Unreached(w, h, g)
  {
    hide Grown, Free, DepthFirst, Deepest, AllInside, Way;
    if c :| Inside(c, w, h) && c !in g.order {
      StartsThere(g, t, w, h);
      var p := SomeDeepest(g, w, h, |Way(g, |g.order| - 1)|, c);
      DeepestIs(g, w, h, p);
      var x := NextCell(g, t, w, h, p);
      OneMore(g, t, w, h, p, x);
      all := Grow(Extended(g, t.order[x], p), t, w, h);
    } else {
      all := g;
    }
  }

  lemma StartsThere(g: Growth, t: Growth, w: int, h: int)
    requires Grown(g) && Diggable(t, w, h) && PartOf(g, t)
    ensures g.order != [] && g.order[0] == Cell(0, 0)
  {}

  lemma DeepestIs(g: Growth, w: int, h: int, p: nat)
    requires Grown(g) && g.order != [] && Deepest(g, w, h, |g.order|, p)
    ensures p < |g.order|
  {}

  /** A part that has every cell has every edge. */
  lemma WholeEdges(g: Growth, t: Growth, a: Cell, b: Cell)
    requires Grown(g) && Grown(t) && PartOf(g, t) && forall c :: c in t.order ==> c in g.order
    ensures Edge(g, a, b) <==> Edge(t, a, b)
  {
    if k: nat :| EdgeAt(g, k, a, b) {
      assert Copied(g, t, k);
      var x: nat :| Copies(t, x, g.order[k], g.order[g.parent[k]]);
      assert EdgeAt(t, x, a, b);
    }
    if x: nat :| EdgeAt(t, x, a, b) {
      assert t.order[x] in t.order;
      var k := IndexOf(g.order, t.order[x]);
      ParentThere(g, t, k, x);
      assert EdgeAt(g, k, a, b);
    }
  }

  // ---------------------------------------------------------------- the source that digs it

  /** What to answer at call k for n choices, for cell k + 1 to be reached. */
  ghost function Answer(g: Growth, w: int, h: int, k: nat, n: nat): (r: nat)
    requires Grown(g)
    ensures n > 0 ==> r < n
  {
    if k + 1 < |g.order| then
      var free := Free(g.order[g.parent[k + 1]], w, h, g.order[..k + 1]);
      if n == |free| && g.order[k + 1] in free then IndexIn(free, g.order[k + 1]) else 0
    else 0
  }

  ghost function IndexIn(s: seq<Cell>, c: Cell): (i: nat)
    requires c in s
    ensures i < |s| && s[i] == c
  {
    var i: nat :| i < |s| && s[i] == c;
    i
  }

  lemma SourceFor(g: Growth, w: int, h: int) returns (rnd: Source)
    requires Grown(g) && DepthFirst(g, w, h)
    ensures Honest(rnd) && Chosen(g, w, h, rnd)
  {
    hide Free, Deepest;
    rnd := (k: nat, n: nat) => Answer(g, w, h, k, n);
    forall k | 1 <= k < |g.order| ensures ChosenAt(g, w, h, rnd, k) {
      assert Deepest(g, w, h, k, g.parent[k]);
    }
  }

  /** Every tree of the grid that is depth-first is dug for some source. */
  lemma TreeDug(cells: Cells, w: int, h: int, t: Growth) returns (g: Growth, rnd: Source)
    requires Rooted(cells, w, h, t) && NeighboursOnWay(t)
    ensures Honest(rnd) && Dug(cells, w, h, g, rnd)
  {
    hide Free, Deepest, NeighboursOnWay;
    var start := Growth([Cell(0, 0)], [0]);
    assert Cell(0, 0) in t.order;
    g := Grow(start, t, w, h);
    rnd := SourceFor(g, w, h);
    WholeTied(cells, w, h, g, t);
  }

  lemma WholeTied(cells: Cells, w: int, h: int, g: Growth, t: Growth)
    requires Rooted(cells, w, h, t) && Grown(g) && PartOf(g, t) && AllInside(g, w, h)
    requires forall c :: Inside(c, w, h) ==> c in g.order
    ensures Rooted(cells, w, h, g)
  {
    hide Edge, PartOf;
    StartIs(g, t);
    forall a, b ensures Edge(g, a, b) <==> Edge(t, a, b) { WholeEdges(g, t, a, b); }
  }

  lemma StartIs(g: Growth, t: Growth)
    requires Grown(g) && Grown(t) && PartOf(g, t)
    ensures g.order != [] && g.order[0] == t.order[0]
  {}

  /** The mazes that can come out are exactly the spanning trees of the grid in which, of two
      neighbouring cells, one is on the way from the origin to the other. */
  lemma MazesAre(cells: Cells, w: int, h: int)
    ensures (exists g, rnd :: Honest(rnd) && Dug(cells, w, h, g, rnd))
            <==> exists t :: Rooted(cells, w, h, t) && NeighboursOnWay(t)
  {
    hide NeighboursOnWay, Honest, Chosen, Tied, Adjacent;
    if g, rnd :| Honest(rnd) && Dug(cells, w, h, g, rnd) {
      DugIs(cells, w, h, g, rnd);
    }
    if t :| Rooted(cells, w, h, t) && NeighboursOnWay(t) {
      var g, rnd := TreeDug(cells, w, h, t);
    }
  }

  lemma DugIs(cells: Cells, w: int, h: int, g: Growth, rnd: Source)
    requires Dug(cells, w, h, g, rnd)
    ensures NeighboursOnWay(g)
  {
    ChosenIsDepthFirst(g, w, h, rnd);
    DugOnWay(g, w, h);
  }
}
