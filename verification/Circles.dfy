/** The midpoint circles of internal/oascii/hires_screen.go (`err < 0`) and
    pcterm/internal/hires/hires.go (`err <= 0`).  Both draw, before clipping, exactly the pixels of
    a band around the ideal circle; only the treatment of the two edges of the band differs. */
module Circles {
  import opened Lines

  /** Which side a zero midpoint error counts for: `Below` is `err < 0`, `AtMost` is `err <= 0`. */
  datatype Test = Below | AtMost

  predicate KeepsX(t: Test, err: int) { if t == Below then err < 0 else err <= 0 }

  function NextX(t: Test, x: int, err: int): int { if KeepsX(t, err) then x else x - 1 }

  /** The error term after y has gone up to `y` and x has become `x`. */
  function NextErr(t: Test, x: int, y: int, err: int): int {
    if KeepsX(t, err) then err + 2 * y + 1 else err + 2 * (y - x) + 1
  }

  /** The pixels (x, y) of the octant 0 <= y <= x from (x, y) on, as the loop visits them. */
  function Octant(t: Test, x: int, y: int, err: int): seq<Point>
    decreases x - y + 1
  {
    if x < y then []
    else [Point(x, y)] + Octant(t, NextX(t, x, err), y + 1, NextErr(t, NextX(t, x, err), y + 1, err))
  }

  /** The error term of the loop, exactly: the implicit circle at the next midpoint. */
  function MidError(r: int, x: int, y: int): int { (y + 1) * (y + 1) + x * x - x - r * r }

  /** |sqrt(r*r - y*y) - x| is at most one half (x*x + y*y is within x of r*r). */
  predicate Near(t: Test, r: int, x: int, y: int) {
    if t == Below then x * x - x < r * r - y * y <= x * x + x
    else x * x - x <= r * r - y * y < x * x + x
  }

  /** What holds at every loop head, and at the exit as far as x + 1 goes. */
  ghost predicate Head(t: Test, r: int, x: int, y: int, err: int) {
    && 0 < r && 0 <= y && -1 <= x
    && err == MidError(r, x, y)
    && (if t == Below then r * r - y * y <= x * x + x else r * r - y * y < x * x + x)
    && (y <= x ==> Near(t, r, x, y))
  }

  lemma HeadStep(t: Test, r: int, x: int, y: int, err: int)
    requires Head(t, r, x, y, err) && y <= x
    ensures Head(t, r, NextX(t, x, err), y + 1, NextErr(t, NextX(t, x, err), y + 1, err))
  {
    var xx, yy := x * x, y * y;
    assert (y + 1) * (y + 1) == yy + 2 * y + 1;
    assert (y + 1 + 1) * (y + 1 + 1) == yy + 4 * y + 4;
    assert (x - 1) * (x - 1) == xx - 2 * x + 1;
  }

  lemma HeadStart(t: Test, r: int)
    requires 0 < r
    ensures Head(t, r, r, 0, 1 - r)
  {}

  /** On one row, the band holds a single x with y <= x. */
  lemma NearUnique(t: Test, r: int, x: int, x': int, y: int)
    requires 0 <= x && 0 <= x' && Near(t, r, x, y) && Near(t, r, x', y)
    ensures x == x'
  {
    if x < x' { Grows(x, x'); } else if x' < x { Grows(x', x); }
  }

  lemma Grows(a: int, b: int)
    requires 0 <= a < b
    ensures a * a + a <= b * b - b
  {
    var c := b - a - 1;
    assert b == a + 1 + c;
    assert 0 <= a * c && 0 <= c * c;
    assert b * b - b == b * (b - 1) == (a + 1 + c) * (a + c) == a * a + a + 2 * (a * c) + c + c * c;
  }

  /** Past the exit of the octant there is nothing left to draw. */
  lemma ExitDone(t: Test, r: int, x: int, y: int, err: int, u: int, v: int)
    requires Head(t, r, x, y, err) && x < y && y <= v <= u
    ensures !Near(t, r, u, v)
  {
    // (x + 1)(x + 1) - (x + 1) <= y*y - y <= u*u - u, and y*y <= v*v
    assert x * x + x <= y * y - y by { if x + 1 < y && 0 <= x { Grows(x, y); } }
    assert y * y - y <= u * u - u by { if y < u { Grows(y, u); } }
    assert y * y <= v * v by { if y < v { Grows(y, v); } }
  }

  /** The loop visits one pixel per row, each in the band, and leaves none out. */
  lemma {:induction false} OctantExact(t: Test, r: int, x: int, y: int, err: int, u: int, v: int)
    requires Head(t, r, x, y, err) && y <= v <= u
    ensures Point(u, v) in Octant(t, x, y, err) <==> Near(t, r, u, v)
    decreases x - y + 1
  {
    hide Near, Head, MidError, KeepsX, NextErr;
    if x < y {
      ExitDone(t, r, x, y, err, u, v);
    } else {
      var x', err' := NextX(t, x, err), NextErr(t, NextX(t, x, err), y + 1, err);
      HeadStep(t, r, x, y, err);
      assert Octant(t, x, y, err) == [Point(x, y)] + Octant(t, x', y + 1, err');
      if v == y {
        HeadNear(t, r, x, y, err);
        OctantBelow(t, x', y + 1, err');
        if Near(t, r, u, v) { NearUnique(t, r, x, u, y); }
      } else {
        OctantExact(t, r, x', y + 1, err', u, v);
      }
    }
  }

  lemma HeadNear(t: Test, r: int, x: int, y: int, err: int)
    requires Head(t, r, x, y, err) && y <= x
    ensures Near(t, r, x, y) && 0 <= y
  {}

  lemma {:induction false} OctantBelow(t: Test, x: int, y: int, err: int)
    ensures forall p :: p in Octant(t, x, y, err) ==> y <= p.y <= p.x
    decreases x - y + 1
  {
    if y <= x {
      OctantBelow(t, NextX(t, x, err), y + 1, NextErr(t, NextX(t, x, err), y + 1, err));
    }
  }

  /** The eight images of an octant pixel around (cx, cy), in the order of the server's loop. */
  function Images(c: Point, o: Point): seq<Point> {
    [Point(c.x + o.x, c.y + o.y), Point(c.x + o.y, c.y + o.x), Point(c.x - o.y, c.y + o.x), Point(c.x - o.x, c.y + o.y),
     Point(c.x - o.x, c.y - o.y), Point(c.x - o.y, c.y - o.x), Point(c.x + o.y, c.y - o.x), Point(c.x + o.x, c.y - o.y)]
  }

  /** The same, in the order of the client's loop. */
  function ClientImages(c: Point, o: Point): seq<Point> {
    [Point(c.x + o.x, c.y + o.y), Point(c.x - o.x, c.y + o.y), Point(c.x + o.x, c.y - o.y), Point(c.x - o.x, c.y - o.y),
     Point(c.x + o.y, c.y + o.x), Point(c.x - o.y, c.y + o.x), Point(c.x + o.y, c.y - o.x), Point(c.x - o.y, c.y - o.x)]
  }

  function Eight(t: Test, c: Point, o: Point): seq<Point> {
    if t == Below then Images(c, o) else ClientImages(c, o)
  }

  function AllImages(t: Test, c: Point, os: seq<Point>): seq<Point> {
    if os == [] then [] else AllImages(t, c, os[..|os| - 1]) + Eight(t, c, os[|os| - 1])
  }

  /** Every pixel a circle asks for, in plotting order; a negative radius asks for none. */
  function Circle(t: Test, c: Point, r: int): seq<Point> {
    if r < 0 then [] else AllImages(t, c, Octant(t, r, 0, 1 - r))
  }

  lemma EightMember(t: Test, c: Point, o: Point, u: int, v: int)
    requires 0 <= o.y <= o.x
    ensures Point(c.x + u, c.y + v) in Eight(t, c, o) <==> o == Point(Max(Abs(u), Abs(v)), Min(Abs(u), Abs(v)))
  {
    var p := Point(c.x + u, c.y + v);
    var e := Eight(t, c, o);
    assert p in e <==>
           p == e[0] || p == e[1] || p == e[2] || p == e[3] || p == e[4] || p == e[5] || p == e[6] || p == e[7];
  }

  lemma {:induction false} AllImagesMember(t: Test, c: Point, os: seq<Point>, u: int, v: int)
    requires forall o :: o in os ==> 0 <= o.y <= o.x
    ensures Point(c.x + u, c.y + v) in AllImages(t, c, os) <==> Point(Max(Abs(u), Abs(v)), Min(Abs(u), Abs(v))) in os
  {
    if os != [] {
      var front, last := os[..|os| - 1], os[|os| - 1];
      assert os == front + [last];
      assert last in os && forall o :: o in front ==> o in os;
      AllImagesMember(t, c, front, u, v);
      EightMember(t, c, last, u, v);
    }
  }

  /** The exact picture, for every radius: with M = max(|u|,|v|) and m = min(|u|,|v|), the pixel at
      offset (u, v) is drawn if and only if M is within half a pixel of sqrt(r*r - m*m). */
  lemma CircleExact(t: Test, c: Point, r: int, u: int, v: int)
    requires 0 < r
    ensures Point(c.x + u, c.y + v) in Circle(t, c, r) <==> Near(t, r, Max(Abs(u), Abs(v)), Min(Abs(u), Abs(v)))
  {
    HeadStart(t, r);
    OctantBelow(t, r, 0, 1 - r);
    AllImagesMember(t, c, Octant(t, r, 0, 1 - r), u, v);
    OctantExact(t, r, r, 0, 1 - r, Max(Abs(u), Abs(v)), Min(Abs(u), Abs(v)));
  }

  /** A null radius draws its centre, and only that. */
  lemma CirclePoint(t: Test, c: Point, u: int, v: int)
    ensures Point(c.x + u, c.y + v) in Circle(t, c, 0) <==> u == v == 0
  {
    assert Octant(t, 0, 0, 1) == [Point(0, 0)];
    AllImagesMember(t, c, Octant(t, 0, 0, 1), u, v);
  }

  /** Hence the error bound: u*u + v*v is within max(|u|,|v|) of r*r. */
  lemma CircleError(t: Test, c: Point, r: int, u: int, v: int)
    requires 0 <= r && Point(c.x + u, c.y + v) in Circle(t, c, r)
    ensures Abs(u * u + v * v - r * r) <= Max(Abs(u), Abs(v))
  {
    hide Circle;
    if r == 0 { CirclePoint(t, c, u, v); } else { CircleExact(t, c, r, u, v); }
  }

  /** And the eight-fold symmetry: any two offsets with the same pair of absolute values are drawn together. */
  lemma CircleSymmetric(t: Test, c: Point, r: int, u: int, v: int, u': int, v': int)
    requires multiset{Abs(u), Abs(v)} == multiset{Abs(u'), Abs(v')}
    ensures Point(c.x + u, c.y + v) in Circle(t, c, r) <==> Point(c.x + u', c.y + v') in Circle(t, c, r)
  {
    assert Abs(u) in multiset{Abs(u'), Abs(v')} && Abs(v) in multiset{Abs(u'), Abs(v')};
    assert Abs(u') in multiset{Abs(u), Abs(v)} && Abs(v') in multiset{Abs(u), Abs(v)};
    if r > 0 {
      CircleExact(t, c, r, u, v);
      CircleExact(t, c, r, u', v');
    } else if r == 0 {
      CirclePoint(t, c, u, v);
      CirclePoint(t, c, u', v');
    }
  }

  // ---------------------------------------------------------------- the loops

  /** `HiresScreen.Circle` */
  method ServerCircle(cx: int, cy: int, r: int) returns (plots: seq<Point>)
    ensures plots == Circle(Below, Point(cx, cy), r)
  {
    plots := [];
    if r < 0 { return; }
    hide Images, ClientImages, Octant, AllImages;
    NoImages(Below, Point(cx, cy));
    var x, y, err := r, 0, 1 - r;
    ghost var c, done := Point(cx, cy), [];
    while x >= y
      invariant Octant(Below, r, 0, 1 - r) == done + Octant(Below, x, y, err)
      invariant plots == AllImages(Below, c, done)
      decreases x - y
    {
      plots := plots + Images(Point(cx, cy), Point(x, y));
      Visited(Below, x, y, err, done);
      OneMore(Below, c, done, Point(x, y));
      done := done + [Point(x, y)];
      y := y + 1;
      if err < 0 {
        err := err + 2 * y + 1;
      } else {
        x := x - 1;
        err := err + 2 * (y - x) + 1;
      }
    }
    Over(Below, x, y, err, done);
  }

  /** `Raster.circle` */
  method ClientCircle(cx: int, cy: int, r0: int) returns (plots: seq<Point>)
    ensures plots == Circle(AtMost, Point(cx, cy), r0)
  {
    plots := [];
    if r0 < 0 { return; }
    hide Images, ClientImages, Octant, AllImages;
    NoImages(AtMost, Point(cx, cy));
    var x, y, err := r0, 0, 1 - r0;
    ghost var c, done := Point(cx, cy), [];
    while x >= y
      invariant Octant(AtMost, r0, 0, 1 - r0) == done + Octant(AtMost, x, y, err)
      invariant plots == AllImages(AtMost, c, done)
      decreases x - y
    {
      plots := plots + ClientImages(Point(cx, cy), Point(x, y));
      Visited(AtMost, x, y, err, done);
      OneMore(AtMost, c, done, Point(x, y));
      done := done + [Point(x, y)];
      y := y + 1;
      if err <= 0 {
        err := err + 2 * y + 1;
      } else {
        x := x - 1;
        err := err + 2 * (y - x) + 1;
      }
    }
    Over(AtMost, x, y, err, done);
  }

  lemma NoImages(t: Test, c: Point)
    ensures AllImages(t, c, []) == []
  {}

  lemma OneMore(t: Test, c: Point, done: seq<Point>, o: Point)
    ensures AllImages(t, c, done + [o]) == AllImages(t, c, done) + Eight(t, c, o)
  {
    hide Eight;
    assert (done + [o])[..|done|] == done;
  }

  /** Past the exit nothing is left. */
  lemma Over(t: Test, x: int, y: int, err: int, done: seq<Point>)
    requires x < y
    ensures done + Octant(t, x, y, err) == done
  {}

  lemma Visited(t: Test, x: int, y: int, err: int, done: seq<Point>)
    requires y <= x
    ensures var x' := NextX(t, x, err);
            done + Octant(t, x, y, err) == done + [Point(x, y)] + Octant(t, x', y + 1, NextErr(t, x', y + 1, err))
  {
    var x' := NextX(t, x, err);
    var rest := Octant(t, x', y + 1, NextErr(t, x', y + 1, err));
    assert Octant(t, x, y, err) == [Point(x, y)] + rest;
    hide *;
    assert done + ([Point(x, y)] + rest) == done + [Point(x, y)] + rest;
  }
}
