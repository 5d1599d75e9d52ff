/** The three line loops of the repository, against one closed form.

    - pcterm/internal/hires/hires.go `line`: major axis, error term halved with truncation;
    - studio/web/app.js `hiLine`: both axes, strict comparisons;
    - internal/oascii/hires_screen.go `Line`: both axes, loose comparisons.

    The first two round a tie towards the start of the segment and the third away from it, so the
    first two plot the same pixels in the same order and the third does not.  Each loop hands its
    pixels over as a sequence; the rasters plot that sequence in order. */
module Lines {

  datatype Point = Point(x: int, y: int)

  /** What a line does with a step that falls exactly between two pixels of the minor axis. */
  datatype Tie = Stay | Move

  function Abs(n: int): int { if n < 0 then -n else n }

  function Max(a: int, b: int): int { if a < b then b else a }

  function Min(a: int, b: int): int { if a < b then a else b }

  /** The coordinate reached from `start` after k unit steps towards `end`. */
  function Walk(start: int, end: int, k: int): int { if start > end then start - k else start + k }

  /** The unit step towards `end`. */
  function Unit(start: int, end: int): int { if start > end then -1 else 1 }

  /** The nearest integer to k * minor / major, a half being decided by the tie rule. */
  function Nearest(tie: Tie, major: int, minor: int, k: int): int
    requires 0 < major
  {
    (2 * (k * minor) + major - (if tie == Stay then 1 else 0)) / (2 * major)
  }

  /** The k-th pixel of the segment. */
  function Pixel(tie: Tie, p: Point, q: Point, k: int): Point {
    var dx, dy := Abs(q.x - p.x), Abs(q.y - p.y);
    if dx == 0 && dy == 0 then p
    else if dx >= dy then Point(Walk(p.x, q.x, k), Walk(p.y, q.y, Nearest(tie, dx, dy, k)))
    else Point(Walk(p.x, q.x, Nearest(tie, dy, dx, k)), Walk(p.y, q.y, k))
  }

  /** Every pixel of the segment, in plotting order. */
  function Segment(tie: Tie, p: Point, q: Point): seq<Point> {
    seq(Max(Abs(q.x - p.x), Abs(q.y - p.y)) + 1, k => Pixel(tie, p, q, k))
  }

  /** With a = k * minor and b = n * major: n is a nearest integer to k * minor / major, and a half
      goes the way the rule says. */
  predicate Rounds(tie: Tie, major: int, a: int, b: int) {
    if tie == Stay then 2 * b - major < 2 * a <= 2 * b + major
    else 2 * b - major <= 2 * a < 2 * b + major
  }

  lemma NearestRounds(tie: Tie, major: int, minor: int, k: int)
    requires 0 < major
    ensures Rounds(tie, major, k * minor, Nearest(tie, major, minor, k) * major)
  {
    var t := 2 * (k * minor) + major - (if tie == Stay then 1 else 0);
    var n := t / (2 * major);
    assert t == n * (2 * major) + t % (2 * major);
    assert n * (2 * major) == 2 * (n * major);
  }

  lemma Successor(n: int, d: int)
    ensures (n + 1) * d == n * d + d
  {}

  lemma Monotone(m: int, n: int, d: int)
    requires m < n && 0 < d
    ensures m * d + d <= n * d
  {
    var c := n - m - 1;
    assert 0 <= c * d;
    assert n * d == (m + 1 + c) * d == m * d + d + c * d;
  }

  lemma RoundsUnique(tie: Tie, major: int, minor: int, k: int, n: int)
    requires 0 < major && Rounds(tie, major, k * minor, n * major)
    ensures n == Nearest(tie, major, minor, k)
  {
    NearestRounds(tie, major, minor, k);
    RoundsSame(tie, major, k * minor, n, Nearest(tie, major, minor, k));
  }

  lemma RoundsSame(tie: Tie, major: int, a: int, m: int, n: int)
    requires 0 < major && Rounds(tie, major, a, m * major) && Rounds(tie, major, a, n * major)
    ensures m == n
  {
    if m < n {
      Monotone(m, n, major);
    } else if n < m {
      Monotone(n, m, major);
    }
  }

  lemma Within(k: int, m: int, d: int)
    requires 0 <= k <= m && 0 <= d
    ensures 0 <= k * d <= d * m
    ensures d * m == m * d
  {
    var c := m - k;
    assert 0 <= c * d && 0 <= k * d;
    assert d * m == (k + c) * d == k * d + c * d;
  }

  /** Rounded rows of a segment no steeper than its major axis stay between its two ends. */
  lemma RoundsRange(tie: Tie, major: int, minor: int, k: int, n: int)
    requires 0 <= minor <= major && 0 < major && 0 <= k <= major && Rounds(tie, major, k * minor, n * major)
    ensures 0 <= n <= minor
  {
    Within(k, major, minor);
    var a, b, top := k * minor, n * major, minor * major;
    if n < 0 {
      Monotone(n, 0, major);
      TooLow(tie, major, a, b);
    } else if n > minor {
      Monotone(minor, n, major);
      TooHigh(tie, major, a, b, top);
    }
  }

  lemma TooLow(tie: Tie, major: int, a: int, b: int)
    requires 0 < major && Rounds(tie, major, a, b) && 0 <= a
    ensures b > -major
  {}

  lemma TooHigh(tie: Tie, major: int, a: int, b: int, top: int)
    requires 0 < major && Rounds(tie, major, a, b) && a <= top
    ensures b < top + major
  {}

  /** One step along the major axis: the row stays, or moves by one when the half-way mark is passed
      (Stay) or reached (Move). */
  predicate Rises(tie: Tie, major: int, a: int, b: int) {
    if tie == Stay then 2 * b + major < 2 * a else 2 * b + major <= 2 * a
  }

  lemma RoundsStep(tie: Tie, major: int, minor: int, a: int, b: int)
    requires 0 < major && 0 <= minor <= major && Rounds(tie, major, a, b)
    ensures Rounds(tie, major, a + minor, if Rises(tie, major, a + minor, b) then b + major else b)
  {}

  /** The shape of every line, for all integer endpoints: max(|dx|,|dy|)+1 pixels from the first
      endpoint to the second. */
  lemma SegmentEnds(tie: Tie, p: Point, q: Point)
    ensures var s := Segment(tie, p, q);
            |s| == Max(Abs(q.x - p.x), Abs(q.y - p.y)) + 1 && s[0] == p && s[|s| - 1] == q
  {
    hide Pixel, Nearest, Rounds;
    var dx, dy := Abs(q.x - p.x), Abs(q.y - p.y);
    var major, minor := Max(dx, dy), Min(dx, dy);
    if 0 < major { EndsRounded(tie, major, minor); }
    PixelAt(tie, p, q, 0, 0);
    PixelAt(tie, p, q, major, minor);
  }

  lemma EndsRounded(tie: Tie, major: int, minor: int)
    requires 0 < major
    ensures Rounds(tie, major, 0 * minor, 0 * major) && Rounds(tie, major, major * minor, minor * major)
  {}

  /** How a loop identifies its k-th pixel: by a rounded row. */
  lemma PixelAt(tie: Tie, p: Point, q: Point, k: int, n: int)
    requires var dx, dy := Abs(q.x - p.x), Abs(q.y - p.y);
             0 <= k <= Max(dx, dy) && (0 < Max(dx, dy) ==> Rounds(tie, Max(dx, dy), k * Min(dx, dy), n * Max(dx, dy)))
    requires p == q ==> n == 0
    ensures k < |Segment(tie, p, q)|
    ensures Segment(tie, p, q)[k] ==
            if Abs(q.x - p.x) >= Abs(q.y - p.y) then Point(Walk(p.x, q.x, k), Walk(p.y, q.y, n))
            else Point(Walk(p.x, q.x, n), Walk(p.y, q.y, k))
  {
    var dx, dy := Abs(q.x - p.x), Abs(q.y - p.y);
    if 0 < Max(dx, dy) {
      RoundsUnique(tie, Max(dx, dy), Min(dx, dy), k, n);
    }
  }

  /** Twice the distance, along the minor axis and scaled by the major length, from a pixel to the
      ideal line through p and q. */
  function Deviation(p: Point, q: Point, v: Point): int {
    2 * ((v.x - p.x) * (q.y - p.y) - (v.y - p.y) * (q.x - p.x))
  }

  lemma DeviationScaled(p: Point, q: Point, i: int, j: int)
    ensures Abs(Deviation(p, q, Point(Walk(p.x, q.x, i), Walk(p.y, q.y, j))))
            == Abs(2 * (i * Abs(q.y - p.y)) - 2 * (j * Abs(q.x - p.x)))
  {
    var dx, dy := q.x - p.x, q.y - p.y;
    assert (-i) * dy == -(i * dy) == i * (-dy);
    assert (-j) * dx == -(j * dx) == j * (-dx);
    assert (-i) * (-dy) == i * dy;
    assert (-j) * (-dx) == j * dx;
  }

  /** Each step advances one pixel on the major axis, towards q, and at most one on the minor axis,
      and no pixel is more than half a pixel away from the ideal line. */
  lemma SegmentShape(tie: Tie, p: Point, q: Point, k: nat)
    requires k < |Segment(tie, p, q)|
    ensures var s := Segment(tie, p, q); var dx, dy := Abs(q.x - p.x), Abs(q.y - p.y);
            && Abs(Deviation(p, q, s[k])) <= Max(dx, dy)
            && (k + 1 < |s| ==>
                && Abs(s[k + 1].x - s[k].x) <= 1 && Abs(s[k + 1].y - s[k].y) <= 1
                && (if dx >= dy then s[k + 1].x == s[k].x + Unit(p.x, q.x) else s[k + 1].y == s[k].y + Unit(p.y, q.y)))
  {
    if p != q {
      PixelNear(tie, p, q, k);
      if k + 1 < |Segment(tie, p, q)| { PixelNext(tie, p, q, k); }
    }
    hide Segment, Deviation, Unit;
  }

  lemma PixelNear(tie: Tie, p: Point, q: Point, k: nat)
    requires p != q && k < |Segment(tie, p, q)|
    ensures Abs(Deviation(p, q, Segment(tie, p, q)[k])) <= Max(Abs(q.x - p.x), Abs(q.y - p.y))
  {
    var dx, dy := Abs(q.x - p.x), Abs(q.y - p.y);
    var major, minor := Max(dx, dy), Min(dx, dy);
    var n := Nearest(tie, major, minor, k);
    NearestRounds(tie, major, minor, k);
    PixelAt(tie, p, q, k, n);
    hide Nearest, Deviation;
    if dx >= dy { DeviationScaled(p, q, k, n); } else { DeviationScaled(p, q, n, k); }
  }

  lemma PixelNext(tie: Tie, p: Point, q: Point, k: nat)
    requires p != q && k + 1 < |Segment(tie, p, q)|
    ensures var s := Segment(tie, p, q); var dx, dy := Abs(q.x - p.x), Abs(q.y - p.y);
            && Abs(s[k + 1].x - s[k].x) <= 1 && Abs(s[k + 1].y - s[k].y) <= 1
            && (if dx >= dy then s[k + 1].x == s[k].x + Unit(p.x, q.x) else s[k + 1].y == s[k].y + Unit(p.y, q.y))
  {
    var dx, dy := Abs(q.x - p.x), Abs(q.y - p.y);
    var major, minor := Max(dx, dy), Min(dx, dy);
    var n := Nearest(tie, major, minor, k);
    NearestRounds(tie, major, minor, k);
    PixelAt(tie, p, q, k, n);
    Successor(k, minor);
    Successor(n, major);
    RoundsStep(tie, major, minor, k * minor, n * major);
    PixelAt(tie, p, q, k + 1, if Rises(tie, major, (k + 1) * minor, n * major) then n + 1 else n);
  }

  /** The two rounding rules give the same k-th pixel exactly when the ideal row is not half-way
      between two pixels. */
  lemma RulesPartOnTies(p: Point, q: Point, k: nat)
    requires p != q && k < |Segment(Stay, p, q)|
    ensures var major, minor := Max(Abs(q.x - p.x), Abs(q.y - p.y)), Min(Abs(q.x - p.x), Abs(q.y - p.y));
            Segment(Stay, p, q)[k] == Segment(Move, p, q)[k] <==> forall n :: 2 * (k * minor) != 2 * (n * major) + major
  {
    var major, minor := Max(Abs(q.x - p.x), Abs(q.y - p.y)), Min(Abs(q.x - p.x), Abs(q.y - p.y));
    var m, n := Nearest(Stay, major, minor, k), Nearest(Move, major, minor, k);
    NearestRounds(Stay, major, minor, k);
    NearestRounds(Move, major, minor, k);
    PixelAt(Stay, p, q, k, m);
    PixelAt(Move, p, q, k, n);
    hide Pixel, Nearest, Segment;
    if 2 * (n * major) - major == 2 * (k * minor) {
      Successor(n - 1, major);
      RoundsSame(Stay, major, k * minor, m, n - 1);
    } else {
      RoundsSame(Stay, major, k * minor, m, n);
      forall i ensures 2 * (k * minor) != 2 * (i * major) + major {
        if 2 * (k * minor) == 2 * (i * major) + major {
          Successor(i, major);
          RoundsSame(Move, major, k * minor, n, i + 1);
        }
      }
    }
  }

  // ---------------------------------------------------------------- the loops

  /** k * d by repeated addition, the way the error terms accumulate it. */
  ghost function Times(k: nat, d: int): (r: int)
  {
    if k == 0 then 0 else Times(k - 1, d) + d
  }

  lemma {:induction false} TimesIsProduct(k: nat, d: int)
    ensures Times(k, d) == k * d
  {
    if k > 0 {
      TimesIsProduct(k - 1, d);
      Successor(k - 1, d);
    }
  }

  /** What the loops know after k steps on the major axis and n on the minor one. */
  ghost predicate Progress(tie: Tie, p: Point, q: Point, x: int, y: int, k: int, n: int, a: int, b: int,
      plots: seq<Point>) {
    var dx, dy := Abs(q.x - p.x), Abs(q.y - p.y);
    && 0 <= k <= Max(dx, dy) && 0 <= n <= Min(dx, dy)
    && a == Times(k, Min(dx, dy)) && b == Times(n, Max(dx, dy))
    && (0 < Max(dx, dy) ==> Rounds(tie, Max(dx, dy), a, b))
    && Point(x, y) == (if dx >= dy then Point(Walk(p.x, q.x, k), Walk(p.y, q.y, n))
                       else Point(Walk(p.x, q.x, n), Walk(p.y, q.y, k)))
    && plots == Segment(tie, p, q)[..k]
  }

  lemma Started(tie: Tie, p: Point, q: Point)
    ensures Progress(tie, p, q, p.x, p.y, 0, 0, 0, 0, [])
  {}

  /** Plotting the current pixel; the walk is over exactly at the last one. */
  lemma Plotted(tie: Tie, p: Point, q: Point, x: int, y: int, k: int, n: int, a: int, b: int, plots: seq<Point>)
    requires Progress(tie, p, q, x, y, k, n, a, b, plots)
    ensures 0 <= k <= Max(Abs(q.x - p.x), Abs(q.y - p.y))
    ensures k < |Segment(tie, p, q)| && plots + [Point(x, y)] == Segment(tie, p, q)[..k + 1]
    ensures k == Max(Abs(q.x - p.x), Abs(q.y - p.y)) <==>
            (if Abs(q.x - p.x) >= Abs(q.y - p.y) then x == q.x else y == q.y)
    ensures k == Max(Abs(q.x - p.x), Abs(q.y - p.y))
            ==> x == q.x && y == q.y && plots + [Point(x, y)] == Segment(tie, p, q)
  {
    TimesIsProduct(k, Min(Abs(q.x - p.x), Abs(q.y - p.y)));
    TimesIsProduct(n, Max(Abs(q.x - p.x), Abs(q.y - p.y)));
    PixelAt(tie, p, q, k, n);
    SegmentEnds(tie, p, q);
  }

  /** One step of the walk, for either rounding rule. */
  lemma Stepped(tie: Tie, p: Point, q: Point, x: int, y: int, k: int, n: int, a: int, b: int, plots: seq<Point>)
    requires Progress(tie, p, q, x, y, k, n, a, b, plots) && k < Max(Abs(q.x - p.x), Abs(q.y - p.y))
    ensures var dx, dy := Abs(q.x - p.x), Abs(q.y - p.y); var up := Rises(tie, Max(dx, dy), a + Min(dx, dy), b);
            var x' := if dx >= dy || up then x + Unit(p.x, q.x) else x;
            var y' := if dx < dy || up then y + Unit(p.y, q.y) else y;
            && Progress(tie, p, q, x', y', k + 1, if up then n + 1 else n, a + Min(dx, dy), if up then b + Max(dx, dy)
               else b,
                        plots + [Point(x, y)])
            && (dx >= dy || up ==> p.x != q.x) && (dx < dy || up ==> p.y != q.y)
  {
    hide Segment, Rounds, Rises, Times;
    var dx, dy := Abs(q.x - p.x), Abs(q.y - p.y);
    Plotted(tie, p, q, x, y, k, n, a, b, plots);
    RowStepped(tie, Max(dx, dy), Min(dx, dy), k, n, a, b);
  }

  /** The row after k + 1 steps is again a rounded one between the two ends. */
  lemma RowStepped(tie: Tie, major: int, minor: int, k: nat, n: nat, a: int, b: int)
    requires 0 <= minor <= major && k < major && a == Times(k, minor) && b == Times(n, major)
             && Rounds(tie, major, a, b)
    ensures var up := Rises(tie, major, a + minor, b);
            var n', b' := if up then n + 1 else n, if up then b + major else b;
            && 0 <= n' <= minor && a + minor == Times(k + 1, minor) && b' == Times(n', major)
            && Rounds(tie, major, a + minor, b')
  {
    var n' := if Rises(tie, major, a + minor, b) then n + 1 else n;
    RoundsStep(tie, major, minor, a, b);
    TimesIsProduct(k + 1, minor);
    TimesIsProduct(n', major);
    RoundsRange(tie, major, minor, k + 1, n');
  }

  /** `Raster.line`: walks the major axis, with the error term started at half the major length. */
  method ClientLine(x0: int, y0: int, x1: int, y1: int) returns (plots: seq<Point>)
    ensures plots == Segment(Stay, Point(x0, y0), Point(x1, y1))
  {
    ghost var p, q := Point(x0, y0), Point(x1, y1);
    var x, y := x0, y0;
    var dx, dy := Abs(x1 - x0), Abs(y1 - y0);
    var sx, sy := 1, 1;
    if x0 > x1 { sx := -1; }
    if y0 > y1 { sy := -1; }
    plots := [];
    ghost var k, n, a, b := 0, 0, 0, 0;
    hide Segment, Progress;
    Started(Stay, p, q);
    if dx >= dy {
      var err := dx / 2;
      while true
        invariant Progress(Stay, p, q, x, y, k, n, a, b, plots) && err == dx / 2 - a + b
        decreases dx - k
      {
        Plotted(Stay, p, q, x, y, k, n, a, b, plots);
        ghost var before := plots;
        plots := plots + [Point(x, y)];
        if x == x1 { break; }
        Stepped(Stay, p, q, x, y, k, n, a, b, before);
        x := x + sx;
        err := err - dy;
        k, a := k + 1, a + dy;
        if err < 0 {
          y := y + sy;
          err := err + dx;
          n, b := n + 1, b + dx;
        }
      }
    } else {
      var err := dy / 2;
      while true
        invariant Progress(Stay, p, q, x, y, k, n, a, b, plots) && err == dy / 2 - a + b
        decreases dy - k
      {
        Plotted(Stay, p, q, x, y, k, n, a, b, plots);
        ghost var before := plots;
        plots := plots + [Point(x, y)];
        if y == y1 { break; }
        Stepped(Stay, p, q, x, y, k, n, a, b, before);
        y := y + sy;
        err := err - dx;
        k, a := k + 1, a + dx;
        if err < 0 {
          x := x + sx;
          err := err + dy;
          n, b := n + 1, b + dy;
        }
      }
    }
  }

  /** The major axis always moves in the both-axis loops. */
  lemma MajorMoves(tie: Tie, p: Point, q: Point, x: int, y: int, k: int, n: int, a: int, b: int, plots: seq<Point>)
    requires Progress(tie, p, q, x, y, k, n, a, b, plots) && k < Max(Abs(q.x - p.x), Abs(q.y - p.y))
    ensures var major, minor := Max(Abs(q.x - p.x), Abs(q.y - p.y)), Min(Abs(q.x - p.x), Abs(q.y - p.y));
            if tie == Stay then 2 * (major - minor - a + b) > -minor else 2 * (major - minor - a + b) >= -minor
  {
    var major, minor := Max(Abs(q.x - p.x), Abs(q.y - p.y)), Min(Abs(q.x - p.x), Abs(q.y - p.y));
    if minor == major {
      // 2 a == 2 b + major would need the odd number 2 (k - n) - 1 to vanish
      TimesIsProduct(k, major);
      TimesIsProduct(n, major);
      if k < n { Monotone(k, n, major); }
      if n < k { Monotone(n, k, major); }
    }
  }

  /** `n | 0` of an integer: its last 32 bits, signed. */
  function Int32(n: int): (r: int)
    ensures -0x8000_0000 <= r < 0x8000_0000
    ensures -0x8000_0000 <= n < 0x8000_0000 ==> r == n
  {
    (n + 0x8000_0000) % 0x1_0000_0000 - 0x8000_0000
  }

  /** `hiLine` of the Studio: both axes in one loop, strict comparisons, the coordinates cut to 32 bits
      first. */
  method StudioLine(px0: int, py0: int, px1: int, py1: int) returns (plots: seq<Point>)
    ensures plots == Segment(Stay, Point(Int32(px0), Int32(py0)), Point(Int32(px1), Int32(py1)))
  {
    var x0, y0, x1, y1 := Int32(px0), Int32(py0), Int32(px1), Int32(py1);
    hide Int32;
    ghost var p, q := Point(x0, y0), Point(x1, y1);
    var x, y := x0, y0;
    var dx, dy := Abs(x1 - x0), Abs(y1 - y0);
    var sx, sy := if x0 < x1 then 1 else -1, if y0 < y1 then 1 else -1;
    var err := dx - dy;
    plots := [];
    ghost var k, n, a, b := 0, 0, 0, 0;
    hide Segment, Progress;
    Started(Stay, p, q);
    while true
      invariant Progress(Stay, p, q, x, y, k, n, a, b, plots)
      invariant err == if dx >= dy then dx - dy - a + b else dx - dy + a - b
      decreases Max(dx, dy) - k
    {
      Plotted(Stay, p, q, x, y, k, n, a, b, plots);
      ghost var before := plots;
      plots := plots + [Point(x, y)];
      if x == x1 && y == y1 { break; }
      Stepped(Stay, p, q, x, y, k, n, a, b, before);
      MajorMoves(Stay, p, q, x, y, k, n, a, b, before);
      ghost var up := Rises(Stay, Max(dx, dy), a + Min(dx, dy), b);
      var e2 := 2 * err;
      if e2 > -dy { err := err - dy; x := x + sx; }
      if e2 < dx { err := err + dx; y := y + sy; }
      k, a := k + 1, a + Min(dx, dy);
      if up { n, b := n + 1, b + Max(dx, dy); }
    }
  }

  /** `HiresScreen.Line`: both axes in one loop, dy kept negative, loose comparisons. */
  method ScreenLine(x0: int, y0: int, x1: int, y1: int) returns (plots: seq<Point>)
    ensures plots == Segment(Move, Point(x0, y0), Point(x1, y1))
  {
    ghost var p, q := Point(x0, y0), Point(x1, y1);
    var x, y := x0, y0;
    var dx, dy := Abs(x1 - x0), -Abs(y1 - y0);
    var sx, sy := 1, 1;
    if x0 > x1 { sx := -1; }
    if y0 > y1 { sy := -1; }
    var err := dx + dy;
    plots := [];
    ghost var k, n, a, b := 0, 0, 0, 0;
    hide Segment, Progress;
    Started(Move, p, q);
    while true
      invariant Progress(Move, p, q, x, y, k, n, a, b, plots)
      invariant err == if dx >= -dy then dx + dy - a + b else dx + dy + a - b
      decreases Max(dx, -dy) - k
    {
      Plotted(Move, p, q, x, y, k, n, a, b, plots);
      ghost var before := plots;
      plots := plots + [Point(x, y)];
      if x == x1 && y == y1 { return; }
      Stepped(Move, p, q, x, y, k, n, a, b, before);
      MajorMoves(Move, p, q, x, y, k, n, a, b, before);
      ghost var up := Rises(Move, Max(dx, -dy), a + Min(dx, -dy), b);
      var e2 := 2 * err;
      if e2 >= dy { err := err + dy; x := x + sx; }
      if e2 <= dx { err := err + dx; y := y + sy; }
      k, a := k + 1, a + Min(dx, -dy);
      if up { n, b := n + 1, b + Max(dx, -dy); }
    }
  }
}
