/** What drawings look like, by their geometry: the pixels of a box, a circle or a character, what the
    server's actions compose, and what the operations of a page draw at the client. */
module Picture {
  import opened Options
  import opened Bytes
  import opened Lines
  import opened Circles
  import opened Vram
  import opened HiresDecoder
  import opened HiresDiff
  import opened HiresPage

  // ---------------------------------------------------------------- shapes

  predicate Between(a: int, b: int, n: int) { (a <= n <= b) || (b <= n <= a) }

  /** The four sides of the box with corners p and q. */
  predicate OnSides(p: Point, q: Point, v: Point) {
    || ((v.x == p.x || v.x == q.x) && Between(p.y, q.y, v.y))
    || ((v.y == p.y || v.y == q.y) && Between(p.x, q.x, v.x))
  }

  predicate InBox(p: Point, q: Point, v: Point) { Between(p.x, q.x, v.x) && Between(p.y, q.y, v.y) }

  /** The circle of radius r around c: the pixels nearest to it along their minor axis. */
  predicate OnCircle(t: Test, c: Point, r: int, v: Point) {
    var dx, dy := Abs(v.x - c.x), Abs(v.y - c.y);
    if r > 0 then Near(t, r, Lines.Max(dx, dy), Lines.Min(dx, dy)) else r == 0 && v == c
  }

  /** The character at (x, y): row n of its glyph is byte n, column k its bit 5 - k. */
  predicate InGlyph(font: Font, x: int, y: int, ch: byte, v: Point) {
    var code, column, row := ch % 128, v.x - x, v.y - y;
    code >= 0x20 && 0 <= column < 6 && 0 <= row < 8 && Bit(font[(code - 0x20) * 8 + row], 5 - column)
  }

  /** A vertical line is the pixels between its ends. */
  lemma ColumnPixels(tie: Tie, x: int, y0: int, y1: int, v: Point)
    ensures v in Segment(tie, Point(x, y0), Point(x, y1)) <==> v.x == x && Between(y0, y1, v.y)
  {
    var p, q := Point(x, y0), Point(x, y1);
    var s := Segment(tie, p, q);
    forall k | 0 <= k < |s| ensures s[k] == Point(x, Walk(y0, y1, k)) { PixelAt(tie, p, q, k, 0); }
    if v.x == x && Between(y0, y1, v.y) {
      var k := Abs(v.y - y0);
      assert s[k] == v;
    }
  }

  /** The four lines of a box are its sides. */
  lemma OutlineIs(tie: Tie, p: Point, q: Point, v: Point)
    ensures v in Segment(tie, p, Point(q.x, p.y)) || v in Segment(tie, Point(q.x, p.y), q)
            || v in Segment(tie, q, Point(p.x, q.y)) || v in Segment(tie, Point(p.x, q.y), p)
            <==> OnSides(p, q, v)
  {
    hide Segment;
    RowPixels(tie, p.x, q.x, p.y, v);
    ColumnPixels(tie, q.x, p.y, q.y, v);
    RowPixels(tie, q.x, p.x, q.y, v);
    ColumnPixels(tie, p.x, q.y, p.y, v);
  }

  lemma CircleIs(t: Test, c: Point, r: int, v: Point)
    ensures v in Circle(t, c, r) <==> OnCircle(t, c, r, v)
  {
    hide Octant, AllImages, Near;
    var dx, dy := v.x - c.x, v.y - c.y;
    assert v == Point(c.x + dx, c.y + dy);
    if r > 0 { CircleExact(t, c, r, dx, dy); } else if r == 0 { CirclePoint(t, c, dx, dy); }
  }

  lemma {:induction false} GlyphRowIs(bits: byte, x: int, y: int, n: nat, v: Point)
    requires n <= 6
    ensures v in GlyphRow(bits, x, y, n) <==> v.y == y && 0 <= v.x - x < n && Bit(bits, 5 - (v.x - x))
  {
    hide Bit;
    if n > 0 { GlyphRowIs(bits, x, y, n - 1, v); }
  }

  lemma {:induction false} GlyphRowsAre(font: Font, x: int, y: int, ch: byte, n: nat, v: Point)
    requires n <= 8
    ensures v in Glyph(font, x, y, ch, n) <==> InGlyph(font, x, y, ch, v) && v.y - y < n
  {
    hide Bit, GlyphRow;
    if n > 0 && ch % 128 >= 0x20 {
      GlyphRowsAre(font, x, y, ch, n - 1, v);
      GlyphRowIs(font[(ch % 128 - 0x20) * 8 + n - 1], x, y + n - 1, 6, v);
    }
  }

  lemma BoxIs(p: Point, q: Point, v: Point)
    ensures v in Rectangle(Lines.Min(p.x, q.x), Lines.Max(p.x, q.x), Lines.Min(p.y, q.y), Lines.Max(p.y, q.y))
            <==> InBox(p, q, v)
  {
    hide Rectangle;
    RectangleIs(Lines.Min(p.x, q.x), Lines.Max(p.x, q.x), Lines.Min(p.y, q.y), Lines.Max(p.y, q.y), v);
  }

  // ---------------------------------------------------------------- what the server composes

  /** Does the action light the pixel? */
  ghost predicate Lights(a: Action, v: Point) {
    match a
    case SetPx(x, y) => v == Point(x, y)
    case DrawLine(x0, y0, x1, y1) => v in Segment(Move, Point(x0, y0), Point(x1, y1))
    case DrawBox(x0, y0, x1, y1) => OnSides(Point(x0, y0), Point(x1, y1), v)
    case Fill(x0, y0, x1, y1) => InBox(Point(x0, y0), Point(x1, y1), v)
    case DrawCircle(cx, cy, r) => OnCircle(Below, Point(cx, cy), r, v)
    case Load(bitmap) => |bitmap| == SIZE && InBounds(v.x, v.y) && Lit(bitmap, v.x, v.y)
    case _ => false
  }

  /** Does it leave nothing of what the pixel was? */
  predicate Wipes(a: Action, v: Point) {
    a == ClearAll || a == ClearPx(v.x, v.y) || (a.Load? && |a.bitmap| == SIZE)
  }

  /** One action, pixel by pixel. */
  lemma ComposedPixel(b: Vram, a: Action, x: int, y: int)
    requires InBounds(x, y)
    ensures var v := Point(x, y);
            Lit(Composed(b, a), x, y) <==> Lights(a, v) || (Lit(b, x, y) && !Wipes(a, v))
  {
    hide Lit, Plot, Segment, Circle, OnCircle, FillBox, PlotAll;
    match a
    case SetPx(x', y') => PlotPixel(b, Point(x', y'), true, x, y);
    case ClearPx(x', y') => PlotPixel(b, Point(x', y'), false, x, y);
    case DrawLine(x0, y0, x1, y1) => PlotAllPixel(b, Segment(Move, Point(x0, y0), Point(x1, y1)), x, y);
    case DrawBox(x0, y0, x1, y1) => BoxPixel(b, x0, y0, x1, y1, x, y);
    case Fill(x0, y0, x1, y1) => FillBoxExact(b, x0, y0, x1, y1, x, y);
    case DrawCircle(cx, cy, r) =>
      PlotAllPixel(b, Circle(Below, Point(cx, cy), r), x, y);
      CircleIs(Below, Point(cx, cy), r, Point(x, y));
    case ClearAll => BlankUnlit(x, y);
    case Load(bitmap) =>
    case Forget =>
    case Show =>
  }

  lemma BoxPixel(b: Vram, x0: int, y0: int, x1: int, y1: int, x: int, y: int)
    requires InBounds(x, y)
    ensures Lit(BoxOn(b, x0, y0, x1, y1), x, y)
            <==> Lit(b, x, y) || OnSides(Point(x0, y0), Point(x1, y1), Point(x, y))
  {
    hide Lit, Segment, PlotAll, OnSides;
    var b1 := LineOn(b, x0, y0, x1, y0);
    var b2 := LineOn(b1, x1, y0, x1, y1);
    var b3 := LineOn(b2, x1, y1, x0, y1);
    PlotAllPixel(b, Segment(Move, Point(x0, y0), Point(x1, y0)), x, y);
    PlotAllPixel(b1, Segment(Move, Point(x1, y0), Point(x1, y1)), x, y);
    PlotAllPixel(b2, Segment(Move, Point(x1, y1), Point(x0, y1)), x, y);
    PlotAllPixel(b3, Segment(Move, Point(x0, y1), Point(x0, y0)), x, y);
    OutlineIs(Move, Point(x0, y0), Point(x1, y1), Point(x, y));
  }

  lemma BlankUnlit(x: int, y: int)
    requires InBounds(x, y)
    ensures !Lit(Blank(), x, y)
  {
    ClearBits(5 - x % 6);
  }

  lemma ClearBits(j: nat)
    requires j < 6
    ensures !Bit(CLEAR, j)
  {
    assert !Bit(64, 0) && !Bit(32, 0) && !Bit(16, 0) && !Bit(8, 0) && !Bit(4, 0) && !Bit(2, 0);
    assert !Bit(4, 1) && !Bit(8, 2) && !Bit(16, 3) && !Bit(32, 4);
  }

  /** Some action lights the pixel, and none after it wipes it out. */
  ghost predicate LitBy(actions: seq<Action>, v: Point) {
    exists i :: 0 <= i < |actions| && Lights(actions[i], v)
                && forall j :: i < j < |actions| ==> !Wipes(actions[j], v)
  }

  lemma LitByNext(front: seq<Action>, a: Action, v: Point)
    ensures LitBy(front + [a], v) <==> Lights(a, v) || (LitBy(front, v) && !Wipes(a, v))
  {
    hide Lights, Wipes;
    var all := front + [a];
    if LitBy(front, v) && !Wipes(a, v) {
      var i :| 0 <= i < |front| && Lights(front[i], v) && forall j :: i < j < |front| ==> !Wipes(front[j], v);
      assert Lights(all[i], v) && forall j :: i < j < |all| ==> !Wipes(all[j], v);
    }
    if Lights(a, v) { assert Lights(all[|front|], v); }
    if i :| 0 <= i < |all| && Lights(all[i], v) && forall j :: i < j < |all| ==> !Wipes(all[j], v) {
      if i < |front| {
        assert Lights(front[i], v) && forall j :: i < j < |front| ==> all[j] == front[j];
        assert all[|front|] == a;
      }
    }
  }

  lemma {:induction false} RunPixel(terminal: Canvas, actions: seq<Action>, font: Font, x: int, y: int)
    requires InBounds(x, y)
    ensures Lit(Runs(Opening(terminal), actions, font).screen.buf, x, y) <==> LitBy(actions, Point(x, y))
  {
    hide Lit, Composed, LitBy, Lights, Wipes, Rendered, Replayed;
    if actions == [] {
      BlankUnlit(x, y);
      NothingLit(Point(x, y));
    } else {
      var front, a := actions[..|actions| - 1], actions[|actions| - 1];
      RunPixel(terminal, front, font, x, y);
      var w := Runs(Opening(terminal), front, font);
      BufferAfter(w, a, font);
      ComposedPixel(w.screen.buf, a, x, y);
      LitByNext(front, a, Point(x, y));
      assert actions == front + [a];
    }
  }

  lemma NothingLit(v: Point)
    ensures !LitBy([], v)
  {}

  lemma BufferAfter(w: World, a: Action, font: Font)
    ensures Step(w, a, font).screen.buf == Composed(w.screen.buf, a)
  {
    hide Changes, Replayed;
  }

  /** Over every run, a pixel of the terminal is lit after a frame if and only if some action has lit
      it and none since has wiped it out. */
  lemma FramePixel(terminal: Canvas, actions: seq<Action>, font: Font, x: int, y: int)
    requires InBounds(x, y)
    ensures var w := Runs(Opening(terminal), actions + [Show], font);
            Lit(w.terminal.vram, x, y) <==> LitBy(actions, Point(x, y))
  {
    hide Lit, LitBy, Runs;
    EveryFrameShows(terminal, actions, font);
    RunPixel(terminal, actions, font, x, y);
  }

  /** The bits that hold no pixel: only clearing the screen and loading a bitmap set them. */
  lemma ComposedMode(b: Vram, a: Action, j: nat, k: nat)
    requires j < SIZE && 6 <= k
    ensures Bit(Composed(b, a)[j], k) ==
            if a == ClearAll then Bit(0x40, k)
            else if a.Load? && |a.bitmap| == SIZE then Bit(a.bitmap[j], k)
            else Bit(b[j], k)
  {
    hide Bit, Segment, Circle, PlotAll;
    match a
    case SetPx(x, y) => PlotMode(b, Point(x, y), true, j, k);
    case ClearPx(x, y) => PlotMode(b, Point(x, y), false, j, k);
    case DrawLine(x0, y0, x1, y1) => LineMode(b, x0, y0, x1, y1, j, k);
    case DrawBox(x0, y0, x1, y1) =>
      var b1 := LineOn(b, x0, y0, x1, y0);
      var b2 := LineOn(b1, x1, y0, x1, y1);
      LineMode(b, x0, y0, x1, y0, j, k);
      LineMode(b1, x1, y0, x1, y1, j, k);
      LineMode(b2, x1, y1, x0, y1, j, k);
      LineMode(LineOn(b2, x1, y1, x0, y1), x0, y1, x0, y0, j, k);
    case Fill(x0, y0, x1, y1) => FillMode(b, x0, x1, Lines.Min(y0, y1), Lines.Max(y0, y1), j, k);
    case DrawCircle(cx, cy, r) => PlotAllKeepsMode(b, Circle(Below, Point(cx, cy), r), j, k);
    case _ =>
  }

  lemma PlotMode(b: Vram, p: Point, on: bool, j: nat, k: nat)
    requires j < SIZE && 6 <= k
    ensures Bit(Plot(b, p, on)[j], k) == Bit(b[j], k)
  {
    if InBounds(p.x, p.y) { BitWritten(b[p.y * 40 + p.x / 6], 5 - p.x % 6, on, k); }
  }

  lemma LineMode(b: Vram, x0: int, y0: int, x1: int, y1: int, j: nat, k: nat)
    requires j < SIZE && 6 <= k
    ensures Bit(LineOn(b, x0, y0, x1, y1)[j], k) == Bit(b[j], k)
  {
    PlotAllKeepsMode(b, Segment(Move, Point(x0, y0), Point(x1, y1)), j, k);
  }

  lemma {:induction false} FillMode(b: Vram, x0: int, x1: int, y: int, bottom: int, j: nat, k: nat)
    requires j < SIZE && 6 <= k
    ensures Bit(FillRows(b, x0, x1, y, bottom)[j], k) == Bit(b[j], k)
    decreases bottom - y + 1
  {
    hide Bit, PlotAll, Segment;
    if y <= bottom {
      var row := Segment(Move, Point(x0, y), Point(x1, y));
      PlotAllKeepsMode(b, row, j, k);
      FillMode(PlotAll(b, row), x0, x1, y + 1, bottom, j, k);
    }
  }

  // ---------------------------------------------------------------- what a page draws

  predicate MovesPen(op: HiresOp) { op.Curset? || op.Dot? || op.LineTo? || op.Box? || op.FilledBox? }

  /** The pen: at the last point named by an operation that moves it, at the origin before. */
  function Pen(ops: seq<HiresOp>): Point {
    if ops == [] then Point(0, 0)
    else
      var last := ops[|ops| - 1];
      if MovesPen(last) then Point(last.x, last.y) else Pen(ops[..|ops| - 1])
  }

  /** Does the operation, with the pen there, light the pixel? */
  ghost predicate Covers(op: HiresOp, pen: Point, font: Font, v: Point) {
    match op
    case Dot(x, y) => v == Point(x, y)
    case LineTo(x, y) => v in Segment(Stay, pen, Point(x, y))
    case Box(x, y) => OnSides(pen, Point(x, y), v)
    case FilledBox(x, y) => InBox(pen, Point(x, y), v)
    case CircleOf(r) => OnCircle(AtMost, pen, r, v)
    case Char(x, y, ch) => InGlyph(font, x, y, Initial(ch), v)
    case _ => false
  }

  /** The points an operation plots, in its order. */
  function Plots(op: HiresOp, pen: Point, font: Font): seq<Point> {
    match op
    case Dot(x, y) => [Point(x, y)]
    case LineTo(x, y) => Segment(Stay, pen, Point(x, y))
    case Box(x, y) => Outline(pen, Point(x, y))
    case FilledBox(x, y) =>
      Rectangle(Lines.Min(pen.x, x), Lines.Max(pen.x, x), Lines.Min(pen.y, y), Lines.Max(pen.y, y))
    case CircleOf(r) => Circle(AtMost, pen, r)
    case Char(x, y, ch) => Glyph(font, x, y, Initial(ch), 8)
    case _ => []
  }

  lemma PlotsAre(op: HiresOp, pen: Point, font: Font, v: Point)
    ensures v in Plots(op, pen, font) <==> Covers(op, pen, font, v)
  {
    hide Segment, Circle, Rectangle, Glyph, OnSides, InBox, OnCircle, InGlyph;
    match op
    case Box(x, y) => OutlineIs(Stay, pen, Point(x, y), v);
    case FilledBox(x, y) => BoxIs(pen, Point(x, y), v);
    case CircleOf(r) => CircleIs(AtMost, pen, r, v);
    case Char(x, y, ch) => GlyphRowsAre(font, x, y, Initial(ch), 8, v); InGlyphRows(font, x, y, Initial(ch), v);
    case _ =>
  }

  lemma InGlyphRows(font: Font, x: int, y: int, ch: byte, v: Point)
    ensures InGlyph(font, x, y, ch, v) ==> v.y - y < 8
  {}

  predicate Colours(op: HiresOp) { op.Ink? || op.Paper? }

  /** A drawing plots its points with the colours in force, and moves the pen. */
  lemma DrawPlots(c: Canvas, op: HiresOp, font: Font)
    requires !Colours(op)
    ensures var pen := Point(c.penX, c.penY);
            Draw(c, op, font) ==
            if MovesPen(op) then SetPixels(c, Plots(op, pen, font)).(penX := op.x, penY := op.y)
            else SetPixels(c, Plots(op, pen, font))
  {
    hide Segment, Circle, Rectangle, Glyph, Outline, SetPixel;
    if op.Dot? {
      OneSet(c, Point(op.x, op.y));
      PenApart(c, Point(op.x, op.y), op.x, op.y);
    }
  }

  lemma PenApart(c: Canvas, p: Point, x: int, y: int)
    ensures SetPixel(c.(penX := x, penY := y), p) == SetPixel(c, p).(penX := x, penY := y)
  {
    hide Plot;
  }

  lemma OneSet(c: Canvas, p: Point)
    ensures SetPixels(c, [p]) == SetPixel(c, p)
  {
    hide SetPixel;
    assert [p][..0] == [];
  }

  /** The ink chosen last, if one has been. */
  function LastInk(ops: seq<HiresOp>): (ink: Option<byte>)
    ensures ink.Some? ==> ink.value < 8
  {
    if ops == [] then None
    else if ops[|ops| - 1].Ink? then Some(ops[|ops| - 1].c % 8)
    else LastInk(ops[..|ops| - 1])
  }

  /** The paper attribute painted last, if one has been. */
  function LastPaper(ops: seq<HiresOp>): Option<byte> {
    if ops == [] then None
    else if ops[|ops| - 1].Paper? then Some(0x10 + ops[|ops| - 1].c % 8)
    else LastPaper(ops[..|ops| - 1])
  }

  /** Does the operation light a pixel of line y? */
  ghost predicate OnLine(op: HiresOp, pen: Point, font: Font, y: int) {
    exists x :: 0 <= x < WIDTH && Covers(op, pen, font, Point(x, y))
  }

  /** No colour ever comes on line y: no paper, and nothing drawn on it once an ink is chosen. */
  ghost predicate Uncoloured(ops: seq<HiresOp>, font: Font, y: int) {
    && LastPaper(ops) == None
    && forall i :: 0 <= i < |ops| && LastInk(ops[..i]).Some? ==> !OnLine(ops[i], Pen(ops[..i]), font, y)
  }

  /** A canvas on which nothing has been chosen yet. */
  predicate Unmarked(c: Canvas) { c.penX == c.penY == 0 && !c.colorMode && !c.paperOn }

  /** Pen and colours after any operations. */
  lemma {:induction false} StateDrawn(c: Canvas, ops: seq<HiresOp>, font: Font)
    requires Unmarked(c)
    ensures var d := Direct(c, ops, font);
            && Point(d.penX, d.penY) == Pen(ops)
            && d.colorMode == LastInk(ops).Some? && (d.colorMode ==> d.ink == LastInk(ops).value)
            && d.paperOn == LastPaper(ops).Some?
  {
    hide Draw, PaintPaper;
    if ops != [] {
      var front, op := ops[..|ops| - 1], ops[|ops| - 1];
      StateDrawn(c, front, font);
      StateAfter(Direct(c, front, font), op, font);
    }
  }

  lemma StateAfter(c: Canvas, op: HiresOp, font: Font)
    ensures var d := Draw(c, op, font);
            && (d.penX, d.penY) == (if MovesPen(op) then (op.x, op.y) else (c.penX, c.penY))
            && (d.ink, d.colorMode) == (if op.Ink? then (op.c % 8, true) else (c.ink, c.colorMode))
            && d.paperOn == (c.paperOn || op.Paper?)
  {
    hide Plots, SetPixels, PaintPaper;
    if !Colours(op) {
      DrawPlots(c, op, font);
      OnlyMemory(c, Plots(op, Point(c.penX, c.penY), font));
      hide Draw;
    }
  }

  lemma {:induction false} OnlyMemory(c: Canvas, ps: seq<Point>)
    ensures SetPixels(c, ps) == c.(vram := SetPixels(c, ps).vram)
  {
    hide Plot;
    if ps != [] { OnlyMemory(c, ps[..|ps| - 1]); }
  }

  /** One operation, pixel by pixel: past the first byte of a line, or where no colour is in use. */
  lemma OpPixel(c: Canvas, op: HiresOp, font: Font, x: int, y: int)
    requires InBounds(x, y) && (x >= 6 || (!op.Paper? && !c.paperOn))
    requires x < 6 && c.colorMode ==> !OnLine(op, Point(c.penX, c.penY), font, y)
    ensures Lit(Draw(c, op, font).vram, x, y)
            <==> Lit(c.vram, x, y) || Covers(op, Point(c.penX, c.penY), font, Point(x, y))
  {
    hide Lit, SetPixels, Plots, Covers, OnLine;
    if op.Ink? {
      CoversNothing(op, Point(c.penX, c.penY), font, Point(x, y));
    } else if op.Paper? {
      PaperApart(c.vram, 0x10 + op.c % 8, x, y);
      CoversNothing(op, Point(c.penX, c.penY), font, Point(x, y));
    } else {
      var pen := Point(c.penX, c.penY);
      DrawPlots(c, op, font);
      hide Draw;
      PlotsAre(op, pen, font, Point(x, y));
      if x < 6 && c.colorMode {
        LineLeft(c, op, font, x, y);
      } else {
        PixelsLit(c, Plots(op, pen, font), x, y);
      }
    }
  }

  lemma CoversNothing(op: HiresOp, pen: Point, font: Font, v: Point)
    requires Colours(op)
    ensures !Covers(op, pen, font, v)
  {}

  lemma PaperApart(b: Vram, paper: byte, x: int, y: int)
    requires InBounds(x, y) && x >= 6
    ensures Lit(PaintPaper(b, paper), x, y) <==> Lit(b, x, y)
  {
    assert (y * 40 + x / 6) % 40 == x / 6;
  }

  /** A line on which nothing is drawn keeps its first byte. */
  lemma LineLeft(c: Canvas, op: HiresOp, font: Font, x: int, y: int)
    requires InBounds(x, y) && x < 6 && c.colorMode && !c.paperOn
    requires !OnLine(op, Point(c.penX, c.penY), font, y)
    ensures var pen := Point(c.penX, c.penY);
            && (Lit(SetPixels(c, Plots(op, pen, font)).vram, x, y) <==> Lit(c.vram, x, y))
            && !Covers(op, pen, font, Point(x, y))
  {
    hide SetPixels, Plots, Covers, Bit;
    var ps := Plots(op, Point(c.penX, c.penY), font);
    FirstBytes(c, ps, y);
    if Touches(ps, y) { TouchedLine(op, Point(c.penX, c.penY), font, y); }
  }

  lemma TouchedLine(op: HiresOp, pen: Point, font: Font, y: int)
    ensures Touches(Plots(op, pen, font), y) ==> OnLine(op, pen, font, y)
    ensures 0 <= y < HEIGHT && OnLine(op, pen, font, y) ==> Touches(Plots(op, pen, font), y)
  {
    hide Plots, Covers;
    var ps := Plots(op, pen, font);
    if Touches(ps, y) {
      var i :| 0 <= i < |ps| && InBounds(ps[i].x, ps[i].y) && ps[i].y == y;
      PlotsAre(op, pen, font, ps[i]);
      assert ps[i] == Point(ps[i].x, y);
    }
    if 0 <= y < HEIGHT && OnLine(op, pen, font, y) {
      var x :| 0 <= x < WIDTH && Covers(op, pen, font, Point(x, y));
      PlotsAre(op, pen, font, Point(x, y));
      var i :| 0 <= i < |ps| && ps[i] == Point(x, y);
    }
  }

  /** Some operation, with the pen where those before it leave it, lights the pixel. */
  ghost predicate Drawn(ops: seq<HiresOp>, font: Font, v: Point) {
    exists i :: 0 <= i < |ops| && Covers(ops[i], Pen(ops[..i]), font, v)
  }

  lemma DrawnNext(front: seq<HiresOp>, op: HiresOp, font: Font, v: Point)
    ensures Drawn(front + [op], font, v) <==> Drawn(front, font, v) || Covers(op, Pen(front), font, v)
  {
    hide Covers, Pen;
    var all := front + [op];
    assert all[..|front|] == front && all[|front|] == op;
    if i :| 0 <= i < |front| && Covers(front[i], Pen(front[..i]), font, v) {
      assert all[i] == front[i] && all[..i] == front[..i];
    }
    if i :| 0 <= i < |all| && Covers(all[i], Pen(all[..i]), font, v) {
      if i < |front| { assert all[i] == front[i] && all[..i] == front[..i]; }
    }
  }

  lemma UncolouredFront(front: seq<HiresOp>, op: HiresOp, font: Font, y: int)
    requires Uncoloured(front + [op], font, y)
    ensures Uncoloured(front, font, y) && !op.Paper?
    ensures LastInk(front).Some? ==> !OnLine(op, Pen(front), font, y)
  {
    hide OnLine, Pen, LastInk;
    var all := front + [op];
    assert all[..|front|] == front && all[|front|] == op;
    forall i | 0 <= i < |front| && LastInk(front[..i]).Some? ensures !OnLine(front[i], Pen(front[..i]), font, y) {
      assert all[i] == front[i] && all[..i] == front[..i];
    }
  }

  /** Operations, pixel by pixel. */
  lemma {:induction false} OpsPixel(c: Canvas, ops: seq<HiresOp>, font: Font, x: int, y: int)
    requires Unmarked(c) && InBounds(x, y) && (x >= 6 || Uncoloured(ops, font, y))
    ensures Lit(Direct(c, ops, font).vram, x, y) <==> Lit(c.vram, x, y) || Drawn(ops, font, Point(x, y))
  {
    hide Lit, Draw, Covers, Pen, LastInk, OnLine, Uncoloured, Drawn, LastPaper;
    if ops == [] {
      NoneDrawn(font, Point(x, y));
    } else {
      var front, op := ops[..|ops| - 1], ops[|ops| - 1];
      assert ops == front + [op];
      if x < 6 {
        UncolouredFront(front, op, font, y);
        NoPaper(front, font, y);
      }
      OpsPixel(c, front, font, x, y);
      StateDrawn(c, front, font);
      OpPixel(Direct(c, front, font), op, font, x, y);
      DrawnNext(front, op, font, Point(x, y));
    }
  }

  lemma NoneDrawn(font: Font, v: Point)
    ensures !Drawn([], font, v)
  {}

  lemma NoPaper(ops: seq<HiresOp>, font: Font, y: int)
    requires Uncoloured(ops, font, y)
    ensures LastPaper(ops) == None
  {}

  /** The picture of a page, pixel by pixel: past the six pixels under the first byte of a line, and
      those too where no colour comes on the line, a pixel is lit if and only if the background
      lights it or some operation does, with the pen at the last point named before it. */
  lemma PagePixel(p: Page, c: Canvas, font: Font, x: int, y: int)
    requires Validated(p) && forall i :: 0 <= i < |p.draw| ==> SmallRadius(p.draw[i])
    requires InBounds(x, y) && (x >= 6 || Uncoloured(p.draw, font, y))
    ensures Lit(FeedAll(Decoder(c, Idle), PageBytes(p)[2..], font).canvas.vram, x, y) <==>
            (|p.background| == SIZE && Lit(p.background, x, y)) || Drawn(p.draw, font, Point(x, y))
  {
    hide Lit, Drawn, Feed, FeedAll, PageBytes, Direct, Uncoloured;
    PageDrawn(p, c, font);
    OpsPixel(Backdrop(c, p), p.draw, font, x, y);
    BlankUnlit(x, y);
  }

  /** Where a paper has been painted, the first byte of every line is the one painted last. Otherwise,
      where a line is drawn on with an ink chosen, it is the ink of the last drawing. */
  lemma {:induction false} OpsColours(c: Canvas, ops: seq<HiresOp>, font: Font, y: int)
    requires Unmarked(c) && 0 <= y < HEIGHT
    ensures var b := Direct(c, ops, font).vram[y * 40];
            && (LastPaper(ops).Some? ==> b == LastPaper(ops).value)
            && (LastPaper(ops).None? ==> InkIs(b, ops, font, y))
  {
    hide Draw, Covers, Pen, LastInk, OnLine, LastPaper, InkIs;
    if ops == [] {
      NoneInked(c.vram[y * 40], font, y);
    } else {
      var front, op := ops[..|ops| - 1], ops[|ops| - 1];
      assert ops == front + [op];
      OpsColours(c, front, font, y);
      StateDrawn(c, front, font);
      OpFirstByte(Direct(c, front, font), op, font, y);
      PaperNext(front, op);
      if op.Paper? {
      } else if LastPaper(front).None? {
        if op.Ink? { InkOffLine(op, Pen(front), font, y); }
        InkNext(Direct(c, front, font).vram[y * 40], Direct(c, ops, font).vram[y * 40], front, op, font, y);
      }
    }
  }

  /** Operation i is the last one drawn on line y, and an ink had been chosen. */
  ghost predicate InkedLast(ops: seq<HiresOp>, font: Font, y: int, i: int) {
    && 0 <= i < |ops| && LastInk(ops[..i]).Some? && OnLine(ops[i], Pen(ops[..i]), font, y)
    && forall j :: i < j < |ops| ==> !OnLine(ops[j], Pen(ops[..j]), font, y)
  }

  ghost predicate InkIs(b: byte, ops: seq<HiresOp>, font: Font, y: int) {
    forall i | InkedLast(ops, font, y, i) :: b == LastInk(ops[..i]).value
  }

  lemma NoneInked(b: byte, font: Font, y: int)
    ensures InkIs(b, [], font, y) && LastPaper([]) == None
  {}

  lemma InkOffLine(op: HiresOp, pen: Point, font: Font, y: int)
    requires op.Ink?
    ensures !OnLine(op, pen, font, y)
  {}

  lemma InkNext(b: byte, b': byte, front: seq<HiresOp>, op: HiresOp, font: Font, y: int)
    requires InkIs(b, front, font, y)
    requires LastInk(front).Some? ==> b' == if OnLine(op, Pen(front), font, y) then LastInk(front).value else b
    ensures InkIs(b', front + [op], font, y)
  {
    hide OnLine, Pen, LastInk;
    var all := front + [op];
    assert all[..|front|] == front;
    forall i | InkedLast(all, font, y, i) ensures b' == LastInk(all[..i]).value {
      InkedNext(front, op, font, y, i);
      if i < |front| { InkStays(front, i); }
    }
  }

  lemma {:induction false} InkStays(ops: seq<HiresOp>, i: nat)
    requires i <= |ops| && LastInk(ops[..i]).Some?
    ensures LastInk(ops).Some?
  {
    if i == |ops| {
      assert ops[..i] == ops;
    } else {
      assert ops[..|ops| - 1][..i] == ops[..i];
      InkStays(ops[..|ops| - 1], i);
    }
  }

  lemma PaperNext(front: seq<HiresOp>, op: HiresOp)
    ensures LastPaper(front + [op]) == if op.Paper? then Some(0x10 + op.c % 8) else LastPaper(front)
  {
    assert (front + [op])[..|front|] == front;
  }

  lemma InkedNext(front: seq<HiresOp>, op: HiresOp, font: Font, y: int, i: int)
    requires InkedLast(front + [op], font, y, i)
    ensures (front + [op])[..i] == front[..i]
    ensures if i == |front| then LastInk(front).Some? && OnLine(op, Pen(front), font, y)
            else InkedLast(front, font, y, i) && !OnLine(op, Pen(front), font, y)
  {
    hide OnLine, Pen, LastInk;
    var all := front + [op];
    assert all[..|front|] == front && all[|front|] == op;
    if i < |front| {
      assert all[i] == front[i] && all[..i] == front[..i];
      forall j | i < j < |front| ensures !OnLine(front[j], Pen(front[..j]), font, y) {
        assert all[j] == front[j] && all[..j] == front[..j];
      }
    }
  }

  /** One operation and the first byte of a line, where a colour is in use. */
  lemma OpFirstByte(c: Canvas, op: HiresOp, font: Font, y: int)
    requires 0 <= y < HEIGHT
    ensures var b := Draw(c, op, font).vram[y * 40];
            && (op.Paper? ==> b == 0x10 + op.c % 8)
            && (op.Ink? ==> b == c.vram[y * 40])
            && (!Colours(op) && (c.colorMode || c.paperOn) ==>
                  b == if !c.paperOn && OnLine(op, Point(c.penX, c.penY), font, y) then c.ink % 8
                       else c.vram[y * 40])
  {
    hide SetPixels, Plots, OnLine, Touches;
    if !Colours(op) && (c.colorMode || c.paperOn) {
      var pen := Point(c.penX, c.penY);
      DrawPlots(c, op, font);
      hide Draw;
      FirstBytes(c, Plots(op, pen, font), y);
      TouchedLine(op, pen, font, y);
    }
  }

  /** The colours of a page, line by line. */
  lemma PageColours(p: Page, c: Canvas, font: Font, y: int)
    requires Validated(p) && forall i :: 0 <= i < |p.draw| ==> SmallRadius(p.draw[i])
    requires 0 <= y < HEIGHT
    ensures var b := FeedAll(Decoder(c, Idle), PageBytes(p)[2..], font).canvas.vram[y * 40];
            && (LastPaper(p.draw).Some? ==> b == LastPaper(p.draw).value)
            && (LastPaper(p.draw).None? ==> InkIs(b, p.draw, font, y))
  {
    hide Feed, FeedAll, PageBytes, Direct, InkIs, LastPaper;
    PageDrawn(p, c, font);
    OpsColours(Backdrop(c, p), p.draw, font, y);
  }

  // ---------------------------------------------------------------- the bits that hold no pixel

  lemma PixelMode(c: Canvas, p: Point, j: nat, k: nat)
    requires j < SIZE && 6 <= k && (j % 40 != 0 || (!c.colorMode && !c.paperOn))
    ensures Bit(SetPixel(c, p).vram[j], k) == Bit(c.vram[j], k)
    ensures SetPixel(c, p) == c.(vram := SetPixel(c, p).vram)
  {
    if InBounds(p.x, p.y) {
      var i := p.y * 40 + p.x / 6;
      BitWritten(c.vram[i], 5 - p.x % 6, true, k);
    }
    hide Bit;
  }

  lemma {:induction false} PixelsMode(c: Canvas, ps: seq<Point>, j: nat, k: nat)
    requires j < SIZE && 6 <= k && (j % 40 != 0 || (!c.colorMode && !c.paperOn))
    ensures Bit(SetPixels(c, ps).vram[j], k) == Bit(c.vram[j], k)
  {
    hide Bit, SetPixel;
    if ps != [] {
      PixelsMode(c, ps[..|ps| - 1], j, k);
      OnlyMemory(c, ps[..|ps| - 1]);
      PixelMode(SetPixels(c, ps[..|ps| - 1]), ps[|ps| - 1], j, k);
    }
  }

  lemma OpMode(c: Canvas, op: HiresOp, font: Font, j: nat, k: nat)
    requires j < SIZE && 6 <= k && (j % 40 != 0 || (!op.Paper? && !c.paperOn))
    requires j % 40 == 0 && c.colorMode ==> !OnLine(op, Point(c.penX, c.penY), font, j / 40)
    ensures Bit(Draw(c, op, font).vram[j], k) == Bit(c.vram[j], k)
  {
    hide Bit, SetPixels, Plots, OnLine, Touches;
    if !Colours(op) {
      var pen := Point(c.penX, c.penY);
      DrawPlots(c, op, font);
      hide Draw;
      if j % 40 == 0 && c.colorMode {
        FirstBytes(c, Plots(op, pen, font), j / 40);
        TouchedLine(op, pen, font, j / 40);
      } else {
        PixelsMode(c, Plots(op, pen, font), j, k);
      }
    }
  }

  lemma {:induction false} OpsMode(c: Canvas, ops: seq<HiresOp>, font: Font, j: nat, k: nat)
    requires Unmarked(c) && j < SIZE && 6 <= k && (j % 40 != 0 || Uncoloured(ops, font, j / 40))
    ensures Bit(Direct(c, ops, font).vram[j], k) == Bit(c.vram[j], k)
  {
    hide Bit, Draw, Pen, LastInk, OnLine, Uncoloured, LastPaper;
    if ops != [] {
      var front, op := ops[..|ops| - 1], ops[|ops| - 1];
      assert ops == front + [op];
      if j % 40 == 0 {
        UncolouredFront(front, op, font, j / 40);
        NoPaper(front, font, j / 40);
      }
      OpsMode(c, front, font, j, k);
      StateDrawn(c, front, font);
      OpMode(Direct(c, front, font), op, font, j, k);
    }
  }

  /** Bits 6 and 7 of a byte, which hold no pixel, are those of the background (or of a blank screen),
      but for the first byte of a line on which a colour comes. */
  lemma PageMode(p: Page, c: Canvas, font: Font, j: nat, k: nat)
    requires Validated(p) && forall i :: 0 <= i < |p.draw| ==> SmallRadius(p.draw[i])
    requires j < SIZE && 6 <= k && (j % 40 != 0 || Uncoloured(p.draw, font, j / 40))
    ensures Bit(FeedAll(Decoder(c, Idle), PageBytes(p)[2..], font).canvas.vram[j], k)
            == Bit(if |p.background| == SIZE then p.background[j] else 0x40, k)
  {
    hide Bit, Feed, FeedAll, PageBytes, Direct, Uncoloured;
    PageDrawn(p, c, font);
    OpsMode(Backdrop(c, p), p.draw, font, j, k);
  }
}
