/** The 8000-byte HIRES memory, 40 bytes a line and 6 pixels a byte, and what drawing does to its
    pixels (internal/oascii/hires_screen.go). */
module Vram {
  import opened Bytes
  import opened Lines

  const WIDTH := 240
  const HEIGHT := 200
  const SIZE := 8000
  const CLEAR: byte := 0x40

  function Blank(): (v: Vram) { Repeat(CLEAR, SIZE) }

  type Vram = v: seq<byte> | |v| == SIZE witness Repeat(CLEAR, SIZE)

  predicate InBounds(x: int, y: int) { 0 <= x < WIDTH && 0 <= y < HEIGHT }

  // ---------------------------------------------------------------- pixels

  predicate Lit(v: Vram, x: int, y: int)
    requires InBounds(x, y)
  {
    Bit(v[y * 40 + x / 6], 5 - x % 6)
  }

  /** `SetPixel` (on) and `ClearPixel` (off): out of bounds, nothing. */
  function Plot(v: Vram, p: Point, on: bool): Vram {
    if InBounds(p.x, p.y) then
      var i := p.y * 40 + p.x / 6;
      v[i := WriteBit(v[i], 5 - p.x % 6, on)]
    else v
  }

  lemma PlotPixel(v: Vram, p: Point, on: bool, x: int, y: int)
    requires InBounds(x, y)
    ensures Lit(Plot(v, p, on), x, y) <==> if p == Point(x, y) then on else Lit(v, x, y)
  {
    if InBounds(p.x, p.y) && p.y * 40 + p.x / 6 == y * 40 + x / 6 {
      BitWritten(v[y * 40 + x / 6], 5 - p.x % 6, on, 5 - x % 6);
    }
  }

  function PlotAll(v: Vram, ps: seq<Point>): Vram {
    if ps == [] then v else Plot(PlotAll(v, ps[..|ps| - 1]), ps[|ps| - 1], true)
  }

  /** Drawing lights the pixels it names that fall on the screen, and no other pixel changes. */
  lemma {:induction false} PlotAllPixel(v: Vram, ps: seq<Point>, x: int, y: int)
    requires InBounds(x, y)
    ensures Lit(PlotAll(v, ps), x, y) <==> Lit(v, x, y) || Point(x, y) in ps
  {
    if ps != [] {
      var front, last := ps[..|ps| - 1], ps[|ps| - 1];
      assert ps == front + [last];
      PlotAllPixel(v, front, x, y);
      PlotPixel(PlotAll(v, front), last, true, x, y);
    }
  }

  /** Drawing byte by byte: bits 6 and 7, which hold no pixel, never change. */
  lemma {:induction false} PlotAllKeepsMode(v: Vram, ps: seq<Point>, i: nat, k: nat)
    requires i < SIZE && 6 <= k
    ensures Bit(PlotAll(v, ps)[i], k) == Bit(v[i], k)
  {
    if ps != [] {
      var front, last := ps[..|ps| - 1], ps[|ps| - 1];
      PlotAllKeepsMode(v, front, i, k);
      if InBounds(last.x, last.y) {
        var w := PlotAll(v, front);
        BitWritten(w[last.y * 40 + last.x / 6], 5 - last.x % 6, true, k);
      }
    }
  }

  // ---------------------------------------------------------------- filled boxes

  /** The rows y..bottom of `FillBox`, each drawn as a line. */
  function FillRows(v: Vram, x0: int, x1: int, y: int, bottom: int): Vram
    decreases bottom - y + 1
  {
    if y > bottom then v else FillRows(PlotAll(v, Segment(Move, Point(x0, y), Point(x1, y))), x0, x1, y + 1, bottom)
  }

  function FillBox(v: Vram, x0: int, y0: int, x1: int, y1: int): Vram {
    FillRows(v, x0, x1, Lines.Min(y0, y1), Max(y0, y1))
  }

  /** A horizontal line is exactly the pixels between its ends, ends included. */
  lemma RowPixels(tie: Tie, x0: int, x1: int, y: int, p: Point)
    ensures p in Segment(tie, Point(x0, y), Point(x1, y)) <==> p.y == y && Lines.Min(x0, x1) <= p.x <= Max(x0, x1)
  {
    var s := Segment(tie, Point(x0, y), Point(x1, y));
    forall k | 0 <= k < |s| ensures s[k] == Point(Walk(x0, x1, k), y) {
      PixelAt(tie, Point(x0, y), Point(x1, y), k, 0);
    }
    if p.y == y && Lines.Min(x0, x1) <= p.x <= Max(x0, x1) {
      var k := Abs(p.x - x0);
      assert s[k] == p;
    }
  }

  /** FillBox lights exactly the rectangle between its two corners, clipped to the screen. */
  lemma FillBoxExact(v: Vram, x0: int, y0: int, x1: int, y1: int, x: int, y: int)
    requires InBounds(x, y)
    ensures Lit(FillBox(v, x0, y0, x1, y1), x, y) <==>
            Lit(v, x, y) || (Lines.Min(x0, x1) <= x <= Max(x0, x1) && Lines.Min(y0, y1) <= y <= Max(y0, y1))
  {
    FillRowsExact(v, x0, x1, Lines.Min(y0, y1), Max(y0, y1), x, y);
  }

  lemma {:induction false} FillRowsExact(v: Vram, x0: int, x1: int, top: int, bottom: int, x: int, y: int)
    requires InBounds(x, y)
    ensures Lit(FillRows(v, x0, x1, top, bottom), x, y) <==>
            Lit(v, x, y) || (Lines.Min(x0, x1) <= x <= Max(x0, x1) && top <= y <= bottom)
    decreases bottom - top + 1
  {
    hide Lit, PlotAll, Segment;
    if top <= bottom {
      var row := Segment(Move, Point(x0, top), Point(x1, top));
      PlotAllPixel(v, row, x, y);
      RowPixels(Move, x0, x1, top, Point(x, y));
      FillRowsExact(PlotAll(v, row), x0, x1, top + 1, bottom, x, y);
    }
  }
}
