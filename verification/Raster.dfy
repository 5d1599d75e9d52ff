/** `Raster` and `blitState` themselves (pcterm/internal/hires/hires.go): the memory is an array and
    the decoding state a set of fields, updated byte by byte.  Each method is proved to take the
    value of the object where HiresDecoder says. */
module Raster {
  import opened Bytes
  import opened Lines
  import opened Circles
  import opened Vram
  import opened HiresDecoder

  class BlitState {
    var hdr: seq<byte>
    var dst: int
    var remain: nat
    var run: byte

    ghost predicate Valid()
      reads this
    {
      |hdr| <= 4
    }

    ghost function Value(): Blit
      reads this
    {
      if |hdr| < 4 then Header(hdr) else Body(dst, remain, run)
    }

    constructor ()
      ensures Valid() && Value() == Header([])
    {
      hdr, dst, remain, run := [], 0, 0, 0;
    }

    /** Takes one byte; says whether the blit is over, and otherwise has become the next blit. */
    method Feed(vram: array<byte>, b: byte, ghost c: Canvas) returns (over: bool)
      requires Valid() && vram.Length == SIZE && vram[..] == c.vram
      modifies this, vram
      ensures Valid() && vram.Length == SIZE
      ensures var d := FeedBlit(c, old(Value()), b);
              && d.canvas == c.(vram := vram[..])
              && d.mode == if over then Idle else Blitting(Value())
    {
      if |hdr| < 4 {
        hdr := hdr + [b];
        if |hdr| == 4 {
          dst := Word(hdr[0], hdr[1]);
          remain := Word(hdr[2], hdr[3]);
          run := 0;
          if remain == 0 { return true; }
        }
        return false;
      }
      if run == 0 {
        run := b;
        if run == 0 { run := 1; }
        return false;
      }
      ghost var n := Bytes.Min(run, remain);
      ghost var total := remain;
      ghost var start := dst;
      var i := 0;
      while i < run && remain > 0
        invariant 0 <= i <= n && remain == total - i && dst == start + i && run == old(run) && hdr == old(hdr)
        invariant vram[..] == Paint(c.vram, start, Repeat(b, i))
      {
        if 0 <= dst < vram.Length {
          vram[dst] := b;
        }
        dst := dst + 1;
        remain := remain - 1;
        i := i + 1;
      }
      run := 0;
      return remain == 0;
    }
  }

  class Raster {
    const font: Font
    const vram: array<byte>
    var penX: int
    var penY: int
    var ink: int
    var colorMode: bool
    var paper: byte
    var paperOn: bool

    var op: byte
    var args: seq<byte>
    var need: int
    var inCmd: bool
    var blit: BlitState?
    var done: bool

    ghost predicate Valid()
      reads this, blit
    {
      && vram.Length == SIZE
      && (blit != null ==> inCmd && !done && blit.Valid())
      && (done ==> !inCmd)
      && (inCmd && blit == null ==> need == ArgCount(op) && |args| < need)
    }

    ghost function Picture(): Canvas
      reads this, vram
      requires vram.Length == SIZE
    {
      Canvas(vram[..], penX, penY, ink, colorMode, paper, paperOn)
    }

    ghost function Value(): Decoder
      reads this, vram, blit
      requires Valid()
    {
      Decoder(Picture(),
              if done then Done
              else if blit != null then Blitting(blit.Value())
              else if inCmd then Reading(op, args)
              else Idle)
    }

    /** `New` */
    constructor (font: Font)
      ensures Valid() && fresh(vram) && this.font == font
      ensures Value() == Decoder(BLANK, Idle)
    {
      this.font := font;
      vram := new byte[SIZE](_ => CLEAR);
      penX, penY, ink, colorMode, paper, paperOn := 0, 0, 7, false, 0x10, false;
      op, args, need, inCmd, blit, done := 0, [], 0, false, null, false;
      new;
      assert vram[..] == Blank();
    }

    method SetPixel(x: int, y: int)
      requires vram.Length == SIZE
      modifies vram
      ensures Picture() == HiresDecoder.SetPixel(old(Picture()), Point(x, y))
    {
      if x < 0 || x >= WIDTH || y < 0 || y >= HEIGHT { return; }
      if paperOn {
        if x < 6 { return; }
      } else if colorMode {
        vram[y * 40] := ink % 8;
        if x < 6 { return; }
      }
      vram[y * 40 + x / 6] := WriteBit(vram[y * 40 + x / 6], 5 - x % 6, true);
    }

    /** Plots what a line or circle loop asks for, in its order. */
    method SetPixels(plots: seq<Point>)
      requires vram.Length == SIZE
      modifies vram
      ensures Picture() == HiresDecoder.SetPixels(old(Picture()), plots)
    {
      hide HiresDecoder.SetPixel;
      for i := 0 to |plots|
        invariant Picture() == HiresDecoder.SetPixels(old(Picture()), plots[..i])
      {
        assert plots[..i + 1][..i] == plots[..i];
        SetPixel(plots[i].x, plots[i].y);
      }
      assert plots[..|plots|] == plots;
    }

    method Line(x0: int, y0: int, x1: int, y1: int)
      requires vram.Length == SIZE
      modifies vram
      ensures Picture() == HiresDecoder.SetPixels(old(Picture()), Segment(Stay, Point(x0, y0), Point(x1, y1)))
    {
      var plots := ClientLine(x0, y0, x1, y1);
      SetPixels(plots);
    }

    method FillBox(x0: int, y0: int, x1: int, y1: int)
      requires vram.Length == SIZE
      modifies vram
      ensures Picture() == HiresDecoder.SetPixels(old(Picture()),
                             Rectangle(Lines.Min(x0, x1), Max(x0, x1), Lines.Min(y0, y1), Max(y0, y1)))
    {
      var top, bottom := y0, y1;
      if top > bottom { top, bottom := bottom, top; }
      var xa, xb := x0, x1;
      if xa > xb { xa, xb := xb, xa; }
      FillRows(xa, xb, top, bottom);
    }

    /** The loops of `fillBox`, once the corners are in order. */
    method FillRows(xa: int, xb: int, top: int, bottom: int)
      requires vram.Length == SIZE && xa <= xb && top <= bottom
      modifies vram
      ensures Picture() == HiresDecoder.SetPixels(old(Picture()), Rectangle(xa, xb, top, bottom))
    {
      ghost var c := Picture();
      NoPixels(c);
      hide *;
      NoRow(xa, xb, top);
      var y := top;
      while y <= bottom
        invariant top <= y <= bottom + 1
        invariant Picture() == HiresDecoder.SetPixels(c, Rectangle(xa, xb, top, y - 1))
      {
        FillRow(c, Rectangle(xa, xb, top, y - 1), xa, xb, y);
        OneRow(xa, xb, top, y);
        y := y + 1;
      }
    }

    /** The inner loop of `fillBox`. */
    method FillRow(ghost c: Canvas, ghost above: seq<Point>, xa: int, xb: int, y: int)
      requires vram.Length == SIZE && xa <= xb
      requires Picture() == HiresDecoder.SetPixels(c, above)
      modifies vram
      ensures Picture() == HiresDecoder.SetPixels(c, above + RowFrom(xa, xb, y))
    {
      hide HiresDecoder.SetPixel, HiresDecoder.SetPixels;
      var x := xa;
      assert above + [] == above;
      while x <= xb
        invariant xa <= x <= xb + 1
        invariant Picture() == HiresDecoder.SetPixels(c, above + RowFrom(xa, x - 1, y))
      {
        PixelAfter(c, above, RowFrom(xa, x - 1, y), Point(x, y));
        SetPixel(x, y);
        x := x + 1;
      }
    }

    method Circle(cx: int, cy: int, r0: int)
      requires vram.Length == SIZE
      modifies vram
      ensures Picture() == HiresDecoder.SetPixels(old(Picture()), Circles.Circle(AtMost, Point(cx, cy), r0))
    {
      var plots := ClientCircle(cx, cy, r0);
      SetPixels(plots);
    }

    method Char(x: int, y: int, ch: byte)
      requires vram.Length == SIZE
      modifies vram
      ensures Picture() == HiresDecoder.SetPixels(old(Picture()), Glyph(font, x, y, ch, 8))
    {
      ghost var c := Picture();
      NoPixels(c);
      var idx := ch % 128;
      if idx < 0x20 { return; }
      hide HiresDecoder.SetPixel, HiresDecoder.SetPixels, GlyphRow;
      var base := (idx - 0x20) * 8;
      for row := 0 to 8
        invariant Picture() == HiresDecoder.SetPixels(c, Glyph(font, x, y, ch, row))
      {
        CharRow(c, Glyph(font, x, y, ch, row), font[base + row], x, y + row);
      }
    }

    /** The inner loop of `char`. */
    method CharRow(ghost c: Canvas, ghost above: seq<Point>, bits: byte, x: int, y: int)
      requires vram.Length == SIZE && Picture() == HiresDecoder.SetPixels(c, above)
      modifies vram
      ensures Picture() == HiresDecoder.SetPixels(c, above + GlyphRow(bits, x, y, 6))
    {
      hide HiresDecoder.SetPixel, HiresDecoder.SetPixels, Bit;
      assert above + [] == above;
      for col := 0 to 6
        invariant Picture() == HiresDecoder.SetPixels(c, above + GlyphRow(bits, x, y, col))
      {
        ghost var left := GlyphRow(bits, x, y, col);
        PixelAfter(c, above, left, Point(x + col, y));
        assert left + [] == left;
        if Bit(bits, 5 - col) {
          SetPixel(x + col, y);
        }
      }
    }

    method Wipe()
      requires vram.Length == SIZE
      modifies vram
      ensures vram[..] == Blank()
    {
      for i := 0 to vram.Length
        invariant forall k :: 0 <= k < i ==> vram[k] == CLEAR
      {
        vram[i] := CLEAR;
      }
    }

    method PaintPaperColumn()
      requires vram.Length == SIZE
      modifies vram
      ensures vram[..] == PaintPaper(old(vram[..]), paper)
    {
      for y := 0 to HEIGHT
        invariant forall i :: 0 <= i < SIZE ==> vram[i] == if i < y * 40 && i % 40 == 0 then paper else old(vram[i])
      {
        vram[y * 40] := paper;
      }
    }

    /** The drawing opcodes of `exec`. */
    method ExecDrawing()
      requires vram.Length == SIZE && ArgCount(op) == |args| > 0
      modifies this`penX, this`penY, this`ink, this`colorMode, this`paper, this`paperOn, vram
      ensures Picture() == Draw(old(Picture()), Meant(op, args).value, font)
    {
      hide HiresDecoder.SetPixels, Segment, Circles.Circle, Glyph, Rectangle, PaintPaper;
      if op == HI_INK {
        ink := args[0] % 8;
        colorMode := true;
      } else if op == HI_PAPER {
        paper := 0x10 + args[0] % 8;
        paperOn := true;
        PaintPaperColumn();
      } else if op == HI_CURSET {
        penX, penY := args[0], args[1];
      } else if op == HI_POINT {
        penX, penY := args[0], args[1];
        SetPixel(penX, penY);
      } else if op == HI_CIRCLE {
        Circle(penX, penY, args[0]);
      } else if op == HI_CHAR {
        Char(args[0], args[1], args[2]);
      } else {
        ExecStroke();
      }
    }

    /** Those that move the pen along. */
    method ExecStroke()
      requires vram.Length == SIZE && op in {HI_LINE, HI_BOX, HI_FILLBOX} && |args| == 2
      modifies this`penX, this`penY, vram
      ensures Picture() == Draw(old(Picture()), Meant(op, args).value, font)
    {
      hide HiresDecoder.SetPixels, Segment, Rectangle;
      var x, y := args[0], args[1];
      if op == HI_LINE {
        Line(penX, penY, x, y);
      } else if op == HI_BOX {
        ghost var c, p, q := Picture(), Point(penX, penY), Point(x, y);
        OutlineInTurn(c, p, q);
        Line(penX, penY, x, penY);
        Line(x, penY, x, y);
        Line(x, y, penX, y);
        Line(penX, y, penX, penY);
      } else {
        FillBox(penX, penY, x, y);
      }
      penX, penY := x, y;
    }

    /** `exec` */
    method Exec()
      requires vram.Length == SIZE && !done && ArgCount(op) == |args|
      modifies this`penX, this`penY, this`ink, this`colorMode, this`paper, this`paperOn, this`done, vram
      ensures vram.Length == SIZE
      ensures Picture() == HiresDecoder.Exec(old(Picture()), op, args, font).canvas
      ensures done <==> HiresDecoder.Exec(old(Picture()), op, args, font).mode == Done
      ensures !done <==> HiresDecoder.Exec(old(Picture()), op, args, font).mode == Idle
    {
      hide Draw;
      if op == HI_END {
        done := true;
      } else if op == HI_ON {
        Wipe();
        penX, penY, ink, colorMode, paperOn := 0, 0, 7, false, false;
      } else if |args| > 0 {
        ExecDrawing();
      }
    }

    /** `Feed`: says whether the stream is over. */
    method Feed(b: byte) returns (over: bool)
      requires Valid()
      modifies this, vram, blit
      ensures Valid() && (blit == null || blit == old(blit) || fresh(blit))
      ensures Value() == HiresDecoder.Feed(old(Value()), b, font)
      ensures over <==> Value().mode == Done
    {
      hide HiresDecoder.Exec, FeedBlit;
      if done { return true; }
      if blit != null {
        var finished := blit.Feed(vram, b, Picture());
        if finished {
          blit := null;
          inCmd := false;
        }
        return false;
      }
      if !inCmd {
        op := b;
        need := ArgCount(b);
        args := [];
        if op == HI_BLIT {
          blit := new BlitState();
          inCmd := true;
          return false;
        }
        if need == 0 {
          Exec();
          return done;
        }
        inCmd := true;
        return false;
      }
      args := args + [b];
      if |args| >= need {
        Exec();
        inCmd := false;
      }
      return done;
    }
  }

  lemma NoRow(xa: int, xb: int, top: int)
    ensures Rectangle(xa, xb, top, top - 1) == []
  {}

  lemma OneRow(xa: int, xb: int, top: int, y: int)
    requires top <= y
    ensures Rectangle(xa, xb, top, y) == Rectangle(xa, xb, top, y - 1) + RowFrom(xa, xb, y)
  {}

  lemma NoPixels(c: Canvas)
    ensures HiresDecoder.SetPixels(c, []) == c
  {}

  lemma PixelAfter(c: Canvas, above: seq<Point>, row: seq<Point>, p: Point)
    ensures HiresDecoder.SetPixels(c, above + (row + [p]))
            == HiresDecoder.SetPixel(HiresDecoder.SetPixels(c, above + row), p)
  {
    hide HiresDecoder.SetPixel;
    var all := above + (row + [p]);
    assert all[..|all| - 1] == above + row;
  }

  lemma {:induction false} SetPixelsAppend(c: Canvas, s: seq<Point>, t: seq<Point>)
    ensures HiresDecoder.SetPixels(c, s + t) == HiresDecoder.SetPixels(HiresDecoder.SetPixels(c, s), t)
  {
    hide HiresDecoder.SetPixel;
    if t == [] {
      assert s + t == s;
    } else {
      var front, last := t[..|t| - 1], t[|t| - 1];
      assert t == front + [last];
      SetPixelsAppend(c, s, front);
      PixelAfter(c, s, front, last);
    }
  }

  /** The outline is its four sides in turn; drawing moves nothing but pixels. */
  lemma OutlineInTurn(c: Canvas, p: Point, q: Point)
    ensures var c1 := HiresDecoder.SetPixels(c, Segment(Stay, p, Point(q.x, p.y)));
            var c2 := HiresDecoder.SetPixels(c1, Segment(Stay, Point(q.x, p.y), q));
            var c3 := HiresDecoder.SetPixels(c2, Segment(Stay, q, Point(p.x, q.y)));
            HiresDecoder.SetPixels(c, Outline(p, q)) == HiresDecoder.SetPixels(c3, Segment(Stay, Point(p.x, q.y), p))
  {
    hide HiresDecoder.SetPixels, Segment;
    var s1, s2 := Segment(Stay, p, Point(q.x, p.y)), Segment(Stay, Point(q.x, p.y), q);
    var s3, s4 := Segment(Stay, q, Point(p.x, q.y)), Segment(Stay, Point(p.x, q.y), p);
    SetPixelsAppend(c, s1, s2);
    SetPixelsAppend(c, s1 + s2, s3);
    SetPixelsAppend(c, s1 + s2 + s3, s4);
  }
}
