/** What the client does with a HIRES command stream (pcterm/internal/hires/hires.go), as functions
    on values: the drawing operations on a canvas, and the byte-at-a-time decoder.
    The class `Raster` is the same thing with its fields updated in place. */
module HiresDecoder {
  import opened Options
  import opened Bytes
  import opened Lines
  import opened Circles
  import opened Vram
  import opened Rle

  /** A drawing operation, as a page declares it (internal/content/hires.go). */
  datatype HiresOp =
    | Ink(c: int)
    | Paper(c: int)
    | Curset(x: int, y: int)
    | Dot(x: int, y: int)
    | LineTo(x: int, y: int)
    | Box(x: int, y: int)
    | FilledBox(x: int, y: int)
    | CircleOf(r: int)
    | Char(x: int, y: int, ch: seq<byte>)

  datatype Canvas = Canvas(vram: Vram, penX: int, penY: int, ink: int, colorMode: bool, paper: byte, paperOn: bool)

  /** 96 glyphes of 8 rows, from code 0x20 on. */
  type Font = f: seq<byte> | |f| == 768 witness Repeat(0, 768)

  const BLANK: Canvas := Canvas(Blank(), 0, 0, 7, false, 0x10, false)

  // ---------------------------------------------------------------- drawing

  /** `setPixel`: in colour mode the first byte of a touched line holds the ink, and pixels that
      would fall in that byte are dropped; a painted paper keeps that byte too. */
  function SetPixel(c: Canvas, p: Point): Canvas {
    if !InBounds(p.x, p.y) then c
    else if c.paperOn then (if p.x < 6 then c else c.(vram := Plot(c.vram, p, true)))
    else if c.colorMode then
      var v: Vram := c.vram[p.y * 40 := c.ink % 8];
      if p.x < 6 then c.(vram := v) else c.(vram := Plot(v, p, true))
    else c.(vram := Plot(c.vram, p, true))
  }

  function SetPixels(c: Canvas, ps: seq<Point>): Canvas {
    if ps == [] then c else SetPixel(SetPixels(c, ps[..|ps| - 1]), ps[|ps| - 1])
  }

  /** The pixels xa..xb of row y, from the left. */
  function RowFrom(xa: int, xb: int, y: int): seq<Point>
    decreases xb - xa + 1
  {
    if xa > xb then [] else RowFrom(xa, xb - 1, y) + [Point(xb, y)]
  }

  /** The rectangle xa..xb by top..bottom, row by row. */
  function Rectangle(xa: int, xb: int, top: int, bottom: int): seq<Point>
    decreases bottom - top + 1
  {
    if top > bottom then [] else Rectangle(xa, xb, top, bottom - 1) + RowFrom(xa, xb, bottom)
  }

  /** A row is the pixels between its ends. */
  lemma {:induction false} RowIs(xa: int, xb: int, y: int, p: Point)
    ensures p in RowFrom(xa, xb, y) <==> p.y == y && xa <= p.x <= xb
    decreases xb - xa + 1
  {
    if xa <= xb { RowIs(xa, xb - 1, y, p); }
  }

  /** A rectangle is the pixels between its corners. */
  lemma {:induction false} RectangleIs(xa: int, xb: int, top: int, bottom: int, p: Point)
    ensures p in Rectangle(xa, xb, top, bottom) <==> xa <= p.x <= xb && top <= p.y <= bottom
    decreases bottom - top + 1
  {
    if top <= bottom {
      RectangleIs(xa, xb, top, bottom - 1, p);
      RowIs(xa, xb, bottom, p);
    }
  }

  /** Does one of the points fall on line y of the screen? */
  ghost predicate Touches(ps: seq<Point>, y: int) {
    exists i :: 0 <= i < |ps| && InBounds(ps[i].x, ps[i].y) && ps[i].y == y
  }

  /** The pixels a drawing changes: those it names that fall on the screen, but for the six under the
      first byte of a line when that byte holds a colour. */
  lemma {:induction false} PixelsLit(c: Canvas, ps: seq<Point>, x: int, y: int)
    requires InBounds(x, y) && (x >= 6 || (!c.colorMode && !c.paperOn))
    ensures Lit(SetPixels(c, ps).vram, x, y) <==> Lit(c.vram, x, y) || Point(x, y) in ps
    ensures SetPixels(c, ps) == c.(vram := SetPixels(c, ps).vram)
  {
    hide Lit, Plot;
    if ps != [] {
      var front, p := ps[..|ps| - 1], ps[|ps| - 1];
      PixelsLit(c, front, x, y);
      PixelLit(SetPixels(c, front), p, x, y);
      assert ps == front + [p];
    }
  }

  lemma PixelLit(c: Canvas, p: Point, x: int, y: int)
    requires InBounds(x, y) && (x >= 6 || (!c.colorMode && !c.paperOn))
    ensures Lit(SetPixel(c, p).vram, x, y) <==> Lit(c.vram, x, y) || p == Point(x, y)
    ensures SetPixel(c, p) == c.(vram := SetPixel(c, p).vram)
  {
    if InBounds(p.x, p.y) {
      PlotPixel(c.vram, p, true, x, y);
      if c.colorMode && !c.paperOn {
        var v: Vram := c.vram[p.y * 40 := c.ink % 8];
        FirstByteApart(c.vram, p.y, c.ink % 8, x, y);
        PlotPixel(v, p, true, x, y);
      }
    }
    hide Lit, Plot;
  }

  lemma FirstByteApart(v: Vram, line: int, b: byte, x: int, y: int)
    requires 0 <= line < 200 && InBounds(x, y) && x >= 6
    ensures Lit(v[line * 40 := b], x, y) <==> Lit(v, x, y)
  {
    assert line * 40 != y * 40 + x / 6;
  }

  /** The first byte of a line when colours are in use: a painted paper stays; otherwise a line that a
      drawing touches takes the ink, and no other line changes. */
  lemma {:induction false} FirstBytes(c: Canvas, ps: seq<Point>, y: int)
    requires 0 <= y < 200 && (c.colorMode || c.paperOn)
    ensures SetPixels(c, ps).vram[y * 40] == if !c.paperOn && Touches(ps, y) then c.ink % 8 else c.vram[y * 40]
    ensures SetPixels(c, ps) == c.(vram := SetPixels(c, ps).vram)
  {
    hide Plot, InBounds;
    if ps != [] {
      var front, p := ps[..|ps| - 1], ps[|ps| - 1];
      FirstBytes(c, front, y);
      FirstByte(SetPixels(c, front), p, y);
      TouchesNext(front, p, y);
      assert ps == front + [p];
    }
  }

  lemma TouchesNext(front: seq<Point>, p: Point, y: int)
    ensures Touches(front + [p], y) <==> Touches(front, y) || (InBounds(p.x, p.y) && p.y == y)
  {
    hide InBounds;
    var ps := front + [p];
    if Touches(front, y) {
      var i :| 0 <= i < |front| && InBounds(front[i].x, front[i].y) && front[i].y == y;
      assert ps[i] == front[i];
    }
    assert ps[|front|] == p;
  }

  lemma FirstByte(c: Canvas, p: Point, y: int)
    requires 0 <= y < 200 && (c.colorMode || c.paperOn)
    ensures SetPixel(c, p).vram[y * 40]
            == if !c.paperOn && InBounds(p.x, p.y) && p.y == y then c.ink % 8 else c.vram[y * 40]
    ensures SetPixel(c, p) == c.(vram := SetPixel(c, p).vram)
  {
    hide WriteBit;
  }

  /** The lit pixels of the first n columns of one glyph row. */
  function GlyphRow(bits: byte, x: int, y: int, n: nat): seq<Point>
    requires n <= 6
  {
    if n == 0 then []
    else GlyphRow(bits, x, y, n - 1) + (if Bit(bits, 6 - n) then [Point(x + n - 1, y)] else [])
  }

  /** The lit pixels of the first n rows of a glyph; codes below 0x20 have none. */
  function Glyph(font: Font, x: int, y: int, ch: byte, n: nat): seq<Point>
    requires n <= 8
  {
    if n == 0 || ch % 128 < 0x20 then []
    else Glyph(font, x, y, ch, n - 1) + GlyphRow(font[(ch % 128 - 0x20) * 8 + n - 1], x, y + n - 1, 6)
  }

  /** Paper colour b in the first byte of each line. */
  function PaintPaper(v: Vram, b: byte): Vram {
    seq(SIZE, i requires 0 <= i < SIZE => if i % 40 == 0 then b else v[i])
  }

  /** The outline from corner p to corner q, one side after the other. */
  function Outline(p: Point, q: Point): seq<Point> {
    Segment(Stay, p, Point(q.x, p.y)) + Segment(Stay, Point(q.x, p.y), q)
    + Segment(Stay, q, Point(p.x, q.y)) + Segment(Stay, Point(p.x, q.y), p)
  }

  function Initial(ch: seq<byte>): byte { if ch == [] then 0x20 else ch[0] }

  /** One drawing operation. */
  function Draw(c: Canvas, op: HiresOp, font: Font): Canvas {
    var pen := Point(c.penX, c.penY);
    match op
    case Ink(k) => c.(ink := k % 8, colorMode := true)
    case Paper(k) => c.(paper := 0x10 + k % 8, paperOn := true, vram := PaintPaper(c.vram, 0x10 + k % 8))
    case Curset(x, y) => c.(penX := x, penY := y)
    case Dot(x, y) => SetPixel(c.(penX := x, penY := y), Point(x, y))
    case LineTo(x, y) => SetPixels(c, Segment(Stay, pen, Point(x, y))).(penX := x, penY := y)
    case Box(x, y) => SetPixels(c, Outline(pen, Point(x, y))).(penX := x, penY := y)
    case FilledBox(x, y) =>
      SetPixels(c, Rectangle(Lines.Min(c.penX, x), Max(c.penX, x), Lines.Min(c.penY, y), Max(c.penY, y)))
        .(penX := x, penY := y)
    case CircleOf(r) => SetPixels(c, Circle(AtMost, pen, r))
    case Char(x, y, ch) => SetPixels(c, Glyph(font, x, y, Initial(ch), 8))
  }

  // ---------------------------------------------------------------- decoding

  datatype Blit =
    | Header(hdr: seq<byte>)
    | Body(dst: int, remain: nat, run: byte)

  datatype Mode =
    | Idle
    | Reading(op: byte, args: seq<byte>)
    | Blitting(blit: Blit)
    | Done

  datatype Decoder = Decoder(canvas: Canvas, mode: Mode)

  /** `argCount`: -1 for a blit, which carries its own length; unknown opcodes take nothing. */
  function ArgCount(op: byte): int {
    if op == HI_INK || op == HI_PAPER || op == HI_CIRCLE then 1
    else if op == HI_CURSET || op == HI_POINT || op == HI_LINE || op == HI_BOX || op == HI_FILLBOX then 2
    else if op == HI_CHAR then 3
    else if op == HI_BLIT then -1
    else 0
  }

  /** The operation an opcode and its arguments ask for, if they ask for a drawing. */
  function Meant(op: byte, args: seq<byte>): Option<HiresOp>
    requires ArgCount(op) <= |args|
  {
    if op == HI_INK then Some(Ink(args[0] % 8))
    else if op == HI_PAPER then Some(Paper(args[0] % 8))
    else if op == HI_CURSET then Some(Curset(args[0], args[1]))
    else if op == HI_POINT then Some(Dot(args[0], args[1]))
    else if op == HI_LINE then Some(LineTo(args[0], args[1]))
    else if op == HI_BOX then Some(Box(args[0], args[1]))
    else if op == HI_FILLBOX then Some(FilledBox(args[0], args[1]))
    else if op == HI_CIRCLE then Some(CircleOf(args[0]))
    else if op == HI_CHAR then Some(Char(args[0], args[1], [args[2]]))
    else None
  }

  /** `exec` */
  function Exec(c: Canvas, op: byte, args: seq<byte>, font: Font): Decoder
    requires ArgCount(op) <= |args|
  {
    if op == HI_END then Decoder(c, Done)
    else if op == HI_ON then Decoder(BLANK.(paper := c.paper), Idle)
    else match Meant(op, args)
      case Some(drawing) => Decoder(Draw(c, drawing, font), Idle)
      case None => Decoder(c, Idle)
  }

  /** Memory with `data` written from dst on; what falls outside is dropped. */
  function Paint(v: Vram, dst: int, data: seq<byte>): Vram {
    seq(SIZE, i requires 0 <= i < SIZE => if dst <= i < dst + |data| then data[i - dst] else v[i])
  }

  function Word(lo: byte, hi: byte): nat { lo + 256 * hi }

  /** `blitState.feed` */
  function FeedBlit(c: Canvas, blit: Blit, b: byte): Decoder {
    match blit
    case Header(hdr) =>
      var h := hdr + [b];
      if |h| != 4 then Decoder(c, Blitting(Header(h)))
      else if Word(h[2], h[3]) == 0 then Decoder(c, Idle)
      else Decoder(c, Blitting(Body(Word(h[0], h[1]), Word(h[2], h[3]), 0)))
    case Body(dst, remain, run) =>
      if run == 0 then Decoder(c, Blitting(Body(dst, remain, if b == 0 then 1 else b)))
      else
        var n := Bytes.Min(run, remain);
        var c' := c.(vram := Paint(c.vram, dst, Repeat(b, n)));
        if remain == n then Decoder(c', Idle) else Decoder(c', Blitting(Body(dst + n, remain - n, 0)))
  }

  /** `Feed` */
  function Feed(d: Decoder, b: byte, font: Font): Decoder {
    match d.mode
    case Done => d
    case Blitting(blit) => FeedBlit(d.canvas, blit, b)
    case Reading(op, args) =>
      if |args| + 1 >= ArgCount(op) then Exec(d.canvas, op, args + [b], font)
      else Decoder(d.canvas, Reading(op, args + [b]))
    case Idle =>
      if b == HI_BLIT then Decoder(d.canvas, Blitting(Header([])))
      else if ArgCount(b) == 0 then Exec(d.canvas, b, [], font)
      else Decoder(d.canvas, Reading(b, []))
  }

  function FeedAll(d: Decoder, s: seq<byte>, font: Font): Decoder
    decreases |s|
  {
    if s == [] then d else FeedAll(Feed(d, s[0], font), s[1..], font)
  }

  lemma {:induction false} FeedAppend(d: Decoder, s: seq<byte>, t: seq<byte>, font: Font)
    ensures FeedAll(d, s + t, font) == FeedAll(FeedAll(d, s, font), t, font)
    decreases |s|
  {
    hide Feed;
    if s == [] {
      assert s + t == t;
    } else {
      assert (s + t)[1..] == s[1..] + t;
      FeedAppend(Feed(d, s[0], font), s[1..], t, font);
    }
  }

  // ---------------------------------------------------------------- what the decoder took for what

  /** A command the decoder has read to its end; for a blit, to the end of its header. */
  datatype Command = Command(op: byte, args: seq<byte>)

  function Read(mode: Mode, b: byte): seq<Command> {
    match mode
    case Done => []
    case Idle => if b != HI_BLIT && ArgCount(b) == 0 then [Command(b, [])] else []
    case Reading(op, args) => if |args| + 1 >= ArgCount(op) then [Command(op, args + [b])] else []
    case Blitting(blit) => if blit.Header? && |blit.hdr| == 3 then [Command(HI_BLIT, blit.hdr + [b])] else []
  }

  /** Every command the decoder takes out of s. */
  function Commands(d: Decoder, s: seq<byte>, font: Font): seq<Command>
    decreases |s|
  {
    if s == [] then [] else Read(d.mode, s[0]) + Commands(Feed(d, s[0], font), s[1..], font)
  }

  lemma {:induction false} CommandsAppend(d: Decoder, s: seq<byte>, t: seq<byte>, font: Font)
    ensures Commands(d, s + t, font) == Commands(d, s, font) + Commands(FeedAll(d, s, font), t, font)
    decreases |s|
  {
    hide Feed, Read;
    if s == [] {
      assert s + t == t;
    } else {
      assert (s + t)[1..] == s[1..] + t;
      CommandsAppend(Feed(d, s[0], font), s[1..], t, font);
    }
  }

  /** s, fed from idle, leaves the decoder idle with canvas c', having taken out the commands cs. */
  ghost predicate Decodes(c: Canvas, s: seq<byte>, font: Font, cs: seq<Command>, c': Canvas) {
    FeedAll(Decoder(c, Idle), s, font) == Decoder(c', Idle) && Commands(Decoder(c, Idle), s, font) == cs
  }

  lemma DecodesBoth(c: Canvas, s: seq<byte>, t: seq<byte>, font: Font, cs: seq<Command>, ds: seq<Command>, c': Canvas,
      c'': Canvas)
    requires Decodes(c, s, font, cs, c') && Decodes(c', t, font, ds, c'')
    ensures Decodes(c, s + t, font, cs + ds, c'')
  {
    FeedAppend(Decoder(c, Idle), s, t, font);
    CommandsAppend(Decoder(c, Idle), s, t, font);
  }

  lemma DecodesNothing(c: Canvas, font: Font)
    ensures Decodes(c, [], font, [], c)
  {}

  // ---------------------------------------------------------------- blits

  lemma PaintTwice(v: Vram, dst: int, a: seq<byte>, b: seq<byte>)
    ensures Paint(Paint(v, dst, a), dst + |a|, b) == Paint(v, dst, a + b)
  {}

  lemma FeedTwo(d: Decoder, a: byte, b: byte, rest: seq<byte>, font: Font)
    ensures FeedAll(d, [a, b] + rest, font) == FeedAll(Feed(Feed(d, a, font), b, font), rest, font)
    ensures Commands(d, [a, b] + rest, font) ==
            Read(d.mode, a) + Read(Feed(d, a, font).mode, b) + Commands(Feed(Feed(d, a, font), b, font), rest, font)
  {
    hide Feed, Read;
    var s := [a, b] + rest;
    assert s[1..] == [b] + rest && s[1..][1..] == rest;
  }

  /** The pairs of the run-length code write the data, and no byte of them is taken for a command. */
  lemma {:induction false} BodyFeeds(c: Canvas, dst: int, data: seq<byte>, font: Font)
    requires data != []
    ensures var d := Decoder(c, Blitting(Body(dst, |data|, 0)));
            && FeedAll(d, Encoded(data), font) == Decoder(c.(vram := Paint(c.vram, dst, data)), Idle)
            && Commands(d, Encoded(data), font) == []
    decreases |data|
  {
    hide Feed, Read, Run;
    var n, v := Run(data), data[0];
    var rest := data[n..];
    RunEqual(data);
    var d := Decoder(c, Blitting(Body(dst, |data|, 0)));
    var c' := c.(vram := Paint(c.vram, dst, Repeat(v, n)));
    FeedTwo(d, n, v, Encoded(rest), font);
    PairFeeds(c, dst, |data|, n, v, font);
    PaintTwice(c.vram, dst, Repeat(v, n), rest);
    if rest != [] { BodyFeeds(c', dst + n, rest, font); }
  }

  lemma PairFeeds(c: Canvas, dst: int, remain: nat, n: byte, v: byte, font: Font)
    requires 1 <= n <= remain
    ensures var d := Decoder(c, Blitting(Body(dst, remain, 0))); var c' := c.(vram := Paint(c.vram, dst, Repeat(v, n)));
            && Feed(Feed(d, n, font), v, font) ==
               (if remain == n then Decoder(c', Idle) else Decoder(c', Blitting(Body(dst + n, remain - n, 0))))
            && Read(d.mode, n) == Read(Feed(d, n, font).mode, v) == []
  {}

  /** What pairs stand for to the decoder: a count of 0 stands for one byte. */
  function Stretched(pairs: seq<byte>): seq<byte>
    decreases |pairs|
  {
    if |pairs| < 2 then []
    else Repeat(pairs[1], if pairs[0] == 0 then 1 else pairs[0]) + Stretched(pairs[2..])
  }

  /** Whatever the pairs, the decoder writes what they stand for, as far as the length announced goes,
      and is idle at the end of the pair that reaches it. */
  lemma {:induction false} PairsFeed(c: Canvas, dst: int, remain: nat, pairs: seq<byte>, font: Font)
    requires |pairs| >= 2 && |pairs| % 2 == 0 && |Stretched(pairs[..|pairs| - 2])| < remain
    ensures var data := Stretched(pairs);
            FeedAll(Decoder(c, Blitting(Body(dst, remain, 0))), pairs, font) ==
            if |data| < remain then
              Decoder(c.(vram := Paint(c.vram, dst, data)), Blitting(Body(dst + |data|, remain - |data|, 0)))
            else Decoder(c.(vram := Paint(c.vram, dst, data[..remain])), Idle)
    decreases |pairs|
  {
    hide Feed, Paint, Repeat;
    var n: byte := if pairs[0] == 0 then 1 else pairs[0];
    var rest := pairs[2..];
    FeedTwo(Decoder(c, Blitting(Body(dst, remain, 0))), pairs[0], pairs[1], rest, font);
    assert pairs == [pairs[0], pairs[1]] + rest;
    PairFed(c, dst, remain, pairs[0], pairs[1], font);
    if rest == [] {
      OnePair(pairs, remain);
    } else {
      var c' := c.(vram := Paint(c.vram, dst, Repeat(pairs[1], n)));
      FrontPairs(pairs);
      PairsFeed(c', dst + n, remain - n, rest, font);
      PaintOn(c.vram, dst, Repeat(pairs[1], n), Stretched(rest), remain);
    }
  }

  lemma OnePair(pairs: seq<byte>, remain: nat)
    requires |pairs| == 2
    ensures var n := if pairs[0] == 0 then 1 else pairs[0];
            && Stretched(pairs) == Repeat(pairs[1], n)
            && (n >= remain ==> Stretched(pairs)[..remain] == Repeat(pairs[1], remain))
  {
    assert Stretched(pairs[2..]) == [];
  }

  lemma FrontPairs(pairs: seq<byte>)
    requires |pairs| >= 4
    ensures var n := if pairs[0] == 0 then 1 else pairs[0];
            && Stretched(pairs) == Repeat(pairs[1], n) + Stretched(pairs[2..])
            && |Stretched(pairs[..|pairs| - 2])| == n + |Stretched(pairs[2..][..|pairs[2..]| - 2])|
  {
    assert pairs[..|pairs| - 2][2..] == pairs[2..][..|pairs[2..]| - 2];
  }

  lemma PaintOn(v: Vram, dst: int, a: seq<byte>, b: seq<byte>, remain: nat)
    requires |a| < remain
    ensures Paint(Paint(v, dst, a), dst + |a|, b) == Paint(v, dst, a + b)
    ensures |a + b| >= remain ==>
              Paint(Paint(v, dst, a), dst + |a|, b[..remain - |a|]) == Paint(v, dst, (a + b)[..remain])
  {
    hide Paint;
    PaintTwice(v, dst, a, b);
    if |a + b| >= remain {
      PaintTwice(v, dst, a, b[..remain - |a|]);
      assert (a + b)[..remain] == a + b[..remain - |a|];
    }
  }

  lemma PairFed(c: Canvas, dst: int, remain: nat, n: byte, v: byte, font: Font)
    requires 0 < remain
    ensures var m := if n == 0 then 1 else n; var d := Decoder(c, Blitting(Body(dst, remain, 0)));
            Feed(Feed(d, n, font), v, font) ==
            if m < remain then
              Decoder(c.(vram := Paint(c.vram, dst, Repeat(v, m))), Blitting(Body(dst + m, remain - m, 0)))
            else Decoder(c.(vram := Paint(c.vram, dst, Repeat(v, remain))), Idle)
  {
    hide Paint;
  }

  /** A byte that is no opcode does nothing. */
  lemma UnknownIgnored(c: Canvas, b: byte, font: Font)
    requires !(b <= 0x03 || 0x10 <= b <= 0x16 || b == 0x20)
    ensures Feed(Decoder(c, Idle), b, font) == Decoder(c, Idle)
  {
    hide Draw;
  }

  function Low(n: int): byte { n % 256 }
  function High(n: int): byte { n / 256 % 256 }

  /** A blit of `data` to `off`, as both encoders write it. */
  function BlitBytes(off: nat, data: seq<byte>): seq<byte> {
    [HI_BLIT] + BlitHeader(off, |data|) + Encoded(data)
  }

  function BlitHeader(off: nat, len: nat): seq<byte> {
    [Low(off), High(off), Low(len), High(len)]
  }

  lemma BlitDecodes(c: Canvas, off: nat, data: seq<byte>, font: Font)
    requires off < 0x1_0000 && 0 < |data| < 0x1_0000
    ensures Decodes(c, BlitBytes(off, data), font, [Command(HI_BLIT, BlitHeader(off, |data|))],
            c.(vram := Paint(c.vram, off, data)))
  {
    hide Feed, FeedAll, Commands, Read, Paint, Encoded;
    var d, h := Decoder(c, Idle), BlitHeader(off, |data|);
    var opening := [HI_BLIT] + h;
    assert Word(h[0], h[1]) == off && Word(h[2], h[3]) == |data|;
    BlitHeaderFeeds(c, h, font);
    BodyFeeds(c, off, data, font);
    FeedAppend(d, opening, Encoded(data), font);
    CommandsAppend(d, opening, Encoded(data), font);
  }

  lemma BlitHeaderFeeds(c: Canvas, h: seq<byte>, font: Font)
    requires |h| == 4 && Word(h[2], h[3]) != 0
    ensures var d := Decoder(c, Idle);
            && FeedAll(d, [HI_BLIT] + h, font) == Decoder(c, Blitting(Body(Word(h[0], h[1]), Word(h[2], h[3]), 0)))
            && Commands(d, [HI_BLIT] + h, font) == [Command(HI_BLIT, h)]
  {
    var d := Decoder(c, Idle);
    var d1 := Feed(d, HI_BLIT, font);
    var d2 := Feed(d1, h[0], font);
    var d3 := Feed(d2, h[1], font);
    var d4 := Feed(d3, h[2], font);
    assert h[..3] == [h[0]] + [h[1]] + [h[2]];
    assert d2 == Decoder(c, Blitting(Header([h[0]])));
    assert d4 == Decoder(c, Blitting(Header(h[..3])));
    assert h == h[..3] + [h[3]];
    assert [HI_BLIT] + h == [HI_BLIT, h[0]] + [h[1], h[2]] + [h[3]];
    FeedTwo(d, HI_BLIT, h[0], [h[1], h[2]] + [h[3]], font);
    FeedTwo(d2, h[1], h[2], [h[3]], font);
    LastFeeds(d4, h[3], font);
    assert [HI_BLIT] + h == [HI_BLIT, h[0]] + ([h[1], h[2]] + [h[3]]);
  }

  lemma LastFeeds(d: Decoder, b: byte, font: Font)
    ensures FeedAll(d, [b], font) == Feed(d, b, font) && Commands(d, [b], font) == Read(d.mode, b)
  {
    hide Feed, Read;
    assert [b][1..] == [];
  }
}
