/** The compiler of graphic pages (internal/render/hires.go), their validation
    (internal/content/hires.go), and what the decoder makes of a compiled page. */
module HiresPage {
  import opened Options
  import opened Bytes
  import opened Vram
  import opened Rle
  import opened HiresDecoder
  import opened HiresDiff

  datatype Page = Page(background: seq<byte>, draw: seq<HiresOp>)

  // ---------------------------------------------------------------- validation

  predicate Coords(x: int, y: int) { 0 <= x < WIDTH && 0 <= y < HEIGHT }

  predicate ValidOp(op: HiresOp) {
    match op
    case Ink(c) => 0 <= c <= 7
    case Paper(c) => 0 <= c <= 7
    case CircleOf(r) => r >= 0
    case Char(x, y, ch) => Coords(x, y) && ch != []
    case Curset(x, y) => Coords(x, y)
    case Dot(x, y) => Coords(x, y)
    case LineTo(x, y) => Coords(x, y)
    case Box(x, y) => Coords(x, y)
    case FilledBox(x, y) => Coords(x, y)
  }

  predicate Validated(p: Page) {
    && (p.background == [] || |p.background| == SIZE)
    && !(p.background == [] && p.draw == [])
    && forall i :: 0 <= i < |p.draw| ==> ValidOp(p.draw[i])
  }

  // ---------------------------------------------------------------- compilation

  function Truncated(n: int): byte { n % 256 }

  function OpCommand(op: HiresOp): Command {
    match op
    case Ink(c) => Command(HI_INK, [c % 8])
    case Paper(c) => Command(HI_PAPER, [c % 8])
    case Curset(x, y) => Command(HI_CURSET, [Truncated(x), Truncated(y)])
    case Dot(x, y) => Command(HI_POINT, [Truncated(x), Truncated(y)])
    case LineTo(x, y) => Command(HI_LINE, [Truncated(x), Truncated(y)])
    case Box(x, y) => Command(HI_BOX, [Truncated(x), Truncated(y)])
    case FilledBox(x, y) => Command(HI_FILLBOX, [Truncated(x), Truncated(y)])
    case CircleOf(r) => Command(HI_CIRCLE, [Truncated(r)])
    case Char(x, y, ch) => Command(HI_CHAR, [Truncated(x), Truncated(y), Initial(ch)])
  }

  function OpBytes(op: HiresOp): seq<byte> { [OpCommand(op).op] + OpCommand(op).args }

  function OpsBytes(ops: seq<HiresOp>): seq<byte> {
    if ops == [] then [] else OpsBytes(ops[..|ops| - 1]) + OpBytes(ops[|ops| - 1])
  }

  function BackgroundBytes(p: Page): seq<byte> {
    if |p.background| == SIZE then BlitBytes(0, p.background) else []
  }

  function PageBytes(p: Page): seq<byte> {
    [PLOT, HIRES, HI_ON] + BackgroundBytes(p) + OpsBytes(p.draw) + [HI_END]
  }

  /** `render.Hires`; a page without a graphic part yields nothing. */
  method Hires(h: Option<Page>) returns (stream: Option<seq<byte>>)
    ensures h.None? ==> stream == None
    ensures h.Some? ==> stream == Some(PageBytes(h.value))
  {
    if h.None? { return None; }
    var p := h.value;
    hide *;
    BackgroundBytesAre(p);
    OpsBytesNone();
    PageBytesAre(p);
    var out := [PLOT, HIRES, HI_ON];
    if |p.background| == SIZE {
      var rle := RLEEncode(p.background);
      out := out + ([HI_BLIT] + [0, 0, Low(SIZE), High(SIZE)] + rle);
    }
    ghost var opening := [PLOT, HIRES, HI_ON] + BackgroundBytes(p);
    for i := 0 to |p.draw|
      invariant out == opening + OpsBytes(p.draw[..i])
    {
      var bytes := CompileOp(p.draw[i]);
      OpsBytesNext(opening, p.draw, i);
      out := out + bytes;
    }
    assert p.draw[..|p.draw|] == p.draw;
    out := out + [HI_END];
    stream := Some(out);
  }

  lemma BackgroundBytesAre(p: Page)
    ensures BackgroundBytes(p) ==
            if |p.background| == SIZE then [HI_BLIT] + [0, 0, Low(SIZE), High(SIZE)] + Encoded(p.background) else []
  {}

  lemma OpsBytesNone()
    ensures OpsBytes([]) == []
  {}

  lemma OpsBytesNext(opening: seq<byte>, ops: seq<HiresOp>, i: nat)
    requires i < |ops|
    ensures opening + OpsBytes(ops[..i + 1]) == opening + OpsBytes(ops[..i]) + OpBytes(ops[i])
  {
    assert ops[..i + 1][..i] == ops[..i];
  }

  lemma PageBytesAre(p: Page)
    ensures PageBytes(p) == [PLOT, HIRES, HI_ON] + BackgroundBytes(p) + OpsBytes(p.draw) + [HI_END]
  {}

  /** The switch over one drawing operation. */
  method CompileOp(op: HiresOp) returns (bytes: seq<byte>)
    ensures bytes == OpBytes(op)
  {
    match op
    case Ink(c) => bytes := [HI_INK, c % 8];
    case Paper(c) => bytes := [HI_PAPER, c % 8];
    case Curset(x, y) => bytes := [HI_CURSET, Truncated(x), Truncated(y)];
    case Dot(x, y) => bytes := [HI_POINT, Truncated(x), Truncated(y)];
    case LineTo(x, y) => bytes := [HI_LINE, Truncated(x), Truncated(y)];
    case Box(x, y) => bytes := [HI_BOX, Truncated(x), Truncated(y)];
    case FilledBox(x, y) => bytes := [HI_FILLBOX, Truncated(x), Truncated(y)];
    case CircleOf(r) => bytes := [HI_CIRCLE, Truncated(r)];
    case Char(x, y, ch) =>
      var c: byte := 0x20;
      if ch != [] { c := ch[0]; }
      bytes := [HI_CHAR, Truncated(x), Truncated(y), c];
  }

  /** The bytes of the operations on the link. */
  lemma OpsOnLink(c: byte, x: byte, y: byte, ch: byte)
    requires c < 8
    ensures OpBytes(Ink(c)) == [0x02, c] && OpBytes(Paper(c)) == [0x03, c]
    ensures OpBytes(Curset(x, y)) == [0x10, x, y] && OpBytes(Dot(x, y)) == [0x11, x, y]
    ensures OpBytes(LineTo(x, y)) == [0x12, x, y] && OpBytes(Box(x, y)) == [0x13, x, y]
    ensures OpBytes(FilledBox(x, y)) == [0x14, x, y] && OpBytes(CircleOf(x)) == [0x15, x]
    ensures OpBytes(Char(x, y, [ch])) == [0x16, x, y, ch] && OpBytes(Char(x, y, [])) == [0x16, x, y, 0x20]
  {}

  /** And of a bitmap: where, how much, low bytes first, and the pairs. */
  lemma BitmapOnLink(off: nat, data: seq<byte>)
    requires off < 0x1_0000 && |data| < 0x1_0000
    ensures var b := BlitBytes(off, data);
            && |b| >= 5 && b[0] == 0x20 && b[1] as int + 256 * b[2] as int == off
            && b[3] as int + 256 * b[4] as int == |data| && b[5..] == Encoded(data)
  {
    hide Encoded, BlitBytes;
    TwoBytes(off);
    TwoBytes(|data|);
    BitmapHead(off, data);
    hide Low, High;
  }

  lemma BitmapHead(off: nat, data: seq<byte>)
    ensures var b := BlitBytes(off, data);
            && |b| >= 5 && b[0] == 0x20 && b[1] == Low(off) && b[2] == High(off)
            && b[3] == Low(|data|) && b[4] == High(|data|) && b[5..] == Encoded(data)
  {
    hide Encoded, Low, High;
  }

  lemma TwoBytes(n: nat)
    requires n < 0x1_0000
    ensures Low(n) as int + 256 * High(n) as int == n
  {}

  // ---------------------------------------------------------------- what the decoder recovers

  /** The operation as it arrives: one byte per argument. */
  function OnWire(op: HiresOp): HiresOp {
    match op
    case Ink(c) => Ink(c % 8)
    case Paper(c) => Paper(c % 8)
    case Curset(x, y) => Curset(Truncated(x), Truncated(y))
    case Dot(x, y) => Dot(Truncated(x), Truncated(y))
    case LineTo(x, y) => LineTo(Truncated(x), Truncated(y))
    case Box(x, y) => Box(Truncated(x), Truncated(y))
    case FilledBox(x, y) => FilledBox(Truncated(x), Truncated(y))
    case CircleOf(r) => CircleOf(Truncated(r))
    case Char(x, y, ch) => Char(Truncated(x), Truncated(y), [Initial(ch)])
  }

  /** What a page means by an operation: a `char` shows the first byte of its text. */
  function Intended(op: HiresOp): HiresOp {
    if op.Char? then op.(ch := [Initial(op.ch)]) else op
  }

  predicate SmallRadius(op: HiresOp) { op.CircleOf? ==> op.r <= 255 }

  lemma WireFaithful(op: HiresOp)
    requires ValidOp(op)
    ensures OnWire(op) == Intended(op) <==> SmallRadius(op)
  {}

  function OpCommands(ops: seq<HiresOp>): seq<Command> {
    if ops == [] then [] else OpCommands(ops[..|ops| - 1]) + [OpCommand(ops[|ops| - 1])]
  }

  /** Left-to-right drawing of what arrives. */
  function DrawWire(c: Canvas, ops: seq<HiresOp>, font: Font): Canvas {
    if ops == [] then c else Draw(DrawWire(c, ops[..|ops| - 1], font), OnWire(ops[|ops| - 1]), font)
  }

  /** The drawings among the commands the decoder took out of a stream. */
  function Drawings(cs: seq<Command>): seq<HiresOp> {
    if cs == [] then []
    else
      var last := cs[|cs| - 1];
      Drawings(cs[..|cs| - 1])
      + (if ArgCount(last.op) <= |last.args| && Meant(last.op, last.args).Some? then [Meant(last.op, last.args).value]
         else [])
  }

  lemma OpDecodes(c: Canvas, op: HiresOp, font: Font)
    ensures Decodes(c, OpBytes(op), font, [OpCommand(op)], Draw(c, OnWire(op), font))
  {
    var cmd := OpCommand(op);
    ArgsFeed(c, cmd.op, cmd.args, font);
    OpExecutes(c, op, font);
  }

  lemma OpExecutes(c: Canvas, op: HiresOp, font: Font)
    ensures var cmd := OpCommand(op);
            && ArgCount(cmd.op) == |cmd.args| > 0
            && Meant(cmd.op, cmd.args) == Some(OnWire(op))
            && Exec(c, cmd.op, cmd.args, font) == Decoder(Draw(c, OnWire(op), font), Idle)
  {
    hide Draw;
  }

  /** An opcode and its arguments are read as one command. */
  lemma ArgsFeed(c: Canvas, op: byte, args: seq<byte>, font: Font)
    requires ArgCount(op) == |args| && 1 <= |args| <= 3 && op != HI_END
    ensures FeedAll(Decoder(c, Idle), [op] + args, font) == Exec(c, op, args, font)
    ensures Commands(Decoder(c, Idle), [op] + args, font) == [Command(op, args)]
  {
    hide Exec;
    var d := Decoder(c, Idle);
    var d1 := Decoder(c, Reading(op, []));
    assert Feed(d, op, font) == d1 && Read(d.mode, op) == [];
    assert ([op] + args)[1..] == args && [] + args == args;
    ArgsRead(d1.canvas, op, [], args, font);
  }

  lemma {:induction false} ArgsRead(c: Canvas, op: byte, got: seq<byte>, args: seq<byte>, font: Font)
    requires args != [] && ArgCount(op) == |got| + |args|
    ensures FeedAll(Decoder(c, Reading(op, got)), args, font) == Exec(c, op, got + args, font)
    ensures Commands(Decoder(c, Reading(op, got)), args, font) == [Command(op, got + args)]
    decreases |args|
  {
    hide Exec;
    var d := Decoder(c, Reading(op, got));
    assert got + args == got + [args[0]] + args[1..];
    if |args| == 1 {
      assert args == [args[0]];
      LastFeeds(d, args[0], font);
    } else {
      ArgsRead(c, op, got + [args[0]], args[1..], font);
    }
  }

  lemma {:induction false} OpsDecode(c: Canvas, ops: seq<HiresOp>, font: Font)
    ensures Decodes(c, OpsBytes(ops), font, OpCommands(ops), DrawWire(c, ops, font))
  {
    hide Decodes, Draw, OpBytes, OnWire;
    if ops == [] {
      DecodesNothing(c, font);
    } else {
      var front, last := ops[..|ops| - 1], ops[|ops| - 1];
      OpsDecode(c, front, font);
      var c1 := DrawWire(c, front, font);
      OpDecodes(c1, last, font);
      DecodesBoth(c, OpsBytes(front), OpBytes(last), font, OpCommands(front), [OpCommand(last)], c1,
          Draw(c1, OnWire(last), font));
    }
  }

  /** The canvas the drawings of a page start from. */
  function Backdrop(c: Canvas, p: Page): Canvas {
    BLANK.(paper := c.paper, vram := if |p.background| == SIZE then p.background else Blank())
  }

  function BackgroundCommands(p: Page): seq<Command> {
    if |p.background| == SIZE then [Command(HI_BLIT, BlitHeader(0, SIZE))] else []
  }

  lemma BackgroundDecodes(c: Canvas, p: Page, font: Font)
    ensures Decodes(c, [HI_ON] + BackgroundBytes(p), font, [Command(HI_ON, [])] + BackgroundCommands(p), Backdrop(c, p))
  {
    hide Decodes, BlitBytes;
    var blank := BLANK.(paper := c.paper);
    OpcodeDecodes(c, HI_ON, font);
    if |p.background| == SIZE {
      BlitDecodes(blank, 0, p.background, font);
      PaintWhole(blank.vram, p.background);
      DecodesBoth(c, [HI_ON], BlitBytes(0, p.background), font, [Command(HI_ON, [])], BackgroundCommands(p), blank,
          Backdrop(c, p));
    } else {
      assert [HI_ON] + [] == [HI_ON] && [Command(HI_ON, [])] + [] == [Command(HI_ON, [])];
    }
  }

  lemma PaintWhole(v: Vram, data: seq<byte>)
    requires |data| == SIZE
    ensures Paint(v, 0, data) == data
  {}

  /** A compiled page stays in step with the decoder: the commands taken out are HiOn, the
      background, the operations and HiEnd, in order; the stream is over at its last byte and not
      before; and the canvas is the one the operations draw. */
  lemma PageDecodes(p: Page, c: Canvas, font: Font)
    ensures var body := PageBytes(p)[2..]; var d := Decoder(c, Idle);
            && FeedAll(d, body, font) == Decoder(DrawWire(Backdrop(c, p), p.draw, font), Done)
            && Commands(d, body, font) == [Command(HI_ON, [])] + BackgroundCommands(p) + OpCommands(p.draw)
               + [Command(HI_END, [])]
            && forall k :: 0 <= k < |body| ==> FeedAll(d, body[..k], font).mode != Done
  {
    var on := [HI_ON] + BackgroundBytes(p);
    var cs := [Command(HI_ON, [])] + BackgroundCommands(p);
    var body := on + OpsBytes(p.draw) + [HI_END];
    assert PageBytes(p)[2..] == body;
    var c' := DrawWire(Backdrop(c, p), p.draw, font);
    hide PageBytes, Feed, FeedAll, Commands, OpsBytes, DrawWire, Draw;
    BackgroundDecodes(c, p, font);
    OpsDecode(Backdrop(c, p), p.draw, font);
    DecodesBoth(c, on, OpsBytes(p.draw), font, cs, OpCommands(p.draw), Backdrop(c, p), c');
    EndDecodes(c, on + OpsBytes(p.draw), font, cs + OpCommands(p.draw), c');
  }

  lemma DrawIntended(c: Canvas, op: HiresOp, font: Font)
    ensures Draw(c, Intended(op), font) == Draw(c, op, font)
  {
    hide SetPixels, Glyph;
  }

  /** The page drawn directly, operation by operation. */
  function Direct(c: Canvas, ops: seq<HiresOp>, font: Font): Canvas {
    if ops == [] then c else Draw(Direct(c, ops[..|ops| - 1], font), ops[|ops| - 1], font)
  }

  lemma {:induction false} WireIsDirect(c: Canvas, ops: seq<HiresOp>, font: Font)
    requires forall i :: 0 <= i < |ops| ==> ValidOp(ops[i]) && SmallRadius(ops[i])
    ensures DrawWire(c, ops, font) == Direct(c, ops, font)
  {
    hide Draw, OnWire, Intended, ValidOp;
    if ops != [] {
      var front, last := ops[..|ops| - 1], ops[|ops| - 1];
      WireIsDirect(c, front, font);
      WireFaithful(last);
      DrawIntended(Direct(c, front, font), last, font);
    }
  }

  function AllIntended(ops: seq<HiresOp>): seq<HiresOp> {
    seq(|ops|, i requires 0 <= i < |ops| => Intended(ops[i]))
  }

  function AllOnWire(ops: seq<HiresOp>): seq<HiresOp> {
    seq(|ops|, i requires 0 <= i < |ops| => OnWire(ops[i]))
  }

  lemma {:induction false} DrawingsOfOps(prefix: seq<Command>, ops: seq<HiresOp>)
    ensures Drawings(prefix + OpCommands(ops)) == Drawings(prefix) + AllOnWire(ops)
  {
    hide OnWire, Meant;
    if ops == [] {
      assert prefix + [] == prefix && Drawings(prefix) + [] == Drawings(prefix);
    } else {
      var front, last := ops[..|ops| - 1], ops[|ops| - 1];
      DrawingsOfOps(prefix, front);
      var cs := prefix + OpCommands(front);
      assert OpCommands(ops) == OpCommands(front) + [OpCommand(last)];
      hide *;
      assert prefix + OpCommands(ops) == cs + [OpCommand(last)];
      DrawingsSnoc(cs, last);
      AllOnWireSnoc(ops);
    }
  }

  lemma AllOnWireSnoc(ops: seq<HiresOp>)
    requires ops != []
    ensures AllOnWire(ops) == AllOnWire(ops[..|ops| - 1]) + [OnWire(ops[|ops| - 1])]
  {
    hide OnWire;
  }

  lemma DrawingsSnoc(cs: seq<Command>, op: HiresOp)
    ensures Drawings(cs + [OpCommand(op)]) == Drawings(cs) + [OnWire(op)]
  {
    hide OnWire, Meant, OpCommand;
    OpExecutes(BLANK, op, Repeat(0, 768));
    var all := cs + [OpCommand(op)];
    assert all[..|all| - 1] == cs;
  }

  /** For a validated page the decoder recovers the operations the page declares, arguments included,
      if and only if no circle has a radius above 255. */
  lemma PageRecovered(p: Page, c: Canvas, font: Font)
    requires Validated(p)
    ensures Drawings(Commands(Decoder(c, Idle), PageBytes(p)[2..], font)) == AllIntended(p.draw)
            <==> forall i :: 0 <= i < |p.draw| ==> SmallRadius(p.draw[i])
  {
    PageDecodes(p, c, font);
    hide Feed, FeedAll, Commands, PageBytes, OnWire, Intended, ValidOp, OpCommands, DrawWire;
    var opening := [Command(HI_ON, [])] + BackgroundCommands(p);
    var cs := opening + OpCommands(p.draw);
    var all := cs + [Command(HI_END, [])];
    OpeningDrawsNothing(p);
    DrawingsOfOps(opening, p.draw);
    EndDrawsNothing(cs);
    assert [] + AllOnWire(p.draw) == AllOnWire(p.draw);
    forall i | 0 <= i < |p.draw| ensures OnWire(p.draw[i]) == Intended(p.draw[i]) <==> SmallRadius(p.draw[i]) {
      WireFaithful(p.draw[i]);
    }
    AllAgree(p.draw);
  }

  lemma OpeningDrawsNothing(p: Page)
    ensures Drawings([Command(HI_ON, [])] + BackgroundCommands(p)) == []
  {
    var one := [Command(HI_ON, [])];
    assert one[..0] == [];
    assert Drawings(one) == [];
    if |p.background| == SIZE {
      var two := one + BackgroundCommands(p);
      assert two[..1] == one;
    } else {
      assert one + [] == one;
    }
  }

  lemma EndDrawsNothing(cs: seq<Command>)
    ensures Drawings(cs + [Command(HI_END, [])]) == Drawings(cs)
  {
    var all := cs + [Command(HI_END, [])];
    assert all[..|all| - 1] == cs;
  }

  lemma AllAgree(ops: seq<HiresOp>)
    ensures AllOnWire(ops) == AllIntended(ops) <==> forall i :: 0 <= i < |ops| ==> OnWire(ops[i]) == Intended(ops[i])
  {
    hide OnWire, Intended;
    if AllOnWire(ops) == AllIntended(ops) {
      forall i | 0 <= i < |ops| ensures OnWire(ops[i]) == Intended(ops[i]) {
        assert AllOnWire(ops)[i] == AllIntended(ops)[i];
      }
    }
  }

  /** And then the picture is the one the page describes. */
  lemma PageDrawn(p: Page, c: Canvas, font: Font)
    requires Validated(p) && forall i :: 0 <= i < |p.draw| ==> SmallRadius(p.draw[i])
    ensures FeedAll(Decoder(c, Idle), PageBytes(p)[2..], font) == Decoder(Direct(Backdrop(c, p), p.draw, font), Done)
  {
    PageDecodes(p, c, font);
    WireIsDirect(Backdrop(c, p), p.draw, font);
  }

  /** A validated page with one circle of radius 256: the decoder is told to draw a point. */
  lemma WideCircle(c: Canvas, font: Font)
    ensures var p := Page([], [CircleOf(256)]);
            Validated(p) && Drawings(Commands(Decoder(c, Idle), PageBytes(p)[2..], font)) == [CircleOf(0)]
  {
    var p := Page([], [CircleOf(256)]);
    PageDecodes(p, c, font);
    hide Feed, FeedAll, Commands, PageBytes, DrawWire;
    OpeningDrawsNothing(p);
    DrawingsOfOps([Command(HI_ON, [])] + BackgroundCommands(p), p.draw);
    EndDrawsNothing([Command(HI_ON, [])] + BackgroundCommands(p) + OpCommands(p.draw));
    assert AllOnWire(p.draw) == [CircleOf(0)];
  }
}
