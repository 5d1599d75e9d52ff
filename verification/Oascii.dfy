/** The text stream builder of internal/oascii/oascii.go, and how its bytes read on a screen whose
    attributes are serial: an attribute takes a cell, holds to the end of the line, and every line
    starts again from white on black (the semantics of `rowCells`, pcterm/internal/ula/ula.go). */
module Oascii {
  import opened Bytes

  type Color = c: int | 0 <= c < 8

  const WHITE: Color := 7
  const BLACK: Color := 0
  const WIDTH := 40
  const BLANK: byte := 0x20

  /** What the attributes in force make of a character. */
  datatype Look = Look(ink: Color, paper: Color, blink: bool, dbl: bool, alt: bool)

  const DEFAULT: Look := Look(WHITE, BLACK, false, false, false)

  /** A character as it shows. */
  datatype Glyph = Glyph(ch: byte, look: Look, inverse: bool)

  // ---------------------------------------------------------------- what the builder writes

  function InkAttr(c: Color): byte { c }

  function PaperAttr(c: Color): byte { 0x10 + c }

  function TextAttr(blink: bool, dbl: bool, alt: bool): byte {
    8 + (if alt then 1 else 0) + (if dbl then 2 else 0) + (if blink then 4 else 0)
  }

  /** A character fit for the screen: what is not printable becomes a space. */
  function Shown(c: byte): byte { if c < 0x20 || c > 0x7E then BLANK else c }

  function CharByte(c: byte, inverse: bool): byte { if inverse then Shown(c) + 128 else Shown(c) }

  /** What is written, before it is bytes: a byte meant for one cell, or the end of a line. */
  datatype Token = Cell(b: byte) | NewLine

  function Chars(s: seq<byte>, inverse: bool): seq<Token> {
    seq(|s|, i requires 0 <= i < |s| => Cell(CharByte(s[i], inverse)))
  }

  /** The bytes on the link. */
  function Stream(ts: seq<Token>): seq<byte> {
    if ts == [] then []
    else Stream(ts[..|ts| - 1]) + (match ts[|ts| - 1] case Cell(b) => [b] case NewLine => [0x0D, 0x0A])
  }

  lemma {:induction false} BytesAppend(s: seq<Token>, t: seq<Token>)
    ensures Stream(s + t) == Stream(s) + Stream(t)
  {
    if t == [] {
      assert s + t == s;
    } else {
      assert (s + t)[..|s + t| - 1] == s + t[..|t| - 1];
      BytesAppend(s, t[..|t| - 1]);
    }
  }

  // ---------------------------------------------------------------- reading what was meant

  predicate IsAttribute(b: byte) { b % 128 < 32 }

  /** The attributes after the attribute byte b. */
  function Applied(l: Look, b: byte): Look {
    var v := b % 32;
    if v / 8 == 0 then l.(ink := v % 8)
    else if v / 8 == 1 then l.(alt := v % 2 == 1, dbl := v / 2 % 2 == 1, blink := v / 4 % 2 == 1)
    else if v / 8 == 2 then l.(paper := v % 8)
    else l
  }

  lemma AttributesRead(l: Look, c: Color, blink: bool, dbl: bool, alt: bool)
    ensures IsAttribute(InkAttr(c)) && Applied(l, InkAttr(c)) == l.(ink := c)
    ensures IsAttribute(PaperAttr(c)) && Applied(l, PaperAttr(c)) == l.(paper := c)
    ensures IsAttribute(TextAttr(blink, dbl, alt))
            && Applied(l, TextAttr(blink, dbl, alt)) == l.(blink := blink, dbl := dbl, alt := alt)
  {
    hide InkAttr, PaperAttr, TextAttr;
    InkRead(l, c);
    PaperRead(l, c);
    TextRead(l, blink, dbl, alt);
  }

  /** Bits 3 and 4 of an attribute byte are its kind, the bits below its value. */
  lemma Kind(kind: nat, v: nat)
    requires kind < 4 && v < 8
    ensures IsAttribute(8 * kind + v)
    ensures (8 * kind + v) % 32 / 8 == kind && (8 * kind + v) % 32 % 8 == v
  {}

  lemma InkRead(l: Look, c: Color)
    ensures IsAttribute(InkAttr(c)) && Applied(l, InkAttr(c)) == l.(ink := c)
  {
    Kind(0, c);
  }

  lemma PaperRead(l: Look, c: Color)
    ensures IsAttribute(PaperAttr(c)) && Applied(l, PaperAttr(c)) == l.(paper := c)
  {
    Kind(2, c);
  }

  lemma TextRead(l: Look, blink: bool, dbl: bool, alt: bool)
    ensures var b := TextAttr(blink, dbl, alt);
            IsAttribute(b) && Applied(l, b) == l.(blink := blink, dbl := dbl, alt := alt)
  {
    Kind(1, TextAttr(blink, dbl, alt) - 8);
  }

  /** A physical line being read, cell by cell: the cells asked for on it, the attributes in force,
      and, since the beginning, the characters shown, the number of characters that fell beyond the
      40 cells, the most cells any line asked for, and the number of line ends. */
  datatype Reader = Reader(col: nat, look: Look, glyphs: seq<Glyph>, lost: nat, widest: nat, ends: nat)

  const START: Reader := Reader(0, DEFAULT, [], 0, 0, 0)

  function Wider(r: Reader): nat { if r.widest < r.col + 1 then r.col + 1 else r.widest }

  /** One token; what comes beyond the 40 cells has no effect on the screen. */
  function ReadToken(r: Reader, t: Token): Reader {
    match t
    case NewLine => r.(col := 0, look := DEFAULT, ends := r.ends + 1)
    case Cell(b) =>
      var moved := r.(col := r.col + 1, widest := Wider(r));
      if IsAttribute(b) then (if r.col < WIDTH then moved.(look := Applied(r.look, b)) else moved)
      else if r.col < WIDTH then moved.(glyphs := r.glyphs + [Glyph(b % 128, r.look, b >= 128)])
      else moved.(lost := r.lost + 1)
  }

  function ReadTokens(ts: seq<Token>): Reader {
    if ts == [] then START else ReadToken(ReadTokens(ts[..|ts| - 1]), ts[|ts| - 1])
  }

  lemma ReadNext(ts: seq<Token>, t: Token)
    ensures ReadTokens(ts + [t]) == ReadToken(ReadTokens(ts), t)
  {
    assert (ts + [t])[..|ts + [t]| - 1] == ts;
  }

  /** Without the spaces. */
  function Visible(gs: seq<Glyph>): seq<Glyph> {
    if gs == [] then []
    else Visible(gs[..|gs| - 1]) + (if gs[|gs| - 1].ch == BLANK then [] else [gs[|gs| - 1]])
  }

  lemma VisibleNext(gs: seq<Glyph>, g: Glyph)
    ensures Visible(gs + [g]) == Visible(gs) + (if g.ch == BLANK then [] else [g])
  {
    assert (gs + [g])[..|gs + [g]| - 1] == gs;
  }

  // ---------------------------------------------------------------- reading what arrives

  /** A terminal of unlimited height, as `putByte` fills it: the lines above, the cells of the
      current line, and the cursor column. */
  datatype Sheet = Sheet(above: seq<seq<byte>>, line: seq<byte>, col: nat)

  const EMPTY: Sheet := Sheet([], [], 0)

  function Put(s: Sheet, b: byte): Sheet
    requires s.col <= |s.line| <= WIDTH
  {
    if b == 0x0D then s.(col := 0)
    else if b == 0x0A then Sheet(s.above + [s.line], [], 0)
    else if b == 0x08 then (if s.col > 0 then s.(col := s.col - 1, line := s.line[s.col - 1 := BLANK]) else s)
    else if s.col < |s.line| then s.(line := s.line[s.col := b], col := s.col + 1)
    else if s.col < WIDTH then s.(line := s.line + [b], col := s.col + 1)
    else s
  }

  function PutAll(bs: seq<byte>): (s: Sheet)
    ensures s.col <= |s.line| <= WIDTH
  {
    if bs == [] then EMPTY else Put(PutAll(bs[..|bs| - 1]), bs[|bs| - 1])
  }

  lemma PutNext(bs: seq<byte>, b: byte)
    ensures PutAll(bs + [b]) == Put(PutAll(bs), b)
  {
    assert (bs + [b])[..|bs + [b]| - 1] == bs;
  }

  /** The attributes in force after the cells of a line. */
  function LookAfter(line: seq<byte>): Look {
    if line == [] then DEFAULT
    else
      var b := line[|line| - 1];
      if IsAttribute(b) then Applied(LookAfter(line[..|line| - 1]), b) else LookAfter(line[..|line| - 1])
  }

  /** The characters of a line, each with the attributes set before it on that line (`rowCells`). */
  function LineGlyphs(line: seq<byte>): seq<Glyph> {
    if line == [] then []
    else
      var b := line[|line| - 1];
      LineGlyphs(line[..|line| - 1])
          + (if IsAttribute(b) then [] else [Glyph(b % 128, LookAfter(line[..|line| - 1]), b >= 128)])
  }

  function Glyphs(above: seq<seq<byte>>): seq<Glyph> {
    if above == [] then [] else Glyphs(above[..|above| - 1]) + LineGlyphs(above[|above| - 1])
  }

  function SheetGlyphs(s: Sheet): seq<Glyph> { Glyphs(s.above) + LineGlyphs(s.line) }

  /** A byte the terminal puts in a cell: neither BS, LF nor CR. */
  predicate Safe(t: Token) { t.Cell? ==> t.b != 0x08 && t.b != 0x0A && t.b != 0x0D }

  ghost predicate AllSafe(ts: seq<Token>) { forall i :: 0 <= i < |ts| ==> Safe(ts[i]) }

  lemma LineNext(line: seq<byte>, b: byte)
    ensures LookAfter(line + [b]) == if IsAttribute(b) then Applied(LookAfter(line), b) else LookAfter(line)
    ensures LineGlyphs(line + [b])
            == LineGlyphs(line) + (if IsAttribute(b) then [] else [Glyph(b % 128, LookAfter(line), b >= 128)])
  {
    assert (line + [b])[..|line + [b]| - 1] == line;
  }

  lemma {:induction false} VisibleAppend(a: seq<Glyph>, b: seq<Glyph>)
    ensures Visible(a + b) == Visible(a) + Visible(b)
  {
    if b == [] {
      assert a + b == a;
    } else {
      assert (a + b)[..|a + b| - 1] == a + b[..|b| - 1];
      VisibleAppend(a, b[..|b| - 1]);
    }
  }

  /** Spaces at the end of a line show nothing. */
  lemma {:induction false} SpacesShowNothing(line: seq<byte>, n: nat)
    ensures Visible(LineGlyphs(line + Repeat(BLANK, n))) == Visible(LineGlyphs(line))
  {
    if n == 0 {
      assert line + Repeat(BLANK, 0) == line;
    } else {
      var front := line + Repeat(BLANK, n - 1);
      assert line + Repeat(BLANK, n) == front + [BLANK];
      SpacesShowNothing(line, n - 1);
      hide LineGlyphs, LookAfter;
      SpaceAdded(front);
    }
  }

  lemma SpaceAdded(line: seq<byte>)
    ensures Visible(LineGlyphs(line + [BLANK])) == Visible(LineGlyphs(line))
  {
    LineNext(line, BLANK);
    hide LineGlyphs, LookAfter;
    VisibleNext(LineGlyphs(line), Glyph(BLANK % 128, LookAfter(line), BLANK >= 128));
  }

  /** The sheet holds what the reader has read. */
  ghost predicate Matches(s: Sheet, r: Reader) {
    && s.col == |s.line| == (if r.col < WIDTH then r.col else WIDTH)
    && LookAfter(s.line) == r.look && SheetGlyphs(s) == r.glyphs
  }

  lemma SafeCell(s: Sheet, r: Reader, b: byte)
    requires Matches(s, r) && Safe(Cell(b))
    ensures Matches(Put(s, b), ReadToken(r, Cell(b)))
  {
    hide Applied, IsAttribute;
    LineNext(s.line, b);
    if s.col < WIDTH {
      var more := if IsAttribute(b) then [] else [Glyph(b % 128, r.look, b >= 128)];
      assert Glyphs(s.above) + (LineGlyphs(s.line) + more) == (Glyphs(s.above) + LineGlyphs(s.line)) + more;
      assert r.glyphs + [] == r.glyphs;
    }
  }

  lemma SafeEnd(s: Sheet, r: Reader)
    requires Matches(s, r)
    ensures Put(s, 0x0D).col <= |Put(s, 0x0D).line| <= WIDTH
    ensures Matches(Put(Put(s, 0x0D), 0x0A), ReadToken(r, NewLine))
  {
    hide Applied, IsAttribute;
    var above := s.above + [s.line];
    assert above[..|above| - 1] == s.above;
    assert Glyphs(above) + [] == Glyphs(above);
  }

  /** If no cell byte is BS, LF or CR, what arrives reads as what was meant. */
  lemma {:induction false} SafeReads(ts: seq<Token>)
    requires AllSafe(ts)
    ensures Matches(PutAll(Stream(ts)), ReadTokens(ts))
  {
    hide Put, ReadToken, Matches;
    if ts == [] {
      EmptyMatches();
    } else {
      var front, last := ts[..|ts| - 1], ts[|ts| - 1];
      SafeReads(front);
      if last.Cell? {
        SafeCell(PutAll(Stream(front)), ReadTokens(front), last.b);
        PutNext(Stream(front), last.b);
      } else {
        SafeEnd(PutAll(Stream(front)), ReadTokens(front));
        PutNext(Stream(front), 0x0D);
        PutNext(Stream(front) + [0x0D], 0x0A);
        assert Stream(front) + [0x0D, 0x0A] == Stream(front) + [0x0D] + [0x0A];
      }
    }
  }

  lemma EmptyMatches()
    ensures Matches(EMPTY, START)
  {}
}
