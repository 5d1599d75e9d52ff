/** Word wrap with serial attributes (internal/render/render.go `emitLineWrapped`): what it writes,
    and that what it writes means what the line means. */
module Wrap {
  import opened Bytes
  import opened Oascii

  /** A piece of text with its style, the colour names resolved. */
  datatype Span = Span(text: seq<byte>, look: Look, inverse: bool)

  /** A line of a page: cut into segments, or one text with one style. */
  datatype Line = Line(segments: seq<Span>, whole: Span)

  function Spans(ln: Line): (s: seq<Span>)
    ensures s != []
  {
    if ln.segments == [] then [ln.whole] else ln.segments
  }

  // ---------------------------------------------------------------- what a line means

  function CharGlyph(c: byte, look: Look, inverse: bool): Glyph { Glyph(Shown(c), look, inverse) }

  /** The visible characters of a text. */
  function TextMeaning(s: seq<byte>, look: Look, inverse: bool): seq<Glyph> {
    if s == [] then []
    else
      var c := s[|s| - 1];
      TextMeaning(s[..|s| - 1], look, inverse) + (if Shown(c) == BLANK then [] else [CharGlyph(c, look, inverse)])
  }

  function Meaning(spans: seq<Span>): seq<Glyph> {
    if spans == [] then []
    else
      var sp := spans[|spans| - 1];
      Meaning(spans[..|spans| - 1]) + TextMeaning(sp.text, sp.look, sp.inverse)
  }

  function Length(spans: seq<Span>): nat {
    if spans == [] then 0 else Length(spans[..|spans| - 1]) + |spans[|spans| - 1].text|
  }

  /** The printable characters of a text but for its spaces. */
  function Printed(s: seq<byte>): seq<byte> {
    if s == [] then []
    else Printed(s[..|s| - 1]) + (if 0x20 < s[|s| - 1] <= 0x7E then [s[|s| - 1]] else [])
  }

  /** A text means its printable characters, themselves, in its style. */
  lemma {:induction false} TextPrinted(s: seq<byte>, look: Look, inverse: bool)
    ensures |TextMeaning(s, look, inverse)| == |Printed(s)|
    ensures forall i :: 0 <= i < |Printed(s)| ==>
              TextMeaning(s, look, inverse)[i] == Glyph(Printed(s)[i], look, inverse)
  {
    if s != [] { TextPrinted(s[..|s| - 1], look, inverse); }
  }

  // ---------------------------------------------------------------- words

  function FirstSpace(s: seq<byte>): (k: nat)
    ensures k <= |s| && (forall i :: 0 <= i < k ==> s[i] != BLANK) && (k < |s| ==> s[k] == BLANK)
  {
    if s == [] || s[0] == BLANK then 0 else FirstSpace(s[1..]) + 1
  }

  /** `strings.Split(s, " ")` */
  function Split(s: seq<byte>): (words: seq<seq<byte>>)
    ensures words != []
    decreases |s|
  {
    var k := FirstSpace(s);
    if k == |s| then [s] else [s[..k]] + Split(s[k + 1..])
  }

  function WordsMeaning(words: seq<seq<byte>>, look: Look, inverse: bool): seq<Glyph> {
    if words == [] then []
    else WordsMeaning(words[..|words| - 1], look, inverse) + TextMeaning(words[|words| - 1], look, inverse)
  }

  lemma {:induction false} TextMeaningAppend(s: seq<byte>, t: seq<byte>, look: Look, inverse: bool)
    ensures TextMeaning(s + t, look, inverse) == TextMeaning(s, look, inverse) + TextMeaning(t, look, inverse)
  {
    hide Shown, CharGlyph;
    if t == [] {
      assert s + t == s;
    } else {
      assert (s + t)[..|s + t| - 1] == s + t[..|t| - 1];
      TextMeaningAppend(s, t[..|t| - 1], look, inverse);
    }
  }

  lemma {:induction false} WordsMeaningAppend(a: seq<seq<byte>>, b: seq<seq<byte>>, look: Look, inverse: bool)
    ensures WordsMeaning(a + b, look, inverse) == WordsMeaning(a, look, inverse) + WordsMeaning(b, look, inverse)
  {
    hide TextMeaning;
    if b == [] {
      assert a + b == a;
    } else {
      assert (a + b)[..|a + b| - 1] == a + b[..|b| - 1];
      WordsMeaningAppend(a, b[..|b| - 1], look, inverse);
    }
  }

  /** The characters of the first n words and of the spaces between them. */
  function WordsLength(words: seq<seq<byte>>, n: nat): nat
    requires n <= |words|
  {
    if n == 0 then 0 else WordsLength(words, n - 1) + |words[n - 1]| + (if n > 1 then 1 else 0)
  }

  lemma {:induction false} WordsLengthShift(w: seq<byte>, rest: seq<seq<byte>>, n: nat)
    requires n <= |rest|
    ensures WordsLength([w] + rest, n + 1) == |w| + WordsLength(rest, n) + (if n > 0 then 1 else 0)
  {
    if n == 0 {
      assert WordsLength([w] + rest, 0) == 0;
    } else {
      WordsLengthShift(w, rest, n - 1);
    }
  }

  lemma {:induction false} SplitLength(s: seq<byte>)
    ensures WordsLength(Split(s), |Split(s)|) == |s|
    decreases |s|
  {
    var k := FirstSpace(s);
    if k == |s| {
      assert WordsLength([s], 0) == 0;
    } else {
      SplitLength(s[k + 1..]);
      WordsLengthShift(s[..k], Split(s[k + 1..]), |Split(s[k + 1..])|);
    }
  }

  lemma OneWord(w: seq<byte>, look: Look, inverse: bool)
    ensures WordsMeaning([w], look, inverse) == TextMeaning(w, look, inverse)
  {
    assert [w][..0] == [];
  }

  /** Cutting a text into words loses spaces only. */
  lemma {:induction false} SplitMeaning(s: seq<byte>, look: Look, inverse: bool)
    ensures WordsMeaning(Split(s), look, inverse) == TextMeaning(s, look, inverse)
    decreases |s|
  {
    hide WordsMeaning, TextMeaning;
    var k := FirstSpace(s);
    if k == |s| {
      OneWord(s, look, inverse);
    } else {
      var rest := s[k + 1..];
      SplitMeaning(rest, look, inverse);
      OneWord(s[..k], look, inverse);
      WordsMeaningAppend([s[..k]], Split(rest), look, inverse);
      assert s == s[..k] + ([BLANK] + rest);
      TextMeaningAppend(s[..k], [BLANK] + rest, look, inverse);
      TextMeaningAppend([BLANK], rest, look, inverse);
      SpaceMeaning(look, inverse);
    }
  }

  lemma SpaceMeaning(look: Look, inverse: bool)
    ensures TextMeaning([BLANK], look, inverse) == []
  {
    assert [BLANK][..0] == [];
  }

  // ---------------------------------------------------------------- what is written

  /** The tokens written, the cells used on the current line, those of them taken by attributes given
      again, and the attributes in force as the writer sees them. */
  datatype Writer = Writer(out: seq<Token>, col: nat, lineStart: nat, cur: Look)

  const BLANK_LINE: Writer := Writer([], 0, 0, DEFAULT)

  function PaperTokens(cur: Look, look: Look): seq<Token> {
    if look.paper != cur.paper then [Cell(PaperAttr(look.paper))] else []
  }

  function TextTokens(cur: Look, look: Look): seq<Token> {
    if look.blink != cur.blink || look.dbl != cur.dbl || look.alt != cur.alt
    then [Cell(TextAttr(look.blink, look.dbl, look.alt))] else []
  }

  function InkTokens(cur: Look, look: Look): seq<Token> {
    if look.ink != cur.ink then [Cell(InkAttr(look.ink))] else []
  }

  /** `emitStyle`; from the defaults, it is `ReemitAttrs`. */
  function StyleTokens(cur: Look, look: Look): (ts: seq<Token>)
    ensures |ts| <= 3
  {
    PaperTokens(cur, look) + TextTokens(cur, look) + InkTokens(cur, look)
  }

  function Wrapped(w: Writer): Writer {
    var again := StyleTokens(DEFAULT, w.cur);
    Writer(w.out + [NewLine] + again, |again|, |again|, w.cur)
  }

  function Styled(w: Writer, look: Look): Writer {
    var ts := StyleTokens(w.cur, look);
    Writer(w.out + ts, w.col + |ts|, w.lineStart, look)
  }

  function Typed(w: Writer, s: seq<byte>, inverse: bool): Writer {
    w.(out := w.out + Chars(s, inverse), col := w.col + |s|)
  }

  /** The space between two words: where it does not fit, a new line stands for it. */
  function Spaced(w: Writer, inverse: bool): Writer {
    if w.col >= WIDTH then Wrapped(w) else Typed(w, [BLANK], inverse)
  }

  /** A word, cut where lines end. */
  function Chopped(w: Writer, word: seq<byte>, inverse: bool): Writer
    decreases |word|
  {
    if w.col + |word| > WIDTH && w.col < WIDTH then
      var take := WIDTH - w.col;
      Chopped(Wrapped(Typed(w, word[..take], inverse)), word[take..], inverse)
    else Typed(w, word, inverse)
  }

  /** A word, on a new line if it does not fit on this one. */
  function WordWritten(w: Writer, word: seq<byte>, inverse: bool): Writer {
    Chopped(if w.col > w.lineStart && w.col + |word| > WIDTH then Wrapped(w) else w, word, inverse)
  }

  /** The first n words. */
  function WordsWritten(w: Writer, words: seq<seq<byte>>, n: nat, inverse: bool): Writer
    requires n <= |words|
  {
    if n == 0 then w
    else
      var v := WordsWritten(w, words, n - 1, inverse);
      WordWritten(if n - 1 > 0 then Spaced(v, inverse) else v, words[n - 1], inverse)
  }

  function SpanWritten(w: Writer, sp: Span): Writer {
    var words := Split(sp.text);
    WordsWritten(Styled(w, sp.look), words, |words|, sp.inverse)
  }

  function SpansWritten(spans: seq<Span>): Writer {
    if spans == [] then BLANK_LINE else SpanWritten(SpansWritten(spans[..|spans| - 1]), spans[|spans| - 1])
  }

  // ---------------------------------------------------------------- meaning kept

  function Max(a: nat, b: nat): nat { if a < b then b else a }

  /** The writer's idea of the line is the reader's, unless attributes have just run over the edge;
      of `total` characters written, a line end stands for each one that is not shown. */
  ghost predicate Fits(w: Writer, shown: seq<Glyph>, total: nat, widest: nat) {
    var r := ReadTokens(w.out);
    && |r.glyphs| <= total <= |r.glyphs| + r.ends
    && r.col == w.col && w.lineStart <= 3 && w.lineStart <= w.col
    && (w.col <= WIDTH ==> r.look == w.cur)
    && Visible(r.glyphs) == shown && r.lost == 0 && r.widest <= widest
  }

  lemma {:induction false} CharsRead(out: seq<Token>, s: seq<byte>, inverse: bool)
    requires ReadTokens(out).col + |s| <= WIDTH
    ensures var r, r' := ReadTokens(out), ReadTokens(out + Chars(s, inverse));
            && r'.col == r.col + |s| && r'.look == r.look && r'.lost == r.lost && r'.ends == r.ends
               && |r'.glyphs| == |r.glyphs| + |s|
            && r'.widest == (if s == [] then r.widest else Max(r.widest, r.col + |s|))
            && Visible(r'.glyphs) == Visible(r.glyphs) + TextMeaning(s, r.look, inverse)
  {
    hide ReadToken, ReadTokens, CharByte, CharGlyph, Chars, Visible;
    if s == [] {
      NoChars(inverse);
      assert out + [] == out;
      assert Visible(ReadTokens(out).glyphs) + [] == Visible(ReadTokens(out).glyphs);
    } else {
      var front, c := s[..|s| - 1], s[|s| - 1];
      CharsRead(out, front, inverse);
      var r := ReadTokens(out + Chars(front, inverse));
      CharsNext(out, s, inverse);
      ReadNext(out + Chars(front, inverse), Cell(CharByte(c, inverse)));
      CharRead(r, c, inverse);
      VisibleNext(r.glyphs, CharGlyph(c, r.look, inverse));
      CharMeaning(s, r.look, inverse);
      Regroup(Visible(ReadTokens(out).glyphs), TextMeaning(front, r.look, inverse), CharVisible(c, r.look, inverse));
    }
  }

  /** A character as far as it is visible. */
  function CharVisible(c: byte, look: Look, inverse: bool): seq<Glyph> {
    var g := CharGlyph(c, look, inverse);
    if g.ch == BLANK then [] else [g]
  }

  lemma CharMeaning(s: seq<byte>, look: Look, inverse: bool)
    requires s != []
    ensures TextMeaning(s, look, inverse)
            == TextMeaning(s[..|s| - 1], look, inverse) + CharVisible(s[|s| - 1], look, inverse)
  {}

  lemma NoChars(inverse: bool)
    ensures Chars([], inverse) == []
  {}

  lemma CharsNext(out: seq<Token>, s: seq<byte>, inverse: bool)
    requires s != []
    ensures out + Chars(s, inverse) == (out + Chars(s[..|s| - 1], inverse)) + [Cell(CharByte(s[|s| - 1], inverse))]
  {
    hide CharByte;
  }

  lemma CharRead(r: Reader, c: byte, inverse: bool)
    requires r.col < WIDTH
    ensures ReadToken(r, Cell(CharByte(c, inverse))) ==
            r.(col := r.col + 1, widest := Wider(r), glyphs := r.glyphs + [CharGlyph(c, r.look, inverse)])
  {}

  lemma TypedFits(w: Writer, s: seq<byte>, inverse: bool, shown: seq<Glyph>, total: nat, widest: nat)
    requires Fits(w, shown, total, widest) && w.col + |s| <= WIDTH <= widest
    ensures Fits(Typed(w, s, inverse), shown + TextMeaning(s, w.cur, inverse), total + |s|, widest)
  {
    hide ReadTokens, Chars, TextMeaning, Visible;
    CharsRead(w.out, s, inverse);
  }

  /** One optional attribute. */
  lemma AttributeRead(out: seq<Token>, b: byte, widest: nat)
    requires IsAttribute(b) && ReadTokens(out).col + 1 <= widest && ReadTokens(out).widest <= widest
    ensures var r, r' := ReadTokens(out), ReadTokens(out + [Cell(b)]);
            && r'.col == r.col + 1 && r'.glyphs == r.glyphs && r'.lost == r.lost && r'.ends == r.ends
               && r'.widest <= widest
            && r'.look == (if r.col < WIDTH then Applied(r.look, b) else r.look)
  {
    ReadNext(out, Cell(b));
  }

  /** The attributes that take cur to look, read where there is room for them. */
  lemma StyleRead(out: seq<Token>, cur: Look, look: Look, widest: nat)
    requires var r := ReadTokens(out);
             r.widest <= widest && r.col + |StyleTokens(cur, look)| <= widest && (r.col <= WIDTH ==> r.look == cur)
    ensures var r, r' := ReadTokens(out), ReadTokens(out + StyleTokens(cur, look));
            && r'.col == r.col + |StyleTokens(cur, look)| && r'.glyphs == r.glyphs && r'.lost == r.lost
               && r'.ends == r.ends && r'.widest <= widest
            && (r'.col <= WIDTH ==> r'.look == look)
  {
    AttributesRead(cur, look.paper, look.blink, look.dbl, look.alt);
    var one := cur.(paper := look.paper);
    var two := one.(blink := look.blink, dbl := look.dbl, alt := look.alt);
    AttributesRead(one, look.ink, look.blink, look.dbl, look.alt);
    AttributesRead(two, look.ink, look.blink, look.dbl, look.alt);
    hide Applied, IsAttribute, InkAttr, PaperAttr, TextAttr;
    var o1 := out + PaperTokens(cur, look);
    var o2 := o1 + TextTokens(cur, look);
    var o3 := o2 + InkTokens(cur, look);
    assert out + StyleTokens(cur, look) == o3;
    OptionalRead(out, PaperTokens(cur, look), cur, one, widest);
    OptionalRead(o1, TextTokens(cur, look), one, two, widest);
    OptionalRead(o2, InkTokens(cur, look), two, look, widest);
  }

  lemma OptionalRead(out: seq<Token>, ts: seq<Token>, l: Look, l': Look, widest: nat)
    requires var r := ReadTokens(out); r.widest <= widest && r.col + |ts| <= widest && (r.col <= WIDTH ==> r.look == l)
    requires (ts == [] && l == l') || (|ts| == 1 && ts[0].Cell? && IsAttribute(ts[0].b) && Applied(l, ts[0].b) == l')
    ensures var r, r' := ReadTokens(out), ReadTokens(out + ts);
            && r'.col == r.col + |ts| && r'.glyphs == r.glyphs && r'.lost == r.lost && r'.ends == r.ends
               && r'.widest <= widest
            && (r'.col <= WIDTH ==> r'.look == l')
  {
    if ts == [] {
      assert out + ts == out;
    } else {
      assert ts == [Cell(ts[0].b)];
      AttributeRead(out, ts[0].b, widest);
    }
  }

  lemma StyledFits(w: Writer, look: Look, shown: seq<Glyph>, total: nat, widest: nat)
    requires Fits(w, shown, total, widest) && w.col <= WIDTH
    ensures Fits(Styled(w, look), shown, total, Max(widest, w.col + 3))
  {
    StyleRead(w.out, w.cur, look, Max(widest, w.col + 3));
  }

  lemma WrappedFits(w: Writer, shown: seq<Glyph>, total: nat, widest: nat)
    requires Fits(w, shown, total, widest) && 3 <= widest
    ensures Fits(Wrapped(w), shown, total, widest) && Wrapped(w).col == Wrapped(w).lineStart <= 3
            && Wrapped(w).cur == w.cur
  {
    ReadNext(w.out, NewLine);
    StyleRead(w.out + [NewLine], DEFAULT, w.cur, widest);
  }

  lemma {:induction false} ChoppedFits(w: Writer, word: seq<byte>, inverse: bool, shown: seq<Glyph>, total: nat,
      widest: nat)
    requires Fits(w, shown, total, widest) && WIDTH <= widest && w.col <= WIDTH
    requires w.col + |word| <= WIDTH || w.col == w.lineStart
    ensures var v := Chopped(w, word, inverse);
            Fits(v, shown + TextMeaning(word, w.cur, inverse), total + |word|, widest) && v.col <= WIDTH
                && v.cur == w.cur
    decreases |word|
  {
    hide Fits, TextMeaning, Wrapped;
    FitsStart(w, shown, total, widest);
    if w.col + |word| > WIDTH {
      var take := WIDTH - w.col;
      var head, tail := word[..take], word[take..];
      TypedFits(w, head, inverse, shown, total, widest);
      var v := Typed(w, head, inverse);
      WrappedFits(v, shown + TextMeaning(head, w.cur, inverse), total + take, widest);
      ChoppedFits(Wrapped(v), tail, inverse, shown + TextMeaning(head, w.cur, inverse), total + take, widest);
      TextMeaningAppend(head, tail, w.cur, inverse);
      assert word == head + tail;
      Regroup(shown, TextMeaning(head, w.cur, inverse), TextMeaning(tail, w.cur, inverse));
    } else {
      TypedFits(w, word, inverse, shown, total, widest);
    }
  }

  lemma Regroup(a: seq<Glyph>, b: seq<Glyph>, c: seq<Glyph>)
    ensures (a + b) + c == a + (b + c)
  {}

  lemma FitsStart(w: Writer, shown: seq<Glyph>, total: nat, widest: nat)
    requires Fits(w, shown, total, widest)
    ensures w.lineStart <= 3
  {}

  lemma WordFits(w: Writer, word: seq<byte>, inverse: bool, shown: seq<Glyph>, total: nat, widest: nat)
    requires Fits(w, shown, total, widest) && WIDTH <= widest
    ensures var v := WordWritten(w, word, inverse);
            Fits(v, shown + TextMeaning(word, w.cur, inverse), total + |word|, widest) && v.col <= WIDTH
                && v.cur == w.cur
  {
    hide Fits, TextMeaning, Wrapped, Chopped;
    FitsStart(w, shown, total, widest);
    FitsColumn(w, shown, total, widest);
    if w.col > w.lineStart && w.col + |word| > WIDTH {
      WrappedFits(w, shown, total, widest);
      ChoppedFits(Wrapped(w), word, inverse, shown, total, widest);
    } else {
      ChoppedFits(w, word, inverse, shown, total, widest);
    }
  }

  lemma FitsColumn(w: Writer, shown: seq<Glyph>, total: nat, widest: nat)
    requires Fits(w, shown, total, widest)
    ensures w.lineStart <= w.col
  {}

  /** A line end may stand for a space. */
  lemma WrappedSpaceFits(w: Writer, shown: seq<Glyph>, total: nat, widest: nat)
    requires Fits(w, shown, total, widest) && 3 <= widest
    ensures Fits(Wrapped(w), shown, total + 1, widest) && Wrapped(w).cur == w.cur
  {
    hide StyleTokens;
    ReadNext(w.out, NewLine);
    StyleRead(w.out + [NewLine], DEFAULT, w.cur, widest);
  }

  lemma SpacedFits(w: Writer, inverse: bool, shown: seq<Glyph>, total: nat, widest: nat)
    requires Fits(w, shown, total, widest) && WIDTH <= widest
    ensures Fits(Spaced(w, inverse), shown, total + 1, widest) && Spaced(w, inverse).cur == w.cur
  {
    hide Fits, Wrapped;
    if w.col >= WIDTH {
      WrappedSpaceFits(w, shown, total, widest);
    } else {
      TypedFits(w, [BLANK], inverse, shown, total, widest);
      SpaceMeaning(w.cur, inverse);
      assert shown + [] == shown;
    }
  }

  lemma {:induction false} WordsFit(w: Writer, words: seq<seq<byte>>, n: nat, inverse: bool, shown: seq<Glyph>,
      total: nat, widest: nat)
    requires Fits(w, shown, total, widest) && WIDTH <= widest && n <= |words|
    ensures var v := WordsWritten(w, words, n, inverse);
            && Fits(v, shown + WordsMeaning(words[..n], w.cur, inverse), total + WordsLength(words, n), widest)
               && v.cur == w.cur
            && (n > 0 ==> v.col <= WIDTH)
  {
    hide Fits, TextMeaning, WordWritten, Spaced;
    if n == 0 {
      assert shown + [] == shown;
    } else {
      WordsFit(w, words, n - 1, inverse, shown, total, widest);
      var v := WordsWritten(w, words, n - 1, inverse);
      var so := shown + WordsMeaning(words[..n - 1], w.cur, inverse);
      var long := total + WordsLength(words, n - 1);
      if n - 1 > 0 { SpacedFits(v, inverse, so, long, widest); }
      WordFits(if n - 1 > 0 then Spaced(v, inverse) else v, words[n - 1], inverse, so,
               if n - 1 > 0 then long + 1 else long, widest);
      assert words[..n][..n - 1] == words[..n - 1];
      Regroup(shown, WordsMeaning(words[..n - 1], w.cur, inverse), TextMeaning(words[n - 1], w.cur, inverse));
    }
  }

  lemma SpanFits(w: Writer, sp: Span, shown: seq<Glyph>, total: nat, widest: nat)
    requires Fits(w, shown, total, widest) && WIDTH <= widest && w.col <= WIDTH
    ensures var v := SpanWritten(w, sp);
            Fits(v, shown + TextMeaning(sp.text, sp.look, sp.inverse), total + |sp.text|, Max(widest, w.col + 3))
                && v.col <= WIDTH
  {
    hide Fits, TextMeaning, WordsMeaning, WordsWritten, Styled;
    var words := Split(sp.text);
    StyledFits(w, sp.look, shown, total, widest);
    SplitLength(sp.text);
    StyledLook(w, sp.look);
    WordsFit(Styled(w, sp.look), words, |words|, sp.inverse, shown, total, Max(widest, w.col + 3));
    assert words[..|words|] == words;
    SplitMeaning(sp.text, sp.look, sp.inverse);
  }

  lemma StyledLook(w: Writer, look: Look)
    ensures Styled(w, look).cur == look
  {}

  lemma {:induction false} SpansFit(spans: seq<Span>)
    ensures var v := SpansWritten(spans);
            Fits(v, Meaning(spans), Length(spans), if |spans| <= 1 then WIDTH else WIDTH + 3) && v.col <= WIDTH
  {
    hide Fits, TextMeaning, SpanWritten;
    if spans == [] {
      NothingFits();
    } else {
      var front, sp := spans[..|spans| - 1], spans[|spans| - 1];
      SpansFit(front);
      var w := SpansWritten(front);
      var widest := if |front| <= 1 then WIDTH else WIDTH + 3;
      SpanFits(w, sp, Meaning(front), Length(front), widest);
      FitsWider(SpanWritten(w, sp), Meaning(spans), Length(spans), Max(widest, w.col + 3),
                if |spans| <= 1 then WIDTH else WIDTH + 3);
    }
  }

  lemma NothingFits()
    ensures Fits(BLANK_LINE, [], 0, WIDTH)
  {}

  lemma FitsWider(w: Writer, shown: seq<Glyph>, total: nat, a: nat, b: nat)
    requires Fits(w, shown, total, a) && a <= b
    ensures Fits(w, shown, total, b)
  {}

  /** For every line: its visible characters are shown in order, each with its own span's colours,
      text attributes and inverse, none of them nor any space beyond the 40 cells; a line end stands
      for every space that is not shown; no physical line
      asks for more than 43 cells, and none of a line without segments for more than 40. */
  lemma LineKeepsMeaning(ln: Line)
    ensures var r := ReadTokens(SpansWritten(Spans(ln)).out);
            && Visible(r.glyphs) == Meaning(Spans(ln)) && r.lost == 0
            && |r.glyphs| <= Length(Spans(ln)) <= |r.glyphs| + r.ends
            && r.widest <= (if |Spans(ln)| == 1 then WIDTH else WIDTH + 3)
  {
    SpansFit(Spans(ln));
  }

  // ---------------------------------------------------------------- the bytes on the link

  predicate PlainText(l: Look) { !l.blink && !l.dbl && !l.alt }

  predicate SameText(l: Look, m: Look) { l.blink == m.blink && l.dbl == m.dbl && l.alt == m.alt }

  /** Text attributes whose byte is neither BS (none), LF (double height alone) nor CR (blinking
      alternate characters): the terminal takes those three for control characters. */
  predicate SafeText(l: Look) { !PlainText(l) && !(l.dbl && !l.blink && !l.alt) && !(l.blink && l.alt && !l.dbl) }

  /** What a line may ask for without a text attribute being taken for a control character. */
  predicate SafeLine(spans: seq<Span>) {
    forall i :: 0 <= i < |spans| ==> SafeChange(LookBefore(spans, i), spans[i].look)
  }

  function LookBefore(spans: seq<Span>, i: nat): Look
    requires i <= |spans|
  {
    if i == 0 then DEFAULT else spans[i - 1].look
  }

  predicate SafeChange(l: Look, m: Look) { SameText(l, m) || SafeText(m) }

  predicate Again(l: Look) { PlainText(l) || SafeText(l) }

  lemma SafeBoth(s: seq<Token>, t: seq<Token>)
    ensures AllSafe(s + t) <==> AllSafe(s) && AllSafe(t)
  {
    hide Safe;
    assert forall i :: 0 <= i < |s| ==> (s + t)[i] == s[i];
    assert forall i :: 0 <= i < |t| ==> (s + t)[|s| + i] == t[i];
  }

  lemma CharsSafe(s: seq<byte>, inverse: bool)
    ensures AllSafe(Chars(s, inverse))
  {}

  lemma StyleSafe(cur: Look, look: Look)
    ensures AllSafe(StyleTokens(cur, look)) <==> SameText(cur, look) || SafeText(look)
  {
    OptionalSafe(cur, look);
    hide Safe, SameText, SafeText, PaperTokens, InkTokens, TextTokens;
    SafeBoth(PaperTokens(cur, look), TextTokens(cur, look));
    SafeBoth(PaperTokens(cur, look) + TextTokens(cur, look), InkTokens(cur, look));
  }

  lemma OptionalSafe(cur: Look, look: Look)
    ensures AllSafe(PaperTokens(cur, look)) && AllSafe(InkTokens(cur, look))
    ensures AllSafe(TextTokens(cur, look)) <==> SameText(cur, look) || SafeText(look)
  {
    TextSafe(look);
    var text := Cell(TextAttr(look.blink, look.dbl, look.alt));
    assert [text][0] == text;
  }

  lemma TextSafe(look: Look)
    ensures Safe(Cell(TextAttr(look.blink, look.dbl, look.alt))) <==> SafeText(look)
  {}

  lemma TypedSafe(w: Writer, s: seq<byte>, inverse: bool)
    ensures AllSafe(Typed(w, s, inverse).out) <==> AllSafe(w.out)
  {
    CharsSafe(s, inverse);
    SafeBoth(w.out, Chars(s, inverse));
  }

  lemma WrappedSafe(w: Writer)
    ensures AllSafe(Wrapped(w).out) <==> AllSafe(w.out) && Again(w.cur)
  {
    SafeBoth(w.out, [NewLine]);
    SafeBoth(w.out + [NewLine], StyleTokens(DEFAULT, w.cur));
    StyleSafe(DEFAULT, w.cur);
    assert AllSafe([NewLine]);
  }

  lemma {:induction false} ChoppedSafe(w: Writer, word: seq<byte>, inverse: bool)
    ensures var v := Chopped(w, word, inverse); v.cur == w.cur && (AllSafe(v.out) ==> AllSafe(w.out))
    ensures Again(w.cur) ==> (AllSafe(Chopped(w, word, inverse).out) <==> AllSafe(w.out))
    decreases |word|
  {
    hide AllSafe, Again;
    if w.col + |word| > WIDTH && w.col < WIDTH {
      var take := WIDTH - w.col;
      var v := Typed(w, word[..take], inverse);
      TypedSafe(w, word[..take], inverse);
      WrappedSafe(v);
      ChoppedSafe(Wrapped(v), word[take..], inverse);
    } else {
      TypedSafe(w, word, inverse);
    }
  }

  lemma WordSafe(w: Writer, word: seq<byte>, inverse: bool, space: bool)
    ensures var v := WordWritten(if space then Spaced(w, inverse) else w, word, inverse);
            v.cur == w.cur && (AllSafe(v.out) ==> AllSafe(w.out))
                && (Again(w.cur) ==> (AllSafe(v.out) <==> AllSafe(w.out)))
  {
    hide AllSafe, Again, Chopped;
    TypedSafe(w, [BLANK], inverse);
    WrappedSafe(w);
    var u := if space then Spaced(w, inverse) else w;
    WrappedSafe(u);
    ChoppedSafe(if u.col > u.lineStart && u.col + |word| > WIDTH then Wrapped(u) else u, word, inverse);
  }

  lemma {:induction false} WordsSafe(w: Writer, words: seq<seq<byte>>, n: nat, inverse: bool)
    requires n <= |words|
    ensures var v := WordsWritten(w, words, n, inverse);
            v.cur == w.cur && (AllSafe(v.out) ==> AllSafe(w.out))
                && (Again(w.cur) ==> (AllSafe(v.out) <==> AllSafe(w.out)))
  {
    hide AllSafe, Again, WordWritten, Spaced;
    if n > 0 {
      WordsSafe(w, words, n - 1, inverse);
      WordSafe(WordsWritten(w, words, n - 1, inverse), words[n - 1], inverse, n - 1 > 0);
    }
  }

  lemma SpanSafe(w: Writer, sp: Span)
    requires AllSafe(w.out) ==> Again(w.cur)
    ensures var v := SpanWritten(w, sp);
            && v.cur == sp.look
            && (AllSafe(v.out) <==> AllSafe(w.out) && (SameText(w.cur, sp.look) || SafeText(sp.look)))
            && (AllSafe(v.out) ==> Again(v.cur))
  {
    var words := Split(sp.text);
    StyleSafe(w.cur, sp.look);
    SafeBoth(w.out, StyleTokens(w.cur, sp.look));
    SameAgain(w.cur, sp.look);
    hide AllSafe, Again, StyleTokens, WordsWritten, Split, SafeText, SameText;
    WordsSafe(Styled(w, sp.look), words, |words|, sp.inverse);
  }

  lemma SameAgain(l: Look, m: Look)
    ensures SameText(l, m) && Again(l) ==> Again(m)
    ensures SafeText(m) ==> Again(m)
  {}

  /** Every cell of a written line is taken for a cell by the terminal, if and only if the text
      attributes the line asks for allow it. */
  lemma {:induction false} LineSafe(spans: seq<Span>)
    ensures var v := SpansWritten(spans);
            && (AllSafe(v.out) <==> SafeLine(spans)) && (AllSafe(v.out) ==> Again(v.cur))
            && v.cur == if spans == [] then DEFAULT else spans[|spans| - 1].look
  {
    hide SpanWritten, SafeText, SameText, Again;
    if spans == [] {
      PlainAgain();
    } else {
      var front, sp := spans[..|spans| - 1], spans[|spans| - 1];
      LineSafe(front);
      SpanSafe(SpansWritten(front), sp);
      SafeLineNext(front, sp);
      assert front + [sp] == spans;
    }
  }

  lemma SafeLineNext(front: seq<Span>, sp: Span)
    ensures SafeLine(front + [sp]) <==>
            SafeLine(front) && SafeChange(LookBefore(front, |front|), sp.look)
  {
    hide SafeChange, LookBefore;
    var spans := front + [sp];
    forall i | 0 <= i <= |front|
      ensures LookBefore(spans, i) == LookBefore(front, i)
    {
      BeforeSame(front, sp, i);
    }
    if SafeLine(spans) {
      forall i | 0 <= i < |front|
        ensures SafeChange(LookBefore(front, i), front[i].look)
      {
        assert spans[i] == front[i];
      }
      assert spans[|front|] == sp;
    }
  }

  lemma BeforeSame(front: seq<Span>, sp: Span, i: nat)
    requires i <= |front|
    ensures LookBefore(front + [sp], i) == LookBefore(front, i)
  {}

  lemma PlainAgain()
    ensures Again(DEFAULT)
  {}

  /** For such a line, the terminal shows what the line means. */
  lemma TerminalShows(ln: Line)
    requires SafeLine(Spans(ln))
    ensures Visible(SheetGlyphs(PutAll(Stream(SpansWritten(Spans(ln)).out)))) == Meaning(Spans(ln))
  {
    LineSafe(Spans(ln));
    LineKeepsMeaning(ln);
    SafeReads(SpansWritten(Spans(ln)).out);
  }

  // ---------------------------------------------------------------- what a terminal can never show

  /** What is written for a cell: an ink, text or paper attribute, or a character, plain or inverse. */
  predicate Ordinary(t: Token) { t.Cell? ==> t.b < 0x18 || 0x20 <= t.b < 0x80 || 0xA0 <= t.b }

  ghost predicate AllOrdinary(ts: seq<Token>) { forall i :: 0 <= i < |ts| ==> Ordinary(ts[i]) }

  lemma OrdinaryBoth(s: seq<Token>, t: seq<Token>)
    requires AllOrdinary(s) && AllOrdinary(t)
    ensures AllOrdinary(s + t)
  {
    hide Ordinary;
  }

  lemma CharsOrdinary(s: seq<byte>, inverse: bool)
    ensures AllOrdinary(Chars(s, inverse))
  {}

  lemma StyleOrdinary(cur: Look, look: Look)
    ensures AllOrdinary(StyleTokens(cur, look))
  {
    OrdinaryBoth(PaperTokens(cur, look), TextTokens(cur, look));
    OrdinaryBoth(PaperTokens(cur, look) + TextTokens(cur, look), InkTokens(cur, look));
  }

  lemma TypedOrdinary(w: Writer, s: seq<byte>, inverse: bool)
    requires AllOrdinary(w.out)
    ensures AllOrdinary(Typed(w, s, inverse).out)
  {
    CharsOrdinary(s, inverse);
    OrdinaryBoth(w.out, Chars(s, inverse));
  }

  lemma WrappedOrdinary(w: Writer)
    requires AllOrdinary(w.out)
    ensures AllOrdinary(Wrapped(w).out)
  {
    StyleOrdinary(DEFAULT, w.cur);
    assert AllOrdinary([NewLine]);
    hide AllOrdinary, StyleTokens;
    OrdinaryBoth(w.out, [NewLine]);
    OrdinaryBoth(w.out + [NewLine], StyleTokens(DEFAULT, w.cur));
  }

  lemma {:induction false} ChoppedOrdinary(w: Writer, word: seq<byte>, inverse: bool)
    requires AllOrdinary(w.out)
    ensures AllOrdinary(Chopped(w, word, inverse).out)
    decreases |word|
  {
    hide AllOrdinary;
    if w.col + |word| > WIDTH && w.col < WIDTH {
      var take := WIDTH - w.col;
      TypedOrdinary(w, word[..take], inverse);
      WrappedOrdinary(Typed(w, word[..take], inverse));
      ChoppedOrdinary(Wrapped(Typed(w, word[..take], inverse)), word[take..], inverse);
    } else {
      TypedOrdinary(w, word, inverse);
    }
  }

  lemma {:induction false} WordsOrdinary(w: Writer, words: seq<seq<byte>>, n: nat, inverse: bool)
    requires n <= |words| && AllOrdinary(w.out)
    ensures AllOrdinary(WordsWritten(w, words, n, inverse).out)
  {
    hide AllOrdinary, Chopped, Wrapped;
    if n > 0 {
      WordsOrdinary(w, words, n - 1, inverse);
      var v := WordsWritten(w, words, n - 1, inverse);
      WrappedOrdinary(v);
      TypedOrdinary(v, [BLANK], inverse);
      var u := if n - 1 > 0 then Spaced(v, inverse) else v;
      WrappedOrdinary(u);
      ChoppedOrdinary(if u.col > u.lineStart && u.col + |words[n - 1]| > WIDTH then Wrapped(u) else u,
                      words[n - 1], inverse);
    }
  }

  /** Whatever its text, a line is written as colours, text attributes and characters only: no command,
      no video mode, and nothing of the text passes for an attribute. */
  lemma {:induction false} LineOrdinary(spans: seq<Span>)
    ensures AllOrdinary(SpansWritten(spans).out)
  {
    hide AllOrdinary, WordsWritten, Split;
    if spans == [] {
      assert AllOrdinary([]) by { NothingOrdinary(); }
    } else {
      var front, sp := spans[..|spans| - 1], spans[|spans| - 1];
      LineOrdinary(front);
      var w := SpansWritten(front);
      StyleOrdinary(w.cur, sp.look);
      OrdinaryBoth(w.out, StyleTokens(w.cur, sp.look));
      WordsOrdinary(Styled(w, sp.look), Split(sp.text), |Split(sp.text)|, sp.inverse);
    }
  }

  lemma NothingOrdinary()
    ensures AllOrdinary([])
  {}

  /** What a cell can come to hold. */
  predicate Stored(b: byte) { Ordinary(Cell(b)) && Safe(Cell(b)) }

  ghost predicate StoredLine(line: seq<byte>) { forall i :: 0 <= i < |line| ==> Stored(line[i]) }

  ghost predicate StoredSheet(s: Sheet) {
    StoredLine(s.line) && forall i :: 0 <= i < |s.above| ==> StoredLine(s.above[i])
  }

  lemma PutStored(s: Sheet, b: byte)
    requires s.col <= |s.line| <= WIDTH && StoredSheet(s) && Ordinary(Cell(b))
    ensures StoredSheet(Put(s, b))
  {}

  lemma {:induction false} OrdinaryStored(ts: seq<Token>)
    requires AllOrdinary(ts)
    ensures StoredSheet(PutAll(Stream(ts)))
  {
    hide Put, StoredSheet;
    if ts == [] {
      EmptyStored();
    } else {
      var front, last := ts[..|ts| - 1], ts[|ts| - 1];
      OrdinaryStored(front);
      if last.Cell? {
        PutNext(Stream(front), last.b);
        PutStored(PutAll(Stream(front)), last.b);
      } else {
        PutNext(Stream(front), 0x0D);
        PutNext(Stream(front) + [0x0D], 0x0A);
        PutStored(PutAll(Stream(front)), 0x0D);
        PutStored(PutAll(Stream(front) + [0x0D]), 0x0A);
        assert Stream(front) + [0x0D, 0x0A] == Stream(front) + [0x0D] + [0x0A];
      }
    }
  }

  lemma EmptyStored()
    ensures StoredSheet(EMPTY)
  {}

  ghost predicate AllAgain(gs: seq<Glyph>) { forall i :: 0 <= i < |gs| ==> Again(gs[i].look) }

  /** The attributes in force are always ones whose byte fits in a cell. */
  lemma StoredApplied(l: Look, b: byte)
    requires Again(l) && Stored(b) && IsAttribute(b)
    ensures Again(Applied(l, b))
  {}

  lemma {:induction false} LineAgain(line: seq<byte>)
    requires StoredLine(line)
    ensures Again(LookAfter(line)) && AllAgain(LineGlyphs(line))
  {
    hide Stored, IsAttribute, Applied, Again;
    PlainAgain();
    if line != [] {
      var front, b := line[..|line| - 1], line[|line| - 1];
      LineAgain(front);
      if IsAttribute(b) { StoredApplied(LookAfter(front), b); }
    }
  }

  lemma {:induction false} AboveAgain(above: seq<seq<byte>>)
    requires forall i :: 0 <= i < |above| ==> StoredLine(above[i])
    ensures AllAgain(Glyphs(above))
  {
    hide StoredLine, Again;
    if above != [] {
      AboveAgain(above[..|above| - 1]);
      LineAgain(above[|above| - 1]);
    }
  }

  lemma {:induction false} VisibleAgain(gs: seq<Glyph>)
    requires AllAgain(gs)
    ensures AllAgain(Visible(gs))
  {
    hide Again;
    if gs != [] { VisibleAgain(gs[..|gs| - 1]); }
  }

  /** Whatever line is written, no character shows in double height alone, nor in blinking alternate
      characters: so a line that asks for a visible one is not shown as it is meant. */
  lemma NeverShown(ln: Line)
    requires Visible(SheetGlyphs(PutAll(Stream(SpansWritten(Spans(ln)).out)))) == Meaning(Spans(ln))
    ensures AllAgain(Meaning(Spans(ln)))
  {
    hide SpansWritten, Stream, PutAll, Again, Visible, Meaning;
    LineOrdinary(Spans(ln));
    var s := PutAll(Stream(SpansWritten(Spans(ln)).out));
    OrdinaryStored(SpansWritten(Spans(ln)).out);
    AboveAgain(s.above);
    LineAgain(s.line);
    VisibleAgain(SheetGlyphs(s));
  }

  // ---------------------------------------------------------------- exactly when, for lines of uniform text attributes

  /** Colours may change along the line; text attributes do not. */
  ghost predicate Uniform(spans: seq<Span>, look: Look) {
    forall i :: 0 <= i < |spans| ==> SameText(look, spans[i].look)
  }

  /** For a line whose spans all have the same text attributes, with something to show, the terminal
      shows what the line means if and only if these are none, or neither double height alone nor
      blinking alternate characters. */
  lemma UniformExact(ln: Line)
    requires Uniform(Spans(ln), Spans(ln)[0].look) && Meaning(Spans(ln)) != []
    ensures Visible(SheetGlyphs(PutAll(Stream(SpansWritten(Spans(ln)).out)))) == Meaning(Spans(ln))
            <==> Again(Spans(ln)[0].look)
  {
    var spans := Spans(ln);
    hide SpansWritten, Stream, PutAll, SheetGlyphs, Visible, Again, Meaning;
    if Again(spans[0].look) {
      UniformSafe(spans, spans[0].look);
      TerminalShows(ln);
    } else if Visible(SheetGlyphs(PutAll(Stream(SpansWritten(spans).out)))) == Meaning(spans) {
      NeverShown(ln);
      UniformMeaning(spans, spans[0].look);
      assert Again(Meaning(spans)[0].look);
      AgainSame(spans[0].look, Meaning(spans)[0].look);
    }
  }

  lemma AgainSame(l: Look, m: Look)
    requires SameText(l, m)
    ensures Again(l) <==> Again(m)
  {}

  lemma UniformSafe(spans: seq<Span>, look: Look)
    requires Uniform(spans, look) && Again(look)
    ensures SafeLine(spans)
  {
    hide SafeText;
    forall i | 0 <= i < |spans|
      ensures SafeChange(LookBefore(spans, i), spans[i].look)
    {
      AgainSame(look, spans[i].look);
      if i > 0 { assert SameText(look, spans[i - 1].look); }
    }
  }

  lemma {:induction false} UniformMeaning(spans: seq<Span>, look: Look)
    requires Uniform(spans, look)
    ensures forall i :: 0 <= i < |Meaning(spans)| ==> SameText(look, Meaning(spans)[i].look)
  {
    hide TextMeaning;
    if spans != [] {
      var sp := spans[|spans| - 1];
      UniformMeaning(spans[..|spans| - 1], look);
      MeaningLook(sp.text, sp.look, sp.inverse);
    }
  }

  lemma {:induction false} MeaningLook(s: seq<byte>, look: Look, inverse: bool)
    ensures forall i :: 0 <= i < |TextMeaning(s, look, inverse)| ==> TextMeaning(s, look, inverse)[i].look == look
  {
    if s != [] { MeaningLook(s[..|s| - 1], look, inverse); }
  }
}
