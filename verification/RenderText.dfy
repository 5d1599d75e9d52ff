/** The loops of `emitLineWrapped` (internal/render/render.go): columns and style are counted while
    the builder is appended to.  What they append is proved to be what Wrap says of the line. */
module RenderText {
  import opened Bytes
  import opened Oascii
  import opened Wrap
  import opened OasciiBuilder

  /** `emitStyle`: returns the cells taken and the attributes now in force. */
  method EmitStyle(b: Builder, cur: Look, look: Look) returns (n: nat, now: Look)
    modifies b`buf, b`ink, b`paper, b`blink, b`dbl, b`alt
    ensures b.buf == old(b.buf) + Stream(StyleTokens(cur, look)) && n == |StyleTokens(cur, look)| && now == look
    ensures b.Style() == Dressed(old(b.Style()), cur, look)
  {
    hide Stream, StyleTokens, PaperAttr, InkAttr, TextAttr;
    StyleStream(cur, look);
    n, now := 0, cur;
    if look.paper != now.paper {
      b.Paper(look.paper);
      n, now := n + 1, now.(paper := look.paper);
    }
    assert b.buf == old(b.buf) + PaperBytes(cur, look) && n == |PaperBytes(cur, look)|;
    n, now := EmitText(b, now, look, n);
    assert TextBytes(cur.(paper := look.paper), look) == TextBytes(cur, look);
    hide PaperBytes, TextBytes;
    if look.ink != now.ink {
      b.Ink(look.ink);
      n, now := n + 1, now.(ink := look.ink);
    }
    Joined(old(b.buf), PaperBytes(cur, look), TextBytes(cur, look), InkBytes(cur, look));
  }

  method EmitText(b: Builder, cur: Look, look: Look, n0: nat) returns (n: nat, now: Look)
    modifies b`buf, b`blink, b`dbl, b`alt
    ensures b.buf == old(b.buf) + TextBytes(cur, look) && n == n0 + |TextBytes(cur, look)|
    ensures now == cur.(blink := look.blink, dbl := look.dbl, alt := look.alt)
    ensures b.Style() == if SameText(look, cur) then old(b.Style())
            else old(b.Style()).(blink := look.blink, dbl := look.dbl, alt := look.alt)
  {
    n, now := n0, cur;
    if look.blink != now.blink || look.dbl != now.dbl || look.alt != now.alt {
      b.Attrs(look.blink, look.dbl, look.alt);
      n, now := n + 1, now.(blink := look.blink, dbl := look.dbl, alt := look.alt);
    }
  }

  /** The builder, which began with the style l, has sent after `base` what the writer w has written. */
  ghost predicate Holds(b: Builder, base: seq<byte>, l: Look, w: Writer)
    reads b
  {
    b.buf == base + Sent(b.sticky, l, w.out) && b.Style() == Worn(l, w.out)
  }

  lemma MoreHeld(sticky: bool, base: seq<byte>, l: Look, s: seq<Token>, t: seq<Token>)
    ensures base + Sent(sticky, l, s) + Sent(sticky, Worn(l, s), t) == base + Sent(sticky, l, s + t)
    ensures Worn(l, s + t) == Worn(Worn(l, s), t)
  {
    hide Sent, Worn;
    SentInTurn(sticky, l, s, t);
    WornInTurn(l, s, t);
  }

  /** `emitChars` */
  method EmitChars(b: Builder, s: seq<byte>, inverse: bool, ghost base: seq<byte>, ghost l: Look, ghost w: Writer)
    requires Holds(b, base, l, w)
    modifies b`buf
    ensures b.buf == old(b.buf) + Stream(Chars(s, inverse)) && Holds(b, base, l, Typed(w, s, inverse))
  {
    hide Stream, Chars, Worn, Sent;
    ghost var now := Worn(l, w.out);
    CharsCells(s, inverse);
    CellsSent(b.sticky, now, Chars(s, inverse));
    CharsWorn(now, s, inverse);
    MoreHeld(b.sticky, base, l, w.out, Chars(s, inverse));
    if inverse { b.InverseText(s); } else { b.Text(s); }
  }

  lemma CharsCells(s: seq<byte>, inverse: bool)
    ensures forall i :: 0 <= i < |Chars(s, inverse)| ==> Chars(s, inverse)[i].Cell?
  {}

  /** The closure `wrap`. */
  method WrapLine(b: Builder, cur: Look, ghost base: seq<byte>, ghost l: Look, ghost w: Writer) returns (col: nat)
    requires Holds(b, base, l, w) && cur == w.cur
    modifies b`buf, b`ink, b`paper, b`blink, b`dbl, b`alt
    ensures Holds(b, base, l, Wrapped(w)) && col == Wrapped(w).col == Wrapped(w).lineStart
  {
    hide Stream, StyleTokens, Worn, Sent, Dressed;
    ghost var again := StyleTokens(DEFAULT, cur);
    EndSent(b.sticky, Worn(l, w.out));
    MoreHeld(b.sticky, base, l, w.out, [NewLine]);
    b.Newline();
    StyleWorn(Worn(l, w.out), DEFAULT, cur);
    CellsSent(b.sticky, Worn(l, w.out), again);
    MoreHeld(b.sticky, base, l, w.out + [NewLine], again);
    col := b.ReemitAttrs(cur);
  }

  /** One word and the space before it; `spaced` for every word of a text but the first. */
  method EmitWord(b: Builder, word: seq<byte>, spaced: bool, inverse: bool, cur: Look, col0: nat, lineStart0: nat,
                  ghost base: seq<byte>, ghost l: Look, ghost w: Writer) returns (col: nat, lineStart: nat)
    requires Holds(b, base, l, w) && cur == w.cur && col0 == w.col && lineStart0 == w.lineStart
    modifies b`buf, b`ink, b`paper, b`blink, b`dbl, b`alt
    ensures var v := WordWritten(if spaced then Spaced(w, inverse) else w, word, inverse);
            Holds(b, base, l, v) && col == v.col && lineStart == v.lineStart
  {
    hide Holds, Wrapped, Typed, Chopped;
    TypedShape(w, [BLANK], inverse);
    WrappedShape(w);
    col, lineStart := col0, lineStart0;
    if spaced {
      if col >= WIDTH {
        col := WrapLine(b, cur, base, l, w);
        lineStart := col;
      } else {
        EmitChars(b, [BLANK], inverse, base, l, w);
        col := col + 1;
      }
    }
    ghost var u := if spaced then Spaced(w, inverse) else w;
    WrappedShape(u);
    if col > lineStart && col + |word| > WIDTH {
      col := WrapLine(b, cur, base, l, u);
      lineStart := col;
      u := Wrapped(u);
    }
    col, lineStart := EmitCut(b, word, inverse, cur, col, lineStart, base, l, u);
  }

  lemma TypedShape(w: Writer, s: seq<byte>, inverse: bool)
    ensures var v := Typed(w, s, inverse); v.cur == w.cur && v.col == w.col + |s| && v.lineStart == w.lineStart
  {}

  lemma WrappedShape(w: Writer)
    ensures Wrapped(w).cur == w.cur && Wrapped(w).col == Wrapped(w).lineStart
  {}

  /** A word cut where lines end. */
  method EmitCut(b: Builder, word: seq<byte>, inverse: bool, cur: Look, col0: nat, lineStart0: nat,
                 ghost base: seq<byte>, ghost l: Look, ghost w: Writer) returns (col: nat, lineStart: nat)
    requires Holds(b, base, l, w) && cur == w.cur && col0 == w.col && lineStart0 == w.lineStart
    modifies b`buf, b`ink, b`paper, b`blink, b`dbl, b`alt
    ensures var v := Chopped(w, word, inverse); Holds(b, base, l, v) && col == v.col && lineStart == v.lineStart
  {
    hide Holds, Wrapped, Typed;
    var rest := word;
    col, lineStart := col0, lineStart0;
    ghost var u := w;
    while col + |rest| > WIDTH && WIDTH - col > 0
      invariant Holds(b, base, l, u) && u.cur == cur && u.col == col && u.lineStart == lineStart
      invariant Chopped(u, rest, inverse) == Chopped(w, word, inverse)
      decreases |rest|
    {
      var take := WIDTH - col;
      col := EmitHead(b, rest[..take], inverse, cur, base, l, u);
      WrappedShape(Typed(u, rest[..take], inverse));
      u := Wrapped(Typed(u, rest[..take], inverse));
      rest := rest[take..];
      lineStart := col;
    }
    TypedShape(u, rest, inverse);
    EmitChars(b, rest, inverse, base, l, u);
    col := col + |rest|;
  }

  /** The part of a word that fills the line, and the new line. */
  method EmitHead(b: Builder, head: seq<byte>, inverse: bool, cur: Look, ghost base: seq<byte>, ghost l: Look,
      ghost w: Writer) returns (col: nat)
    requires Holds(b, base, l, w) && cur == w.cur
    modifies b`buf, b`ink, b`paper, b`blink, b`dbl, b`alt
    ensures var v := Wrapped(Typed(w, head, inverse));
            Holds(b, base, l, v) && col == v.col == v.lineStart && v.cur == cur
  {
    hide Wrapped, Holds;
    EmitChars(b, head, inverse, base, l, w);
    TypedShape(w, head, inverse);
    hide Typed;
    WrappedShape(Typed(w, head, inverse));
    col := WrapLine(b, cur, base, l, Typed(w, head, inverse));
  }

  /** `emitStyle`, as far as the writer goes. */
  method EmitLook(b: Builder, cur: Look, look: Look, ghost base: seq<byte>, ghost l: Look, ghost w: Writer)
      returns (n: nat, now: Look)
    requires Holds(b, base, l, w) && cur == w.cur
    modifies b`buf, b`ink, b`paper, b`blink, b`dbl, b`alt
    ensures Holds(b, base, l, Styled(w, look)) && n == |StyleTokens(cur, look)| && now == look
  {
    hide Stream, StyleTokens, Worn, Sent, Dressed;
    StyleWorn(Worn(l, w.out), cur, look);
    CellsSent(b.sticky, Worn(l, w.out), StyleTokens(cur, look));
    MoreHeld(b.sticky, base, l, w.out, StyleTokens(cur, look));
    n, now := EmitStyle(b, cur, look);
  }

  /** One span: its style, then its words. */
  method EmitSpan(b: Builder, sp: Span, cur: Look, col0: nat, lineStart0: nat, ghost base: seq<byte>, ghost l: Look,
      ghost w: Writer)
    returns (col: nat, lineStart: nat, now: Look)
    requires Holds(b, base, l, w) && cur == w.cur && col0 == w.col && lineStart0 == w.lineStart
    modifies b`buf, b`ink, b`paper, b`blink, b`dbl, b`alt
    ensures var v := SpanWritten(w, sp);
            Holds(b, base, l, v) && col == v.col && lineStart == v.lineStart && now == v.cur
  {
    var n;
    ghost var u := Styled(w, sp.look);
    n, now := EmitLook(b, cur, sp.look, base, l, w);
    col, lineStart := col0 + n, lineStart0;
    var words := Split(sp.text);
    hide Holds, WordWritten, Spaced, Split, Styled, StyleTokens;
    for i := 0 to |words|
      invariant var v := WordsWritten(u, words, i, sp.inverse);
                Holds(b, base, l, v) && col == v.col && lineStart == v.lineStart && now == v.cur
    {
      ghost var v := WordsWritten(u, words, i, sp.inverse);
      col, lineStart := EmitWord(b, words[i], i > 0, sp.inverse, now, col, lineStart, base, l, v);
      WordKeepsStyle(v, words[i], i > 0, sp.inverse);
    }
  }

  lemma WordKeepsStyle(w: Writer, word: seq<byte>, spaced: bool, inverse: bool)
    ensures WordWritten(if spaced then Spaced(w, inverse) else w, word, inverse).cur == w.cur
  {
    hide AllSafe, Again;
    WordSafe(w, word, inverse, spaced);
  }

  /** `emitLineWrapped`.  A sticky builder repeats its attributes by itself after every line end, and
      these are not counted; any other sends what the writer writes. */
  method EmitLineWrapped(b: Builder, ln: Line)
    modifies b`buf, b`ink, b`paper, b`blink, b`dbl, b`alt
    ensures b.buf == old(b.buf) + Sent(b.sticky, old(b.Style()), SpansWritten(Spans(ln)).out)
    ensures b.Style() == Worn(old(b.Style()), SpansWritten(Spans(ln)).out)
    ensures !b.sticky ==> b.buf == old(b.buf) + Stream(SpansWritten(Spans(ln)).out)
  {
    var spans := ln.segments;
    if spans == [] { spans := [ln.whole]; }
    var cur, col, lineStart := DEFAULT, 0, 0;
    ghost var base, l := b.buf, b.Style();
    NothingSent(b.sticky, l);
    assert base + [] == base;
    hide SpanWritten, SpansWritten, Worn, Sent;
    NoneWritten();
    for i := 0 to |spans|
      invariant var v := SpansWritten(spans[..i]);
                Holds(b, base, l, v) && col == v.col && lineStart == v.lineStart && cur == v.cur
    {
      ghost var v := SpansWritten(spans[..i]);
      hide Holds;
      OneMoreWritten(spans, i);
      col, lineStart, cur := EmitSpan(b, spans[i], cur, col, lineStart, base, l, v);
    }
    assert spans[..|spans|] == spans;
    PlainSent(l, SpansWritten(spans).out);
  }

  lemma NoneWritten()
    ensures SpansWritten([]) == BLANK_LINE
  {}

  lemma OneMoreWritten(spans: seq<Span>, i: nat)
    requires i < |spans|
    ensures SpansWritten(spans[..i + 1]) == SpanWritten(SpansWritten(spans[..i]), spans[i])
  {
    hide SpanWritten;
    assert spans[..i + 1][..i] == spans[..i];
  }

  lemma NothingSent(sticky: bool, l: Look)
    ensures Sent(sticky, l, []) == [] && Worn(l, []) == l
  {}

  lemma PlainSent(l: Look, ts: seq<Token>)
    ensures Sent(false, l, ts) == Stream(ts)
  {}

  /** `writeLine` */
  method WriteLine(b: Builder, ln: Line)
    modifies b`buf, b`ink, b`paper, b`blink, b`dbl, b`alt
    ensures b.buf == old(b.buf) + Sent(b.sticky, old(b.Style()), SpansWritten(Spans(ln)).out + [NewLine])
    ensures b.Style() == Worn(old(b.Style()), SpansWritten(Spans(ln)).out + [NewLine])
  {
    hide Stream, SpansWritten, Sent, Worn;
    ghost var base, l, out := b.buf, b.Style(), SpansWritten(Spans(ln)).out;
    EmitLineWrapped(b, ln);
    EndSent(b.sticky, Worn(l, out));
    MoreHeld(b.sticky, base, l, out, [NewLine]);
    b.Newline();
  }
}
