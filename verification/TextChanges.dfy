/** Lines that fit on one row and whose text attributes change: exactly when the terminal shows them.
    Changing back to plain text sends 08, which the terminal takes for a backspace. */
module TextChanges {
  import opened Bytes
  import opened Oascii
  import opened Wrap

  // ---------------------------------------------------------------- a line that fits on one row

  /** The first n words with the spaces between them. */
  function Rejoined(words: seq<seq<byte>>, n: nat): seq<byte>
    requires n <= |words|
  {
    if n == 0 then [] else Rejoined(words, n - 1) + (if n > 1 then [BLANK] else []) + words[n - 1]
  }

  lemma {:induction false} RejoinedShift(w: seq<byte>, rest: seq<seq<byte>>, n: nat)
    requires n <= |rest|
    ensures Rejoined([w] + rest, n + 1) == w + (if n > 0 then [BLANK] else []) + Rejoined(rest, n)
  {
    if n == 0 {
      assert Rejoined([w] + rest, 0) == [];
    } else {
      RejoinedShift(w, rest, n - 1);
    }
  }

  lemma {:induction false} SplitRejoined(s: seq<byte>)
    ensures Rejoined(Split(s), |Split(s)|) == s
    decreases |s|
  {
    hide Rejoined;
    var k := FirstSpace(s);
    if k == |s| {
      OneRejoined(s);
    } else {
      SplitRejoined(s[k + 1..]);
      RejoinedShift(s[..k], Split(s[k + 1..]), |Split(s[k + 1..])|);
      assert s == s[..k] + [BLANK] + s[k + 1..];
    }
  }

  /** The words are what stands between the spaces: no word holds one. */
  lemma {:induction false} SplitWords(s: seq<byte>)
    ensures forall i :: 0 <= i < |Split(s)| ==> BLANK !in Split(s)[i]
    decreases |s|
  {
    var k := FirstSpace(s);
    if k < |s| { SplitWords(s[k + 1..]); }
  }

  lemma OneRejoined(w: seq<byte>)
    ensures Rejoined([w], 1) == w
  {
    assert Rejoined([w], 0) == [];
  }

  lemma CharsJoin(s: seq<byte>, t: seq<byte>, inverse: bool)
    ensures Chars(s + t, inverse) == Chars(s, inverse) + Chars(t, inverse)
  {
    hide CharByte;
  }

  lemma TypedTwice(w: Writer, s: seq<byte>, t: seq<byte>, inverse: bool)
    ensures Typed(Typed(w, s, inverse), t, inverse) == Typed(w, s + t, inverse)
  {
    CharsJoin(s, t, inverse);
    hide Chars;
    assert w.out + Chars(s, inverse) + Chars(t, inverse) == w.out + (Chars(s, inverse) + Chars(t, inverse));
  }

  /** Where there is room for all of them, words are written as they stand. */
  lemma {:induction false} WordsTyped(w: Writer, words: seq<seq<byte>>, n: nat, inverse: bool)
    requires n <= |words| && w.col + WordsLength(words, n) <= WIDTH
    ensures WordsWritten(w, words, n, inverse) == Typed(w, Rejoined(words, n), inverse)
    ensures |Rejoined(words, n)| == WordsLength(words, n)
  {
    hide Chars;
    if n == 0 {
      NoChars(inverse);
      assert w.out + [] == w.out;
    } else {
      WordsTyped(w, words, n - 1, inverse);
      var front, word := Rejoined(words, n - 1), words[n - 1];
      TypedTwice(w, front, [BLANK], inverse);
      TypedTwice(w, front, word, inverse);
      TypedTwice(w, front + [BLANK], word, inverse);
      assert front + [] == front;
    }
  }

  /** The tokens of a line that fits: for each span its attributes and its characters. */
  function OneRow(spans: seq<Span>): seq<Token> {
    if spans == [] then [] else OneRow(spans[..|spans| - 1]) + SpanRow(spans[..|spans| - 1], spans[|spans| - 1])
  }

  function SpanRow(front: seq<Span>, sp: Span): seq<Token> {
    StyleTokens(LookBefore(front, |front|), sp.look) + Chars(sp.text, sp.inverse)
  }

  ghost predicate Fitting(spans: seq<Span>) { |OneRow(spans)| <= WIDTH }

  lemma {:induction false} RowWritten(spans: seq<Span>)
    requires Fitting(spans)
    ensures var w := SpansWritten(spans);
            w.out == OneRow(spans) && |w.out| == w.col && w.cur == LookBefore(spans, |spans|)
  {
    hide StyleTokens, Chars, Split, WordsWritten, Rejoined, WordsLength;
    if spans != [] {
      var front, sp := spans[..|spans| - 1], spans[|spans| - 1];
      RowWritten(front);
      var w := Styled(SpansWritten(front), sp.look);
      var words := Split(sp.text);
      SplitLength(sp.text);
      CharsCount(sp.text, sp.inverse);
      WordsTyped(w, words, |words|, sp.inverse);
      SplitRejoined(sp.text);
      assert w.out + Chars(sp.text, sp.inverse) == OneRow(front) + SpanRow(front, sp);
    }
  }

  lemma CharsCount(s: seq<byte>, inverse: bool)
    ensures |Chars(s, inverse)| == |s|
  {}

  // ---------------------------------------------------------------- cells and backspaces

  /** No line end, and no byte the terminal takes for one. */
  ghost predicate Inline(ts: seq<Token>) {
    forall i :: 0 <= i < |ts| ==> ts[i].Cell? && ts[i].b != 0x0A && ts[i].b != 0x0D
  }

  /** The cells to the left of the cursor after ts. */
  function CellsFrom(left: seq<byte>, ts: seq<Token>): seq<byte> {
    if ts == [] then left
    else
      var l := CellsFrom(left, ts[..|ts| - 1]);
      match ts[|ts| - 1]
      case NewLine => l
      case Cell(b) => if b != 0x08 then l + [b] else if l == [] then l else l[..|l| - 1]
  }

  lemma {:induction false} CellsInTurn(left: seq<byte>, s: seq<Token>, t: seq<Token>)
    ensures CellsFrom(left, s + t) == CellsFrom(CellsFrom(left, s), t)
  {
    if t == [] {
      assert s + t == s;
    } else {
      assert (s + t)[..|s + t| - 1] == s + t[..|t| - 1];
      CellsInTurn(left, s, t[..|t| - 1]);
    }
  }

  lemma OneCell(left: seq<byte>, b: byte)
    ensures CellsFrom(left, [Cell(b)])
            == if b != 0x08 then left + [b] else if left == [] then left else left[..|left| - 1]
  {
    assert [Cell(b)][..0] == [];
    assert CellsFrom(left, []) == left;
  }

  /** The terminal's line holds those cells, then spaces. */
  ghost predicate Holds(s: Sheet, left: seq<byte>) {
    && s.above == [] && s.col == |left| <= |s.line| <= WIDTH
    && s.line == left + Repeat(BLANK, |s.line| - |left|)
  }

  lemma PutHolds(s: Sheet, left: seq<byte>, b: byte)
    requires Holds(s, left) && b != 0x0A && b != 0x0D && |left| < WIDTH
    ensures Holds(Put(s, b), if b != 0x08 then left + [b] else if left == [] then left else left[..|left| - 1])
  {}

  lemma {:induction false} RowHolds(ts: seq<Token>)
    requires Inline(ts) && |ts| <= WIDTH
    ensures Holds(PutAll(Stream(ts)), CellsFrom([], ts)) && |CellsFrom([], ts)| <= |ts|
  {
    hide Put, Holds;
    if ts == [] {
      NothingHeld();
    } else {
      var front, b := ts[..|ts| - 1], ts[|ts| - 1].b;
      RowHolds(front);
      PutNext(Stream(front), b);
      PutHolds(PutAll(Stream(front)), CellsFrom([], front), b);
    }
  }

  lemma NothingHeld()
    ensures Holds(EMPTY, [])
  {
    assert [] + Repeat(BLANK, 0) == [];
  }

  /** What a row of cells shows. */
  function Shows(line: seq<byte>): seq<Glyph> { Visible(LineGlyphs(line)) }

  lemma RowShows(ts: seq<Token>)
    requires Inline(ts) && |ts| <= WIDTH
    ensures Visible(SheetGlyphs(PutAll(Stream(ts)))) == Shows(CellsFrom([], ts))
  {
    hide Visible, LineGlyphs, PutAll, CellsFrom;
    RowHolds(ts);
    var s, left := PutAll(Stream(ts)), CellsFrom([], ts);
    SpacesShowNothing(left, |s.line| - |left|);
    assert Glyphs([]) == [] && [] + LineGlyphs(s.line) == LineGlyphs(s.line);
  }

  predicate Shown1(b: byte) { !IsAttribute(b) && b % 128 != BLANK }

  lemma CellAdded(line: seq<byte>, b: byte)
    ensures Shows(line + [b]) == Shows(line) + (if Shown1(b) then [Glyph(b % 128, LookAfter(line), b >= 128)] else [])
  {
    LineNext(line, b);
    hide LineGlyphs, LookAfter, IsAttribute, Visible;
    VisibleNext(LineGlyphs(line), Glyph(b % 128, LookAfter(line), b >= 128));
    assert LineGlyphs(line) + [] == LineGlyphs(line) && Shows(line) + [] == Shows(line);
  }

  /** How many of the tokens put a visible character. */
  function Puts(ts: seq<Token>): nat {
    if ts == [] then 0 else Puts(ts[..|ts| - 1]) + (if ts[|ts| - 1].Cell? && Shown1(ts[|ts| - 1].b) then 1 else 0)
  }

  lemma {:induction false} PutsBoth(s: seq<Token>, t: seq<Token>)
    ensures Puts(s + t) == Puts(s) + Puts(t)
  {
    hide Shown1;
    if t == [] {
      assert s + t == s;
    } else {
      assert (s + t)[..|s + t| - 1] == s + t[..|t| - 1];
      PutsBoth(s, t[..|t| - 1]);
    }
  }

  /** Of the `total` visible characters meant so far one has been erased, or the one at place p shows
      with text attributes although it is meant to be plain. */
  ghost predicate Wrong(line: seq<byte>, total: nat, p: nat) {
    && |Shows(line)| <= total
    && (|Shows(line)| < total || (p < |Shows(line)| && !PlainText(Shows(line)[p].look)))
  }

  lemma WrongStep(line: seq<byte>, b: byte, total: nat, p: nat)
    requires Wrong(line, total, p)
    ensures Wrong(CellsFrom(line, [Cell(b)]), if Shown1(b) then total + 1 else total, p)
  {
    hide Shows, PlainText, Shown1;
    OneCell(line, b);
    if b == 0x08 {
      BackspaceHidden();
      if line != [] {
        var front := line[..|line| - 1];
        CellAdded(front, line[|line| - 1]);
        assert line == front + [line[|line| - 1]];
      }
    } else {
      CellAdded(line, b);
    }
  }

  lemma BackspaceHidden()
    ensures !Shown1(0x08)
  {}

  /** Nothing that follows makes up for it. */
  lemma {:induction false} StaysWrong(line: seq<byte>, ts: seq<Token>, total: nat, p: nat)
    requires Wrong(line, total, p) && Inline(ts)
    ensures Wrong(CellsFrom(line, ts), total + Puts(ts), p)
  {
    hide Wrong, Shown1;
    if ts != [] {
      var front, last := ts[..|ts| - 1], ts[|ts| - 1];
      StaysWrong(line, front, total, p);
      WrongStep(CellsFrom(line, front), last.b, total + Puts(front), p);
      CellsInTurn(line, front, [last]);
      assert ts == front + [last];
    }
  }

  // ---------------------------------------------------------------- characters and attributes as cells

  lemma CharShown(c: byte, inverse: bool)
    ensures var b := CharByte(c, inverse);
            !IsAttribute(b) && b != 0x08 && b != 0x0A && b != 0x0D && (Shown1(b) <==> Shown(c) != BLANK)
            && b % 128 == Shown(c) && (b >= 128 <==> inverse)
  {}

  /** Characters keep the attributes in force and show under them. */
  lemma {:induction false} CharsShow(line: seq<byte>, s: seq<byte>, inverse: bool)
    ensures var after := CellsFrom(line, Chars(s, inverse));
            && Shows(after) == Shows(line) + TextMeaning(s, LookAfter(line), inverse)
            && LookAfter(after) == LookAfter(line)
    ensures Inline(Chars(s, inverse)) && Puts(Chars(s, inverse)) == |TextMeaning(s, LookAfter(line), inverse)|
    ensures var after := CellsFrom(line, Chars(s, inverse));
            s != [] ==> after != [] && !IsAttribute(after[|after| - 1])
  {
    hide CharByte, Shown, Shows, LookAfter, IsAttribute, Shown1;
    if s == [] {
      NoChars(inverse);
      assert Shows(line) + [] == Shows(line);
    } else {
      var front, c := s[..|s| - 1], s[|s| - 1];
      var b := CharByte(c, inverse);
      CharsShow(line, front, inverse);
      CharsLast(s, inverse);
      var mid := CellsFrom(line, Chars(front, inverse));
      CellsInTurn(line, Chars(front, inverse), [Cell(b)]);
      OneCell(mid, b);
      CharShown(c, inverse);
      CellAdded(mid, b);
      LineNext(mid, b);
      Regroup(Shows(line), TextMeaning(front, LookAfter(line), inverse),
              if Shown(c) == BLANK then [] else [CharGlyph(c, LookAfter(line), inverse)]);
    }
  }

  lemma CharsLast(s: seq<byte>, inverse: bool)
    requires s != []
    ensures Chars(s, inverse) == Chars(s[..|s| - 1], inverse) + [Cell(CharByte(s[|s| - 1], inverse))]
  {
    hide CharByte;
  }

  /** An attribute that is no backspace changes nothing that shows. */
  lemma AttributeShows(line: seq<byte>, b: byte)
    requires IsAttribute(b) && b != 0x08
    ensures var after := CellsFrom(line, [Cell(b)]);
            after == line + [b] && Shows(after) == Shows(line) && LookAfter(after) == Applied(LookAfter(line), b)
  {
    OneCell(line, b);
    CellAdded(line, b);
    LineNext(line, b);
    assert Shows(line) + [] == Shows(line);
  }

  lemma ColoursRead(l: Look, c: Color)
    ensures InkAttr(c) != 0x08 && PaperAttr(c) != 0x08 && IsAttribute(InkAttr(c)) && IsAttribute(PaperAttr(c))
    ensures SameText(Applied(l, InkAttr(c)), l) && SameText(Applied(l, PaperAttr(c)), l)
  {}

  // ---------------------------------------------------------------- the change back to plain text

  /** Erasing the cell before the cursor, which holds no text attribute, takes a character away or
      leaves the text attributes as they are. */
  lemma Backspaced(line: seq<byte>)
    requires line != [] && !IsAttribute(line[|line| - 1])
    ensures var front := line[..|line| - 1];
            LookAfter(front) == LookAfter(line)
            && (Shows(front) == Shows(line) || |Shows(front)| < |Shows(line)|)
  {
    var front, b := line[..|line| - 1], line[|line| - 1];
    assert line == front + [b];
    CellAdded(front, b);
    LineNext(front, b);
    hide Shows;
    assert Shows(front) + [] == Shows(front);
  }

  /** The attributes of a span of plain text after one that was not: after a line that ends in a
      character, a character is erased or the text attributes stay. */
  lemma BackToPlain(line: seq<byte>, cur: Look, look: Look)
    requires PlainText(look) && !PlainText(cur) && line != [] && !IsAttribute(line[|line| - 1])
    ensures var after := CellsFrom(line, StyleTokens(cur, look));
            |Shows(after)| < |Shows(line)|
                || (Shows(after) == Shows(line) && SameText(LookAfter(after), LookAfter(line)))
  {
    var paper, ink := PaperTokens(cur, look), InkTokens(cur, look);
    assert TextTokens(cur, look) == [Cell(0x08)];
    CellsInTurn(line, paper + [Cell(0x08)], ink);
    CellsInTurn(line, paper, [Cell(0x08)]);
    var mid := CellsFrom(line, paper);
    var left := CellsFrom(mid, [Cell(0x08)]);
    OneCell(mid, 0x08);
    PaperThenBackspace(line, cur, look);
    InkShows(left, cur, look);
    hide CellsFrom, Shows, LookAfter;
  }

  lemma PaperThenBackspace(line: seq<byte>, cur: Look, look: Look)
    requires line != [] && !IsAttribute(line[|line| - 1])
    ensures var mid := CellsFrom(line, PaperTokens(cur, look));
            mid != [] && (|Shows(mid[..|mid| - 1])| < |Shows(line)|
                          || (Shows(mid[..|mid| - 1]) == Shows(line)
                             && SameText(LookAfter(mid[..|mid| - 1]), LookAfter(line))))
  {
    if look.paper == cur.paper {
      Backspaced(line);
    } else {
      ColoursRead(LookAfter(line), look.paper);
      AttributeShows(line, PaperAttr(look.paper));
      assert (line + [PaperAttr(look.paper)])[..|line|] == line;
    }
  }

  lemma InkShows(line: seq<byte>, cur: Look, look: Look)
    ensures var after := CellsFrom(line, InkTokens(cur, look));
            Shows(after) == Shows(line) && SameText(LookAfter(after), LookAfter(line))
  {
    if look.ink != cur.ink {
      ColoursRead(LookAfter(line), look.ink);
      AttributeShows(line, InkAttr(look.ink));
    }
  }

  lemma StyleInline(cur: Look, look: Look)
    requires Again(look)
    ensures Inline(StyleTokens(cur, look)) && Puts(StyleTokens(cur, look)) == 0
  {
    hide Inline, Puts, PaperTokens, TextTokens, InkTokens, Again;
    OptionalInline(cur, look);
    RowsInline(PaperTokens(cur, look), TextTokens(cur, look));
    RowsInline(PaperTokens(cur, look) + TextTokens(cur, look), InkTokens(cur, look));
    PutsBoth(PaperTokens(cur, look), TextTokens(cur, look));
    PutsBoth(PaperTokens(cur, look) + TextTokens(cur, look), InkTokens(cur, look));
  }

  lemma OptionalInline(cur: Look, look: Look)
    requires Again(look)
    ensures Inline(PaperTokens(cur, look)) && Puts(PaperTokens(cur, look)) == 0
    ensures Inline(TextTokens(cur, look)) && Puts(TextTokens(cur, look)) == 0
    ensures Inline(InkTokens(cur, look)) && Puts(InkTokens(cur, look)) == 0
  {
    hide Puts;
    OnePuts(PaperTokens(cur, look));
    OnePuts(TextTokens(cur, look));
    OnePuts(InkTokens(cur, look));
  }

  lemma RowsInline(s: seq<Token>, t: seq<Token>)
    requires Inline(s) && Inline(t)
    ensures Inline(s + t)
  {}

  lemma OnePuts(ts: seq<Token>)
    requires |ts| <= 1 && (ts != [] ==> ts[0].Cell? && IsAttribute(ts[0].b))
    ensures Puts(ts) == 0
  {
    if ts != [] { assert ts[..0] == []; }
  }

  // ---------------------------------------------------------------- the row of a whole line

  /** Every span has something to show. */
  ghost predicate AllVisible(spans: seq<Span>) {
    forall i :: 0 <= i < |spans| ==> TextMeaning(spans[i].text, spans[i].look, spans[i].inverse) != []
  }

  ghost predicate LooksAgain(spans: seq<Span>) { forall i :: 0 <= i < |spans| ==> Again(spans[i].look) }

  lemma {:induction false} SameCount(s: seq<byte>, l: Look, m: Look, inverse: bool)
    ensures |TextMeaning(s, l, inverse)| == |TextMeaning(s, m, inverse)|
  {
    hide Shown;
    if s != [] { SameCount(s[..|s| - 1], l, m, inverse); }
  }

  lemma {:induction false} RowInline(spans: seq<Span>)
    requires LooksAgain(spans)
    ensures Inline(OneRow(spans)) && Puts(OneRow(spans)) == |Meaning(spans)|
  {
    hide Again, StyleTokens, Chars, TextMeaning, Puts;
    if spans == [] {
      NothingPut();
    } else {
      var front, sp := spans[..|spans| - 1], spans[|spans| - 1];
      RowInline(front);
      var cur := LookBefore(front, |front|);
      StyleInline(cur, sp.look);
      CharsShow([], sp.text, sp.inverse);
      SameCount(sp.text, LookAfter([]), sp.look, sp.inverse);
      PutsBoth(StyleTokens(cur, sp.look), Chars(sp.text, sp.inverse));
      PutsBoth(OneRow(front), SpanRow(front, sp));
    }
  }

  lemma NothingPut()
    ensures Puts([]) == 0
  {}

  /** As long as every change has been safe, the cells read as was meant, and end in a character. */
  lemma SafeRow(spans: seq<Span>)
    requires Fitting(spans) && LooksAgain(spans) && SafeLine(spans) && spans != [] && AllVisible(spans)
    ensures var line := CellsFrom([], OneRow(spans));
            && Shows(line) == Meaning(spans) && LookAfter(line) == spans[|spans| - 1].look
            && line != [] && !IsAttribute(line[|line| - 1])
  {
    hide Again, SafeLine, CellsFrom, Fits, TextMeaning, Visible, LineGlyphs, LookAfter, IsAttribute, Stream, PutAll,
        ReadTokens, SpansWritten;
    RowWritten(spans);
    RowInline(spans);
    LineSafe(spans);
    SpansFit(spans);
    FitsRead(SpansWritten(spans), Meaning(spans), Length(spans), if |spans| <= 1 then WIDTH else WIDTH + 3);
    SafeReads(OneRow(spans));
    RowHolds(OneRow(spans));
    RowShows(OneRow(spans));
    var s, line := PutAll(Stream(OneRow(spans))), CellsFrom([], OneRow(spans));
    HeldWhole(s, line, ReadTokens(OneRow(spans)));
    RowEnds(spans);
  }

  lemma FitsRead(w: Writer, shown: seq<Glyph>, total: nat, widest: nat)
    requires Fits(w, shown, total, widest) && w.col <= WIDTH
    ensures Visible(ReadTokens(w.out).glyphs) == shown && ReadTokens(w.out).look == w.cur
  {}

  lemma HeldWhole(s: Sheet, line: seq<byte>, r: Reader)
    requires Holds(s, line) && Matches(s, r)
    ensures s.line == line && LookAfter(line) == r.look && SheetGlyphs(s) == r.glyphs
  {
    hide LookAfter, SheetGlyphs;
    assert line + Repeat(BLANK, 0) == line;
  }

  lemma RowEnds(spans: seq<Span>)
    requires spans != [] && AllVisible(spans)
    ensures var line := CellsFrom([], OneRow(spans)); line != [] && !IsAttribute(line[|line| - 1])
  {
    hide CellsFrom, StyleTokens, Chars, IsAttribute;
    var front, sp := spans[..|spans| - 1], spans[|spans| - 1];
    var style := StyleTokens(LookBefore(front, |front|), sp.look);
    CellsInTurn([], OneRow(front), SpanRow(front, sp));
    CellsInTurn(CellsFrom([], OneRow(front)), style, Chars(sp.text, sp.inverse));
    CharsShow(CellsFrom(CellsFrom([], OneRow(front)), style), sp.text, sp.inverse);
    assert sp.text != [];
  }

  /** The first unsafe change spoils the row at that very span. */
  lemma ChangeSpoils(front: seq<Span>, sp: Span)
    requires Fitting(front) && LooksAgain(front) && SafeLine(front) && AllVisible(front)
    requires Again(sp.look) && TextMeaning(sp.text, sp.look, sp.inverse) != []
    requires !SafeChange(LookBefore(front, |front|), sp.look)
    ensures PlainText(sp.look)
    ensures Wrong(CellsFrom([], OneRow(front) + SpanRow(front, sp)),
                  |Meaning(front)| + |TextMeaning(sp.text, sp.look, sp.inverse)|, |Meaning(front)|)
  {
    hide Again, SafeLine, SafeChange, CellsFrom, Shows, StyleTokens, Chars, LookAfter, IsAttribute, TextMeaning,
        Meaning, OneRow, PlainText, Wrong, Fitting, AllVisible, LooksAgain;
    UnsafeIsPlain(front, sp);
    SafeRow(front);
    var line, cur := CellsFrom([], OneRow(front)), LookBefore(front, |front|);
    var style, chars := StyleTokens(cur, sp.look), Chars(sp.text, sp.inverse);
    var left := CellsFrom(line, style);
    CellsInTurn([], OneRow(front), style + chars);
    CellsInTurn(line, style, chars);
    BackToPlain(line, cur, sp.look);
    CharsShow(left, sp.text, sp.inverse);
    SameCount(sp.text, LookAfter(left), sp.look, sp.inverse);
    var b := TextMeaning(sp.text, LookAfter(left), sp.inverse);
    MeaningLook(sp.text, LookAfter(left), sp.inverse);
    if SameText(LookAfter(left), LookAfter(line)) { PlainSame(LookAfter(left), LookAfter(line)); }
    SpoiltRow(CellsFrom(left, chars), Shows(left), b, Meaning(front));
  }

  lemma SpoiltRow(line: seq<byte>, a: seq<Glyph>, b: seq<Glyph>, meant: seq<Glyph>)
    requires Shows(line) == a + b && b != []
    requires |a| < |meant| || (a == meant && !PlainText(b[0].look))
    ensures Wrong(line, |meant| + |b|, |meant|)
  {
    hide Shows, PlainText;
    if a == meant { assert (a + b)[|a|] == b[0]; }
  }

  lemma PlainSame(l: Look, m: Look)
    requires SameText(l, m)
    ensures PlainText(l) <==> PlainText(m)
  {}

  lemma UnsafeIsPlain(front: seq<Span>, sp: Span)
    requires Again(sp.look) && !SafeChange(LookBefore(front, |front|), sp.look)
    ensures PlainText(sp.look) && front != [] && !PlainText(LookBefore(front, |front|))
  {}

  /** A line with an unsafe change is spoilt for good. */
  lemma {:induction false} UnsafeSpoils(spans: seq<Span>) returns (p: nat)
    requires Fitting(spans) && LooksAgain(spans) && AllVisible(spans) && !SafeLine(spans)
    ensures p < |Meaning(spans)| && PlainText(Meaning(spans)[p].look)
    ensures Wrong(CellsFrom([], OneRow(spans)), |Meaning(spans)|, p)
  {
    hide Again, CellsFrom, Wrong, SpanRow, TextMeaning, Meaning, SafeLine, SafeChange, PlainText, OneRow, Fitting,
        LooksAgain, AllVisible;
    SomeSpan(spans);
    var front, sp := spans[..|spans| - 1], spans[|spans| - 1];
    assert front + [sp] == spans;
    SafeLineNext(front, sp);
    FrontFits(front, sp);
    MeaningNext(front, sp);
    if SafeLine(front) {
      p := |Meaning(front)|;
      ChangeSpoils(front, sp);
      RowParts(front, sp);
      MeaningLook(sp.text, sp.look, sp.inverse);
      assert Meaning(spans)[p] == TextMeaning(sp.text, sp.look, sp.inverse)[0];
    } else {
      p := UnsafeSpoils(front);
      LaterSpoils(front, sp, p);
      assert Meaning(spans)[p] == Meaning(front)[p];
    }
  }

  lemma SomeSpan(spans: seq<Span>)
    requires !SafeLine(spans)
    ensures spans != []
  {}

  lemma MeaningNext(front: seq<Span>, sp: Span)
    ensures Meaning(front + [sp]) == Meaning(front) + TextMeaning(sp.text, sp.look, sp.inverse)
  {
    hide TextMeaning;
    assert (front + [sp])[..|front|] == front;
  }

  lemma LaterSpoils(front: seq<Span>, sp: Span, p: nat)
    requires LooksAgain(front + [sp]) && LooksAgain(front) && Wrong(CellsFrom([], OneRow(front)), |Meaning(front)|, p)
    ensures Wrong(CellsFrom([], OneRow(front + [sp])), |Meaning(front + [sp])|, p)
  {
    hide Again, CellsFrom, Wrong, SpanRow, Meaning, LooksAgain, Puts, Inline, OneRow;
    RowInline(front + [sp]);
    RowInline(front);
    RowParts(front, sp);
    PutsBoth(OneRow(front), SpanRow(front, sp));
    CellsInTurn([], OneRow(front), SpanRow(front, sp));
    StaysWrong(CellsFrom([], OneRow(front)), SpanRow(front, sp), |Meaning(front)|, p);
  }

  lemma FrontFits(front: seq<Span>, sp: Span)
    requires Fitting(front + [sp]) && LooksAgain(front + [sp]) && AllVisible(front + [sp])
    ensures Fitting(front) && LooksAgain(front) && AllVisible(front)
    ensures Again(sp.look) && TextMeaning(sp.text, sp.look, sp.inverse) != []
  {
    hide Again, TextMeaning;
    var spans := front + [sp];
    assert spans[..|spans| - 1] == front && spans[|front|] == sp;
    assert forall i :: 0 <= i < |front| ==> spans[i] == front[i];
  }

  lemma RowParts(front: seq<Span>, sp: Span)
    ensures OneRow(front + [sp]) == OneRow(front) + SpanRow(front, sp)
    ensures Inline(OneRow(front + [sp])) ==> Inline(SpanRow(front, sp))
  {
    hide SpanRow;
    assert (front + [sp])[..|front|] == front;
    var a, b := OneRow(front), SpanRow(front, sp);
    assert forall i :: 0 <= i < |b| ==> b[i] == (a + b)[|a| + i];
  }

  // ---------------------------------------------------------------- exactly when

  /** For a line that fits on one row with its attributes and whose spans all have something to show,
      the terminal shows what the line means if and only if none of its changes of text attributes
      sends a byte the terminal takes for a control character. */
  lemma OneRowExact(ln: Line)
    requires Fitting(Spans(ln)) && AllVisible(Spans(ln))
    ensures Visible(SheetGlyphs(PutAll(Stream(SpansWritten(Spans(ln)).out)))) == Meaning(Spans(ln))
            <==> SafeLine(Spans(ln))
  {
    var spans := Spans(ln);
    if SafeLine(spans) {
      TerminalShows(ln);
    } else if Visible(SheetGlyphs(PutAll(Stream(SpansWritten(spans).out)))) == Meaning(spans) {
      hide SafeLine, Visible, SheetGlyphs, PutAll, Stream, SpansWritten, CellsFrom, Again, PlainText;
      NeverShown(ln);
      AllMeant(spans);
      RowWritten(spans);
      RowInline(spans);
      RowShows(OneRow(spans));
      var p := UnsafeSpoils(spans);
    }
  }

  /** What shows only in attributes that fit in a cell asks only for such. */
  lemma {:induction false} AllMeant(spans: seq<Span>)
    requires AllAgain(Meaning(spans)) && AllVisible(spans)
    ensures LooksAgain(spans)
  {
    hide Again, TextMeaning;
    if spans != [] {
      var front, sp := spans[..|spans| - 1], spans[|spans| - 1];
      var a, b := Meaning(front), TextMeaning(sp.text, sp.look, sp.inverse);
      assert forall i :: 0 <= i < |a| ==> a[i] == (a + b)[i];
      AllMeant(front);
      MeaningLook(sp.text, sp.look, sp.inverse);
      assert (a + b)[|a|] == b[0];
      assert forall i :: 0 <= i < |front| ==> front[i] == spans[i];
    }
  }

  /** "A" blinking, then "B" plain: the backspace erases A, and B blinks. */
  lemma BlinkThenPlain()
    ensures var blinking := DEFAULT.(blink := true);
            var spans := [Span([0x41], blinking, false), Span([0x42], DEFAULT, false)];
            && Fitting(spans) && AllVisible(spans)
            && Stream(SpansWritten(spans).out) == [0x0C, 0x41, 0x08, 0x42]
            && Visible(SheetGlyphs(PutAll([0x0C, 0x41, 0x08, 0x42]))) == [Glyph(0x42, blinking, false)]
            && Meaning(spans) == [Glyph(0x41, blinking, false), Glyph(0x42, DEFAULT, false)]
  {
    hide Stream, SpansWritten, Visible, SheetGlyphs, PutAll, Meaning, TextMeaning, Chars;
    var blinking := DEFAULT.(blink := true);
    var a, b := Span([0x41], blinking, false), Span([0x42], DEFAULT, false);
    var spans := [a, b];
    assert spans[..1] == [a] && [a][..0] == [];
    OneChar(0x41, blinking);
    OneChar(0x42, DEFAULT);
    BlinkMeant(spans);
    BlinkBytes(spans);
    BlinkShown();
  }

  lemma OneChar(c: byte, look: Look)
    requires 0x20 < c < 0x7F
    ensures TextMeaning([c], look, false) == [Glyph(c, look, false)]
    ensures Chars([c], false) == [Cell(c)]
  {
    assert [c][..0] == [];
    assert TextMeaning([], look, false) == [];
  }

  lemma BlinkMeant(spans: seq<Span>)
    requires var blinking := DEFAULT.(blink := true);
             spans == [Span([0x41], blinking, false), Span([0x42], DEFAULT, false)]
    ensures Meaning(spans) == [Glyph(0x41, DEFAULT.(blink := true), false), Glyph(0x42, DEFAULT, false)]
  {
    OneChar(0x41, DEFAULT.(blink := true));
    OneChar(0x42, DEFAULT);
    hide TextMeaning;
    assert spans[..1][..0] == [] && Meaning([]) == [];
    assert Meaning(spans[..1]) == [Glyph(0x41, DEFAULT.(blink := true), false)];
  }

  lemma BlinkBytes(spans: seq<Span>)
    requires var blinking := DEFAULT.(blink := true);
             spans == [Span([0x41], blinking, false), Span([0x42], DEFAULT, false)]
    ensures Fitting(spans) && Stream(SpansWritten(spans).out) == [0x0C, 0x41, 0x08, 0x42]
  {
    var blinking := DEFAULT.(blink := true);
    OneChar(0x41, blinking);
    OneChar(0x42, DEFAULT);
    hide Chars, SpansWritten;
    assert spans[..1][..0] == [] && OneRow([]) == [];
    assert OneRow(spans[..1]) == [Cell(0x0C), Cell(0x41)];
    var ts := [Cell(0x0C), Cell(0x41), Cell(0x08), Cell(0x42)];
    assert OneRow(spans) == ts;
    RowWritten(spans);
    FourBytes(ts);
  }

  lemma BlinkShown()
    ensures Visible(SheetGlyphs(PutAll([0x0C, 0x41, 0x08, 0x42]))) == [Glyph(0x42, DEFAULT.(blink := true), false)]
  {
    hide CellsFrom, Shows, LookAfter, PutAll, Stream, Visible, SheetGlyphs;
    var ts := [Cell(0x0C), Cell(0x41), Cell(0x08), Cell(0x42)];
    FourBytes(ts);
    RowShows(ts);
    FourCells(ts);
    BlinkRow();
  }

  lemma FourCells(ts: seq<Token>)
    requires ts == [Cell(0x0C), Cell(0x41), Cell(0x08), Cell(0x42)]
    ensures CellsFrom([], ts) == [0x0C, 0x42]
  {
    hide CellsFrom;
    CellsInTurn([], [Cell(0x0C), Cell(0x41), Cell(0x08)], [Cell(0x42)]);
    CellsInTurn([], [Cell(0x0C), Cell(0x41)], [Cell(0x08)]);
    CellsInTurn([], [Cell(0x0C)], [Cell(0x41)]);
    OneCell([], 0x0C);
    OneCell([0x0C], 0x41);
    OneCell([0x0C, 0x41], 0x08);
    OneCell([0x0C], 0x42);
    assert [] + [0x0C] == [0x0C] && [0x0C] + [0x41] == [0x0C, 0x41] && [0x0C] + [0x42] == [0x0C, 0x42];
    assert [0x0C, 0x41][..1] == [0x0C];
    assert ts == [Cell(0x0C), Cell(0x41), Cell(0x08)] + [Cell(0x42)];
    assert [Cell(0x0C), Cell(0x41), Cell(0x08)] == [Cell(0x0C), Cell(0x41)] + [Cell(0x08)];
    assert [Cell(0x0C), Cell(0x41)] == [Cell(0x0C)] + [Cell(0x41)];
  }

  lemma BlinkRow()
    ensures Shows([0x0C, 0x42]) == [Glyph(0x42, DEFAULT.(blink := true), false)]
  {
    NothingShows();
    LineNext([], 0x0C);
    CellAdded([], 0x0C);
    CellAdded([0x0C], 0x42);
    hide Shows, LookAfter;
    assert [] + [0x0C] == [0x0C] && [0x0C] + [0x42] == [0x0C, 0x42];
  }

  lemma NothingShows()
    ensures Shows([]) == [] && LookAfter([]) == DEFAULT
  {}

  lemma FourBytes(ts: seq<Token>)
    requires ts == [Cell(0x0C), Cell(0x41), Cell(0x08), Cell(0x42)]
    ensures Stream(ts) == [0x0C, 0x41, 0x08, 0x42]
  {
    assert ts[..3][..2][..1][..0] == [] && Stream([]) == [];
    assert Stream(ts[..3][..2][..1]) == [0x0C];
    assert Stream(ts[..3][..2]) == [0x0C, 0x41];
    assert Stream(ts[..3]) == [0x0C, 0x41, 0x08];
  }
}
