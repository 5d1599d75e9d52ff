/** A wrapped line on the terminal itself: the sheet of unlimited height of Oascii is what the 40x28
    grid shows the end of, and so the grid shows what the line means. */
module LineOnScreen {
  import opened Bytes
  import opened Oascii
  import opened Wrap
  import opened Ula
  import HiresDecoder

  // ---------------------------------------------------------------- the grid shows the end of the sheet

  function Row(g: Grid, r: nat): (line: seq<byte>)
    requires r < ROWS
    ensures |line| == COLS
  {
    g[r * COLS..r * COLS + COLS]
  }

  /** A line as the grid holds it. */
  function Filled(line: seq<byte>): seq<byte> {
    line + Repeat(SPACE, if |line| < COLS then COLS - |line| else 0)
  }

  /** The first line still on the screen. */
  function Top(s: Sheet): nat { if |s.above| < ROWS then 0 else |s.above| + 1 - ROWS }

  function LineAt(s: Sheet, k: nat): seq<byte> {
    if k < |s.above| then s.above[k] else if k == |s.above| then s.line else []
  }

  ghost predicate Shows(t: Term, s: Sheet) {
    && t.st == Normal && s.col <= |s.line| <= WIDTH && t.col == s.col && t.row == |s.above| - Top(s)
    && forall r :: 0 <= r < ROWS ==> Row(t.grid, r) == Filled(LineAt(s, Top(s) + r))
  }

  lemma CellWritten(g: Grid, row: nat, c: nat, b: byte, r: nat)
    requires row < ROWS && c < COLS && r < ROWS
    ensures row * COLS + c < CELLS
    ensures Row(g[row * COLS + c := b], r) == if r == row then Row(g, r)[c := b] else Row(g, r)
  {}

  lemma FilledWritten(line: seq<byte>, c: nat, b: byte)
    requires c <= |line| <= COLS && c < COLS
    ensures c < |line| ==> Filled(line[c := b]) == Filled(line)[c := b]
    ensures c == |line| ==> Filled(line + [b]) == Filled(line)[c := b]
  {}

  lemma RowScrolled(g: Grid, r: nat)
    requires r < ROWS
    ensures Row(ScrolledUp(g), r) == if r + 1 < ROWS then Row(g, r + 1) else Filled([])
  {}

  /** One byte that is not the plot command. */
  lemma PutShows(t: Term, s: Sheet, b: byte)
    requires Sound(t) && Shows(t, s) && b != PLOT
    ensures Shows(PutByte(t, b), Put(s, b))
  {
    if b == 0x0A {
      LineEndShows(t, s);
    } else if b != 0x0D {
      CellShows(t, s, b);
    }
  }

  lemma LineEndShows(t: Term, s: Sheet)
    requires Sound(t) && Shows(t, s)
    ensures Shows(PutByte(t, 0x0A), Put(s, 0x0A))
  {
    hide Row, Filled, ScrolledUp;
    var t', s' := PutByte(t, 0x0A), Put(s, 0x0A);
    forall k: nat | true
      ensures LineAt(s', k) == LineAt(s, k)
    {}
    forall r | 0 <= r < ROWS
      ensures Row(t'.grid, r) == Filled(LineAt(s', Top(s') + r))
    {
      if t.row + 1 >= ROWS { RowScrolled(t.grid, r); }
    }
  }

  lemma CellShows(t: Term, s: Sheet, b: byte)
    requires Sound(t) && Shows(t, s) && b != 0x0A && b != 0x0D
    ensures Shows(PutByte(t, b), Put(s, b))
  {
    hide Row, Filled;
    var t', s' := PutByte(t, b), Put(s, b);
    if b == 0x08 && s.col > 0 {
      OneCell(t, s, s.col - 1, SPACE);
      FilledWritten(s.line, s.col - 1, SPACE);
    } else if b != 0x08 && s.col < WIDTH {
      OneCell(t, s, s.col, b);
      FilledWritten(s.line, s.col, b);
    }
    forall r | 0 <= r < ROWS
      ensures Row(t'.grid, r) == Filled(LineAt(s', Top(s') + r))
    {
      assert Row(t.grid, r) == Filled(LineAt(s, Top(s) + r));
    }
  }

  lemma OneCell(t: Term, s: Sheet, c: nat, b: byte)
    requires Sound(t) && Shows(t, s) && c < COLS
    ensures t.row * COLS + c < CELLS
    ensures forall r :: 0 <= r < ROWS ==>
              Row(t.grid[t.row * COLS + c := b], r) == if r == t.row then Row(t.grid, r)[c := b] else Row(t.grid, r)
  {
    forall r | 0 <= r < ROWS
      ensures t.row * COLS + c < CELLS
      ensures Row(t.grid[t.row * COLS + c := b], r) == if r == t.row then Row(t.grid, r)[c := b] else Row(t.grid, r)
    {
      CellWritten(t.grid, t.row, c, b, r);
    }
  }

  /** A terminal ready for text with an empty screen. */
  ghost predicate Empty(t: Term) { t.st == Normal && t.grid == Spaces() && t.col == 0 && t.row == 0 }

  lemma EmptyShows(t: Term)
    requires Empty(t)
    ensures Sound(t) && Shows(t, EMPTY)
  {
    forall r | 0 <= r < ROWS
      ensures Row(t.grid, r) == Filled(LineAt(EMPTY, r))
    {
      assert LineAt(EMPTY, r) == [];
    }
  }

  /** Whatever bytes come, the plot command excepted, the grid shows the last 28 lines of the sheet. */
  lemma {:induction false} BytesShow(t: Term, bs: seq<byte>, font: HiresDecoder.Font)
    requires Empty(t) && PLOT !in bs
    ensures Sound(t) && Sound(TermFeedAll(t, bs, font)) && Shows(TermFeedAll(t, bs, font), PutAll(bs))
    decreases |bs|
  {
    hide Shows, Put, PutByte;
    EmptyShows(t);
    if bs != [] {
      var front, b := bs[..|bs| - 1], bs[|bs| - 1];
      BytesShow(t, front, font);
      TermFeedAppend(t, front, [b], font);
      assert bs == front + [b];
      PutNext(front, b);
      OneFed(TermFeedAll(t, front, font), b, font);
      PutShows(TermFeedAll(t, front, font), PutAll(front), b);
      ShowsNormal(TermFeedAll(t, front, font), PutAll(front));
    } else {
      assert PutAll([]) == EMPTY;
    }
  }

  lemma ShowsNormal(t: Term, s: Sheet)
    requires Shows(t, s)
    ensures t.st == Normal
  {}

  // ---------------------------------------------------------------- what the rows show

  /** The characters of the first n rows (`rowCells`). */
  function RowsGlyphs(g: Grid, n: nat): seq<Glyph>
    requires n <= ROWS
  {
    if n == 0 then [] else RowsGlyphs(g, n - 1) + LineGlyphs(Row(g, n - 1))
  }

  lemma FilledVisible(line: seq<byte>)
    ensures Visible(LineGlyphs(Filled(line))) == Visible(LineGlyphs(line))
  {
    hide Visible, LineGlyphs;
    SpacesShowNothing(line, if |line| < COLS then COLS - |line| else 0);
  }

  /** The characters of the first n lines of a sheet. */
  function LinesGlyphs(s: Sheet, n: nat): seq<Glyph> {
    if n == 0 then [] else LinesGlyphs(s, n - 1) + LineGlyphs(LineAt(s, n - 1))
  }

  lemma {:induction false} RowsShow(t: Term, s: Sheet, n: nat)
    requires Shows(t, s) && Top(s) == 0 && n <= ROWS
    ensures Visible(RowsGlyphs(t.grid, n)) == Visible(LinesGlyphs(s, n))
  {
    hide Visible, LineGlyphs, Row, Filled, LineAt;
    if n > 0 {
      RowsShow(t, s, n - 1);
      RowShows(t, s, n - 1);
      FilledVisible(LineAt(s, n - 1));
      VisibleAppend(RowsGlyphs(t.grid, n - 1), LineGlyphs(Row(t.grid, n - 1)));
      VisibleAppend(LinesGlyphs(s, n - 1), LineGlyphs(LineAt(s, n - 1)));
    }
  }

  lemma RowShows(t: Term, s: Sheet, r: nat)
    requires Shows(t, s) && Top(s) == 0 && r < ROWS
    ensures Row(t.grid, r) == Filled(LineAt(s, r))
  {
    assert Row(t.grid, r) == Filled(LineAt(s, Top(s) + r));
  }

  lemma {:induction false} LinesAbove(s: Sheet, n: nat)
    requires n <= |s.above|
    ensures LinesGlyphs(s, n) == Glyphs(s.above[..n])
  {
    hide LineGlyphs;
    if n > 0 {
      LinesAbove(s, n - 1);
      assert s.above[..n][..n - 1] == s.above[..n - 1];
    }
  }

  lemma {:induction false} LinesBelow(s: Sheet, n: nat)
    requires |s.above| < n
    ensures LinesGlyphs(s, n) == SheetGlyphs(s)
  {
    if n == |s.above| + 1 {
      LinesAbove(s, n - 1);
      assert s.above[..n - 1] == s.above;
    } else {
      LinesBelow(s, n - 1);
      assert LineGlyphs([]) == [];
    }
  }

  /** A sheet that fits on the screen is shown whole. */
  lemma SheetShown(t: Term, bs: seq<byte>, font: HiresDecoder.Font)
    requires Empty(t) && PLOT !in bs && |PutAll(bs).above| < ROWS
    ensures Sound(t) && Visible(RowsGlyphs(TermFeedAll(t, bs, font).grid, ROWS)) == Visible(SheetGlyphs(PutAll(bs)))
  {
    hide Visible, Shows, RowsGlyphs, SheetGlyphs;
    BytesShow(t, bs, font);
    RowsShow(TermFeedAll(t, bs, font), PutAll(bs), ROWS);
    LinesBelow(PutAll(bs), ROWS);
  }

  lemma {:induction false} StreamNoPlot(ts: seq<Token>)
    requires AllOrdinary(ts)
    ensures PLOT !in Stream(ts)
  {
    if ts != [] { StreamNoPlot(ts[..|ts| - 1]); }
  }

  // ---------------------------------------------------------------- the line on the screen

  /** The rows of a screen that was empty show, character by character and with every character's
      attributes, what the line means, if its attributes are safe and it takes 28 rows at most. */
  lemma ScreenShowsLine(t: Term, ln: Line, font: HiresDecoder.Font)
    requires Empty(t) && SafeLine(Spans(ln)) && |PutAll(Stream(SpansWritten(Spans(ln)).out)).above| < ROWS
    ensures Sound(t)
    ensures Visible(RowsGlyphs(TermFeedAll(t, Stream(SpansWritten(Spans(ln)).out), font).grid, ROWS))
            == Meaning(Spans(ln))
  {
    hide Visible, RowsGlyphs, SheetGlyphs, SpansWritten, Stream, PutAll;
    TerminalShows(ln);
    LineOrdinary(Spans(ln));
    StreamNoPlot(SpansWritten(Spans(ln)).out);
    SheetShown(t, Stream(SpansWritten(Spans(ln)).out), font);
  }
}
