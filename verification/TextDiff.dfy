/** The differential text screen (internal/oascii/screen.go) on values, and what a terminal makes of
    its frames. */
module TextDiff {
  import opened Bytes
  import opened HiresDecoder
  import opened Ula

  datatype TextScreen = TextScreen(buf: Grid, shown: Grid)

  /** Bytes the terminal takes as cells: not BS, LF, CR, nor the plot command. */
  predicate IsCell(b: byte) { b != 0x08 && b != 0x0A && b != 0x0D && b != PLOT }

  // ---------------------------------------------------------------- frames

  /** The end of the segment of changed cells that column `col` starts, within its row. */
  function SegmentEnd(buf: Grid, shown: Grid, row: nat, col: nat): (e: nat)
    requires row < ROWS && col <= COLS
    ensures col <= e <= COLS
    ensures col < COLS && buf[row * COLS + col] != shown[row * COLS + col] ==> col < e
    decreases COLS - col
  {
    if col < COLS && buf[row * COLS + col] != shown[row * COLS + col] then SegmentEnd(buf, shown, row, col + 1) else col
  }

  /** One plot command and the changed cells, per segment of the row from column `col` on. */
  function RowChanges(buf: Grid, shown: Grid, row: nat, col: nat): seq<byte>
    requires row < ROWS && col <= COLS
    decreases COLS - col
  {
    if col == COLS then []
    else if buf[row * COLS + col] == shown[row * COLS + col] then RowChanges(buf, shown, row, col + 1)
    else
      var e := SegmentEnd(buf, shown, row, col);
      SegmentBytes(buf, row, col, e) + RowChanges(buf, shown, row, e)
  }

  function SegmentBytes(buf: Grid, row: nat, col: nat, e: nat): seq<byte>
    requires row < ROWS && col <= e <= COLS
  {
    [PLOT, col, row] + buf[row * COLS + col..row * COLS + e]
  }

  function TextFrame(buf: Grid, shown: Grid, row: nat): seq<byte>
    requires row <= ROWS
    decreases ROWS - row
  {
    if row == ROWS then [] else RowChanges(buf, shown, row, 0) + TextFrame(buf, shown, row + 1)
  }

  /** g with the cells in which buf and shown differ, from index i on, replaced by those of buf. */
  function MergeGrid(g: Grid, buf: Grid, shown: Grid, i: nat): Grid {
    seq(CELLS, j requires 0 <= j < CELLS => if i <= j && buf[j] != shown[j] then buf[j] else g[j])
  }

  function PaintGrid(g: Grid, i: nat, data: seq<byte>): Grid {
    seq(CELLS, j requires 0 <= j < CELLS => if i <= j < i + |data| then data[j - i] else g[j])
  }

  /** Every cell a frame sends can be sent. */
  ghost predicate Sendable(buf: Grid, shown: Grid, i: nat) {
    forall j :: i <= j < CELLS && buf[j] != shown[j] ==> IsCell(buf[j])
  }

  lemma {:induction false} SegmentChanged(buf: Grid, shown: Grid, row: nat, col: nat)
    requires row < ROWS && col <= COLS
    ensures var e := SegmentEnd(buf, shown, row, col);
            forall j :: row * COLS + col <= j < row * COLS + e ==> buf[j] != shown[j]
    decreases COLS - col
  {
    if col < COLS && buf[row * COLS + col] != shown[row * COLS + col] {
      SegmentChanged(buf, shown, row, col + 1);
    }
  }

  // ---------------------------------------------------------------- the terminal reading a frame

  /** A terminal ready for text. */
  ghost predicate Ready(t: Term) { Sound(t) && t.st == Normal }

  /** t, but for the cursor, after a frame that turned its grid into g. */
  ghost predicate Became(t: Term, t': Term, g: Grid) {
    Ready(t') && t' == t.(grid := g, col := t'.col, row := t'.row, plotX := t'.plotX)
  }

  lemma BecameReady(t: Term, t': Term, g: Grid)
    requires Became(t, t', g)
    ensures Ready(t') && Sound(t') && t'.grid == g
  {}

  lemma InTurn(t: Term, s: seq<byte>, u: seq<byte>, g: Grid, g': Grid, font: Font)
    requires Sound(t) && Became(t, TermFeedAll(t, s, font), g)
    requires Sound(TermFeedAll(t, s, font))
             && Became(TermFeedAll(t, s, font), TermFeedAll(TermFeedAll(t, s, font), u, font), g')
    ensures Became(t, TermFeedAll(t, s + u, font), g')
  {
    TermFeedAppend(t, s, u, font);
  }

  lemma PlotMoves(t: Term, col: nat, row: nat, font: Font)
    requires Ready(t) && col < COLS && row < ROWS
    ensures TermFeedAll(t, [PLOT, col, row], font) == t.(col := col, row := row, plotX := col)
  {
    hide Feed;
    var t1 := TermFeed(t, PLOT, font);
    var t2 := TermFeed(t1, col, font);
    var t3 := TermFeed(t2, row, font);
    assert [PLOT, col, row][1..] == [col, row] && [col, row][1..] == [row] && [row][1..] == [];
    assert TermFeedAll(t3, [], font) == t3;
    assert TermFeedAll(t2, [row], font) == t3;
    assert TermFeedAll(t1, [col, row], font) == t3;
  }

  lemma PaintGridNext(g: Grid, i: nat, data: seq<byte>)
    requires data != [] && i < CELLS
    ensures PaintGrid(g[i := data[0]], i + 1, data[1..]) == PaintGrid(g, i, data)
  {}

  /** Cells written from the cursor on, as far as they fit in the row. */
  lemma {:induction false} CellsPut(t: Term, data: seq<byte>, font: Font)
    requires Ready(t) && t.col + |data| <= COLS && forall k :: 0 <= k < |data| ==> IsCell(data[k])
    ensures TermFeedAll(t, data, font)
            == t.(grid := PaintGrid(t.grid, t.row * COLS + t.col, data), col := t.col + |data|)
    decreases |data|
  {
    hide Feed;
    if data == [] {
      assert PaintGrid(t.grid, t.row * COLS + t.col, []) == t.grid;
    } else {
      TermFeedSound(t, data[0], font);
      var t' := TermFeed(t, data[0], font);
      assert t' == t.(grid := t.grid[t.row * COLS + t.col := data[0]], col := t.col + 1);
      PaintGridNext(t.grid, t.row * COLS + t.col, data);
      CellsPut(t', data[1..], font);
    }
  }

  lemma SegmentShown(t: Term, buf: Grid, row: nat, col: nat, e: nat, font: Font)
    requires Ready(t) && row < ROWS && col < e <= COLS
    requires forall j :: row * COLS + col <= j < row * COLS + e ==> IsCell(buf[j])
    ensures Became(t, TermFeedAll(t, SegmentBytes(buf, row, col, e), font),
                   PaintGrid(t.grid, row * COLS + col, buf[row * COLS + col..row * COLS + e]))
  {
    hide PaintGrid;
    var data := buf[row * COLS + col..row * COLS + e];
    PlotMoves(t, col, row, font);
    TermFeedAppend(t, [PLOT, col, row], data, font);
    CellsPut(t.(col := col, row := row, plotX := col), data, font);
  }

  /** Cells of row `row` from `col` on merged, the rest of the grid as it was. */
  function MergeRow(g: Grid, buf: Grid, shown: Grid, row: nat, col: nat): Grid {
    seq(CELLS, j requires 0 <= j < CELLS =>
      if row * COLS + col <= j < row * COLS + COLS && buf[j] != shown[j] then buf[j] else g[j])
  }

  lemma MergeRowRun(g: Grid, buf: Grid, shown: Grid, row: nat, col: nat, e: nat)
    requires row < ROWS && col <= e <= COLS && forall j :: row * COLS + col <= j < row * COLS + e ==> buf[j] != shown[j]
    ensures MergeRow(PaintGrid(g, row * COLS + col, buf[row * COLS + col..row * COLS + e]), buf, shown, row, e)
            == MergeRow(g, buf, shown, row, col)
  {}

  lemma MergeRowSkip(g: Grid, buf: Grid, shown: Grid, row: nat, col: nat)
    requires row < ROWS && col < COLS && buf[row * COLS + col] == shown[row * COLS + col]
    ensures MergeRow(g, buf, shown, row, col + 1) == MergeRow(g, buf, shown, row, col)
  {}

  lemma {:induction false} RowShown(t: Term, buf: Grid, shown: Grid, row: nat, col: nat, font: Font)
    requires Ready(t) && row < ROWS && col <= COLS && Sendable(buf, shown, row * COLS + col)
    ensures Became(t, TermFeedAll(t, RowChanges(buf, shown, row, col), font), MergeRow(t.grid, buf, shown, row, col))
    decreases COLS - col
  {
    if col == COLS {
      MergeRowNone(t.grid, buf, shown, row);
    } else if buf[row * COLS + col] == shown[row * COLS + col] {
      MergeRowSkip(t.grid, buf, shown, row, col);
      RowShown(t, buf, shown, row, col + 1, font);
    } else {
      var e := SegmentEnd(buf, shown, row, col);
      var g := PaintGrid(t.grid, row * COLS + col, buf[row * COLS + col..row * COLS + e]);
      SegmentSent(t, buf, shown, row, col, font);
      var t' := TermFeedAll(t, SegmentBytes(buf, row, col, e), font);
      hide Became, TermFeedAll, PaintGrid, MergeRow, SegmentBytes, SegmentEnd;
      RowShown(t', buf, shown, row, e, font);
      InTurn(t, SegmentBytes(buf, row, col, e), RowChanges(buf, shown, row, e), g, MergeRow(g, buf, shown, row, e),
          font);
    }
  }

  /** The segment that starts at a changed cell. */
  lemma SegmentSent(t: Term, buf: Grid, shown: Grid, row: nat, col: nat, font: Font)
    requires Ready(t) && row < ROWS && col < COLS && Sendable(buf, shown, row * COLS + col)
    requires buf[row * COLS + col] != shown[row * COLS + col]
    ensures var e := SegmentEnd(buf, shown, row, col);
            var g := PaintGrid(t.grid, row * COLS + col, buf[row * COLS + col..row * COLS + e]);
            var t' := TermFeedAll(t, SegmentBytes(buf, row, col, e), font);
            && Became(t, t', g) && Ready(t') && t'.grid == g
            && MergeRow(g, buf, shown, row, e) == MergeRow(t.grid, buf, shown, row, col)
            && Sendable(buf, shown, row * COLS + e)
  {
    hide PaintGrid, MergeRow, SegmentBytes, TermFeedAll;
    var e := SegmentEnd(buf, shown, row, col);
    SegmentChanged(buf, shown, row, col);
    SegmentShown(t, buf, row, col, e, font);
    MergeRowRun(t.grid, buf, shown, row, col, e);
  }

  lemma MergeRowNone(g: Grid, buf: Grid, shown: Grid, row: nat)
    ensures MergeRow(g, buf, shown, row, COLS) == g
  {}

  lemma MergeRows(g: Grid, buf: Grid, shown: Grid, row: nat)
    requires row < ROWS
    ensures MergeGrid(MergeRow(g, buf, shown, row, 0), buf, shown, (row + 1) * COLS)
            == MergeGrid(g, buf, shown, row * COLS)
  {}

  /** On any grid whatever, a frame writes buf in exactly the cells where it differs from shown. */
  lemma {:induction false} FrameMerges(t: Term, buf: Grid, shown: Grid, row: nat, font: Font)
    requires Ready(t) && row <= ROWS && Sendable(buf, shown, row * COLS)
    ensures Became(t, TermFeedAll(t, TextFrame(buf, shown, row), font), MergeGrid(t.grid, buf, shown, row * COLS))
    decreases ROWS - row
  {
    hide MergeGrid, MergeRow, RowChanges;
    if row == ROWS {
      MergeGridNone(t.grid, buf, shown);
    } else {
      RowShown(t, buf, shown, row, 0, font);
      var t' := TermFeedAll(t, RowChanges(buf, shown, row, 0), font);
      var g := MergeRow(t.grid, buf, shown, row, 0);
      BecameReady(t, t', g);
      MergeRows(t.grid, buf, shown, row);
      FrameMerges(t', buf, shown, row + 1, font);
      hide Became, TermFeedAll, Sendable;
      InTurn(t, RowChanges(buf, shown, row, 0), TextFrame(buf, shown, row + 1), g,
          MergeGrid(g, buf, shown, (row + 1) * COLS), font);
    }
  }

  lemma MergeGridNone(g: Grid, buf: Grid, shown: Grid)
    ensures MergeGrid(g, buf, shown, CELLS) == g
  {}

  // ---------------------------------------------------------------- the data bytes of a frame

  /** The bytes of a stream that are not plot commands. */
  function Data(s: seq<byte>): seq<byte> {
    if s == [] then []
    else if s[0] == PLOT then (if |s| < 3 then [] else Data(s[3..]))
    else [s[0]] + Data(s[1..])
  }

  /** The cells from index i up to `to` in which buf and shown differ, in order. */
  function Differing(buf: Grid, shown: Grid, i: nat, to: nat): seq<byte>
    requires i <= to <= CELLS
    decreases CELLS - i
  {
    if i == to then [] else (if buf[i] != shown[i] then [buf[i]] else []) + Differing(buf, shown, i + 1, to)
  }

  lemma {:induction false} DifferingJoined(buf: Grid, shown: Grid, i: nat, m: nat, to: nat)
    requires i <= m <= to <= CELLS
    ensures Differing(buf, shown, i, to) == Differing(buf, shown, i, m) + Differing(buf, shown, m, to)
    decreases CELLS - i
  {
    if i < m { DifferingJoined(buf, shown, i + 1, m, to); }
  }

  lemma {:induction false} AllDiffering(buf: Grid, shown: Grid, i: nat, to: nat)
    requires i <= to <= CELLS && forall j :: i <= j < to ==> buf[j] != shown[j]
    ensures Differing(buf, shown, i, to) == buf[i..to]
    decreases CELLS - i
  {
    if i < to { AllDiffering(buf, shown, i + 1, to); }
  }

  lemma {:induction false} CellsAreData(cells: seq<byte>, rest: seq<byte>)
    requires PLOT !in cells
    ensures Data(cells + rest) == cells + Data(rest)
  {
    if cells == [] {
      assert cells + rest == rest;
    } else {
      assert (cells + rest)[1..] == cells[1..] + rest;
      CellsAreData(cells[1..], rest);
    }
  }

  lemma SegmentData(buf: Grid, shown: Grid, row: nat, col: nat, e: nat, rest: seq<byte>)
    requires row < ROWS && col <= e <= COLS
    requires forall j :: row * COLS + col <= j < row * COLS + e ==> buf[j] != shown[j] && buf[j] != PLOT
    ensures Data(SegmentBytes(buf, row, col, e) + rest)
            == Differing(buf, shown, row * COLS + col, row * COLS + e) + Data(rest)
  {
    hide Differing;
    var cells := buf[row * COLS + col..row * COLS + e];
    AllDiffering(buf, shown, row * COLS + col, row * COLS + e);
    CellsAreData(cells, rest);
    assert (SegmentBytes(buf, row, col, e) + rest)[3..] == cells + rest;
  }

  lemma {:induction false} RowData(buf: Grid, shown: Grid, row: nat, col: nat, rest: seq<byte>)
    requires row < ROWS && col <= COLS
    requires forall j :: row * COLS + col <= j < CELLS && buf[j] != shown[j] ==> buf[j] != PLOT
    ensures Data(RowChanges(buf, shown, row, col) + rest)
            == Differing(buf, shown, row * COLS + col, row * COLS + COLS) + Data(rest)
    decreases COLS - col
  {
    hide Data, SegmentBytes, SegmentEnd;
    var a, to := row * COLS + col, row * COLS + COLS;
    if col == COLS {
      assert RowChanges(buf, shown, row, col) + rest == rest;
    } else if buf[a] == shown[a] {
      RowData(buf, shown, row, col + 1, rest);
    } else {
      hide Differing;
      var e := SegmentEnd(buf, shown, row, col);
      RowData(buf, shown, row, e, rest);
      var later := RowChanges(buf, shown, row, e) + rest;
      assert RowChanges(buf, shown, row, col) + rest == SegmentBytes(buf, row, col, e) + later;
      hide RowChanges;
      SegmentChanged(buf, shown, row, col);
      SegmentData(buf, shown, row, col, e, later);
      DifferingJoined(buf, shown, a, row * COLS + e, to);
    }
  }

  /** The data bytes of a frame, in their order, are the cells that differ, each once. */
  lemma {:induction false} FrameData(buf: Grid, shown: Grid, row: nat)
    requires row <= ROWS && forall j :: row * COLS <= j < CELLS && buf[j] != shown[j] ==> buf[j] != PLOT
    ensures Data(TextFrame(buf, shown, row)) == Differing(buf, shown, row * COLS, CELLS)
    decreases ROWS - row
  {
    hide Data, RowChanges, Differing;
    if row == ROWS {
      NoData(buf, shown);
    } else {
      RowData(buf, shown, row, 0, TextFrame(buf, shown, row + 1));
      FrameData(buf, shown, row + 1);
      DifferingJoined(buf, shown, row * COLS, row * COLS + COLS, CELLS);
    }
  }

  lemma NoData(buf: Grid, shown: Grid)
    ensures Data([]) == [] && Differing(buf, shown, CELLS, CELLS) == []
  {}

  lemma {:induction false} RowQuiet(buf: Grid, shown: Grid, row: nat, col: nat)
    requires row < ROWS && col <= COLS
    ensures RowChanges(buf, shown, row, col) == []
            <==> forall j :: row * COLS + col <= j < row * COLS + COLS ==> buf[j] == shown[j]
    decreases COLS - col
  {
    if col < COLS && buf[row * COLS + col] == shown[row * COLS + col] { RowQuiet(buf, shown, row, col + 1); }
  }

  lemma {:induction false} FrameQuiet(buf: Grid, shown: Grid, row: nat)
    requires row <= ROWS
    ensures TextFrame(buf, shown, row) == [] <==> forall j :: row * COLS <= j < CELLS ==> buf[j] == shown[j]
    decreases ROWS - row
  {
    hide RowChanges;
    if row < ROWS {
      RowQuiet(buf, shown, row, 0);
      FrameQuiet(buf, shown, row + 1);
    }
  }

  // ---------------------------------------------------------------- runs

  datatype Action =
    | Put(col: int, row: int, b: byte)
    | PutText(col: int, row: int, text: seq<byte>)
    | Clear
    | Reset
    | Show

  const FRESH: TextScreen := TextScreen(Spaces(), Repeat(0, CELLS))

  function PutOn(g: Grid, col: int, row: int, b: byte): Grid {
    if 0 <= col < COLS && 0 <= row < ROWS then g[row * COLS + col := b] else g
  }

  /** Text from (col, row) on, cut at the end of the row; columns before 0 are passed over. */
  function TextOn(g: Grid, col: int, row: int, text: seq<byte>): Grid
    decreases |text|
  {
    if text == [] then g else TextOn(PutOn(g, col, row, text[0]), col + 1, row, text[1..])
  }

  function Composed(g: Grid, a: Action): Grid {
    match a
    case Put(col, row, b) => PutOn(g, col, row, b)
    case PutText(col, row, text) => TextOn(g, col, row, text)
    case Clear => Spaces()
    case Reset => g
    case Show => g
  }

  /** A text puts its bytes in the cells of its row from its column on, and changes no other cell. */
  lemma {:induction false} TextCell(g: Grid, col: int, row: int, text: seq<byte>, x: nat, y: nat)
    requires x < COLS && y < ROWS
    ensures TextOn(g, col, row, text)[y * COLS + x]
            == if y == row && col <= x < col + |text| then text[x - col] else g[y * COLS + x]
    decreases |text|
  {
    if text != [] {
      TextCell(PutOn(g, col, row, text[0]), col + 1, row, text[1..], x, y);
      assert y * COLS + x == row * COLS + col && 0 <= col < COLS && 0 <= row < ROWS ==> x == col && y == row;
    }
  }

  /** What an action makes of each cell of the composition. */
  lemma ComposedCell(g: Grid, a: Action, x: nat, y: nat)
    requires x < COLS && y < ROWS
    ensures Composed(g, a)[y * COLS + x] ==
            match a
            case Put(col, row, b) => if col == x && row == y then b else g[y * COLS + x]
            case PutText(col, row, text) =>
              if row == y && col <= x < col + |text| then text[x - col] else g[y * COLS + x]
            case Clear => 0x20
            case _ => g[y * COLS + x]
  {
    if a.PutText? { TextCell(g, a.col, a.row, a.text, x, y); }
  }

  function TextStep(s: TextScreen, a: Action): TextScreen {
    match a
    case Reset => s.(shown := Repeat(0, CELLS))
    case Show => TextScreen(s.buf, s.buf)
    case _ => s.(buf := Composed(s.buf, a))
  }

  function Sent(s: TextScreen, a: Action): seq<byte> {
    if a == Show then TextFrame(s.buf, s.shown, 0) else []
  }

  ghost predicate CellAction(a: Action) {
    match a
    case Put(_, _, b) => IsCell(b)
    case PutText(_, _, text) => forall k :: 0 <= k < |text| ==> IsCell(text[k])
    case _ => true
  }

  /** What holds between a screen and the terminal that got all its frames: a cell counted as shown
      is there, but for 0, which also stands for "never shown". */
  ghost predicate Agrees(s: TextScreen, t: Term) {
    && Ready(t)
    && (forall i :: 0 <= i < CELLS ==> IsCell(s.buf[i]))
    && (forall i :: 0 <= i < CELLS ==> s.shown[i] == 0 || s.shown[i] == t.grid[i])
  }

  /** Cell i is black ink and passes for shown without being there. */
  predicate Missed(s: TextScreen, g: Grid, i: nat)
    requires i < CELLS
  {
    s.buf[i] == 0 && s.shown[i] == 0 && g[i] != 0
  }

  lemma {:induction false} TextCells(g: Grid, col: int, row: int, text: seq<byte>)
    requires (forall i :: 0 <= i < CELLS ==> IsCell(g[i])) && forall k :: 0 <= k < |text| ==> IsCell(text[k])
    ensures forall i :: 0 <= i < CELLS ==> IsCell(TextOn(g, col, row, text)[i])
    decreases |text|
  {
    if text != [] { TextCells(PutOn(g, col, row, text[0]), col + 1, row, text[1..]); }
  }

  /** A frame makes a grid, whatever it holds, the composition if and only if the cells it does not
      send are there already. */
  lemma FrameExact(t: Term, buf: Grid, shown: Grid, font: Font)
    requires Ready(t) && Sendable(buf, shown, 0)
    ensures TermFeedAll(t, TextFrame(buf, shown, 0), font).grid == buf
            <==> forall j :: 0 <= j < CELLS && buf[j] == shown[j] ==> t.grid[j] == buf[j]
  {
    hide TextFrame, TermFeed;
    FrameMerges(t, buf, shown, 0, font);
    var g := MergeGrid(t.grid, buf, shown, 0);
    if g == buf {
      forall j | 0 <= j < CELLS && buf[j] == shown[j] ensures t.grid[j] == buf[j] { assert g[j] == t.grid[j]; }
    }
  }

  lemma StepAgrees(s: TextScreen, t: Term, a: Action, font: Font)
    requires Agrees(s, t) && CellAction(a)
    ensures Agrees(TextStep(s, a), TermFeedAll(t, Sent(s, a), font))
  {
    hide TextFrame, TermFeed;
    match a
    case Show => FrameMerges(t, s.buf, s.shown, 0, font);
    case PutText(col, row, text) => TextCells(s.buf, col, row, text);
    case _ =>
  }

  datatype World = World(screen: TextScreen, terminal: Term)

  ghost function Runs(w: World, actions: seq<Action>, font: Font): World
    requires Agrees(w.screen, w.terminal) && forall k :: 0 <= k < |actions| ==> CellAction(actions[k])
    decreases |actions|
  {
    if actions == [] then w
    else
      StepAgrees(w.screen, w.terminal, actions[0], font);
      Runs(World(TextStep(w.screen, actions[0]), TermFeedAll(w.terminal, Sent(w.screen, actions[0]), font)),
          actions[1..], font)
  }

  lemma Opening(t: Term)
    requires Ready(t)
    ensures Agrees(FRESH, t)
  {}

  lemma {:induction false} RunAgrees(w: World, actions: seq<Action>, font: Font)
    requires Agrees(w.screen, w.terminal) && forall k :: 0 <= k < |actions| ==> CellAction(actions[k])
    ensures Agrees(Runs(w, actions, font).screen, Runs(w, actions, font).terminal)
    decreases |actions|
  {
    hide CellAction, TextStep, Sent;
    if actions != [] {
      StepAgrees(w.screen, w.terminal, actions[0], font);
      RunAgrees(World(TextStep(w.screen, actions[0]), TermFeedAll(w.terminal, Sent(w.screen, actions[0]), font)),
          actions[1..], font);
    }
  }

  /** A new screen and a terminal ready for text, after the actions. */
  ghost function After(t: Term, actions: seq<Action>, font: Font): (w: World)
    requires Ready(t) && forall k :: 0 <= k < |actions| ==> CellAction(actions[k])
    ensures Agrees(w.screen, w.terminal) && Ready(w.terminal)
  {
    Opening(t);
    RunAgrees(World(FRESH, t), actions, font);
    Runs(World(FRESH, t), actions, font)
  }

  /** The grid after the next frame. */
  ghost function NextGrid(w: World, font: Font): Grid
    requires Ready(w.terminal)
  {
    TermFeedAll(w.terminal, Sent(w.screen, Show), font).grid
  }

  /** After a frame every cell is as composed but those missed, which stay as they were. */
  lemma CellShown(w: World, i: nat, font: Font)
    requires Agrees(w.screen, w.terminal) && i < CELLS
    ensures NextGrid(w, font)[i] == if Missed(w.screen, w.terminal.grid, i) then w.terminal.grid[i] else w.screen.buf[i]
  {
    hide TextFrame, TermFeed;
    FrameMerges(w.terminal, w.screen.buf, w.screen.shown, 0, font);
  }

  /** Over every run, from any terminal ready for text: after a frame every cell is as composed but
      those missed, so that the grid is the composition if and only if none is; and a frame is empty
      exactly when the composition is what was last shown. */
  lemma EveryTextFrameShows(t: Term, actions: seq<Action>, font: Font)
    requires Ready(t) && forall k :: 0 <= k < |actions| ==> CellAction(actions[k])
    ensures var w := After(t, actions, font); var s, g, g' := w.screen, w.terminal.grid, NextGrid(w, font);
            && (forall i :: 0 <= i < CELLS ==> g'[i] == if Missed(s, g, i) then g[i] else s.buf[i])
            && (g' == s.buf <==> forall i :: 0 <= i < CELLS ==> !Missed(s, g, i))
            && (Sent(s, Show) == [] <==> s.buf == s.shown)
  {
    hide TextFrame, Missed, NextGrid, After, Agrees, Ready;
    var w := After(t, actions, font);
    var s, g, g' := w.screen, w.terminal.grid, NextGrid(w, font);
    forall i | 0 <= i < CELLS ensures g'[i] == if Missed(s, g, i) then g[i] else s.buf[i] { CellShown(w, i, font); }
    NoneMissed(s, g, g');
    FrameQuiet(s.buf, s.shown, 0);
  }

  lemma NoneMissed(s: TextScreen, g: Grid, g': Grid)
    requires forall i :: 0 <= i < CELLS ==> g'[i] == if Missed(s, g, i) then g[i] else s.buf[i]
    ensures g' == s.buf <==> forall i :: 0 <= i < CELLS ==> !Missed(s, g, i)
  {
    if g' == s.buf {
      forall i | 0 <= i < CELLS ensures !Missed(s, g, i) { assert g'[i] == s.buf[i]; }
    }
  }

  /** In particular, a composition without black ink is always shown. */
  lemma WithoutBlack(t: Term, actions: seq<Action>, font: Font)
    requires Ready(t) && forall k :: 0 <= k < |actions| ==> CellAction(actions[k])
    ensures var w := After(t, actions, font);
            0 !in w.screen.buf ==> NextGrid(w, font) == w.screen.buf
  {
    hide NextGrid, After, Agrees;
    EveryTextFrameShows(t, actions, font);
  }

  /** Black ink put on a new screen is not sent: on a terminal of spaces the space stays. */
  lemma BlackMissed(t: Term, font: Font)
    requires Ready(t) && t.grid == Spaces()
    ensures CellAction(Put(0, 0, 0))
    ensures var w := After(t, [Put(0, 0, 0)], font);
            w.screen.buf[0] == 0 && NextGrid(w, font) == Spaces()
  {
    var w := After(t, [Put(0, 0, 0)], font);
    AfterPut(t, font);
    hide TextFrame, TermFeed, After, MergeGrid;
    BlackSkipped();
    FrameMerges(t, w.screen.buf, w.screen.shown, 0, font);
  }

  lemma BlackSkipped()
    ensures MergeGrid(Spaces(), Spaces()[0 := 0], Repeat(0, CELLS), 0) == Spaces()
    ensures Sendable(Spaces()[0 := 0], Repeat(0, CELLS), 0)
  {}

  lemma AfterPut(t: Term, font: Font)
    requires Ready(t)
    ensures After(t, [Put(0, 0, 0)], font) == World(TextStep(FRESH, Put(0, 0, 0)), t)
  {
    assert [Put(0, 0, 0)][1..] == [] && TermFeedAll(t, [], font) == t;
  }

  /** After a Reset any other terminal ready for text will do: whatever it holds, a frame puts in it every
      cell composed but those of black ink. */
  lemma ResetShows(t: Term, actions: seq<Action>, other: Term, font: Font)
    requires Ready(t) && Ready(other) && forall k :: 0 <= k < |actions| ==> CellAction(actions[k])
    ensures var w := World(TextStep(After(t, actions, font).screen, Reset), other);
            && Agrees(w.screen, other) && w.screen.buf == After(t, actions, font).screen.buf
            && forall i :: 0 <= i < CELLS && w.screen.buf[i] != 0 ==> NextGrid(w, font)[i] == w.screen.buf[i]
  {
    hide After, NextGrid;
    var w := World(TextStep(After(t, actions, font).screen, Reset), other);
    forall i | 0 <= i < CELLS && w.screen.buf[i] != 0 ensures NextGrid(w, font)[i] == w.screen.buf[i] {
      CellShown(w, i, font);
    }
  }
}
