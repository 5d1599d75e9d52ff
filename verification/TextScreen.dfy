/** `Screen` itself (internal/oascii/screen.go): the two grids are arrays written in place.  Each
    method is proved to take the screen's value where TextDiff says. */
module TextScreen {
  import opened Bytes
  import opened Ula
  import opened TextDiff

  class Screen {
    const buf: array<byte>
    const shown: array<byte>

    ghost predicate Valid() {
      buf != shown && buf.Length == CELLS && shown.Length == CELLS
    }

    ghost function Value(): TextDiff.TextScreen
      reads buf, shown
      requires Valid()
    {
      TextDiff.TextScreen(buf[..], shown[..])
    }

    /** `NewScreen` */
    constructor ()
      ensures Valid() && fresh(buf) && fresh(shown)
      ensures Value() == FRESH
    {
      buf := new byte[CELLS](_ => SPACE);
      shown := new byte[CELLS](_ => 0);
      new;
      assert buf[..] == Spaces() && shown[..] == Repeat(0, CELLS);
    }

    method Clear()
      requires Valid()
      modifies buf
      ensures Value() == TextStep(old(Value()), Action.Clear)
    {
      for i := 0 to buf.Length
        invariant forall k :: 0 <= k < i ==> buf[k] == SPACE
      {
        buf[i] := SPACE;
      }
      assert buf[..] == Spaces();
    }

    method Put(col: int, row: int, b: byte)
      requires Valid()
      modifies buf
      ensures Value() == TextStep(old(Value()), Action.Put(col, row, b))
    {
      if col < 0 || col >= COLS || row < 0 || row >= ROWS { return; }
      buf[row * COLS + col] := b;
    }

    /** Returns the column after the last byte put. */
    method PutText(col: int, row: int, text: seq<byte>) returns (next: int)
      requires Valid()
      modifies buf
      ensures Value() == TextStep(old(Value()), Action.PutText(col, row, text))
      ensures next == if 0 <= row < ROWS && col < COLS then Bytes.Min(col + |text|, COLS) else col
    {
      next := col;
      if row < 0 || row >= ROWS {
        TextOff(buf[..], col, row, text);
        return;
      }
      var i := 0;
      assert text[0..] == text;
      while i < |text| && next < COLS
        invariant 0 <= i <= |text| && next == col + i && (i > 0 ==> next <= COLS)
        invariant shown[..] == old(shown[..])
        invariant TextOn(old(buf[..]), col, row, text) == TextOn(buf[..], next, row, text[i..])
      {
        ghost var before := buf[..];
        assert text[i..][1..] == text[i + 1..];
        if next >= 0 {
          buf[row * COLS + next] := text[i];
        }
        assert buf[..] == PutOn(before, next, row, text[i]);
        i := i + 1;
        next := next + 1;
      }
      TextOff(buf[..], next, row, text[i..]);
    }

    method Reset()
      requires Valid()
      modifies shown
      ensures Value() == TextStep(old(Value()), Action.Reset)
    {
      for i := 0 to shown.Length
        invariant forall k :: 0 <= k < i ==> shown[k] == 0
      {
        shown[i] := 0;
      }
      assert shown[..] == Repeat(0, CELLS);
    }

    /** `Render` */
    method Render() returns (out: seq<byte>)
      requires Valid()
      modifies shown
      ensures Value() == TextStep(old(Value()), Show) && out == Sent(old(Value()), Show)
    {
      hide RowChanges, TextFrame;
      FrameOver(buf[..], shown[..]);
      ghost var b, s: Grid := buf[..], shown[..];
      out := [];
      for row := 0 to ROWS
        invariant buf[..] == b && shown[..] == s
        invariant TextFrame(b, s, 0) == out + TextFrame(b, s, row)
      {
        FrameNext(b, s, row, out);
        var bytes := RenderRow(buf[..], shown[..], row);
        out := out + bytes;
      }
      for i := 0 to CELLS
        invariant buf[..] == b
        invariant forall k :: 0 <= k < i ==> shown[k] == buf[k]
      {
        shown[i] := buf[i];
      }
      assert shown[..] == b;
    }
  }

  /** The inner loop of `Render`: how far the changed cells of a row reach. */
  method Changed(buf: Grid, shown: Grid, row: nat, start: nat) returns (col: nat)
    requires row < ROWS && start <= COLS
    ensures col == SegmentEnd(buf, shown, row, start)
  {
    col := start;
    while col < COLS && buf[row * COLS + col] != shown[row * COLS + col]
      invariant start <= col <= COLS
      invariant SegmentEnd(buf, shown, row, start) == SegmentEnd(buf, shown, row, col)
    {
      col := col + 1;
    }
  }

  /** One row of `Render`. */
  method RenderRow(buf: Grid, shown: Grid, row: nat) returns (out: seq<byte>)
    requires row < ROWS
    ensures out == RowChanges(buf, shown, row, 0)
  {
    hide RowChanges, SegmentEnd;
    out := [];
    var col := 0;
    RowOver(buf, shown, row);
    while col < COLS
      invariant 0 <= col <= COLS
      invariant RowChanges(buf, shown, row, 0) == out + RowChanges(buf, shown, row, col)
    {
      if buf[row * COLS + col] == shown[row * COLS + col] {
        RowSame(buf, shown, row, col);
        col := col + 1;
        continue;
      }
      var start := col;
      col := Changed(buf, shown, row, start);
      RowNext(buf, shown, row, start, col, out);
      out := out + ([PLOT, start, row] + buf[row * COLS + start..row * COLS + col]);
    }
  }

  lemma RowOver(b: Grid, s: Grid, row: nat)
    requires row < ROWS
    ensures RowChanges(b, s, row, COLS) == []
  {}

  lemma RowSame(b: Grid, s: Grid, row: nat, col: nat)
    requires row < ROWS && col < COLS && b[row * COLS + col] == s[row * COLS + col]
    ensures RowChanges(b, s, row, col) == RowChanges(b, s, row, col + 1)
  {}

  lemma RowNext(b: Grid, s: Grid, row: nat, col: nat, e: nat, out: seq<byte>)
    requires row < ROWS && col < COLS && b[row * COLS + col] != s[row * COLS + col]
    requires e == SegmentEnd(b, s, row, col)
    ensures out + RowChanges(b, s, row, col)
            == out + ([PLOT, col, row] + b[row * COLS + col..row * COLS + e]) + RowChanges(b, s, row, e)
  {
    assert RowChanges(b, s, row, col)
        == ([PLOT, col, row] + b[row * COLS + col..row * COLS + e]) + RowChanges(b, s, row, e);
  }

  lemma FrameOver(b: Grid, s: Grid)
    ensures TextFrame(b, s, ROWS) == []
  {}

  lemma FrameNext(b: Grid, s: Grid, row: nat, out: seq<byte>)
    requires row < ROWS
    ensures out + TextFrame(b, s, row) == out + RowChanges(b, s, row, 0) + TextFrame(b, s, row + 1)
  {
    hide RowChanges;
  }

  lemma {:induction false} TextOff(g: Grid, col: int, row: int, text: seq<byte>)
    requires text == [] || !(0 <= row < ROWS) || col >= COLS
    ensures TextOn(g, col, row, text) == g
    decreases |text|
  {
    if text != [] { TextOff(g, col + 1, row, text[1..]); }
  }
}
