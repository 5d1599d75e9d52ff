/** `Terminal` itself (pcterm/internal/ula/ula.go): the grid is an array written in place and the
    decoding state a set of fields.  Each method is proved to take the terminal's value where Ula says. */
module Terminal {
  import opened Options
  import opened Bytes
  import opened HiresDecoder
  import opened Raster
  import opened Ula

  class Terminal {
    const font: Font
    const grid: array<byte>
    var col: int
    var row: int
    var st: State
    var plotX: int
    var inHires: bool
    var hr: Raster?
    var pending: Transfer
    ghost var Repr: set<object>

    ghost predicate Valid()
      reads this, Repr
    {
      && this in Repr && grid in Repr
      && grid.Length == CELLS && 0 <= col <= COLS && 0 <= row < ROWS
      && (st == Hires ==> hr != null)
      && (hr != null ==>
            && {hr, hr.vram} <= Repr && hr.vram != grid && hr.font == font
            && (hr.blit != null ==> hr.blit in Repr)
            && hr.Valid())
    }

    ghost function Value(): Term
      reads this, Repr
      requires Valid()
    {
      Term(grid[..], col, row, st, plotX, inHires, if hr == null then None else Some(hr.Value()), pending)
    }

    /** `New` */
    constructor (font: Font)
      ensures Valid() && fresh(Repr) && this.font == font
      ensures Value() == Term(Spaces(), 0, 0, Normal, 0, false, None, NoTransfer)
    {
      this.font := font;
      grid := new byte[CELLS](_ => SPACE);
      col, row, st, plotX, inHires, hr, pending := 0, 0, Normal, 0, false, null, NoTransfer;
      Repr := {this, grid};
      new;
      assert grid[..] == Spaces();
    }

    method Clear()
      requires Valid()
      modifies this`col, this`row, grid
      ensures Valid() && Value() == old(Value()).(grid := Spaces(), col := 0, row := 0)
    {
      for i := 0 to grid.Length
        invariant Valid() && unchanged(this)
        invariant hr != null ==> hr.Value() == old(hr.Value())
        invariant forall k :: 0 <= k < i ==> grid[k] == SPACE
      {
        grid[i] := SPACE;
      }
      assert grid[..] == Spaces();
      col, row := 0, 0;
    }

    method ScrollUp()
      requires Valid()
      modifies grid
      ensures Valid() && Value() == old(Value()).(grid := ScrolledUp(old(Value()).grid))
    {
      ghost var g := grid[..];
      for i := 0 to CELLS - COLS
        invariant Valid() && (hr != null ==> hr.Value() == old(hr.Value()))
        invariant forall k :: 0 <= k < i ==> grid[k] == g[k + COLS]
        invariant forall k :: i <= k < CELLS ==> grid[k] == g[k]
      {
        grid[i] := grid[i + COLS];
      }
      for i := CELLS - COLS to CELLS
        invariant Valid() && (hr != null ==> hr.Value() == old(hr.Value()))
        invariant forall k :: 0 <= k < CELLS - COLS ==> grid[k] == g[k + COLS]
        invariant forall k :: CELLS - COLS <= k < i ==> grid[k] == SPACE
      {
        grid[i] := SPACE;
      }
      assert grid[..] == ScrolledUp(g);
    }

    method PutByte(b: byte)
      requires Valid()
      modifies this`col, this`row, grid
      ensures Valid() && Value() == Ula.PutByte(old(Value()), b)
    {
      hide ScrolledUp;
      if b == 0x0D {
        col := 0;
      } else if b == 0x0A {
        col := 0;
        if row + 1 >= ROWS {
          ScrollUp();
          row := ROWS - 1;
        } else {
          row := row + 1;
        }
      } else if b == 0x08 {
        if col > 0 {
          col := col - 1;
          grid[row * COLS + col] := SPACE;
        }
      } else if col < COLS {
        grid[row * COLS + col] := b;
        col := col + 1;
      }
    }

    method SetCursor(c: int, r: int)
      requires Valid()
      modifies this`col, this`row
      ensures Valid() && Value() == old(Value()).(col := Clamp(c, COLS - 1), row := Clamp(r, ROWS - 1))
    {
      hide Repeat, Spaces;
      col, row := c, r;
      if c < 0 { col := 0; } else if c > COLS - 1 { col := COLS - 1; }
      if r < 0 { row := 0; } else if r > ROWS - 1 { row := ROWS - 1; }
    }

    /** The byte after 1F. */
    method After(b: byte)
      requires Valid()
      modifies this, grid
      ensures Valid() && fresh(Repr - old(Repr)) && Value() == Command1F(old(Value()), b)
    {
      if b == 0xFE {
        pending, st := Download, Normal;
      } else if b == 0xFD {
        pending, st := Upload, Normal;
      } else if b == 0xFC {
        Clear();
        hr := new Raster(font);
        Repr := Repr + {hr, hr.vram};
        inHires, st := true, Hires;
      } else if b == 0xFB {
        Clear();
        inHires, hr, st := false, null, Normal;
      } else {
        plotX, st := b, PlotRow;
      }
    }

    method FeedRaster(b: byte)
      requires Valid() && st == Hires
      modifies Repr
      ensures Valid() && fresh(Repr - old(Repr)) && Value() == TermFeed(old(Value()), b, font)
    {
      hide Feed;
      ghost var raster := hr;
      var over := hr.Feed(b);
      if hr.blit != null { Repr := Repr + {hr.blit}; }
      if over { st := Normal; }
    }

    /** `feed` */
    method FeedByte(b: byte)
      requires Valid()
      modifies Repr
      ensures Valid() && fresh(Repr - old(Repr)) && Value() == TermFeed(old(Value()), b, font)
    {
      hide Ula.PutByte, Command1F, Feed;
      match st
      case After1F => After(b);
      case PlotRow =>
        SetCursor(plotX, b);
        st := Normal;
      case Hires => FeedRaster(b);
      case Normal =>
        if b == PLOT { st := After1F; } else { PutByte(b); }
    }

    /** `WriteScan`: stops after the byte that asks for a transfer. */
    method WriteScan(p: seq<byte>) returns (consumed: nat, xfer: Transfer)
      requires Valid() && pending == NoTransfer
      modifies Repr
      ensures Valid() && fresh(Repr - old(Repr))
      ensures consumed <= |p| && pending == NoTransfer
      ensures var t := TermFeedAll(old(Value()), p[..consumed], font);
              Value() == t.(pending := NoTransfer) && xfer == t.pending
      ensures xfer == NoTransfer ==> consumed == |p|
      ensures forall k :: 0 <= k < consumed ==> TermFeedAll(old(Value()), p[..k], font).pending == NoTransfer
    {
      hide TermFeed;
      ghost var t := Value();
      for i := 0 to |p|
        invariant Valid() && fresh(Repr - old(Repr)) && pending == NoTransfer
        invariant Value() == TermFeedAll(t, p[..i], font)
        invariant forall k :: 0 <= k <= i ==> TermFeedAll(t, p[..k], font).pending == NoTransfer
      {
        FedOneMore(t, p, i, font);
        FeedByte(p[i]);
        if pending != NoTransfer {
          consumed, xfer := i + 1, pending;
          pending := NoTransfer;
          return;
        }
      }
      assert p[..|p|] == p;
      return |p|, NoTransfer;
    }
  }

  lemma FedOneMore(t: Term, p: seq<byte>, i: nat, font: Font)
    requires Sound(t) && i < |p|
    ensures Sound(TermFeedAll(t, p[..i], font))
    ensures TermFeedAll(t, p[..i + 1], font) == TermFeed(TermFeedAll(t, p[..i], font), p[i], font)
  {
    hide TermFeed;
    assert p[..i + 1] == p[..i] + [p[i]];
    TermFeedAppend(t, p[..i], [p[i]], font);
    OneFed(TermFeedAll(t, p[..i], font), p[i], font);
  }
}
