/** The client's terminal (pcterm/internal/ula/ula.go) as functions on values: the 40x28 grid, the
    cursor, and the decoding of text, plot commands, transfers and HIRES streams.
    The class `Terminal` is the same thing with its fields updated in place. */
module Ula {
  import opened Options
  import opened Bytes
  import opened HiresDecoder
  import opened HiresPage

  const COLS := 40
  const ROWS := 28
  const CELLS := 1120
  const SPACE: byte := 0x20

  type Grid = g: seq<byte> | |g| == CELLS witness Repeat(SPACE, CELLS)

  datatype State = Normal | After1F | PlotRow | Hires

  /** A transfer the stream has asked for and the client has not yet taken up. */
  datatype Transfer = NoTransfer | Download | Upload

  datatype Term = Term(grid: Grid, col: int, row: int, st: State, plotX: int, inHires: bool, hr: Option<Decoder>,
      pending: Transfer)

  function Spaces(): Grid { Repeat(SPACE, CELLS) }

  predicate Sound(t: Term) {
    && 0 <= t.col <= COLS && 0 <= t.row < ROWS
    && (t.st == Hires ==> t.hr.Some?)
  }

  /** The grid moved up one line, with spaces at the bottom. */
  function ScrolledUp(g: Grid): Grid {
    seq(CELLS, i requires 0 <= i < CELLS => if i < CELLS - COLS then g[i + COLS] else SPACE)
  }

  function Clamp(n: int, top: int): int { if n < 0 then 0 else if n > top then top else n }

  /** `putByte` */
  function PutByte(t: Term, b: byte): Term
    requires 0 <= t.col <= COLS && 0 <= t.row < ROWS
  {
    if b == 0x0D then t.(col := 0)
    else if b == 0x0A then
      if t.row + 1 >= ROWS then t.(col := 0, row := ROWS - 1, grid := ScrolledUp(t.grid))
      else t.(col := 0, row := t.row + 1)
    else if b == 0x08 then
      if t.col > 0 then t.(col := t.col - 1, grid := t.grid[t.row * COLS + t.col - 1 := SPACE]) else t
    else if t.col < COLS then t.(grid := t.grid[t.row * COLS + t.col := b], col := t.col + 1)
    else t
  }

  /** The byte after 1F. */
  function Command1F(t: Term, b: byte): Term {
    if b == 0xFE then t.(pending := Download, st := Normal)
    else if b == 0xFD then t.(pending := Upload, st := Normal)
    else if b == 0xFC then
      t.(hr := Some(Decoder(BLANK, Idle)), inHires := true, grid := Spaces(), col := 0, row := 0, st := Hires)
    else if b == 0xFB then t.(grid := Spaces(), col := 0, row := 0, inHires := false, hr := None, st := Normal)
    else t.(plotX := b, st := PlotRow)
  }

  /** `feed` */
  function TermFeed(t: Term, b: byte, font: Font): Term
    requires Sound(t)
  {
    match t.st
    case After1F => Command1F(t, b)
    case PlotRow => t.(col := Clamp(t.plotX, COLS - 1), row := Clamp(b, ROWS - 1), st := Normal)
    case Hires =>
      var d := Feed(t.hr.value, b, font);
      t.(hr := Some(d), st := if d.mode == Done then Normal else Hires)
    case Normal => if b == PLOT then t.(st := After1F) else PutByte(t, b)
  }

  lemma TermFeedSound(t: Term, b: byte, font: Font)
    requires Sound(t)
    ensures Sound(TermFeed(t, b, font))
  {
    hide Feed;
  }

  /** `Write`: every byte in turn; transfers are not looked at. */
  function TermFeedAll(t: Term, s: seq<byte>, font: Font): Term
    requires Sound(t)
    decreases |s|
  {
    if s == [] then t
    else
      TermFeedSound(t, s[0], font);
      TermFeedAll(TermFeed(t, s[0], font), s[1..], font)
  }

  lemma {:induction false} TermFeedAppend(t: Term, s: seq<byte>, u: seq<byte>, font: Font)
    requires Sound(t)
    ensures Sound(TermFeedAll(t, s, font))
    ensures TermFeedAll(t, s + u, font) == TermFeedAll(TermFeedAll(t, s, font), u, font)
    decreases |s|
  {
    hide TermFeed;
    if s == [] {
      assert s + u == u;
    } else {
      TermFeedSound(t, s[0], font);
      assert (s + u)[1..] == s[1..] + u;
      TermFeedAppend(TermFeed(t, s[0], font), s[1..], u, font);
    }
  }

  // ---------------------------------------------------------------- commands in a text

  /** Text takes the terminal nowhere but along the grid. */
  lemma {:induction false} TextKeepsReady(t: Term, s: seq<byte>, font: Font)
    requires Sound(t) && t.st == Normal && 0x1F !in s
    ensures var u := TermFeedAll(t, s, font); Sound(u) && u == t.(grid := u.grid, col := u.col, row := u.row)
    decreases |s|
  {
    if s != [] {
      TermFeedSound(t, s[0], font);
      TextKeepsReady(TermFeed(t, s[0], font), s[1..], font);
    }
  }

  lemma OneFed(t: Term, b: byte, font: Font)
    requires Sound(t)
    ensures TermFeedAll(t, [b], font) == TermFeed(t, b, font) && Sound(TermFeed(t, b, font))
    ensures t.st == Normal && b != PLOT ==> TermFeed(t, b, font) == PutByte(t, b)
  {
    hide PutByte, Feed;
    TermFeedSound(t, b, font);
    assert [b][1..] == [];
    assert TermFeedAll(TermFeed(t, b, font), [], font) == TermFeed(t, b, font);
  }

  /** The state before is forgotten by every byte after 1F. */
  lemma AfterCommand(t: Term, b: byte)
    ensures Command1F(t.(st := After1F), b) == Command1F(t, b)
  {}

  /** Up to the byte after it, 1F in a text does nothing that shows, and asks for nothing. */
  lemma CommandOpens(t: Term, s: seq<byte>, b: byte, font: Font)
    requires Sound(t) && t.st == Normal && 0x1F !in s
    ensures var u := TermFeedAll(t, s, font);
            && Sound(u) && TermFeedAll(t, s + [0x1F, b], font) == Command1F(u, b)
            && forall k :: 0 <= k <= |s| + 1 ==> TermFeedAll(t, (s + [0x1F, b])[..k], font).pending == t.pending
  {
    hide Command1F, Feed, TermFeedAll;
    var u, v := TermFeedAll(t, s, font), s + [0x1F];
    TextKeepsReady(t, s, font);
    TermFeedAppend(t, s, [0x1F], font);
    OneFed(u, 0x1F, font);
    var u' := TermFeedAll(t, v, font);
    assert u' == u.(st := After1F);
    TermFeedAppend(t, v, [b], font);
    OneFed(u', b, font);
    assert v + [b] == s + [0x1F, b];
    AfterCommand(u, b);
    forall k | 0 <= k <= |s| + 1 ensures TermFeedAll(t, (v + [b])[..k], font).pending == t.pending {
      if k <= |s| {
        TextKeepsReady(t, s[..k], font);
        assert (v + [b])[..k] == s[..k];
      } else {
        assert (v + [b])[..k] == v;
      }
    }
  }

  /** After any text, 1F FE asks for a download and 1F FD for an upload, at their last byte and not
      before; grid and cursor are those the text leaves. */
  lemma TransferAsked(t: Term, s: seq<byte>, font: Font)
    requires Sound(t) && t.st == Normal && t.pending == NoTransfer && 0x1F !in s
    ensures TermFeedAll(t, s + [0x1F, 0xFE], font) == TermFeedAll(t, s, font).(pending := Download)
    ensures TermFeedAll(t, s + [0x1F, 0xFD], font) == TermFeedAll(t, s, font).(pending := Upload)
    ensures forall b: byte, k ::
              0 <= k <= |s| + 1 ==> TermFeedAll(t, (s + [0x1F, b])[..k], font).pending == NoTransfer
  {
    hide TermFeedAll;
    TextKeepsReady(t, s, font);
    CommandOpens(t, s, 0xFE, font);
    CommandOpens(t, s, 0xFD, font);
    forall b: byte, k | 0 <= k <= |s| + 1
      ensures TermFeedAll(t, (s + [0x1F, b])[..k], font).pending == NoTransfer
    {
      CommandOpens(t, s, b, font);
    }
  }

  /** After any text, 1F FB empties the screen and leaves graphics. */
  lemma TextModeAsked(t: Term, s: seq<byte>, font: Font)
    requires Sound(t) && t.st == Normal && 0x1F !in s
    ensures var u := TermFeedAll(t, s + [0x1F, 0xFB], font);
            && (forall i :: 0 <= i < CELLS ==> u.grid[i] == 0x20) && u.col == u.row == 0
            && u == t.(grid := u.grid, col := 0, row := 0, inHires := false, hr := None)
  {
    hide TermFeedAll;
    TextKeepsReady(t, s, font);
    CommandOpens(t, s, 0xFB, font);
  }

  /** After any text, 1F and two bytes that are no command put the cursor at that column and row, as
      far as the grid goes; the grid is the one the text leaves, and nothing is asked for. */
  lemma CursorPlaced(t: Term, s: seq<byte>, col: byte, row: byte, font: Font)
    requires Sound(t) && t.st == Normal && 0x1F !in s && (col < 0xFB || col == 0xFF)
    ensures var u := TermFeedAll(t, s + [0x1F, col, row], font);
            && u.col == (if col < 40 then col else 39) && u.row == (if row < 28 then row else 27)
            && u == t.(grid := TermFeedAll(t, s, font).grid, col := u.col, row := u.row, plotX := col)
  {
    hide TermFeedAll;
    TextKeepsReady(t, s, font);
    CommandOpens(t, s, col, font);
    assert s + [0x1F, col, row] == (s + [0x1F, col]) + [row];
    TermFeedAppend(t, s + [0x1F, col], [row], font);
    OneFed(TermFeedAll(t, s + [0x1F, col], font), row, font);
  }

  // ---------------------------------------------------------------- HIRES streams through the terminal

  /** While a HIRES stream is read, the grid and the cursor are out of reach. */
  lemma {:induction false} TermReadsHires(t: Term, s: seq<byte>, font: Font)
    requires Sound(t) && t.st == Hires && t.hr.value.mode != Done
    requires forall k :: 0 <= k < |s| ==> FeedAll(t.hr.value, s[..k], font).mode != Done
    ensures var d := FeedAll(t.hr.value, s, font);
            TermFeedAll(t, s, font) == t.(hr := Some(d), st := if d.mode == Done then Normal else Hires)
    decreases |s|
  {
    hide Feed;
    if s != [] {
      TermFeedSound(t, s[0], font);
      var t' := TermFeed(t, s[0], font);
      forall k | 0 <= k < |s[1..]| ensures FeedAll(Feed(t.hr.value, s[0], font), s[1..][..k], font).mode != Done {
        assert s[..k + 1][0] == s[0] && s[..k + 1][1..] == s[1..][..k];
      }
      if |s| > 1 {
        assert s[1..][..0] == [];
        TermReadsHires(t', s[1..], font);
      } else {
        assert s[1..] == [];
      }
    }
  }

  /** A compiled page written to a terminal in normal state shows the page, leaves an empty grid, and
      leaves the terminal ready for text. */
  lemma PageThroughTerminal(t: Term, p: Page, font: Font)
    requires Sound(t) && t.st == Normal
    ensures TermFeedAll(t, PageBytes(p), font) ==
            t.(hr := Some(Decoder(DrawWire(Backdrop(BLANK, p), p.draw, font), Done)), inHires := true,
               grid := Spaces(), col := 0, row := 0)
  {
    var body := PageBytes(p)[2..];
    PageDecodes(p, BLANK, font);
    hide Feed, FeedAll, DrawWire;
    assert PageBytes(p) == [PLOT, HIRES] + body;
    hide PageBytes;
    OpensHires(t, font);
    TermFeedAppend(t, [PLOT, HIRES], body, font);
    var t' := TermFeedAll(t, [PLOT, HIRES], font);
    assert body[..|body|] == body;
    TermReadsHires(t', body, font);
  }

  lemma OpensHires(t: Term, font: Font)
    requires Sound(t) && t.st == Normal
    ensures TermFeedAll(t, [PLOT, HIRES], font) ==
            t.(hr := Some(Decoder(BLANK, Idle)), inHires := true, grid := Spaces(), col := 0, row := 0, st := Hires)
  {
    hide Feed;
    var t1 := TermFeed(t, PLOT, font);
    var t2 := TermFeed(t1, HIRES, font);
    assert [PLOT, HIRES][1..] == [HIRES] && [HIRES][1..] == [];
    assert TermFeedAll(t2, [], font) == t2;
    assert TermFeedAll(t1, [HIRES], font) == t2;
  }
}
