/** `HiresScreen` itself (internal/oascii/hires_screen.go): the two memories are arrays written in
    place.  Each method is proved to take the screen's value where HiresDiff says. */
module HiresScreen {
  import opened Options
  import opened Bytes
  import opened Lines
  import opened Circles
  import opened Vram
  import opened Rle
  import opened HiresDecoder
  import opened HiresDiff

  class HiresScreen {
    const buf: array<byte>
    const shown: array<byte>
    var started: bool

    ghost predicate Valid()
      reads this
    {
      buf != shown && buf.Length == SIZE && shown.Length == SIZE
    }

    ghost function Value(): Screen
      reads this, buf, shown
      requires Valid()
    {
      Screen(buf[..], shown[..], started)
    }

    /** `NewHiresScreen` */
    constructor ()
      ensures Valid() && fresh(buf) && fresh(shown)
      ensures Value() == FRESH
    {
      buf := new byte[SIZE](_ => CLEAR);
      shown := new byte[SIZE](_ => 0);
      started := false;
      new;
      assert buf[..] == Blank() && shown[..] == Repeat(0, SIZE);
    }

    method Clear()
      requires Valid()
      modifies buf
      ensures Value() == old(Value()).(buf := Composed(old(Value().buf), ClearAll))
    {
      for i := 0 to buf.Length
        invariant forall k :: 0 <= k < i ==> buf[k] == CLEAR
      {
        buf[i] := CLEAR;
      }
      assert buf[..] == Blank();
    }

    method Reset()
      requires Valid()
      modifies this`started
      ensures Value() == old(Value()).(started := false)
    {
      started := false;
    }

    method SetPixel(x: int, y: int)
      requires Valid()
      modifies buf
      ensures Value() == old(Value()).(buf := Composed(old(Value().buf), SetPx(x, y)))
    {
      if !InBounds(x, y) { return; }
      buf[y * 40 + x / 6] := WriteBit(buf[y * 40 + x / 6], 5 - x % 6, true);
    }

    method ClearPixel(x: int, y: int)
      requires Valid()
      modifies buf
      ensures Value() == old(Value()).(buf := Composed(old(Value().buf), ClearPx(x, y)))
    {
      if !InBounds(x, y) { return; }
      buf[y * 40 + x / 6] := WriteBit(buf[y * 40 + x / 6], 5 - x % 6, false);
    }

    /** Plots what a line or circle loop asks for, in its order. */
    method SetPixels(plots: seq<Point>)
      requires Valid()
      modifies buf
      ensures Value() == old(Value()).(buf := PlotAll(old(Value().buf), plots))
    {
      ghost var before := Value();
      for i := 0 to |plots|
        invariant Value() == before.(buf := PlotAll(before.buf, plots[..i]))
      {
        assert plots[..i + 1][..i] == plots[..i];
        SetPixel(plots[i].x, plots[i].y);
      }
      assert plots[..|plots|] == plots;
    }

    method Line(x0: int, y0: int, x1: int, y1: int)
      requires Valid()
      modifies buf
      ensures Value() == old(Value()).(buf := Composed(old(Value().buf), DrawLine(x0, y0, x1, y1)))
    {
      var plots := ScreenLine(x0, y0, x1, y1);
      SetPixels(plots);
    }

    method Box(x0: int, y0: int, x1: int, y1: int)
      requires Valid()
      modifies buf
      ensures Value() == old(Value()).(buf := Composed(old(Value().buf), DrawBox(x0, y0, x1, y1)))
    {
      hide PlotAll, Segment;
      Line(x0, y0, x1, y0);
      Line(x1, y0, x1, y1);
      Line(x1, y1, x0, y1);
      Line(x0, y1, x0, y0);
    }

    method FillBox(x0: int, y0: int, x1: int, y1: int)
      requires Valid()
      modifies buf
      ensures Value() == old(Value()).(buf := Composed(old(Value().buf), Fill(x0, y0, x1, y1)))
    {
      hide PlotAll, Segment;
      var top, bottom := y0, y1;
      if top > bottom { top, bottom := bottom, top; }
      ghost var before := Value();
      var y := top;
      while y <= bottom
        invariant top <= y <= bottom + 1
        invariant Value() == before.(buf := Value().buf)
        invariant FillRows(before.buf, x0, x1, top, bottom) == FillRows(Value().buf, x0, x1, y, bottom)
      {
        Line(x0, y, x1, y);
        y := y + 1;
      }
    }

    method Circle(cx: int, cy: int, r: int)
      requires Valid()
      modifies buf
      ensures Value() == old(Value()).(buf := Composed(old(Value().buf), DrawCircle(cx, cy, r)))
    {
      var plots := ServerCircle(cx, cy, r);
      SetPixels(plots);
    }

    method SetBitmap(vram: seq<byte>)
      requires Valid()
      modifies buf
      ensures Value() == old(Value()).(buf := Composed(old(Value().buf), Load(vram)))
    {
      if |vram| != SIZE { return; }
      for i := 0 to SIZE
        invariant forall k :: 0 <= k < i ==> buf[k] == vram[k]
      {
        buf[i] := vram[i];
      }
      assert buf[..] == vram;
    }

    /** Where the run of differing bytes that begins at `start` ends. */
    method EndOfRun(start: nat) returns (i: nat)
      requires Valid() && start <= SIZE
      ensures i == RunEnd(Value().buf, Value().shown, start)
    {
      ghost var b, s := Value().buf, Value().shown;
      i := start;
      while i < buf.Length && buf[i] != shown[i]
        invariant start <= i <= SIZE
        invariant RunEnd(b, s, start) == RunEnd(b, s, i)
      {
        i := i + 1;
      }
    }

    /** The blits for the runs in which buf and shown differ. */
    method Blits() returns (blits: seq<byte>)
      requires Valid()
      ensures blits == Changes(Value().buf, Value().shown, 0)
    {
      hide Encoded, Changes, RunEnd;
      ghost var b, s := Value().buf, Value().shown;
      blits := [];
      var i := 0;
      while i < buf.Length
        invariant 0 <= i <= SIZE
        invariant Changes(b, s, 0) == blits + Changes(b, s, i)
      {
        ChangesFrom(b, s, i);
        if buf[i] == shown[i] {
          i := i + 1;
          continue;
        }
        var start := i;
        i := EndOfRun(start);
        var run := buf[start..i];
        var rle := RLEEncode(run);
        blits := blits + ([HI_BLIT] + [Low(start), High(start), Low(|run|), High(|run|)] + rle);
      }
      ChangesFrom(b, s, SIZE);
    }

    /** `Render` */
    method Render() returns (frame: Option<seq<byte>>)
      requires Valid()
      modifies this`started, shown
      ensures Value() == Rendered(old(Value())).0 && frame == Rendered(old(Value())).1
    {
      hide Changes;
      var first := !started;
      if first {
        for i := 0 to shown.Length
          invariant Value().buf == old(Value().buf) && started == old(started)
          invariant forall k :: 0 <= k < i ==> shown[k] == CLEAR
        {
          shown[i] := CLEAR;
        }
        assert shown[..] == Blank();
      }
      assert shown[..] == Base(old(Value()));
      var blits := Blits();
      if !first && blits == [] {
        return None;
      }
      for i := 0 to shown.Length
        invariant Value().buf == old(Value().buf)
        invariant forall k :: 0 <= k < i ==> shown[k] == buf[k]
      {
        shown[i] := buf[i];
      }
      assert shown[..] == buf[..];
      started := true;
      var out := [PLOT, HIRES];
      assert !first ==> out + [] == out;
      if first { out := out + [HI_ON]; }
      out := out + blits;
      out := out + [HI_END];
      frame := Some(out);
    }
  }
}
