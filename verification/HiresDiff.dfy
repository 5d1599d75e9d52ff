/** The differential HIRES screen (internal/oascii/hires_screen.go): what is composed, what was last
    emitted, and the stream that takes a terminal from one to the other. */
module HiresDiff {
  import opened Options
  import opened Bytes
  import opened Lines
  import opened Circles
  import opened Vram
  import opened HiresDecoder

  datatype Screen = Screen(buf: Vram, shown: Vram, started: bool)

  // ---------------------------------------------------------------- the difference of two memories

  /** The end of the run of changed bytes that i starts. */
  function RunEnd(buf: Vram, shown: Vram, i: nat): (e: nat)
    requires i <= SIZE
    ensures i <= e <= SIZE
    ensures i < SIZE && buf[i] != shown[i] ==> i < e
    decreases SIZE - i
  {
    if i < SIZE && buf[i] != shown[i] then RunEnd(buf, shown, i + 1) else i
  }

  /** One blit per run of changed bytes, from index i on. */
  function Changes(buf: Vram, shown: Vram, i: nat): seq<byte>
    requires i <= SIZE
    decreases SIZE - i
  {
    if i == SIZE then []
    else if buf[i] == shown[i] then Changes(buf, shown, i + 1)
    else
      var e := RunEnd(buf, shown, i);
      BlitBytes(i, buf[i..e]) + Changes(buf, shown, e)
  }

  lemma ChangesFrom(buf: Vram, shown: Vram, i: nat)
    requires i <= SIZE
    ensures i == SIZE ==> Changes(buf, shown, i) == []
    ensures i < SIZE && buf[i] == shown[i] ==> Changes(buf, shown, i) == Changes(buf, shown, i + 1)
    ensures i < SIZE && buf[i] != shown[i] ==>
      var e := RunEnd(buf, shown, i);
      i < e <= SIZE && Changes(buf, shown, i) == BlitBytes(i, buf[i..e]) + Changes(buf, shown, e)
  {
    hide BlitBytes;
  }

  /** The commands the blits are read as. */
  function ChangeCommands(buf: Vram, shown: Vram, i: nat): seq<Command>
    requires i <= SIZE
    decreases SIZE - i
  {
    if i == SIZE then []
    else if buf[i] == shown[i] then ChangeCommands(buf, shown, i + 1)
    else
      var e := RunEnd(buf, shown, i);
      [Command(HI_BLIT, BlitHeader(i, e - i))] + ChangeCommands(buf, shown, e)
  }

  /** v with the bytes in which buf and shown differ, from i on, replaced by those of buf. */
  function Merge(v: Vram, buf: Vram, shown: Vram, i: nat): Vram {
    seq(SIZE, j requires 0 <= j < SIZE => if i <= j && buf[j] != shown[j] then buf[j] else v[j])
  }

  lemma {:induction false} RunEndChanged(buf: Vram, shown: Vram, i: nat)
    requires i <= SIZE
    ensures var e := RunEnd(buf, shown, i); forall j :: i <= j < e ==> buf[j] != shown[j]
    decreases SIZE - i
  {
    if i < SIZE && buf[i] != shown[i] { RunEndChanged(buf, shown, i + 1); }
  }

  lemma MergeSame(v: Vram, buf: Vram, shown: Vram, i: nat)
    requires i < SIZE && buf[i] == shown[i]
    ensures Merge(v, buf, shown, i) == Merge(v, buf, shown, i + 1)
  {}

  lemma MergeEnd(v: Vram, buf: Vram, shown: Vram)
    ensures Merge(v, buf, shown, SIZE) == v
  {}

  lemma MergeRun(v: Vram, buf: Vram, shown: Vram, i: nat, e: nat)
    requires i <= e <= SIZE && forall j :: i <= j < e ==> buf[j] != shown[j]
    ensures Merge(Paint(v, i, buf[i..e]), buf, shown, e) == Merge(v, buf, shown, i)
  {}

  /** On any memory whatever, the blits write buf in exactly the places where it differs from shown. */
  lemma {:induction false} ChangesDecode(c: Canvas, buf: Vram, shown: Vram, i: nat, font: Font)
    requires i <= SIZE
    ensures Decodes(c, Changes(buf, shown, i), font, ChangeCommands(buf, shown, i),
            c.(vram := Merge(c.vram, buf, shown, i)))
    decreases SIZE - i
  {
    hide Merge, Paint, Decodes, BlitBytes;
    if i == SIZE {
      MergeEnd(c.vram, buf, shown);
      DecodesNothing(c, font);
    } else if buf[i] == shown[i] {
      MergeSame(c.vram, buf, shown, i);
      ChangesDecode(c, buf, shown, i + 1, font);
    } else {
      var e := RunEnd(buf, shown, i);
      var c' := c.(vram := Paint(c.vram, i, buf[i..e]));
      RunEndChanged(buf, shown, i);
      MergeRun(c.vram, buf, shown, i, e);
      BlitDecodes(c, i, buf[i..e], font);
      ChangesDecode(c', buf, shown, e, font);
      DecodesBoth(c, BlitBytes(i, buf[i..e]), Changes(buf, shown, e), font,
                  [Command(HI_BLIT, BlitHeader(i, e - i))], ChangeCommands(buf, shown, e),
                  c', c'.(vram := Merge(c'.vram, buf, shown, e)));
    }
  }

  lemma {:induction false} ChangesEmpty(buf: Vram, shown: Vram, i: nat)
    requires i <= SIZE
    ensures Changes(buf, shown, i) == [] <==> buf[i..] == shown[i..]
    decreases SIZE - i
  {
    if i < SIZE {
      assert buf[i..] == [buf[i]] + buf[i + 1..] && shown[i..] == [shown[i]] + shown[i + 1..];
      if buf[i] == shown[i] { ChangesEmpty(buf, shown, i + 1); }
    }
  }

  // ---------------------------------------------------------------- frames

  /** What `Render` compares with: a terminal that has just been told HiOn is blank. */
  function Base(s: Screen): Vram { if s.started then s.shown else Blank() }

  function Rendered(s: Screen): (r: (Screen, Option<seq<byte>>)) {
    var blits := Changes(s.buf, Base(s), 0);
    if s.started && blits == [] then (s, None)
    else (Screen(s.buf, s.buf, true),
          Some([PLOT, HIRES] + (if s.started then [] else [HI_ON]) + blits + [HI_END]))
  }

  /** The canvas a terminal holding c has after a frame; the two opening bytes select the decoder. */
  function Replayed(c: Canvas, frame: Option<seq<byte>>, font: Font): Canvas
    requires frame.Some? ==> |frame.value| >= 2
  {
    match frame
    case None => c
    case Some(stream) => FeedAll(Decoder(c, Idle), stream[2..], font).canvas
  }

  /** The terminal agrees with the screen about what is shown. */
  ghost predicate InStep(s: Screen, c: Canvas) { s.started ==> c.vram == s.shown }

  lemma OpcodeDecodes(c: Canvas, op: byte, font: Font)
    requires op == HI_ON
    ensures Decodes(c, [op], font, [Command(op, [])], BLANK.(paper := c.paper))
  {
    LastFeeds(Decoder(c, Idle), op, font);
  }

  /** A frame is read as what it says, is over exactly at its last byte, and leaves the terminal with
      the composed memory. */
  lemma FrameShows(s: Screen, c: Canvas, font: Font)
    requires InStep(s, c) && Rendered(s).1.Some?
    ensures var stream := Rendered(s).1.value;
            && |stream| >= 3 && stream[..2] == [PLOT, HIRES]
            && FeedAll(Decoder(c, Idle), stream[2..|stream| - 1], font).mode == Idle
            && FeedAll(Decoder(c, Idle), stream[2..], font).mode == Done
            && FeedAll(Decoder(c, Idle), stream[2..], font).canvas.vram == s.buf
            && Commands(Decoder(c, Idle), stream[2..], font) ==
               (if s.started then [] else [Command(HI_ON, [])]) + ChangeCommands(s.buf, Base(s), 0)
               + [Command(HI_END, [])]
  {
    hide Feed, Read, Changes, ChangeCommands, Merge;
    var c1 := if s.started then c else BLANK.(paper := c.paper);
    var on := if s.started then [] else [HI_ON];
    var cs := if s.started then [] else [Command(HI_ON, [])];
    if s.started { DecodesNothing(c, font); } else { OpcodeDecodes(c, HI_ON, font); }
    var blits := Changes(s.buf, Base(s), 0);
    var c2 := c1.(vram := Merge(c1.vram, s.buf, Base(s), 0));
    ChangesDecode(c1, s.buf, Base(s), 0, font);
    DecodesBoth(c, on, blits, font, cs, ChangeCommands(s.buf, Base(s), 0), c1, c2);
    MergeAll(c1.vram, s.buf);
    var stream := Rendered(s).1.value;
    EndDecodes(c, on + blits, font, cs + ChangeCommands(s.buf, Base(s), 0), c2);
    assert stream[2..] == on + blits + [HI_END];
    assert stream[2..|stream| - 1] == on + blits;
  }

  lemma MergeAll(shown: Vram, buf: Vram)
    ensures Merge(shown, buf, shown, 0) == buf
  {}

  lemma EndDecodes(c: Canvas, s: seq<byte>, font: Font, cs: seq<Command>, c': Canvas)
    requires Decodes(c, s, font, cs, c')
    ensures FeedAll(Decoder(c, Idle), s + [HI_END], font) == Decoder(c', Done)
    ensures Commands(Decoder(c, Idle), s + [HI_END], font) == cs + [Command(HI_END, [])]
    ensures forall k :: 0 <= k <= |s| ==> FeedAll(Decoder(c, Idle), (s + [HI_END])[..k], font).mode != Done
  {
    var d := Decoder(c, Idle);
    FeedAppend(d, s, [HI_END], font);
    CommandsAppend(d, s, [HI_END], font);
    LastFeeds(Decoder(c', Idle), HI_END, font);
    forall k | 0 <= k <= |s| ensures FeedAll(d, (s + [HI_END])[..k], font).mode != Done {
      assert (s + [HI_END])[..k] == s[..k] && s == s[..k] + s[k..];
      FeedAppend(d, s[..k], s[k..], font);
      if FeedAll(d, s[..k], font).mode == Done { DoneStays(FeedAll(d, s[..k], font), s[k..], font); }
    }
  }

  lemma {:induction false} DoneStays(d: Decoder, s: seq<byte>, font: Font)
    requires d.mode == Done
    ensures FeedAll(d, s, font) == d
    decreases |s|
  {
    if s != [] { DoneStays(d, s[1..], font); }
  }

  // ---------------------------------------------------------------- runs

  datatype Action =
    | SetPx(x: int, y: int)
    | ClearPx(x: int, y: int)
    | DrawLine(x0: int, y0: int, x1: int, y1: int)
    | DrawBox(x0: int, y0: int, x1: int, y1: int)
    | Fill(x0: int, y0: int, x1: int, y1: int)
    | DrawCircle(cx: int, cy: int, r: int)
    | ClearAll
    | Load(bitmap: seq<byte>)
    | Forget
    | Show

  /** The screen, the terminal that received every frame so far, and the composition at the last
      frame since the last Reset. */
  datatype World = World(screen: Screen, terminal: Canvas, last: Option<Vram>)

  function LineOn(v: Vram, x0: int, y0: int, x1: int, y1: int): Vram {
    PlotAll(v, Segment(Move, Point(x0, y0), Point(x1, y1)))
  }

  function BoxOn(v: Vram, x0: int, y0: int, x1: int, y1: int): Vram {
    LineOn(LineOn(LineOn(LineOn(v, x0, y0, x1, y0), x1, y0, x1, y1), x1, y1, x0, y1), x0, y1, x0, y0)
  }

  /** What a drawing action does to the composition. */
  function Composed(v: Vram, a: Action): Vram {
    match a
    case SetPx(x, y) => Plot(v, Point(x, y), true)
    case ClearPx(x, y) => Plot(v, Point(x, y), false)
    case DrawLine(x0, y0, x1, y1) => LineOn(v, x0, y0, x1, y1)
    case DrawBox(x0, y0, x1, y1) => BoxOn(v, x0, y0, x1, y1)
    case Fill(x0, y0, x1, y1) => FillBox(v, x0, y0, x1, y1)
    case DrawCircle(cx, cy, r) => PlotAll(v, Circle(Below, Point(cx, cy), r))
    case ClearAll => Blank()
    case Load(bitmap) => if |bitmap| == SIZE then bitmap else v
    case Forget => v
    case Show => v
  }

  function Step(w: World, a: Action, font: Font): World {
    match a
    case Forget => w.(screen := w.screen.(started := false), last := None)
    case Show =>
      var r := Rendered(w.screen);
      World(r.0, Replayed(w.terminal, r.1, font), Some(w.screen.buf))
    case _ => w.(screen := w.screen.(buf := Composed(w.screen.buf, a)))
  }

  function Runs(w: World, actions: seq<Action>, font: Font): World {
    if actions == [] then w else Step(Runs(w, actions[..|actions| - 1], font), actions[|actions| - 1], font)
  }

  const FRESH: Screen := Screen(Blank(), Repeat(0, SIZE), false)

  /** A server that has just opened a screen, and any terminal. */
  function Opening(terminal: Canvas): World { World(FRESH, terminal, None) }

  ghost predicate Faithful(w: World) {
    && InStep(w.screen, w.terminal)
    && (w.screen.started <==> w.last.Some?)
    && (w.last.Some? ==> w.screen.shown == w.last.value)
  }

  lemma StepFaithful(w: World, a: Action, font: Font)
    requires Faithful(w)
    ensures Faithful(Step(w, a, font))
    ensures a == Show ==> Step(w, a, font).terminal.vram == w.screen.buf == Step(w, a, font).screen.buf
  {
    if a == Show {
      ChangesEmpty(w.screen.buf, Base(w.screen), 0);
      if Rendered(w.screen).1.Some? { FrameShows(w.screen, w.terminal, font); }
    }
  }

  lemma {:induction false} RunFaithful(w: World, actions: seq<Action>, font: Font)
    requires Faithful(w)
    ensures Faithful(Runs(w, actions, font))
  {
    if actions != [] {
      RunFaithful(w, actions[..|actions| - 1], font);
      StepFaithful(Runs(w, actions[..|actions| - 1], font), actions[|actions| - 1], font);
    }
  }

  /** Over every run, whatever the terminal held at first: after each frame, its memory is the
      composition; and a frame is empty exactly when the composition is the one of the last frame. */
  lemma EveryFrameShows(terminal: Canvas, actions: seq<Action>, font: Font)
    ensures var w := Runs(Opening(terminal), actions, font); var w' := Runs(Opening(terminal), actions + [Show], font);
            && w'.terminal.vram == w.screen.buf == w'.screen.buf
            && (Rendered(w.screen).1 == None <==> w.last == Some(w.screen.buf))
  {
    var w := Runs(Opening(terminal), actions, font);
    RunFaithful(Opening(terminal), actions, font);
    StepFaithful(w, Show, font);
    assert (actions + [Show])[..|actions|] == actions;
    ChangesEmpty(w.screen.buf, Base(w.screen), 0);
  }

  /** After a Reset any other terminal will do: whatever it holds, each frame makes its memory the
      composition. */
  lemma ResetShows(terminal: Canvas, before: seq<Action>, other: Canvas, after: seq<Action>, font: Font)
    ensures var w := Runs(Opening(terminal), before + [Forget], font).(terminal := other);
            Runs(w, after + [Show], font).terminal.vram == Runs(w, after, font).screen.buf
  {
    hide Composed, Rendered, Replayed;
    RunFaithful(Opening(terminal), before, font);
    assert (before + [Forget])[..|before|] == before;
    var w := Runs(Opening(terminal), before + [Forget], font).(terminal := other);
    RunFaithful(w, after, font);
    StepFaithful(Runs(w, after, font), Show, font);
    assert (after + [Show])[..|after|] == after;
  }
}
