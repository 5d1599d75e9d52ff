# Verified model of bbsoric

The BBS serves text and graphic screens to Oric terminals over a byte stream, transfers files by
XMODEM, and guards what its sessions share. This project models the parts of it that are code
rather than glue, and proves what they are for:

- **Display.** The two differential screens and the page compiler of the server, and the decoders of
  the PC client, byte by byte. After every frame of every run the terminal holds the composition; a
  compiled page never loses step with the decoder; run-length coding is lossless and as short as
  possible (`Rle`, `HiresDecoder`, `HiresDiff`, `HiresPage`, `Picture`, `Ula`, `TextDiff`; the classes
  themselves in `HiresScreen`, `Raster`, `TextScreen`, `Terminal`).
- **Rasters.** Three line loops against one closed form, two midpoint circles against the exact set
  of pixels they draw, and the bits of the screen memory (`Lines`, `Circles`, `Vram`).
- **Word wrap.** A wrapped line means what the line means, on a screen that forgets its attributes at
  every line end; where its rows end; and exactly when the bytes on the link still mean it (`Oascii`,
  `Wrap`, `Breaks`, `TextChanges`, `LineOnScreen`; the loops in `OasciiBuilder`, `RenderText`).
- **XMODEM.** Both ends, the link between them and every schedule of damage; what the CRC detects;
  the download as a whole, header and 8.3 names included (`Octets`, `Crc`, `Bursts`, `Xmodem`,
  `XmodemLink`, `XmodemClean`, `XmodemIo`, `Download`).
- **Maze.** Generation yields a spanning tree for every size and every random source, and every maze
  can be played to its end; the mazes that can come out are exactly the depth-first trees (`Maze`,
  `MazeTrees`).
- **Guards.** Connection admission, chat, the sliding-window limiter and the key decoder, each over
  every interleaving or every way of cutting its input (`Admission`, `Snapshot`, `Server`,
  `Presence`, `Registry`, `Throttle`, `Limiter`, `Keys`).

Each imperative part of the program is a class or a method with the same fields and loops, proved
equal to a function of its input or of its old state; the theorems are lemmas about those functions.
`Options` and `Bytes` hold what the modules share.

## Where the code does not do what it says

- Text attributes share their bytes with control characters: none (08), double height alone (0A) and
  blinking alternate characters (0D) reach the terminal as backspace, line feed and carriage return.
  `Wrap.LineSafe` gives exactly the lines that never send those bytes; `TextChanges.OneRowExact` shows
  that a line on one row is shown as meant if and only if it is one of them (`TextChanges.BlinkThenPlain`
  is one that is not), and `Wrap.UniformExact` says the same of lines of any length whose text
  attributes do not change.
- A page may declare a circle of any radius, and the stream carries its low byte: `HiresPage.PageRecovered`
  (if and only if every radius is at most 255), with `HiresPage.WideCircle` as the example.
- Files of up to 65535 blocks are offered for download, but the receiver stops at 1 MiB, and trailing 1A bytes
  are taken for padding: `Download.DownloadIsExact` gives exactly the files that arrive unchanged.
- The last acknowledgement of a transfer is sent once; if it is lost the sender reports a failure of
  a transfer that succeeded. `XmodemLink.LastAckDecides`: the sender succeeds if and only if it comes
  through; `XmodemLink.LastAckLost` is a run in which it does not.
- The comment on `sedoricName` says that characters other than letters and digits become spaces; they
  are dropped. `Download.NameAsCommented` gives exactly the names for which that is the same.
- The name of a downloaded file is kept if and only if its base has a letter or a digit, or its
  extension has none (`Download.NameRoundTrip`).
- `Stats` is described as a coherent snapshot, and reads three counters one after the other. It is sure
  to be that of one moment if and only if at most one of them moves meanwhile (`Snapshot.SnapshotExact`,
  with a torn snapshot for each two), and sure to report no more active and rejected than accepted if
  and only if no connection is accepted meanwhile (`Snapshot.StatsAccounted`).
- A text cell may hold any attribute, and 00, black ink, also stands for a cell never shown: put on a new
  screen it is not sent (`TextDiff.BlackMissed`). `TextDiff.EveryTextFrameShows` gives exactly the cells
  missed, `TextDiff.FrameExact` exactly the grids a frame makes the composition.
- The limiter forgets failures when the clock goes back: `Throttle.DecidesExactly` gives exactly when it
  still decides as the complete log would, `Throttle.ClockBack` an instance where it does not. It never
  refuses for it (`Throttle.NeverTooStrict`).

## Model

| member | source | states |
|---|---|---|
| Rle.ExpandedEncoded | internal/oascii/hires.go:40-69 | whatever the data, the pairs of its code stand for the data |
| Rle.EncodedPairs | internal/oascii/hires.go:45-57 | the code is whole pairs with counts from 1 to 255, none only for no data |
| Rle.EncodedShortest | internal/oascii/hires.go:45-57 | no sequence of pairs that stands for the same data is shorter |
| Rle.RLEEncode | internal/oascii/hires.go:45-57 | the loop computes that code |
| Rle.RLEDecode | internal/oascii/hires.go:60-69 | at most n bytes of what the pairs stand for, a dangling count standing for nothing |
| Lines.SegmentEnds | internal/oascii/hires_screen.go:87-114 | every line has max(\|dx\|,\|dy\|)+1 pixels, from one endpoint to the other |
| Lines.SegmentShape | internal/oascii/hires_screen.go:87-114 | one pixel at a time along the major axis, at most one on the minor, never more than half a pixel from the ideal line |
| Lines.RulesPartOnTies | internal/oascii/hires_screen.go:105-109 | the server's line and the client's differ at a pixel exactly where the ideal line is half-way between two |
| Lines.PixelAt | pcterm/internal/hires/hires.go:202-241 | a rounded row identifies the k-th pixel, for all integer endpoints |
| Lines.ClientLine | pcterm/internal/hires/hires.go:202-241 | the major-axis loop plots the closed form, halves staying |
| Lines.StudioLine | studio/web/app.js:1295-1300 | for all integer endpoints, cut to 32 bits as the code cuts them, the both-axis loop plots the same pixels in the same order as the client's line |
| Lines.ScreenLine | internal/oascii/hires_screen.go:87-114 | the server's loop terminates and plots the closed form, halves moving |
| Circles.HeadStart | internal/oascii/hires_screen.go:139-141 | the loop starts with the error term (y+1)²+x²-x-r² and a pixel in the band |
| Circles.HeadStep | internal/oascii/hires_screen.go:141-157 | every turn keeps the error term exact and the next pixel in the band, under either sign test |
| Circles.OctantExact | internal/oascii/hires_screen.go:135-158 | the loop draws one pixel per row of the octant, and every pixel of the band |
| Circles.CircleExact | pcterm/internal/hires/hires.go:260-283 | for every radius, the pixels drawn are exactly those nearest to the circle along their minor axis |
| Circles.CircleError | internal/oascii/hires_screen.go:135-158 | every plotted offset has \|x²+y²-r²\| at most max(\|x\|,\|y\|) |
| Circles.CircleSymmetric | internal/oascii/hires_screen.go:142-150 | offsets with the same two absolute values are drawn together |
| Circles.CirclePoint | internal/oascii/hires_screen.go:135-158 | a null radius draws its centre and nothing else |
| Circles.ServerCircle | internal/oascii/hires_screen.go:135-158 | the server's loop plots the eight images of its octant (`err < 0`) |
| Circles.ClientCircle | pcterm/internal/hires/hires.go:260-283 | the client's loop plots the eight images of its octant (`err <= 0`) |
| Bytes.BitWritten | internal/oascii/hires_screen.go:71-84 | setting or clearing a bit changes that bit and no other |
| Vram.PlotPixel | internal/oascii/hires_screen.go:67-84 | SetPixel and ClearPixel change the pixel they name, if it is on the screen, and no other |
| Vram.PlotAllPixel | internal/oascii/hires_screen.go:71-76 | a drawing lights the pixels it names that fall on the screen, and no other changes |
| Vram.PlotAllKeepsMode | internal/oascii/hires_screen.go:71-84 | bits 6 and 7 of the bytes, which hold no pixel, never change |
| Vram.RowPixels | internal/oascii/hires_screen.go:87-114 | a horizontal line is exactly the pixels between its ends |
| Vram.FillBoxExact | internal/oascii/hires_screen.go:125-132 | FillBox lights exactly the rectangle between its corners, clipped to the screen |
| HiresScreen.HiresScreen.constructor | internal/oascii/hires_screen.go:49-53 | a new screen: blank composition, nothing shown |
| HiresScreen.HiresScreen.Clear | internal/oascii/hires_screen.go:57-61 | the composition becomes blank, what is shown is left alone |
| HiresScreen.HiresScreen.Reset | internal/oascii/hires_screen.go:63-65 | the next frame is a first frame; nothing else changes |
| HiresScreen.HiresScreen.SetPixel | internal/oascii/hires_screen.go:71-76 | the array is written as the pixel law says |
| HiresScreen.HiresScreen.ClearPixel | internal/oascii/hires_screen.go:79-84 | the array is written as the pixel law says |
| HiresScreen.HiresScreen.Line | internal/oascii/hires_screen.go:87-114 | lights the pixels of the segment |
| HiresScreen.HiresScreen.Box | internal/oascii/hires_screen.go:117-122 | lights the four sides |
| HiresScreen.HiresScreen.FillBox | internal/oascii/hires_screen.go:125-132 | lights the rows the rectangle theorem is about, corners in any order |
| HiresScreen.HiresScreen.Circle | internal/oascii/hires_screen.go:135-158 | lights the pixels of the circle |
| HiresScreen.HiresScreen.SetBitmap | internal/oascii/hires_screen.go:162-167 | takes a bitmap of 8000 bytes, ignores any other |
| HiresScreen.HiresScreen.Blits | internal/oascii/hires_screen.go:182-198 | one blit per run of changed bytes |
| HiresScreen.HiresScreen.Render | internal/oascii/hires_screen.go:173-213 | the frame and the new state are those the diff theorems are about |
| HiresDecoder.PixelsLit | pcterm/internal/hires/hires.go:183-199 | a drawing lights the pixels it names that fall on the screen and no other, but for the six under the first byte of a line when that byte holds a colour |
| HiresDecoder.FirstBytes | pcterm/internal/hires/hires.go:183-199 | in colour mode the first byte of every line a drawing touches takes the ink, and no other; a painted paper stays |
| HiresDecoder.RectangleIs | pcterm/internal/hires/hires.go:244-257 | a filled box is exactly the pixels between its corners |
| HiresDecoder.FeedAppend | pcterm/internal/hires/hires.go:97-130 | the decoder does not depend on how the stream is cut |
| HiresDecoder.BodyFeeds | pcterm/internal/hires/hires.go:416-444 | the pairs of a blit write its data, none of their bytes is taken for an opcode, and the decoder is idle at the last of them |
| HiresDecoder.BlitDecodes | pcterm/internal/hires/hires.go:416-444 | a blit as both encoders write it is read as one command and writes its data at its offset |
| HiresDecoder.PairsFeed | pcterm/internal/hires/hires.go:416-444 | whatever the pairs, a count of 0 standing for one byte, a blit writes what they stand for as far as the length announced, and ends with the pair that reaches it |
| HiresDecoder.UnknownIgnored | pcterm/internal/hires/hires.go:74-92 | a byte that is no opcode does nothing |
| HiresDiff.ChangesDecode | internal/oascii/hires_screen.go:182-198 | replayed on any memory whatever, the blits write the composition in exactly the bytes that differ |
| HiresDiff.ChangesEmpty | internal/oascii/hires_screen.go:182-202 | no blits if and only if nothing differs |
| HiresDiff.FrameShows | internal/oascii/hires_screen.go:173-213 | a frame is read as its opcodes and blits, is over exactly at its last byte, and leaves the composition in the terminal |
| HiresDiff.StepFaithful | internal/oascii/hires_screen.go:57-213 | every drawing action, Clear, SetBitmap, Reset and Render keeps terminal and screen in agreement |
| HiresDiff.EveryFrameShows | internal/oascii/hires_screen.go:169-213 | over every run, from any terminal, each frame makes its memory the composition; Render is nil exactly when the composition is the one last rendered |
| HiresDiff.ResetShows | internal/oascii/hires_screen.go:63-65 | after a Reset any other terminal will do: each frame makes its memory the composition |
| Picture.FramePixel | internal/oascii/hires_screen.go:71-213 | over every run, a pixel is lit after a frame if and only if some action has lit it (the pixel, the line, the four sides, the rectangle, the pixels nearest to the circle, the bitmap) and none since has wiped it out |
| Picture.ComposedMode | internal/oascii/hires_screen.go:57-167 | only clearing the screen and loading a bitmap set bits 6 and 7 of a byte |
| Picture.OutlineIs | pcterm/internal/hires/hires.go:164-170 | the four lines of a box are the pixels of its sides, for either rule on ties |
| Picture.CircleIs | pcterm/internal/hires/hires.go:260-283 | for every radius, negative and null included, the pixels a circle plots |
| Picture.GlyphRowsAre | pcterm/internal/hires/hires.go:286-300 | row n of a glyph is byte n of it in the font, column k its bit 5 - k; no glyph below 0x20 |
| HiresPage.Hires | internal/render/hires.go:15-62 | the loop over the page writes the stream the page theorems are about |
| HiresPage.CompileOp | internal/render/hires.go:33-58 | each operation becomes its opcode and its one-byte arguments |
| HiresPage.OpsOnLink | internal/oascii/hires.go:27-40 | the bytes of every operation on the link, opcode and arguments |
| HiresPage.BitmapOnLink | internal/oascii/hires.go:40 | and of a bitmap: offset and length, low bytes first, then the pairs |
| HiresPage.OpDecodes | pcterm/internal/hires/hires.go:133-178 | a compiled operation is read as one command and draws what arrives |
| HiresPage.PageDecodes | internal/render/hires.go:15-62 | a compiled page is read as HiOn, its background, its operations and HiEnd, no operand or pair taken for an opcode, and is done at its last byte and not before |
| HiresPage.WireFaithful | internal/render/hires.go:49-50 | a validated operation survives the link if and only if it is not a circle of radius over 255 |
| HiresPage.PageRecovered | internal/content/hires.go:70-96 | the operations of a validated page are recovered if and only if no radius exceeds 255 |
| HiresPage.PageDrawn | pcterm/internal/hires/hires.go:133-178 | such a page leaves the picture a direct interpretation of it draws |
| Picture.StateDrawn | pcterm/internal/hires/hires.go:133-178 | after any operations the pen is at the last point named by a Curset, Dot, LineTo, Box or FilledBox, or at the origin, and the colours are those chosen last |
| Picture.PagePixel | pcterm/internal/hires/hires.go:133-300 | a pixel of such a page is lit if and only if the background lights it or some operation does with the pen at that place: segment, four sides, rectangle, circle, dot or glyph; past the first byte of a line, and there too where no colour comes on the line |
| Picture.PageColours | pcterm/internal/hires/hires.go:143-153 | the first byte of every line is the paper painted last; without a paper, that of a line drawn on with an ink is the ink of its last drawing |
| Picture.PageMode | pcterm/internal/hires/hires.go:183-199 | bits 6 and 7 of the other bytes are those of the background |
| HiresPage.WideCircle | internal/content/hires.go:85-87 | a validated page whose circle of radius 256 is drawn as a point |
| Raster.BlitState.Feed | pcterm/internal/hires/hires.go:416-444 | the counters and the memory move as the blit decoder says, bytes beyond the memory dropped |
| Raster.Raster.constructor | pcterm/internal/hires/hires.go:55-70 | a new raster is blank and idle |
| Raster.Raster.SetPixel | pcterm/internal/hires/hires.go:183-199 | lights a pixel of the screen; in colour mode the first byte of its line takes the ink and the six pixels of that byte are dropped; a painted paper keeps that byte |
| Raster.Raster.Line | pcterm/internal/hires/hires.go:202-241 | lights the segment, halves staying |
| Raster.Raster.FillBox | pcterm/internal/hires/hires.go:244-257 | lights the rectangle row by row, corners in any order |
| Raster.Raster.Circle | pcterm/internal/hires/hires.go:260-283 | lights the pixels of the client's circle |
| Raster.Raster.Char | pcterm/internal/hires/hires.go:286-300 | lights the pixels of the glyph, none for codes below 0x20 |
| Raster.OutlineInTurn | pcterm/internal/hires/hires.go:133-178 | a box is its four sides drawn one after the other |
| Raster.Raster.Exec | pcterm/internal/hires/hires.go:133-178 | an opcode with its arguments does what the decoder says, pen, colours and end included |
| Raster.Raster.Feed | pcterm/internal/hires/hires.go:97-130 | one byte moves the raster as the decoder says, and reports the end exactly when it is done |
| Ula.TermFeedAppend | pcterm/internal/ula/ula.go:99-105 | the terminal does not depend on how its input is cut, and keeps its cursor on the grid |
| Ula.TermReadsHires | pcterm/internal/ula/ula.go:153-160 | while a graphic stream is read, grid and cursor are out of its reach |
| Ula.PageThroughTerminal | pcterm/internal/ula/ula.go:124-168 | a page written to a terminal ready for text shows the page, empties the grid and leaves the terminal ready for text |
| Ula.TransferAsked | pcterm/internal/ula/ula.go:126-133 | after any text, 1F FE asks for a download and 1F FD for an upload, at their last byte and not before; grid and cursor are those the text leaves |
| Ula.TextModeAsked | pcterm/internal/ula/ula.go:140-145 | after any text, 1F FB empties the grid, puts the cursor at the origin and leaves graphics |
| Ula.CursorPlaced | pcterm/internal/ula/ula.go:146-152 | after any text, 1F, a column and a row put the cursor there as far as the grid goes, and nothing else changes |
| Terminal.Terminal.constructor | pcterm/internal/ula/ula.go:73-77 | an empty grid, ready for text |
| Terminal.Terminal.Clear | pcterm/internal/ula/ula.go:79-84 | spaces everywhere, cursor at the origin |
| Terminal.Terminal.ScrollUp | pcterm/internal/ula/ula.go:196-202 | every row moves up by one and the last is spaces, copied in place |
| Terminal.Terminal.PutByte | pcterm/internal/ula/ula.go:172-194 | CR, LF with scrolling, destructive BS, and a cell clamped at 40 columns |
| Terminal.Terminal.SetCursor | pcterm/internal/ula/ula.go:206-218 | the cursor, clamped to the grid |
| Terminal.Terminal.FeedByte | pcterm/internal/ula/ula.go:124-168 | one byte moves the terminal as Ula says, raster included |
| Terminal.Terminal.WriteScan | pcterm/internal/ula/ula.go:107-122 | stops after the first byte that asks for a transfer, reports it once, and has fed exactly the bytes it consumed |
| TextScreen.Screen.constructor | internal/oascii/screen.go:26-34 | spaces composed, nothing shown |
| TextScreen.Screen.Clear | internal/oascii/screen.go:46-50 | spaces everywhere |
| TextScreen.Screen.Put | internal/oascii/screen.go:37-58 | one cell, if it is on the grid |
| TextScreen.Screen.PutText | internal/oascii/screen.go:63-74 | cells from a column on, cut at the end of the row, and the column after the last |
| TextScreen.Screen.Reset | internal/oascii/screen.go:86-90 | nothing counts as shown |
| TextScreen.Screen.Render | internal/oascii/screen.go:99-119 | the bytes and the new state the diff theorems are about |
| TextDiff.FrameMerges | internal/oascii/screen.go:99-119 | replayed on any grid whatever, a frame writes the composition in exactly the cells that differ |
| TextDiff.FrameData | internal/oascii/screen.go:99-119 | the data bytes of a frame, in their order, are the cells that differ, each once |
| TextDiff.FrameQuiet | internal/oascii/screen.go:99-119 | a frame is empty if and only if no cell differs |
| TextDiff.FrameExact | internal/oascii/screen.go:99-119 | a frame makes a grid, whatever it holds, the composition if and only if every cell it does not send is there already |
| TextDiff.StepAgrees | internal/oascii/screen.go:46-119 | every action keeps the screen and the terminal that got its frames in agreement: a cell counted as shown is there, 00 apart |
| TextDiff.EveryTextFrameShows | pcterm/internal/ula/ula.go:124-218 | over every run with cells other than 08, 0A, 0D and 1F, a frame makes every cell the one composed but for those missed, which are 00 and counted as shown without being there, and is empty exactly when nothing changed |
| TextDiff.ComposedCell | internal/oascii/screen.go:46-74 | what each action makes of each cell: the byte put, the text from its column on, a space, or what it was |
| TextDiff.ResetShows | internal/oascii/screen.go:84-90 | after a Reset any other terminal will do: a frame puts in it every cell composed but those of 00 |
| TextDiff.WithoutBlack | internal/oascii/screen.go:92-119 | after every run, a frame of a composition without 00 makes the grid the composition |
| TextDiff.BlackMissed | internal/oascii/screen.go:26-34 | 00 put on a new screen is not sent, and a terminal of spaces keeps its space |
| Oascii.AttributesRead | internal/oascii/oascii.go:82-100 | an attribute byte read as the ULA does sets its own attribute to its own value and no other |
| Oascii.SafeReads | pcterm/internal/ula/ula.go:172-194 | bytes that avoid BS, LF and CR in cells arrive as they were meant, lines and attributes included |
| OasciiBuilder.Builder.constructor | internal/oascii/oascii.go:116-118 | an empty stream, white on black |
| OasciiBuilder.Builder.Ink | internal/oascii/oascii.go:135-139 | appends the attribute and remembers it |
| OasciiBuilder.Builder.Paper | internal/oascii/oascii.go:142-146 | appends the attribute and remembers it |
| OasciiBuilder.Builder.Attrs | internal/oascii/oascii.go:172-176 | appends one byte for the three text attributes and remembers them |
| OasciiBuilder.Builder.Text | internal/oascii/oascii.go:194-203 | appends one cell per character, a space for what is not printable |
| OasciiBuilder.Builder.InverseText | internal/oascii/oascii.go:181-190 | the same with bit 7 set |
| OasciiBuilder.Builder.ReemitAttrs | internal/oascii/oascii.go:235-250 | appends the attributes that are not the defaults and returns how many cells they take |
| OasciiBuilder.Builder.Newline | internal/oascii/oascii.go:254-260 | ends the line; a sticky builder gives its attributes again and keeps them |
| OasciiBuilder.SentInTurn | internal/oascii/oascii.go:252-260 | what a builder sends for two pieces is what it sends for each, the second in the style the first leaves it with |
| OasciiBuilder.StickyKeepsStyle | internal/oascii/oascii.go:118-123 | what a sticky builder sends is read, line after line, in the style it remembers, as long as no line overruns the screen |
| Wrap.SplitMeaning | internal/render/render.go:114-115 | cutting a text into words loses its spaces and nothing else |
| TextChanges.SplitRejoined | internal/render/render.go:114 | the words of a text, with a space between each two, are the text |
| TextChanges.SplitWords | internal/render/render.go:114 | and no word holds a space |
| Wrap.TextPrinted | internal/oascii/oascii.go:181-206 | a text means its printable characters but the spaces, each itself, in its style |
| Wrap.StyleRead | internal/render/render.go:40-63 | the attributes written take a reader from the style in force to the style asked for |
| Wrap.WordsFit | internal/render/render.go:116-137 | word by word, nothing is lost, the column count is the reader's, and a line end stands for a space |
| Wrap.LineKeepsMeaning | internal/render/render.go:95-139 | for every line: its visible characters in order, each with its span's ink, paper, blink, double height, character set and inverse; none beyond cell 39; a line end for every space not shown; 40 cells at most without segments, 43 with |
| Breaks.LineBreaks | internal/render/render.go:99-139 | what is written for a line is its style changes, spaces and words one after the other, each placed by the rules of rows, and no other tokens keep these rules |
| Breaks.WordWhole | internal/render/render.go:123-126 | a word that fits on a row after the attributes given again is written whole, on this row or, if it does not fit on the rest of it, on the next |
| Breaks.RowEnds | internal/render/render.go:115-133 | a row ends only where the next space, word or piece of a word does not fit on the rest of it; inside a word only at column 40, and only if no row has room for the word |
| Wrap.LineSafe | internal/oascii/oascii.go:88-100 | the line sends no attribute the terminal takes for BS, LF or CR if and only if its changes of text attributes avoid those bytes |
| Wrap.TerminalShows | internal/render/render.go:99-139 | such a line is shown as it is meant, read back from the bytes on the link |
| Wrap.LineOrdinary | internal/oascii/oascii.go:178-203 | whatever its text, a line is written as colours, text attributes and characters only: no command, and nothing of the text passes for an attribute |
| Wrap.NeverShown | pcterm/internal/ula/ula.go:172-194 | no line is shown as meant that asks for a visible character in double height alone or in blinking alternate characters |
| Wrap.UniformExact | internal/oascii/oascii.go:88-100 | a line whose spans share their text attributes, with something to show, is shown as meant if and only if these are none or avoid those bytes |
| TextChanges.RowWritten | internal/render/render.go:112-138 | a line that fits on one row is written as its attributes and its characters, span by span |
| TextChanges.OneRowExact | internal/render/render.go:51-55 | a line that fits on one row with its attributes, every span of which has something to show, is shown as meant if and only if no change of its text attributes sends one of those bytes |
| TextChanges.BlinkThenPlain | internal/render/render.go:51-55 | "A" blinking then "B" plain sends 0C 41 08 42, and shows a blinking B alone |
| LineOnScreen.BytesShow | pcterm/internal/ula/ula.go:172-202 | whatever text comes, the 28 rows of the terminal are the last 28 lines written |
| LineOnScreen.ScreenShowsLine | pcterm/internal/ula/ula.go:269-322 | the rows of the terminal, read as the ULA does, show what the line means, if its attributes are safe and it takes 28 rows at most |
| RenderText.EmitStyle | internal/render/render.go:40-63 | appends the attributes that change and counts the cells they take |
| RenderText.EmitChars | internal/render/render.go:73-79 | appends the characters, inverse or not |
| RenderText.WrapLine | internal/render/render.go:107-111 | ends the line, gives the attributes again and counts them; a sticky builder has given its own as well, uncounted |
| RenderText.EmitWord | internal/render/render.go:115-137 | one turn of the loop over the words: separator, early wrap, cuts, for any builder |
| RenderText.EmitLineWrapped | internal/render/render.go:99-139 | for any builder the loops append the line the wrap theorems are about, as that builder sends it, and leave it with the last style written |
| RenderText.WriteLine | internal/render/render.go:142-145 | the same and a line end |
| Crc.ComputeCrc | internal/xmodem/xmodem.go:75-88 | the two loops compute the CRC of the block |
| Crc.ComputeChecksum | internal/xmodem/xmodem.go:90-96 | the loop computes the sum modulo 256 |
| Crc.CrcLinear | internal/xmodem/xmodem.go:75-88 | the CRC of the xor of two blocks is the xor of their CRCs |
| Crc.ShiftZero | internal/xmodem/xmodem.go:79-85 | only zero is shifted to zero: the step is injective |
| Crc.PairDetected | internal/xmodem/xmodem.go:75-88 | blocks that differ in two adjacent bytes at most have the same CRC only if they are equal |
| Bursts.BurstDetected | internal/xmodem/xmodem.go:75-88 | blocks that differ by a burst of 16 bits at most, wherever it begins, have the same CRC only if they are equal |
| Bursts.CrcOdd | internal/xmodem/xmodem.go:75-88 | the CRC has an odd number of bits set exactly when the block has |
| Bursts.OddDetected | internal/xmodem/xmodem.go:75-88 | blocks that differ in an odd number of bits never have the same CRC |
| Crc.ByteDetected | internal/xmodem/xmodem.go:90-96 | blocks that differ in one byte at most have the same sum only if they are equal |
| Xmodem.JoinedBack | internal/xmodem/xmodem.go:183-185 | the two CRC bytes of a frame give the CRC back |
| Xmodem.OwnCheckFits | internal/xmodem/xmodem.go:279-309 | a block with its own check bytes is accepted |
| Xmodem.FrameOnLink | internal/xmodem/xmodem.go:179-195 | the bytes of a frame: SOH, the number and its complement, the block, and the CRC high byte first, or the sum |
| Xmodem.Persists | internal/xmodem/xmodem.go:190-207 | up to nine useless answers to a block are made up for by an ACK, at the cost of one more copy of the same frame each |
| Xmodem.GivesUp | internal/xmodem/xmodem.go:190-209 | the tenth ends the transfer, with two CANs |
| Xmodem.StartGivesUp | internal/xmodem/xmodem.go:157-176 | sixteen useless answers before the start end the transfer with nothing written |
| Xmodem.EndGivesUp | internal/xmodem/xmodem.go:135-152 | ten answers other than ACK to the end of the file end it: EOT ten times, then two CANs |
| Xmodem.SenderStops | internal/xmodem/xmodem.go:157-210 | a CAN stops a sender that waits or sends, a broken connection any; it writes nothing more |
| Xmodem.SilenceGivesUp | internal/xmodem/xmodem.go:222-246 | after its first start character a receiver that hears nothing asks three times more for a CRC and thirteen for a sum, and gives up with two CANs |
| Xmodem.ReceiverStops | internal/xmodem/xmodem.go:240-275 | a CAN or a broken connection stops a receiver anywhere; a byte that begins nothing is passed over |
| XmodemLink.FrameAnswered | internal/xmodem/xmodem.go:253-273 | what a whole frame leads to: taken and acknowledged, one too many, acknowledged again, or refused with nothing changed |
| XmodemLink.FrameRead | internal/xmodem/xmodem.go:279-309 | a whole frame with an intact header is read as its block, or refused for its check, and nothing after it is touched |
| XmodemLink.NumberNext | internal/xmodem/xmodem.go:261-272 | block numbers follow each other modulo 256 and two neighbours differ |
| XmodemLink.BlockPass | internal/xmodem/xmodem.go:253-274 | given block k for the first or the second time, intact or hurt, the receiver keeps in step and answers ACK only when it has the block |
| XmodemLink.IdleRuns | internal/xmodem/xmodem.go:232-246 | timeouts change the count of errors and, from the fourth on, the mode, and nothing else |
| XmodemLink.WaitingStep | internal/xmodem/xmodem.go:157-176 | while the sender waits, start characters lost, garbled or given up for NAK, both ends agree on the check as soon as one comes through |
| XmodemLink.StepLockstep | internal/xmodem/xmodem.go:118-276 | one round, idle time and allowed damage included, keeps the receiver's output at the first k or k+1 blocks for a sender at block k |
| XmodemLink.AlwaysLockstep | internal/xmodem/xmodem.go:118-276 | over every schedule of receiver timeouts and allowed damage, start phase included, lockstep holds |
| XmodemLink.TransferExact | internal/xmodem/xmodem.go:118-276 | over every such schedule, from the two calls on, a sender without error has delivered the data without trailing 1A, and a receiver that returned has it |
| XmodemLink.LastAckDecides | internal/xmodem/xmodem.go:135-152 | over every such schedule the sender returns without error if and only if the receiver's one answer to its EOT comes through |
| XmodemLink.LastAckLost | internal/xmodem/xmodem.go:135-152 | a run in which it does not: the file has been received and the sender reports a failure |
| XmodemLink.PairHurtTold | internal/xmodem/xmodem.go:279-309 | in CRC mode, damage within two adjacent data bytes is always among the allowed |
| Bursts.BurstHurtTold | internal/xmodem/xmodem.go:279-309 | in CRC mode, a burst of 16 bits at most within the data of a block is always among the allowed damage |
| Bursts.OddHurtTold | internal/xmodem/xmodem.go:279-309 | in CRC mode, so is an odd number of damaged data bits |
| XmodemLink.ByteHurtTold | internal/xmodem/xmodem.go:279-309 | in checksum mode, damage to one data byte is |
| XmodemLink.NothingMore | internal/xmodem/xmodem.go:208-209 | a receiver left by a sender that has given up fails |
| XmodemClean.CleanLink | internal/xmodem/xmodem.go:118-276 | `Send` and `Receive` joined by two pipes: the receiver, reading what the sender writes, writes what the sender reads; the data arrives without trailing 1A if its padded size is at most 1 MiB, and both report an error if it is more |
| XmodemLink.TrimmedPadded | internal/xmodem/xmodem.go:312-318 | padding and trimming lose the trailing 1A bytes of the data and nothing else |
| XmodemLink.TrimmedIsPrefix | internal/xmodem/xmodem.go:312-318 | trimming changes nothing exactly when the data does not end in 1A |
| XmodemLink.SenderRuns | internal/xmodem/xmodem.go:118-210 | the run of `Send` on what it reads ends as the rounds end for the sender, and has written the messages of the rounds |
| XmodemLink.ReceiverRuns | internal/xmodem/xmodem.go:215-276 | the run of `Receive` on what it reads ends as the rounds end for the receiver |
| XmodemLink.EndToEnd | internal/xmodem/xmodem.go:118-276 | for the two programs as they are called: `Receive` returns the data without trailing 1A whenever it returns, `Send` returns nil if and only if the last ACK comes through, and then `Receive` has returned |
| XmodemIo.Conn.ReadByte | internal/xmodem/xmodem.go:99-106 | takes the next event; nothing more to come is a broken connection |
| XmodemIo.Conn.ReadBytes | internal/xmodem/xmodem.go:109-113 | n bytes, or none if they are interrupted |
| XmodemIo.ReceiveBlock | internal/xmodem/xmodem.go:279-309 | reads number, complement, data and check, and accepts if all agree |
| XmodemIo.TrimPadding | internal/xmodem/xmodem.go:312-318 | drops the trailing 1A bytes |
| XmodemIo.TakeBlock | internal/xmodem/xmodem.go:255-273 | the expected block is taken, up to 1 MiB of them, the one before acknowledged again, any other refused |
| XmodemIo.Receive | internal/xmodem/xmodem.go:215-276 | on every input the loop ends as the receiver's run says, having read and written the same |
| XmodemIo.WaitStart | internal/xmodem/xmodem.go:157-176 | waits for a start character as the sender's run says |
| XmodemIo.MakeBlock | internal/xmodem/xmodem.go:124-129 | a block of 128 bytes, filled up with 1A |
| XmodemIo.MakeCheck | internal/xmodem/xmodem.go:183-188 | the check bytes of a block |
| XmodemIo.SendBlock | internal/xmodem/xmodem.go:179-210 | sends a block until it is acknowledged, cancelled or given up |
| XmodemIo.Send | internal/xmodem/xmodem.go:118-153 | on every input, error, bytes read and bytes written are those of the sender's run |
| Octets.OctetValue | pcterm/internal/xfer/xfer.go:36 | a value below 256 survives being a byte |
| Download.NameRoundTrip | server/internal/bbs/xfer.go:189-218 | re-encoding the recovered name gives the same 12 bytes if and only if its base has a letter or digit or its extension has none |
| Download.CaseIrrelevant | server/internal/bbs/xfer.go:199-208 | names that differ by the case of their letters only have the same 12 bytes |
| Download.NameAsCommented | server/internal/bbs/xfer.go:189-192 | the 12 bytes are those the comment describes if and only if neither part of the name has a dropped character before the last kept one that fits |
| Download.HyphenDropped | server/internal/bbs/xfer.go:189-192 | "A-B" becomes AB, where the comment says A, space, B |
| Download.Put | server/internal/bbs/xfer.go:199-215 | writes the letters and digits of a field over at most n bytes, in upper case, in place |
| Download.SedoricName | server/internal/bbs/xfer.go:193-218 | the 12 bytes: 9 of base and 3 of extension, padded with spaces |
| Download.ClientName | pcterm/internal/xfer/xfer.go:65-87 | the file name the 12 bytes stand for |
| Download.HeaderRead | server/internal/bbs/xfer.go:181-187 | the header gives the number of blocks, the name and, up to the largest file offered, the exact size, low bytes first |
| Download.Fetch | pcterm/internal/xfer/xfer.go:29-53 | reads header and data, cuts the data at the size given, names the file |
| Download.DownloadClean | pcterm/internal/xfer/xfer.go:29-53 | reading the header and then what `Send` writes on a clean link, for every file offered: its bytes without trailing 1A under its 8.3 name, or failure over 1 MiB |
| Download.DownloadIsExact | server/internal/bbs/xfer.go:69-116 | a file arrives byte for byte if and only if its padded size is at most 1 MiB and it does not end in 1A |
| Maze.UnvisitedNeighbors | server/internal/maze/maze.go:90-105 | only unvisited neighbours inside the grid, none only if there are none |
| Maze.CarvedTied | server/internal/maze/maze.go:81-84 | a passage opened from both sides extends the tree by one leaf and nothing else opens |
| Maze.Dig | server/internal/maze/maze.go:51-88 | for every size and every random source the loop ends, and the open passages are a tree that has reached every cell; the cell reached k-th is the one the source answers, clockwise from the north, among the unreached neighbours of the last cell on the way that has any |
| Maze.PathExists | server/internal/maze/maze.go:51-88 | any two cells of the tree are joined by a simple path |
| Maze.PathUnique | server/internal/maze/maze.go:51-88 | and by only one |
| Maze.TreeSpans | server/internal/maze/maze.go:51-88 | the open passages of the grid are a spanning tree: between any two cells exactly one simple path |
| Maze.TreeSealed | server/internal/maze/maze.go:58-86 | walls are the same seen from both sides and the border is closed |
| MazeTrees.OneMaze | server/internal/maze/maze.go:66-87 | one source digs one maze: same order, same walls |
| MazeTrees.DugOnWay | server/internal/maze/maze.go:66-87 | in what is dug, of two neighbouring cells one is on the way from the origin to the other |
| MazeTrees.TreeDug | server/internal/maze/maze.go:66-87 | every spanning tree of the grid with that property is dug for some source |
| MazeTrees.MazesAre | server/internal/maze/maze.go:48-88 | so the mazes that can come out are exactly these trees |
| Maze.Maze.Generate | server/internal/maze/maze.go:51-88 | a maze with these properties, dug as the source decides, sizes below 1 raised to 1, the player at the origin |
| Maze.Maze.Wall | server/internal/maze/maze.go:117-122 | for any mask, whether it hits a wall of the cell; for a direction, no wall exactly where one can pass; outside, everything is a wall |
| Maze.Maze.Move | server/internal/maze/maze.go:126-141 | for any mask, refused exactly if it hits a wall; a direction moves exactly if the passage is open, any other mask moves nobody; the player stays in the grid |
| Maze.Maze.Solved | server/internal/maze/maze.go:143-144 | the player is in the last cell |
| Maze.MoveUndone | server/internal/maze/maze.go:22-34 | a successful move is undone by its opposite |
| Maze.AlwaysSolvable | server/internal/maze/maze.go:126-144 | from any cell some sequence of moves reaches any other, the exit in particular |
| Admission.StepSlots | server/internal/server/server.go:135-146 | every statement keeps the semaphore at the number of connections that hold a slot, within the limit |
| Admission.SlotsNeverBlock | server/internal/server/server.go:139 | giving a slot back never waits |
| Admission.RunIp | server/internal/server/server.go:169-192 | in every interleaving the table gives the connections holding each address, within the limit, with no entry for none |
| Admission.NothingUncounted | server/internal/server/server.go:132-158 | in every interleaving total = rejected + active + finished + in transit |
| Admission.LimitsHold | server/internal/server/server.go:129-192 | sessions in the handler never exceed either limit |
| Admission.RefusedWhenFull | server/internal/server/server.go:135-154 | a connection is refused exactly when connections that hold slots, or its address, are at the limit |
| Admission.AllGivenBack | server/internal/server/server.go:139-158 | when all are gone every slot and address has been given back, also by the refused, and total = rejected + served |
| Admission.WorkShrinks | server/internal/server/server.go:129-167 | every statement brings its connection nearer its end, whatever the others do |
| Admission.WorkBounds | server/internal/server/server.go:129-167 | once no more connections come, whatever the order in which those present go on, a bounded number of statements is run, and when no connection can run one all are gone |
| Admission.AllCanLeave | server/internal/server/server.go:129-167 | from any state there is an order in which all of them leave |
| Snapshot.OneMoves | server/internal/server/server.go:75-83 | a snapshot during which at most one of the three counters moves is that of one moment of the run |
| Snapshot.SnapshotExact | server/internal/server/server.go:75-83 | a snapshot during which only given counters move is sure to be that of one moment, whatever the limits and the run, if and only if they are one at most |
| Snapshot.TotalActiveTorn | server/internal/server/server.go:75-83 | a run in which only total and active move, and no moment has the three values read |
| Snapshot.TotalRejectedTorn | server/internal/server/server.go:75-83 | a run in which only total and rejected move, and no moment has the three values read |
| Snapshot.ActiveRejectedTorn | server/internal/server/server.go:75-83 | a run in which only active and rejected move, so that none is accepted, and no moment has the three values read |
| Snapshot.StatsBound | server/internal/server/server.go:75-83 | active and rejected exceed total by no more than the connections accepted while it was read |
| Snapshot.StatsAccounted | server/internal/server/server.go:75-83 | whatever the limits, a snapshot during which n connections are accepted is sure to report no more active and rejected than accepted if and only if n is 0 |
| Snapshot.StatsTorn | server/internal/server/server.go:75-83 | whatever the limits and for every n but 0, a run that gives one active connection of none accepted |
| Server.Server.AcquireIp | server/internal/server/server.go:170-181 | counts the connection if its address is below the limit, and says so |
| Server.Server.ReleaseIp | server/internal/server/server.go:183-192 | counts it off, and drops an entry that comes to none |
| Server.Server.Start | server/internal/server/server.go:129-133 | a connection that comes is counted before it meets any guard |
| Server.Server.Resume | server/internal/server/server.go:129-167 | each statement on the shared fields does what the transition system says, deferred calls last made first |
| Presence.StepConsistent | server/internal/presence/presence.go:60-157 | every call keeps identifiers and channels unshared and channels within 32 messages |
| Presence.RunConsistent | server/internal/presence/presence.go:60-157 | in every run no two sessions have one identifier or one channel, and no channel holds more than 32 messages |
| Presence.BacklogIsTail | server/internal/presence/presence.go:144-147 | the recall is always the last messages published, up to 12 |
| Presence.BornWithRecall | server/internal/presence/presence.go:113-122 | a channel is given with the recall of the moment it was made |
| Presence.StaysDetached | server/internal/presence/presence.go:111-133 | a channel let go of is never listened on again |
| Presence.SeenInOrder | server/internal/presence/presence.go:113-157 | in every run what a session sees is a part of what was published, in order and without repetition |
| Presence.SeenUnbroken | server/internal/presence/presence.go:113-157 | and an unbroken piece of it if its channel was never full when a message came |
| Presence.SeesAll | server/internal/presence/presence.go:148-156 | while it listens it sees everything from the recall on, if and only if its channel was never full when a message came |
| Presence.SeenPublished | server/internal/presence/presence.go:138-157 | in every run, what a session is given as recall, has received or finds waiting is what calls of `Publish` were given, sender, name, text and kind, with the time of the call where there was none; in the order of the calls, none twice |
| Presence.BacklogPublished | server/internal/presence/presence.go:141-147 | the recall is made so of the last calls of `Publish`, up to 12 |
| Presence.MembersAre | server/internal/presence/presence.go:62-133 | in every run a session is on line if and only if it has joined and not left, with the address and moment it came with, the name it gave last and the channel it asked for last |
| Registry.Registry.Join | server/internal/presence/presence.go:62-69 | a new session under an identifier never used before |
| Registry.Registry.SetHandle | server/internal/presence/presence.go:72-78 | changes the name of a session that is there |
| Registry.Registry.Leave | server/internal/presence/presence.go:81-85 | takes the session and its subscription away |
| Registry.Registry.Subscribe | server/internal/presence/presence.go:113-122 | a new channel in place of the old one, and the recall |
| Registry.Registry.Unsubscribe | server/internal/presence/presence.go:127-133 | the session no longer listens |
| Registry.Registry.Publish | server/internal/presence/presence.go:138-157 | stamps, recalls, and offers the message to every listener |
| Registry.Spread | server/internal/presence/presence.go:148-156 | in whatever order the members come, every channel listened on is offered the message once |
| Registry.Chan.TrySend | server/internal/presence/presence.go:152-155 | a full channel goes without the message |
| Registry.Chan.TryReceive | server/internal/bbs/chat.go:100-106 | the oldest message is taken, if there is one |
| Throttle.AfterAfter | server/internal/throttle/throttle.go:62-77 | pruning at an earlier cutoff changes nothing for a later one |
| Throttle.KeptExact | server/internal/throttle/throttle.go:62-77 | whatever the clock does, what is kept agrees with the complete log beyond a cutoff as long as no call has pruned a failure after it, and counts fewer from then on |
| Throttle.DecidesExactly | server/internal/throttle/throttle.go:31-77 | whatever the clock does, limiters of every capacity decide as the complete log would if and only if no failure inside the window has been pruned |
| Throttle.KeptEnough | server/internal/throttle/throttle.go:62-77 | with a clock that never goes back, what is kept agrees with the complete log for every later cutoff |
| Throttle.PermitsExactly | server/internal/throttle/throttle.go:31-38 | a key is allowed if and only if fewer than max of its failures since its last reset lie strictly inside the window |
| Throttle.NeverTooStrict | server/internal/throttle/throttle.go:31-77 | whatever the clock does, no more failures are counted than there were |
| Throttle.ClockBack | server/internal/throttle/throttle.go:62-77 | a clock that goes back can make a failure inside the window go uncounted |
| Throttle.NoEmptyKeys | server/internal/throttle/throttle.go:71-74 | no key is stored without failures |
| Limiter.Compact | server/internal/throttle/throttle.go:65-70 | the loop moves the recent failures, in order, to the front of the array it reads |
| Limiter.Limiter.Recent | server/internal/throttle/throttle.go:62-77 | prunes one key in place and leaves the others alone |
| Limiter.Limiter.Allowed | server/internal/throttle/throttle.go:31-38 | answers as the specification and records nothing |
| Limiter.Limiter.Fail | server/internal/throttle/throttle.go:41-48 | keeps the recent failures and this one, whether or not the slice must grow |
| Limiter.Limiter.Reset | server/internal/throttle/throttle.go:51-58 | forgets the key |
| Keys.FirstKeyStays | pcterm/cmd/oterm/keys.go:54-98 | a key that is complete stays the same key whatever follows |
| Keys.NoKeyYet | pcterm/cmd/oterm/keys.go:63-90 | the decoder waits exactly on an escape sequence cut short |
| Keys.CutAnywhere | pcterm/cmd/oterm/keys.go:45-54 | for every cut, carrying the rest over gives the output and the rest of one call on the whole |
| Keys.RestIncomplete | pcterm/cmd/oterm/keys.go:50-54 | the rest is an escape sequence cut short or nothing, and such a sequence is all rest |
| Keys.ReadExact | pcterm/cmd/oterm/keys.go:54-98 | the keys read, typed again, are the input up to the rest |
| Keys.ReadTyped | pcterm/cmd/oterm/keys.go:54-98 | reading the bytes of any sequence of keys gives those keys back |
| Keys.CursorKeys | pcterm/cmd/oterm/keys.go:31-43 | both forms of the four cursor keys send the codes the server knows them by, other final bytes nothing |
| Keys.OthersThrough | pcterm/cmd/oterm/keys.go:54-96 | ordinary bytes and an ESC on its own go through as they are, other sequences send nothing |
| Keys.ReadsIrrelevant | pcterm/cmd/oterm/main.go:133-169 | over a session, what is sent is the codes of the whole input up to the first Ctrl-], however it was read |
| Keys.TakeKey | pcterm/cmd/oterm/keys.go:56-96 | one turn of the loop takes one key and its code, or nothing |
| Keys.TranslateKeys | pcterm/cmd/oterm/keys.go:54-98 | the loop computes output and rest |

## Left out

- Multi-frame HIRES differences through the terminal: each 1F FC makes a new raster there, so the run property is stated on a memory that is kept, as the repository's own replay does.
- Equality of the server's line and circle with the client's: ties are broken differently on purpose; `Lines.RulesPartOnTies` says where they part.
- XmodemLink.AlwaysLockstep: damage to SOH or to the number bytes, stale answers (of the start characters a receiver repeats, none is read after a later answer), start characters taken for each other, and timeouts that make the receiver give up or, once the transfer has started, change its check are not among the schedules; they change what is claimed.
- XmodemLink.EndToEnd: a failed write is not an event of its own; it shows as the next read failing.
- XmodemIo.Receive: that it ends holds because a connection's input is finite here; against a peer that sends rejected blocks for ever it does not.
- Download.Fetch: creating the file and its errors.
- RenderText.EmitLineWrapped: colour names are resolved before; `strings.Split` is taken as the function it computes.
- Wrap.TerminalShows: one direction, for lines of any length; the other is `TextChanges.OneRowExact`, `Wrap.UniformExact` and `Wrap.NeverShown`. Of lines that wrap, or have spans with nothing to show, and change back to plain text it is not said exactly which survive: the backspace may fall on a space.
- TextDiff.StepAgrees: cells 08, 0A, 0D and 1F, which the terminal takes for control characters; the attributes among them are those of `Wrap.LineSafe`.
- LineOnScreen.ScreenShowsLine: double height is read as an attribute of the character, not as two rows of half glyphs.
- Oascii.AttributesRead: the video-mode attributes 18-1F, which the builder never writes, have no effect here.
- Lines.StudioLine: coordinates that are not integers, which `|0` would cut as well.
- Registry.Registry.Publish: channels are named by number in one table, where the source keeps a pointer per member; the listing of members and its order are not modelled.
- Server.Server.Resume: sockets, messages to refused callers, logging and a handler that fails are not modelled; the handler is one phase of unknown length.
- Limiter.Limiter.Allowed: the clock is an argument; growth of a slice is to twice its size and one.
- Wall, news, mail, forum, user files and Connect 4: not modelled.
- Sorting of API sources, the Studio's interface, ANSI output, fonts and catalogue scripts.
- Sockets, deadlines, TLS, HTTP, SQL, JSON, the file system and password hashing: code of others.
