/** Where a wrapped line ends its rows: the tokens written for a line are laid out piece by piece,
    every row end comes where it must, and no other layout keeps these rules. */
module Breaks {
  import opened Bytes
  import opened Oascii
  import opened Wrap

  // ---------------------------------------------------------------- the pieces of a line

  /** A change of style, a space between two words, or a word. */
  datatype Piece =
    | Style(look: Look)
    | Space(look: Look, inverse: bool)
    | Word(look: Look, inverse: bool, text: seq<byte>)

  /** The first n words of a text and the spaces between them. */
  function WordPieces(words: seq<seq<byte>>, n: nat, look: Look, inverse: bool): seq<Piece>
    requires n <= |words|
  {
    if n == 0 then []
    else
      WordPieces(words, n - 1, look, inverse) + (if n > 1 then [Space(look, inverse)] else [])
      + [Word(look, inverse, words[n - 1])]
  }

  function Pieces(spans: seq<Span>): seq<Piece> {
    if spans == [] then []
    else
      var sp := spans[|spans| - 1];
      Pieces(spans[..|spans| - 1]) + [Style(sp.look)]
      + WordPieces(Split(sp.text), |Split(sp.text)|, sp.look, sp.inverse)
  }

  // ---------------------------------------------------------------- the rules

  /** The attributes given again at the beginning of a row. */
  function Again(look: Look): seq<Token> { StyleTokens(DEFAULT, look) }

  function RowEnd(look: Look): seq<Token> { [NewLine] + Again(look) }

  /** The cells asked for on the row so far. */
  function Column(ts: seq<Token>): nat { ReadTokens(ts).col }

  /** A word cut into rows. */
  function Broken(rows: seq<seq<byte>>, look: Look, inverse: bool): seq<Token>
    requires rows != []
  {
    if |rows| == 1 then Chars(rows[0], inverse)
    else Chars(rows[0], inverse) + RowEnd(look) + Broken(rows[1..], look, inverse)
  }

  /** The text, from column `col` on: what is left when a row is full goes on the next one. */
  predicate Filled(col: nat, rows: seq<seq<byte>>, text: seq<byte>, look: Look)
    decreases |rows|
  {
    && rows != []
    && if |rows| == 1 then rows[0] == text && col + |text| <= WIDTH
       else
         && rows[0] != [] && rows[0] < text && col + |rows[0]| == WIDTH
         && Filled(|Again(look)|, rows[1..], text[|rows[0]|..], look)
  }

  /** A word is cut only if it is too long for a row. */
  predicate Cut(col: nat, rows: seq<seq<byte>>, text: seq<byte>, look: Look) {
    Filled(col, rows, text, look) && (|rows| > 1 ==> |Again(look)| + |text| > WIDTH)
  }

  /** ts is how the piece is written after `before`; the row begins with `start` cells of attributes
      given again, and `cur` is the style in force. */
  ghost predicate Placed(before: seq<Token>, start: nat, cur: Look, ts: seq<Token>, piece: Piece) {
    var col := Column(before);
    match piece
    case Style(look) => ts == StyleTokens(cur, look)
    case Space(look, inverse) => ts == if col >= WIDTH then RowEnd(look) else Chars([BLANK], inverse)
    case Word(look, inverse, text) =>
      if col > start && col + |text| > WIDTH then
        exists rows :: Cut(|Again(look)|, rows, text, look) && ts == RowEnd(look) + Broken(rows, look, inverse)
      else
        exists rows :: Cut(col, rows, text, look) && ts == Broken(rows, look, inverse)
  }

  function Joined(parts: seq<seq<Token>>): seq<Token> {
    if parts == [] then [] else Joined(parts[..|parts| - 1]) + parts[|parts| - 1]
  }

  /** The style in force after the pieces. */
  function LookAfterAll(pieces: seq<Piece>): Look { if pieces == [] then DEFAULT else pieces[|pieces| - 1].look }

  /** The cells of attributes given again on the row the pieces end on. */
  ghost function Start(pieces: seq<Piece>, parts: seq<seq<Token>>): nat
    requires |pieces| == |parts|
  {
    if pieces == [] then 0
    else
      var n := |pieces| - 1;
      if NewLine in parts[n] then |Again(pieces[n].look)| else Start(pieces[..n], parts[..n])
  }

  /** Every piece is placed after those before it. */
  ghost predicate Laid(pieces: seq<Piece>, parts: seq<seq<Token>>) {
    && |pieces| == |parts|
    && forall n | 0 <= n < |pieces| :: LaidAt(pieces, parts, n)
  }

  ghost predicate LaidAt(pieces: seq<Piece>, parts: seq<seq<Token>>, n: nat)
    requires n < |pieces| == |parts|
  {
    Placed(Joined(parts[..n]), Start(pieces[..n], parts[..n]), LookAfterAll(pieces[..n]), parts[n], pieces[n])
  }

  // ---------------------------------------------------------------- columns

  lemma {:induction false} CellsColumn(out: seq<Token>, ts: seq<Token>)
    requires forall i :: 0 <= i < |ts| ==> ts[i].Cell?
    ensures Column(out + ts) == Column(out) + |ts|
  {
    if ts == [] {
      assert out + ts == out;
    } else {
      var front, t := ts[..|ts| - 1], ts[|ts| - 1];
      CellsColumn(out, front);
      assert out + ts == (out + front) + [t];
      ReadNext(out + front, t);
      hide ReadTokens;
    }
  }

  lemma StyleCells(cur: Look, look: Look)
    ensures forall i :: 0 <= i < |StyleTokens(cur, look)| ==> StyleTokens(cur, look)[i].Cell?
    ensures StyleTokens(cur, look) == [] ==> look == cur
  {}

  lemma CharsColumn(out: seq<Token>, s: seq<byte>, inverse: bool)
    ensures Column(out + Chars(s, inverse)) == Column(out) + |s| && NewLine !in Chars(s, inverse)
    ensures |Chars(s, inverse)| == |s|
  {
    hide CharByte, Column;
    CellsColumn(out, Chars(s, inverse));
  }

  lemma RowEndColumn(out: seq<Token>, look: Look)
    ensures Column(out + RowEnd(look)) == |Again(look)| && NewLine in RowEnd(look)
  {
    EndColumn(out);
    StyleCells(DEFAULT, look);
    hide Column, StyleTokens;
    CellsColumn(out + [NewLine], Again(look));
    assert out + RowEnd(look) == out + [NewLine] + Again(look);
    assert RowEnd(look)[0] == NewLine;
  }

  lemma EndColumn(out: seq<Token>)
    ensures Column(out + [NewLine]) == 0
  {
    ReadNext(out, NewLine);
  }

  // ---------------------------------------------------------------- what is written keeps the rules

  /** The writer has written the pieces so, and knows where it is. */
  ghost predicate Writes(w: Writer, pieces: seq<Piece>, parts: seq<seq<Token>>) {
    && Laid(pieces, parts) && w.out == Joined(parts)
    && w.col == Column(w.out) && w.lineStart == Start(pieces, parts) && w.cur == LookAfterAll(pieces)
    && w.lineStart <= w.col && w.lineStart <= 3
    && (w.col == w.lineStart ==> w.lineStart <= |Again(w.cur)|)
  }

  lemma LaidNext(pieces: seq<Piece>, parts: seq<seq<Token>>, piece: Piece, ts: seq<Token>)
    requires Laid(pieces, parts)
    requires Placed(Joined(parts), Start(pieces, parts), LookAfterAll(pieces), ts, piece)
    ensures Laid(pieces + [piece], parts + [ts])
    ensures Joined(parts + [ts]) == Joined(parts) + ts && LookAfterAll(pieces + [piece]) == piece.look
    ensures Start(pieces + [piece], parts + [ts]) == if NewLine in ts then |Again(piece.look)| else Start(pieces, parts)
  {
    hide Placed, Again;
    var all, out := pieces + [piece], parts + [ts];
    assert all[..|pieces|] == pieces && out[..|pieces|] == parts;
    forall n | 0 <= n < |all| ensures LaidAt(all, out, n) {
      if n < |pieces| {
        assert LaidAt(pieces, parts, n);
        assert all[..n] == pieces[..n] && out[..n] == parts[..n];
      }
    }
  }

  lemma StyleWrites(w: Writer, pieces: seq<Piece>, parts: seq<seq<Token>>, look: Look)
    requires Writes(w, pieces, parts)
    ensures Writes(Styled(w, look), pieces + [Style(look)], parts + [StyleTokens(w.cur, look)])
  {
    hide Column, StyleTokens, Laid;
    LaidNext(pieces, parts, Style(look), StyleTokens(w.cur, look));
    StyleCells(w.cur, look);
    CellsColumn(w.out, StyleTokens(w.cur, look));
  }

  lemma SpaceWrites(w: Writer, pieces: seq<Piece>, parts: seq<seq<Token>>, inverse: bool) returns (ts: seq<Token>)
    requires Writes(w, pieces, parts)
    ensures Writes(Spaced(w, inverse), pieces + [Space(w.cur, inverse)], parts + [ts])
  {
    hide Column, StyleTokens, Laid, Chars;
    ts := if w.col >= WIDTH then RowEnd(w.cur) else Chars([BLANK], inverse);
    LaidNext(pieces, parts, Space(w.cur, inverse), ts);
    CharsColumn(w.out, [BLANK], inverse);
    WrappedColumn(w);
    RowEndColumn(w.out, w.cur);
    AgainShort(w.cur);
  }

  lemma AgainShort(look: Look)
    ensures |Again(look)| <= 3
  {}

  /** A word is cut where the rows end. */
  lemma {:induction false} ChoppedCut(w: Writer, text: seq<byte>, inverse: bool) returns (rows: seq<seq<byte>>)
    requires w.col == Column(w.out) && w.col <= WIDTH
    requires w.col + |text| <= WIDTH || w.col <= |Again(w.cur)|
    ensures rows != [] && Cut(w.col, rows, text, w.cur)
    ensures var v := Chopped(w, text, inverse);
            && v.out == w.out + Broken(rows, w.cur, inverse) && v.col == Column(v.out) && v.cur == w.cur
            && v.lineStart == (if |rows| > 1 then |Again(w.cur)| else w.lineStart)
            && (if |rows| > 1 then v.col > v.lineStart else v.col == w.col + |text|)
    decreases |text|
  {
    hide Column, StyleTokens, Chars;
    AgainShort(w.cur);
    if w.col + |text| > WIDTH && w.col < WIDTH {
      var head, tail := text[..WIDTH - w.col], text[WIDTH - w.col..];
      var u := Typed(w, head, inverse);
      CharsColumn(w.out, head, inverse);
      WrappedColumn(u);
      var rest := ChoppedCut(Wrapped(u), tail, inverse);
      rows := [head] + rest;
      assert rows[1..] == rest;
      BrokenOn(w.out, head, rest, w.cur, inverse);
    } else {
      rows := [text];
      CharsColumn(w.out, text, inverse);
    }
  }

  lemma BrokenOn(out: seq<Token>, head: seq<byte>, rest: seq<seq<byte>>, look: Look, inverse: bool)
    requires rest != []
    ensures out + Chars(head, inverse) + RowEnd(look) + Broken(rest, look, inverse)
            == out + Broken([head] + rest, look, inverse)
  {
    hide Chars, RowEnd;
    assert ([head] + rest)[1..] == rest;
  }

  lemma WrappedColumn(w: Writer)
    ensures Wrapped(w).out == w.out + RowEnd(w.cur) && Wrapped(w).col == Column(Wrapped(w).out) == |Again(w.cur)|
  {
    RowEndColumn(w.out, w.cur);
    hide Column, StyleTokens;
    assert w.out + [NewLine] + Again(w.cur) == w.out + RowEnd(w.cur);
  }

  lemma {:induction false} BrokenEnds(rows: seq<seq<byte>>, look: Look, inverse: bool)
    requires rows != []
    ensures NewLine in Broken(rows, look, inverse) <==> |rows| > 1
  {
    hide Chars, StyleTokens;
    CharsColumn([], rows[0], inverse);
    if |rows| > 1 { assert RowEnd(look)[0] == NewLine; }
  }

  /** A word where it may begin on the row. */
  lemma WordHere(w: Writer, pieces: seq<Piece>, parts: seq<seq<Token>>, text: seq<byte>, inverse: bool)
      returns (ts: seq<Token>)
    requires Writes(w, pieces, parts) && !(w.col > w.lineStart && w.col + |text| > WIDTH)
    ensures Writes(Chopped(w, text, inverse), pieces + [Word(w.cur, inverse, text)], parts + [ts])
  {
    hide Column, StyleTokens, Laid, Chars, Chopped, Broken, Cut, Start;
    AgainShort(w.cur);
    var rows := ChoppedCut(w, text, inverse);
    ts := Broken(rows, w.cur, inverse);
    BrokenEnds(rows, w.cur, inverse);
    LaidNext(pieces, parts, Word(w.cur, inverse, text), ts);
  }

  /** A word that begins a new row. */
  lemma WordBelow(w: Writer, pieces: seq<Piece>, parts: seq<seq<Token>>, text: seq<byte>, inverse: bool)
      returns (ts: seq<Token>)
    requires Writes(w, pieces, parts) && w.col > w.lineStart && w.col + |text| > WIDTH
    ensures Writes(Chopped(Wrapped(w), text, inverse), pieces + [Word(w.cur, inverse, text)], parts + [ts])
  {
    hide Column, StyleTokens, Laid, Chars, Chopped, Broken, Cut, Start;
    AgainShort(w.cur);
    WrappedColumn(w);
    var rows := ChoppedCut(Wrapped(w), text, inverse);
    ts := RowEnd(w.cur) + Broken(rows, w.cur, inverse);
    assert ts[0] == NewLine;
    LaidNext(pieces, parts, Word(w.cur, inverse, text), ts);
  }

  lemma WordWrites(w: Writer, pieces: seq<Piece>, parts: seq<seq<Token>>, text: seq<byte>, inverse: bool)
      returns (ts: seq<Token>)
    requires Writes(w, pieces, parts)
    ensures Writes(WordWritten(w, text, inverse), pieces + [Word(w.cur, inverse, text)], parts + [ts])
  {
    hide Writes, Chopped, Wrapped;
    if w.col > w.lineStart && w.col + |text| > WIDTH {
      ts := WordBelow(w, pieces, parts, text, inverse);
    } else {
      ts := WordHere(w, pieces, parts, text, inverse);
    }
  }

  lemma {:induction false} WordsWrite(w: Writer, pieces: seq<Piece>, parts: seq<seq<Token>>, words: seq<seq<byte>>,
      n: nat, inverse: bool) returns (more: seq<seq<Token>>)
    requires n <= |words| && Writes(w, pieces, parts)
    ensures var v := WordsWritten(w, words, n, inverse);
            v.cur == w.cur && Writes(v, pieces + WordPieces(words, n, w.cur, inverse), parts + more)
  {
    hide Writes, WordWritten, Spaced;
    if n == 0 {
      more := [];
      assert pieces + [] == pieces && parts + [] == parts;
    } else {
      var v := WordsWritten(w, words, n - 1, inverse);
      more := WordsWrite(w, pieces, parts, words, n - 1, inverse);
      var done, out := pieces + WordPieces(words, n - 1, w.cur, inverse), parts + more;
      if n > 1 {
        var ts := SpaceWrites(v, done, out, inverse);
        v, done, out, more := Spaced(v, inverse), done + [Space(w.cur, inverse)], out + [ts], more + [ts];
        SpacedLook(WordsWritten(w, words, n - 1, inverse), inverse);
      }
      var ts := WordWrites(v, done, out, words[n - 1], inverse);
      WrittenLook(v, done, out, words[n - 1], inverse, ts);
      more := more + [ts];
      assert done + [Word(w.cur, inverse, words[n - 1])] == pieces + WordPieces(words, n, w.cur, inverse);
      assert out + [ts] == parts + more;
    }
  }

  lemma SpacedLook(w: Writer, inverse: bool)
    ensures Spaced(w, inverse).cur == w.cur
  {}

  lemma WrittenLook(w: Writer, done: seq<Piece>, out: seq<seq<Token>>, text: seq<byte>, inverse: bool, ts: seq<Token>)
    requires Writes(WordWritten(w, text, inverse), done + [Word(w.cur, inverse, text)], out + [ts])
    ensures WordWritten(w, text, inverse).cur == w.cur
  {
    hide Laid, Joined, Column, Start, WordWritten;
  }

  lemma {:induction false} SpansWrite(spans: seq<Span>) returns (parts: seq<seq<Token>>)
    ensures Writes(SpansWritten(spans), Pieces(spans), parts)
  {
    hide Writes, WordPieces, WordsWritten, Split;
    if spans == [] {
      parts := [];
      NothingWritten();
    } else {
      var front, sp := spans[..|spans| - 1], spans[|spans| - 1];
      var w := SpansWritten(front);
      parts := SpansWrite(front);
      StyleWrites(w, Pieces(front), parts, sp.look);
      parts := parts + [StyleTokens(w.cur, sp.look)];
      var words := Split(sp.text);
      var more := WordsWrite(Styled(w, sp.look), Pieces(front) + [Style(sp.look)], parts, words, |words|, sp.inverse);
      parts := parts + more;
    }
  }

  lemma NothingWritten()
    ensures Writes(BLANK_LINE, [], [])
  {}

  // ---------------------------------------------------------------- and nothing else does

  lemma {:induction false} FilledUnique(col: nat, rows: seq<seq<byte>>, rows': seq<seq<byte>>, text: seq<byte>,
      look: Look)
    requires Filled(col, rows, text, look) && Filled(col, rows', text, look)
    ensures rows == rows'
    decreases |rows|
  {
    hide Again;
    if |rows| == 1 || |rows'| == 1 {
    } else {
      assert |rows[0]| == |rows'[0]|;
      assert rows[0] == text[..|rows[0]|] == rows'[0];
      FilledUnique(|Again(look)|, rows[1..], rows'[1..], text[|rows[0]|..], look);
      assert rows == [rows[0]] + rows[1..] && rows' == [rows'[0]] + rows'[1..];
    }
  }

  lemma PlacedUnique(before: seq<Token>, start: nat, cur: Look, ts: seq<Token>, ts': seq<Token>, piece: Piece)
    requires Placed(before, start, cur, ts, piece) && Placed(before, start, cur, ts', piece)
    ensures ts == ts'
  {
    hide Filled, Broken, Again, Chars;
    if piece.Word? {
      var text, col := piece.text, Column(before);
      var early := col > start && col + |text| > WIDTH;
      var from := if early then |Again(piece.look)| else col;
      forall rows, rows' | Cut(from, rows, text, piece.look) && Cut(from, rows', text, piece.look)
        ensures rows == rows'
      {
        FilledUnique(from, rows, rows', text, piece.look);
      }
    }
  }

  lemma {:induction false} LaidUnique(pieces: seq<Piece>, parts: seq<seq<Token>>, parts': seq<seq<Token>>)
    requires Laid(pieces, parts) && Laid(pieces, parts')
    ensures parts == parts'
    decreases |pieces|
  {
    hide Placed, Joined, Start;
    if pieces != [] {
      var n := |pieces| - 1;
      LaidFront(pieces, parts);
      LaidFront(pieces, parts');
      LaidUnique(pieces[..n], parts[..n], parts'[..n]);
      assert LaidAt(pieces, parts, n) && LaidAt(pieces, parts', n);
      PlacedUnique(Joined(parts[..n]), Start(pieces[..n], parts[..n]), LookAfterAll(pieces[..n]), parts[n], parts'[n],
                   pieces[n]);
      assert parts == parts[..n] + [parts[n]] && parts' == parts'[..n] + [parts'[n]];
    }
  }

  lemma LaidFront(pieces: seq<Piece>, parts: seq<seq<Token>>)
    requires Laid(pieces, parts) && pieces != []
    ensures Laid(pieces[..|pieces| - 1], parts[..|pieces| - 1])
  {
    hide Placed, Joined, Start;
    var few, some := pieces[..|pieces| - 1], parts[..|pieces| - 1];
    forall n | 0 <= n < |few| ensures LaidAt(few, some, n) {
      assert LaidAt(pieces, parts, n);
      assert few[..n] == pieces[..n] && some[..n] == parts[..n];
    }
  }

  /** What is written for a line is laid out by the rules, and nothing else is. */
  lemma LineBreaks(spans: seq<Span>)
    ensures exists parts :: Laid(Pieces(spans), parts)
    ensures forall parts | Laid(Pieces(spans), parts) :: Joined(parts) == SpansWritten(spans).out
  {
    hide Laid, Pieces, SpansWritten, Joined, Column, Start;
    var parts := SpansWrite(spans);
    WritesLaid(SpansWritten(spans), Pieces(spans), parts);
    forall others | Laid(Pieces(spans), others) ensures Joined(others) == SpansWritten(spans).out {
      LaidUnique(Pieces(spans), parts, others);
    }
  }

  lemma WritesLaid(w: Writer, pieces: seq<Piece>, parts: seq<seq<Token>>)
    requires Writes(w, pieces, parts)
    ensures Laid(pieces, parts) && w.out == Joined(parts)
  {
    hide Laid, Joined, Start, Column;
  }

  // ---------------------------------------------------------------- what the rules say

  /** A word that fits on a row after the attributes given again is written whole, on this row or, if it
      does not fit on the rest of it, at the beginning of the next. */
  lemma WordWhole(pieces: seq<Piece>, parts: seq<seq<Token>>, n: nat)
    requires Laid(pieces, parts) && n < |pieces| && pieces[n].Word?
    requires var p := pieces[n]; |Again(p.look)| + |p.text| <= WIDTH
    ensures var p, col := pieces[n], Column(Joined(parts[..n]));
            || parts[n] == Chars(p.text, p.inverse)
            || (parts[n] == RowEnd(p.look) + Chars(p.text, p.inverse) && col + |p.text| > WIDTH)
  {
    hide Joined, Start, Column, Again, Chars;
    assert LaidAt(pieces, parts, n);
  }

  /** A row ends only where the next space, word or piece of a word does not fit on the rest of it, and
      inside a word only at the last column, and only if no row has room for it. */
  lemma RowEnds(pieces: seq<Piece>, parts: seq<seq<Token>>, n: nat, i: nat)
    requires Laid(pieces, parts) && n < |pieces| && i < |parts[n]| && parts[n][i] == NewLine
    ensures var p, before := pieces[n], Joined(parts[..n]);
            && !p.Style?
            && (p.Space? ==> i == 0 && Column(before) >= WIDTH)
            && (p.Word? && i == 0 ==> Column(before) + |p.text| > WIDTH)
            && (p.Word? && i > 0 ==>
                  Column(before + parts[n][..i]) == WIDTH && |Again(p.look)| + |p.text| > WIDTH)
  {
    hide Joined, Start, Column, Chars, Broken, StyleTokens;
    var p, before := pieces[n], Joined(parts[..n]);
    assert LaidAt(pieces, parts, n);
    StyleCells(LookAfterAll(pieces[..n]), p.look);
    StyleCells(DEFAULT, p.look);
    if p.Space? {
      CharsColumn(before, [BLANK], p.inverse);
    } else if p.Word? {
      var col := Column(before);
      if col > Start(pieces[..n], parts[..n]) && col + |p.text| > WIDTH {
        var rows :| Cut(|Again(p.look)|, rows, p.text, p.look)
                    && parts[n] == RowEnd(p.look) + Broken(rows, p.look, p.inverse);
        RowEndColumn(before, p.look);
        var k := |RowEnd(p.look)|;
        if i >= k {
          BrokenAt(before + RowEnd(p.look), rows, p.text, p.look, p.inverse, i - k);
          assert before + parts[n][..i] == before + RowEnd(p.look) + Broken(rows, p.look, p.inverse)[..i - k];
        }
      } else {
        var rows :| Cut(col, rows, p.text, p.look) && parts[n] == Broken(rows, p.look, p.inverse);
        BrokenAt(before, rows, p.text, p.look, p.inverse, i);
      }
    }
  }

  /** Inside a word that is cut, rows end full. */
  lemma {:induction false} BrokenAt(out: seq<Token>, rows: seq<seq<byte>>, text: seq<byte>, look: Look, inverse: bool,
      i: nat)
    requires Filled(Column(out), rows, text, look)
    requires var ts := Broken(rows, look, inverse); i < |ts| && ts[i] == NewLine
    ensures i > 0 && |rows| > 1 && Column(out + Broken(rows, look, inverse)[..i]) == WIDTH
    decreases |rows|
  {
    hide Column, Chars, StyleTokens;
    var head := Chars(rows[0], inverse);
    CharsColumn(out, rows[0], inverse);
    if |rows| > 1 {
      var end := RowEnd(look);
      RowEndColumn(out + head, look);
      StyleCells(DEFAULT, look);
      var k := |head| + |end|;
      if i == |head| {
        assert out + Broken(rows, look, inverse)[..i] == out + head;
      } else if i >= k {
        var next := out + head + end;
        BrokenAt(next, rows[1..], text[|rows[0]|..], look, inverse, i - k);
        assert out + Broken(rows, look, inverse)[..i] == next + Broken(rows[1..], look, inverse)[..i - k];
      }
    }
  }
}
