/** `Builder` (internal/oascii/oascii.go): the text stream is appended to in place, and the last
    attributes asked for are kept.  Each method is proved to append what Oascii and Wrap say. */
module OasciiBuilder {
  import opened Bytes
  import opened Oascii
  import opened Wrap

  class Builder {
    var buf: seq<byte>
    var ink: Color
    var paper: Color
    var blink: bool
    var dbl: bool
    var alt: bool
    var sticky: bool

    ghost function Style(): Look
      reads this
    {
      Look(ink, paper, blink, dbl, alt)
    }

    /** `New` */
    constructor ()
      ensures buf == [] && Style() == DEFAULT && !sticky
    {
      buf, ink, paper, blink, dbl, alt, sticky := [], WHITE, BLACK, false, false, false, false;
    }

    method Ink(c: Color)
      modifies `buf, `ink
      ensures buf == old(buf) + [InkAttr(c)] && ink == c
    {
      ink := c;
      buf := buf + [InkAttr(c)];
    }

    method Paper(c: Color)
      modifies `buf, `paper
      ensures buf == old(buf) + [PaperAttr(c)] && paper == c
    {
      paper := c;
      buf := buf + [PaperAttr(c)];
    }

    method Attrs(blink: bool, dbl: bool, alt: bool)
      modifies `buf, `blink, `dbl, `alt
      ensures buf == old(buf) + [TextAttr(blink, dbl, alt)]
      ensures this.blink == blink && this.dbl == dbl && this.alt == alt
    {
      this.blink, this.dbl, this.alt := blink, dbl, alt;
      buf := buf + [TextAttr(blink, dbl, alt)];
    }

    method Text(s: seq<byte>)
      modifies `buf
      ensures buf == old(buf) + Stream(Chars(s, false))
    {
      for i := 0 to |s|
        invariant buf == old(buf) + Stream(Chars(s[..i], false))
      {
        var c := s[i];
        if c < 0x20 || c > 0x7E { c := BLANK; }
        buf := buf + [c];
        CharsStream(s[..i + 1], false);
        assert s[..i + 1][..i] == s[..i];
      }
      assert s[..|s|] == s;
    }

    method InverseText(s: seq<byte>)
      modifies `buf
      ensures buf == old(buf) + Stream(Chars(s, true))
    {
      for i := 0 to |s|
        invariant buf == old(buf) + Stream(Chars(s[..i], true))
      {
        var c := s[i];
        if c < 0x20 || c > 0x7E { c := BLANK; }
        buf := buf + [c + 128];
        CharsStream(s[..i + 1], true);
        assert s[..i + 1][..i] == s[..i];
      }
      assert s[..|s|] == s;
    }

    /** Gives again the attributes that are not the defaults; returns how many cells they take. */
    method ReemitAttrs(look: Look) returns (n: nat)
      modifies `buf, `ink, `paper, `blink, `dbl, `alt
      ensures buf == old(buf) + Stream(StyleTokens(DEFAULT, look)) && n == |StyleTokens(DEFAULT, look)|
      ensures Style() == Dressed(old(Style()), DEFAULT, look)
    {
      hide Stream, StyleTokens, PaperAttr, InkAttr, TextAttr;
      StyleStream(DEFAULT, look);
      n := 0;
      if look.paper != BLACK {
        Paper(look.paper);
        n := n + 1;
      }
      assert buf == old(buf) + PaperBytes(DEFAULT, look) && n == |PaperBytes(DEFAULT, look)|;
      n := TextAgain(look, n);
      hide PaperBytes, TextBytes;
      if look.ink != WHITE {
        Ink(look.ink);
        n := n + 1;
      }
      Joined(old(buf), PaperBytes(DEFAULT, look), TextBytes(DEFAULT, look), InkBytes(DEFAULT, look));
    }

    method TextAgain(look: Look, n0: nat) returns (n: nat)
      modifies `buf, `blink, `dbl, `alt
      ensures buf == old(buf) + TextBytes(DEFAULT, look) && n == n0 + |TextBytes(DEFAULT, look)|
      ensures Style() == if SameText(look, DEFAULT) then old(Style())
              else old(Style()).(blink := look.blink, dbl := look.dbl, alt := look.alt)
    {
      n := n0;
      if look.blink || look.dbl || look.alt {
        Attrs(look.blink, look.dbl, look.alt);
        n := n + 1;
      }
    }

    /** Ends the line; a sticky builder gives its attributes again on the next one. */
    method Newline()
      modifies `buf, `ink, `paper, `blink, `dbl, `alt
      ensures buf == old(buf) + Stream([NewLine] + if sticky then StyleTokens(DEFAULT, old(Style())) else [])
      ensures Style() == old(Style())
    {
      hide Stream, StyleTokens, Dressed;
      EndStream();
      buf := buf + [0x0D, 0x0A];
      if sticky {
        ghost var look := Style();
        DressedSame(look);
        BytesAppend([NewLine], StyleTokens(DEFAULT, look));
        var n := ReemitAttrs(Look(ink, paper, blink, dbl, alt));
      }
    }
  }

  // ---------------------------------------------------------------- what is on the link, and what is remembered

  /** The style a builder remembers once it has written ts. */
  function Worn(l: Look, ts: seq<Token>): Look {
    if ts == [] then l
    else
      var m := Worn(l, ts[..|ts| - 1]);
      match ts[|ts| - 1]
      case NewLine => m
      case Cell(b) => if IsAttribute(b) then Applied(m, b) else m
  }

  /** What a sticky builder sends for ts: after every line end, the style it remembers. */
  function Stuck(l: Look, ts: seq<Token>): seq<Token> {
    if ts == [] then []
    else
      var front, last := ts[..|ts| - 1], ts[|ts| - 1];
      Stuck(l, front) + [last] + (if last.NewLine? then StyleTokens(DEFAULT, Worn(l, front)) else [])
  }

  /** What reaches the link. */
  function Sent(sticky: bool, l: Look, ts: seq<Token>): seq<byte> { Stream(if sticky then Stuck(l, ts) else ts) }

  /** A style in which what differs between cur and look has been given again. */
  function Dressed(l: Look, cur: Look, look: Look): Look {
    var text := if SameText(look, cur) then l else l.(blink := look.blink, dbl := look.dbl, alt := look.alt);
    text.(paper := if look.paper != cur.paper then look.paper else l.paper,
          ink := if look.ink != cur.ink then look.ink else l.ink)
  }

  lemma DressedSame(l: Look)
    ensures Dressed(l, DEFAULT, l) == l
  {}

  lemma {:induction false} WornInTurn(l: Look, s: seq<Token>, t: seq<Token>)
    ensures Worn(l, s + t) == Worn(Worn(l, s), t)
  {
    hide Applied, IsAttribute;
    if t == [] {
      assert s + t == s;
    } else {
      assert (s + t)[..|s + t| - 1] == s + t[..|t| - 1];
      WornInTurn(l, s, t[..|t| - 1]);
    }
  }

  lemma {:induction false} StuckInTurn(l: Look, s: seq<Token>, t: seq<Token>)
    ensures Stuck(l, s + t) == Stuck(l, s) + Stuck(Worn(l, s), t)
  {
    hide Worn, StyleTokens;
    if t == [] {
      assert s + t == s;
    } else {
      var front := t[..|t| - 1];
      assert (s + t)[..|s + t| - 1] == s + front;
      StuckInTurn(l, s, front);
      WornInTurn(l, s, front);
    }
  }

  lemma SentInTurn(sticky: bool, l: Look, s: seq<Token>, t: seq<Token>)
    ensures Sent(sticky, l, s + t) == Sent(sticky, l, s) + Sent(sticky, Worn(l, s), t)
  {
    hide Worn, Stuck, Stream;
    StuckInTurn(l, s, t);
    BytesAppend(s, t);
    BytesAppend(Stuck(l, s), Stuck(Worn(l, s), t));
  }

  lemma {:induction false} CellsSent(sticky: bool, l: Look, ts: seq<Token>)
    requires forall i :: 0 <= i < |ts| ==> ts[i].Cell?
    ensures Stuck(l, ts) == ts && Sent(sticky, l, ts) == Stream(ts)
  {
    hide Worn, StyleTokens, Stream;
    if ts != [] {
      CellsSent(sticky, l, ts[..|ts| - 1]);
      assert ts == ts[..|ts| - 1] + [ts[|ts| - 1]];
    }
  }

  lemma {:induction false} CharsWorn(l: Look, s: seq<byte>, inverse: bool)
    ensures Worn(l, Chars(s, inverse)) == l
  {
    hide CharByte, IsAttribute, Applied, Chars;
    if s == [] {
      NoChars(inverse);
    } else {
      CharsNext([], s, inverse);
      var front, b := Chars(s[..|s| - 1], inverse), CharByte(s[|s| - 1], inverse);
      assert [] + Chars(s, inverse) == Chars(s, inverse) && [] + front == front;
      WornInTurn(l, front, [Cell(b)]);
      CharsWorn(l, s[..|s| - 1], inverse);
      OneWorn(l, b);
      CharNotAttribute(s[|s| - 1], inverse);
    }
  }

  lemma CharNotAttribute(c: byte, inverse: bool)
    ensures !IsAttribute(CharByte(c, inverse))
  {}

  lemma OneWorn(l: Look, b: byte)
    ensures Worn(l, [Cell(b)]) == if IsAttribute(b) then Applied(l, b) else l
  {
    hide IsAttribute, Applied;
    assert [Cell(b)][..0] == [];
    assert Worn(l, []) == l;
  }

  lemma StyleWorn(l: Look, cur: Look, look: Look)
    ensures Worn(l, StyleTokens(cur, look)) == Dressed(l, cur, look)
    ensures forall i :: 0 <= i < |StyleTokens(cur, look)| ==> StyleTokens(cur, look)[i].Cell?
  {
    var paper, text, ink := PaperTokens(cur, look), TextTokens(cur, look), InkTokens(cur, look);
    WornInTurn(l, paper + text, ink);
    WornInTurn(l, paper, text);
    var l1 := Worn(l, paper);
    var l2 := Worn(l1, text);
    AttributesRead(l, look.paper, look.blink, look.dbl, look.alt);
    AttributesRead(l1, look.ink, look.blink, look.dbl, look.alt);
    AttributesRead(l2, look.ink, look.blink, look.dbl, look.alt);
    OneWorn(l, PaperAttr(look.paper));
    OneWorn(l1, TextAttr(look.blink, look.dbl, look.alt));
    OneWorn(l2, InkAttr(look.ink));
    NothingWorn(l);
    NothingWorn(l1);
    NothingWorn(l2);
    hide Worn, Applied, IsAttribute, PaperAttr, TextAttr, InkAttr;
  }

  lemma NothingWorn(l: Look)
    ensures Worn(l, []) == l
  {}

  lemma EndSent(sticky: bool, l: Look)
    ensures Sent(sticky, l, [NewLine]) == Stream([NewLine] + if sticky then StyleTokens(DEFAULT, l) else [])
    ensures Worn(l, [NewLine]) == l
  {
    hide StyleTokens, Stream;
    assert [NewLine][..0] == [];
    NothingWorn(l);
    assert Stuck(l, []) == [];
    assert [NewLine] + [] == [NewLine] && [] + [NewLine] == [NewLine];
  }

  /** What reads what a sticky builder sends has the style the builder remembers, line ends included,
      as long as no line overruns the screen. */
  lemma {:induction false} StickyKeepsStyle(ts: seq<Token>)
    requires ReadTokens(Stuck(DEFAULT, ts)).widest <= WIDTH
    ensures ReadTokens(Stuck(DEFAULT, ts)).look == Worn(DEFAULT, ts)
    ensures ReadTokens(Stuck(DEFAULT, ts)).col <= WIDTH
  {
    hide StyleTokens, Applied, IsAttribute;
    if ts != [] {
      var front, last := ts[..|ts| - 1], ts[|ts| - 1];
      var sent := Stuck(DEFAULT, front);
      ReadNext(sent, last);
      if last.NewLine? {
        var look := Worn(DEFAULT, front);
        StillNarrow(sent + [NewLine], StyleTokens(DEFAULT, look));
        StillNarrow(sent, [NewLine]);
        StickyKeepsStyle(front);
        StyleRead(sent + [NewLine], DEFAULT, look, WIDTH);
      } else {
        assert Stuck(DEFAULT, ts) == sent + [last];
        StillNarrow(sent, [last]);
        StickyKeepsStyle(front);
      }
    }
  }

  /** Lines only get wider. */
  lemma {:induction false} StillNarrow(s: seq<Token>, t: seq<Token>)
    ensures ReadTokens(s).widest <= ReadTokens(s + t).widest
    decreases |t|
  {
    if t == [] {
      assert s + t == s;
    } else {
      var front, last := t[..|t| - 1], t[|t| - 1];
      StillNarrow(s, front);
      assert s + t == (s + front) + [last];
      ReadNext(s + front, last);
    }
  }

  // ---------------------------------------------------------------- bytes of tokens

  lemma CharsStream(s: seq<byte>, inverse: bool)
    requires s != []
    ensures Stream(Chars(s, inverse)) == Stream(Chars(s[..|s| - 1], inverse)) + [CharByte(s[|s| - 1], inverse)]
  {
    hide CharByte;
    CharsNext([], s, inverse);
    var front := Chars(s[..|s| - 1], inverse);
    assert Chars(s, inverse)[..|s| - 1] == front;
  }

  lemma EndStream()
    ensures Stream([NewLine]) == [0x0D, 0x0A]
    ensures Stream([NewLine] + []) == [0x0D, 0x0A]
  {
    assert [NewLine][..0] == [];
    assert [NewLine] + [] == [NewLine];
  }

  lemma CellStream(b: byte)
    ensures Stream([Cell(b)]) == [b]
  {
    assert [Cell(b)][..0] == [];
  }

  function PaperBytes(cur: Look, look: Look): seq<byte> {
    if look.paper != cur.paper then [PaperAttr(look.paper)] else []
  }

  function TextBytes(cur: Look, look: Look): seq<byte> {
    if SameText(look, cur) then [] else [TextAttr(look.blink, look.dbl, look.alt)]
  }

  function InkBytes(cur: Look, look: Look): seq<byte> { if look.ink != cur.ink then [InkAttr(look.ink)] else [] }

  lemma StyleStream(cur: Look, look: Look)
    ensures Stream(StyleTokens(cur, look)) == PaperBytes(cur, look) + TextBytes(cur, look) + InkBytes(cur, look)
    ensures |StyleTokens(cur, look)| == |PaperBytes(cur, look)| + |TextBytes(cur, look)| + |InkBytes(cur, look)|
  {
    hide PaperAttr, InkAttr, TextAttr;
    CellStream(PaperAttr(look.paper));
    CellStream(InkAttr(look.ink));
    CellStream(TextAttr(look.blink, look.dbl, look.alt));
    hide Stream;
    BytesAppend(PaperTokens(cur, look), TextTokens(cur, look));
    BytesAppend(PaperTokens(cur, look) + TextTokens(cur, look), InkTokens(cur, look));
    NothingStream();
  }

  lemma Joined(s: seq<byte>, a: seq<byte>, b: seq<byte>, c: seq<byte>)
    ensures s + a + b + c == s + (a + b + c)
  {}

  lemma NothingStream()
    ensures Stream([]) == []
  {}
}
