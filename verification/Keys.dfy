/** The key decoder of the PC terminal (pcterm/cmd/oterm/keys.go): cursor-key escape sequences become
    the Oric's codes, however the input happens to be cut into reads. */
module Keys {
  import opened Options
  import opened Bytes

  const ESC: byte := 0x1B
  const BRACKET: byte := 0x5B
  const LETTER_O: byte := 0x4F

  // ---------------------------------------------------------------- keys and their bytes

  /** What a keyboard sends: a byte, ESC on its own, ESC [ with parameters and a final byte, or
      ESC O with a final byte. */
  datatype Key = Plain(b: byte) | Escape | Csi(params: seq<byte>, final: byte) | Ss3(final: byte)

  predicate IsFinal(b: byte) { 0x40 <= b <= 0x7E }

  ghost predicate NoFinal(s: seq<byte>) { forall i :: 0 <= i < |s| ==> !IsFinal(s[i]) }

  ghost predicate GoodKey(k: Key) {
    match k
    case Plain(b) => b != ESC
    case Csi(params, final) => NoFinal(params) && IsFinal(final)
    case _ => true
  }

  function KeyBytes(k: Key): (s: seq<byte>)
    ensures s != []
  {
    match k
    case Plain(b) => [b]
    case Escape => [ESC]
    case Csi(params, final) => [ESC, BRACKET] + params + [final]
    case Ss3(final) => [ESC, LETTER_O, final]
  }

  /** `arrowCode`, as the bytes it adds. */
  function Arrow(final: byte): seq<byte> {
    if final == 0x41 then [0x0B]
    else if final == 0x42 then [0x0C]
    else if final == 0x43 then [0x0F]
    else if final == 0x44 then [0x0E]
    else []
  }

  /** What the server is sent for a key: sequences other than the four cursor keys are dropped. */
  function KeyCode(k: Key): seq<byte> {
    match k
    case Plain(b) => [b]
    case Escape => [ESC]
    case Csi(params, final) => if params == [] then Arrow(final) else []
    case Ss3(final) => Arrow(final)
  }

  function Typed(keys: seq<Key>): seq<byte> {
    if keys == [] then [] else KeyBytes(keys[0]) + Typed(keys[1..])
  }

  function Codes(keys: seq<Key>): seq<byte> {
    if keys == [] then [] else KeyCode(keys[0]) + Codes(keys[1..])
  }

  /** The beginning of an escape sequence, and no more. */
  ghost predicate Incomplete(s: seq<byte>) {
    || s == [ESC]
    || s == [ESC, LETTER_O]
    || (|s| >= 2 && s[0] == ESC && s[1] == BRACKET && NoFinal(s[2..]))
  }

  /** Keys that read back as themselves when `tail` follows: an ESC on its own must be followed by
      something that cannot belong to it. */
  ghost predicate Readable(keys: seq<Key>, tail: seq<byte>) {
    keys == [] ||
    (&& GoodKey(keys[0]) && Readable(keys[1..], tail)
     && (keys[0] == Escape ==> var s := Typed(keys[1..]) + tail; s != [] && s[0] != BRACKET && s[0] != LETTER_O))
  }

  // ---------------------------------------------------------------- reading keys

  /** The first key of the input, if all of it is there. */
  function FirstKey(s: seq<byte>): (k: Option<Key>)
    requires s != []
    ensures k.Some? ==> KeyBytes(k.value) <= s && GoodKey(k.value)
  {
    if s[0] != ESC then Some(Plain(s[0]))
    else if |s| == 1 then None
    else if s[1] == BRACKET then
      var j := FinalAt(s[2..]);
      if j == |s| - 2 then None
      else
        assert s[..j + 3] == [ESC, BRACKET] + s[2..j + 2] + [s[j + 2]];
        Some(Csi(s[2..j + 2], s[j + 2]))
    else if s[1] == LETTER_O then (if |s| == 2 then None else Some(Ss3(s[2])))
    else Some(Escape)
  }

  function FinalAt(s: seq<byte>): (k: nat)
    ensures k <= |s| && (forall i :: 0 <= i < k ==> !IsFinal(s[i])) && (k < |s| ==> IsFinal(s[k]))
  {
    if s == [] || IsFinal(s[0]) then 0 else FinalAt(s[1..]) + 1
  }

  datatype Reading = Reading(keys: seq<Key>, rest: seq<byte>)

  function Read(s: seq<byte>): Reading
    decreases |s|
  {
    if s == [] then Reading([], [])
    else
      match FirstKey(s)
      case None => Reading([], s)
      case Some(k) =>
        var r := Read(s[|KeyBytes(k)|..]);
        Reading([k] + r.keys, r.rest)
  }

  /** `translateKeys` */
  function Out(s: seq<byte>): seq<byte> { Codes(Read(s).keys) }

  function Rest(s: seq<byte>): seq<byte> { Read(s).rest }

  // ---------------------------------------------------------------- one read

  lemma {:induction false} FinalFirst(s: seq<byte>, k: nat)
    requires k <= |s| && NoFinal(s[..k]) && (k < |s| ==> IsFinal(s[k]))
    ensures FinalAt(s) == k
  {
    hide IsFinal;
    forall i | 0 <= i < k
      ensures !IsFinal(s[i])
    {
      assert s[..k][i] == s[i];
    }
  }

  /** A key that was complete stays the same key when more input follows. */
  lemma FirstKeyStays(s: seq<byte>, t: seq<byte>)
    requires s != [] && FirstKey(s).Some?
    ensures FirstKey(s + t) == FirstKey(s)
  {
    hide IsFinal;
    if s[0] == ESC && s[1] == BRACKET {
      var j := FinalAt(s[2..]);
      assert (s + t)[2..] == s[2..] + t;
      assert s[2..][..j] == (s[2..] + t)[..j];
      FinalFirst(s[2..] + t, j);
      assert (s + t)[2..j + 2] == s[2..j + 2];
    }
  }

  /** The input holds no complete key exactly when it is an escape sequence cut short. */
  lemma NoKeyYet(s: seq<byte>)
    requires s != []
    ensures FirstKey(s).None? <==> Incomplete(s)
  {
    hide IsFinal;
    if |s| >= 2 && s[0] == ESC && s[1] == BRACKET && NoFinal(s[2..]) {
      assert s[2..][..|s| - 2] == s[2..];
      FinalFirst(s[2..], |s| - 2);
    }
  }

  /** Reading the input as a whole is reading its beginning, then what was left of it with the rest. */
  lemma {:induction false} ReadAppend(a: seq<byte>, b: seq<byte>)
    ensures var r, m := Read(a), Read(Read(a).rest + b);
            Read(a + b) == Reading(r.keys + m.keys, m.rest)
    decreases |a|
  {
    hide FirstKey, KeyBytes;
    if a == [] {
      assert a + b == b;
    } else if FirstKey(a).Some? {
      FirstKeyStays(a, b);
      var n := |KeyBytes(FirstKey(a).value)|;
      assert (a + b)[n..] == a[n..] + b;
      ReadAppend(a[n..], b);
    }
  }

  /** However the input is cut in two, the codes sent and what is left over are the same. */
  lemma CutAnywhere(a: seq<byte>, b: seq<byte>)
    ensures Out(a + b) == Out(a) + Out(Rest(a) + b) && Rest(a + b) == Rest(Rest(a) + b)
  {
    ReadAppend(a, b);
    CodesAppend(Read(a).keys, Read(Rest(a) + b).keys);
  }

  lemma {:induction false} CodesAppend(a: seq<Key>, b: seq<Key>)
    ensures Codes(a + b) == Codes(a) + Codes(b)
  {
    if a == [] {
      assert a + b == b;
    } else {
      assert (a + b)[1..] == a[1..] + b;
      CodesAppend(a[1..], b);
    }
  }

  /** What is left over is an escape sequence cut short, or nothing; and nothing else waits. */
  lemma {:induction false} RestIncomplete(s: seq<byte>)
    ensures Rest(s) == [] || Incomplete(Rest(s))
    ensures Incomplete(s) ==> Out(s) == [] && Rest(s) == s
    decreases |s|
  {
    hide Incomplete, FirstKey, KeyBytes;
    if s == [] {
      NothingIncomplete();
    } else {
      NoKeyYet(s);
      if FirstKey(s).Some? { RestIncomplete(s[|KeyBytes(FirstKey(s).value)|..]); }
    }
  }

  lemma NothingIncomplete()
    ensures !Incomplete([])
  {}

  // ---------------------------------------------------------------- reading inverts typing

  /** No byte is lost or invented: the keys read, typed again, are the input up to what is left. */
  lemma {:induction false} ReadExact(s: seq<byte>)
    ensures Typed(Read(s).keys) + Read(s).rest == s
    ensures Readable(Read(s).keys, Read(s).rest)
    decreases |s|
  {
    hide FirstKey, Readable, Read;
    if s == [] || FirstKey(s).None? {
      NoKeyRead(s);
    } else {
      var k := FirstKey(s).value;
      var more := s[|KeyBytes(k)|..];
      ReadExact(more);
      KeyRead(s);
      TypedNext(k, Read(more).keys, Read(more).rest);
      FirstEscape(s);
      ReadableNext(k, Read(more).keys, Read(more).rest);
    }
  }

  lemma NoKeyRead(s: seq<byte>)
    requires s == [] || FirstKey(s).None?
    ensures Read(s) == Reading([], s) && Readable([], s) && Typed([]) + s == s
  {
    hide FirstKey;
  }

  lemma KeyRead(s: seq<byte>)
    requires s != [] && FirstKey(s).Some?
    ensures var r := Read(s[|KeyBytes(FirstKey(s).value)|..]);
            Read(s) == Reading([FirstKey(s).value] + r.keys, r.rest)
  {
    hide FirstKey, KeyBytes;
  }

  lemma TypedNext(k: Key, keys: seq<Key>, tail: seq<byte>)
    ensures Typed([k] + keys) + tail == KeyBytes(k) + (Typed(keys) + tail)
  {
    hide KeyBytes;
    assert ([k] + keys)[1..] == keys;
  }

  lemma ReadableNext(k: Key, keys: seq<Key>, tail: seq<byte>)
    requires GoodKey(k) && Readable(keys, tail)
    requires k == Escape ==> var s := Typed(keys) + tail; s != [] && s[0] != BRACKET && s[0] != LETTER_O
    ensures Readable([k] + keys, tail)
  {
    hide GoodKey, KeyBytes, Typed;
    assert ([k] + keys)[1..] == keys;
  }

  lemma FirstEscape(s: seq<byte>)
    requires s != [] && FirstKey(s).Some?
    ensures FirstKey(s) == Some(Escape) ==> var t := s[1..]; t != [] && t[0] != BRACKET && t[0] != LETTER_O
    ensures s == KeyBytes(FirstKey(s).value) + s[|KeyBytes(FirstKey(s).value)|..]
  {}

  /** Reading what was typed gives the keys back, and an escape sequence cut short is left over. */
  lemma {:induction false} ReadTyped(keys: seq<Key>, tail: seq<byte>)
    requires Readable(keys, tail) && (tail == [] || Incomplete(tail))
    ensures Read(Typed(keys) + tail) == Reading(keys, tail)
  {
    hide Incomplete, FirstKey, Read;
    if keys == [] {
      if tail != [] { NoKeyYet(tail); }
      NoKeyRead(tail);
      assert Typed([]) + tail == tail;
    } else {
      var k, more := keys[0], Typed(keys[1..]) + tail;
      ReadTyped(keys[1..], tail);
      FirstTyped(k, more);
      assert keys == [k] + keys[1..];
      TypedNext(k, keys[1..], tail);
      assert (KeyBytes(k) + more)[|KeyBytes(k)|..] == more;
      KeyRead(KeyBytes(k) + more);
    }
  }

  lemma FirstTyped(k: Key, more: seq<byte>)
    requires GoodKey(k) && (k == Escape ==> more != [] && more[0] != BRACKET && more[0] != LETTER_O)
    ensures FirstKey(KeyBytes(k) + more) == Some(k)
  {
    hide IsFinal;
    if k.Csi? {
      var s := KeyBytes(k) + more;
      assert s[2..] == k.params + [k.final] + more;
      assert s[2..][..|k.params|] == k.params;
      FinalFirst(s[2..], |k.params|);
      assert s[2..|k.params| + 2] == k.params;
    }
  }

  /** Both forms of a cursor key send the code the server knows it by: up 0B, down 0C, left 0E and
      right 0F; any other final byte sends nothing. */
  lemma CursorKeys(final: byte)
    ensures IsFinal(final) ==> Out([ESC, BRACKET, final]) == Out([ESC, LETTER_O, final])
    ensures Out([ESC, LETTER_O, 'A' as int]) == [0x0B] && Out([ESC, LETTER_O, 'B' as int]) == [0x0C]
    ensures Out([ESC, LETTER_O, 'D' as int]) == [0x0E] && Out([ESC, LETTER_O, 'C' as int]) == [0x0F]
    ensures Out([ESC, LETTER_O, final]) != [] <==> 'A' as int <= final <= 'D' as int
  {
    hide Out;
    OneKey(Ss3('A' as int));
    OneKey(Ss3('B' as int));
    OneKey(Ss3('C' as int));
    OneKey(Ss3('D' as int));
    OneKey(Ss3(final));
    if IsFinal(final) {
      OneKey(Csi([], final));
      assert KeyBytes(Csi([], final)) == [ESC, BRACKET, final];
    }
  }

  /** Bytes other than ESC go through as they are; so does an ESC before what no sequence begins with;
      any other sequence sends nothing. */
  lemma OthersThrough(s: seq<byte>, b: byte, params: seq<byte>, final: byte)
    requires ESC !in s && b != ESC && b != BRACKET && b != LETTER_O
    requires params != [] && NoFinal(params) && IsFinal(final)
    ensures Out(s) == s && Rest(s) == []
    ensures Out([ESC, b]) == [ESC, b] && Out([ESC, BRACKET] + params + [final]) == []
  {
    PlainThrough(s);
    AloneThrough(b);
    var k := Csi(params, final);
    assert KeyBytes(k) == [ESC, BRACKET] + params + [final] && KeyCode(k) == [];
    OneKey(k);
    hide Out;
  }

  lemma AloneThrough(b: byte)
    requires b != ESC && b != BRACKET && b != LETTER_O
    ensures Out([ESC, b]) == [ESC, b]
  {
    PlainThrough([b]);
    assert [ESC, b][1..] == [b];
    var r := Read([b]);
    assert Read([ESC, b]) == Reading([Escape] + r.keys, r.rest);
    assert ([Escape] + r.keys)[1..] == r.keys;
    assert [ESC] + [b] == [ESC, b];
  }

  lemma {:induction false} PlainThrough(s: seq<byte>)
    requires ESC !in s
    ensures Out(s) == s && Rest(s) == []
    decreases |s|
  {
    if s != [] {
      PlainThrough(s[1..]);
      var r := Read(s[1..]);
      assert Read(s) == Reading([Plain(s[0])] + r.keys, r.rest);
      assert ([Plain(s[0])] + r.keys)[1..] == r.keys;
    }
  }

  lemma OneKey(k: Key)
    requires GoodKey(k) && k != Escape
    ensures Out(KeyBytes(k)) == KeyCode(k)
  {
    hide KeyBytes, GoodKey, KeyCode, Read;
    TypedNext(k, [], []);
    assert Typed([]) + [] == [];
    assert [k] + [] == [k];
    assert Typed([k]) + [] == KeyBytes(k) + [] == KeyBytes(k);
    ReadableNext(k, [], []);
    ReadTyped([k], []);
    OneCode(k);
  }

  lemma OneCode(k: Key)
    ensures Codes([k]) == KeyCode(k)
  {
    hide KeyCode;
    assert [k][1..] == [];
    assert Codes([]) == [];
  }

  // ---------------------------------------------------------------- a whole session of reads

  function Joined(chunks: seq<seq<byte>>): seq<byte> {
    if chunks == [] then [] else Joined(chunks[..|chunks| - 1]) + chunks[|chunks| - 1]
  }

  /** What has been sent, what is pending, and whether Ctrl-] has ended the session: the loop around
      `translateKeys` in pcterm/cmd/oterm/main.go. */
  datatype Session = Session(sent: seq<byte>, pending: seq<byte>, quit: bool)

  const QUIT: byte := 0x1D

  function BeforeQuit(s: seq<byte>): (k: nat)
    ensures k <= |s| && QUIT !in s[..k] && (k < |s| ==> s[k] == QUIT)
  {
    if s == [] || s[0] == QUIT then 0 else
      assert s[..BeforeQuit(s[1..]) + 1] == [s[0]] + s[1..][..BeforeQuit(s[1..])];
      BeforeQuit(s[1..]) + 1
  }

  function AfterReads(chunks: seq<seq<byte>>): Session {
    if chunks == [] then Session([], [], false)
    else
      var n := AfterReads(chunks[..|chunks| - 1]);
      if n.quit then n
      else
        var data := n.pending + chunks[|chunks| - 1];
        Session(n.sent + Out(data)[..BeforeQuit(Out(data))], Rest(data), QUIT in Out(data))
  }

  /** However the input is cut into chunks, what the server receives is the codes of the whole input up
      to the first Ctrl-], and the session ends exactly when there is one. */
  lemma {:induction false} ReadsIrrelevant(chunks: seq<seq<byte>>)
    ensures var n, all := AfterReads(chunks), Out(Joined(chunks));
            && n.sent == all[..BeforeQuit(all)] && (n.quit <==> QUIT in all)
            && (!n.quit ==> n.pending == Rest(Joined(chunks)))
  {
    hide Out, Rest;
    if chunks == [] {
      NoInput();
    } else {
      var front, last := chunks[..|chunks| - 1], chunks[|chunks| - 1];
      ReadsIrrelevant(front);
      CutAnywhere(Joined(front), last);
      QuitAppend(Out(Joined(front)), Out(Rest(Joined(front)) + last));
    }
  }

  lemma NoInput()
    ensures Out([]) == [] && Rest([]) == []
  {}

  lemma QuitAppend(a: seq<byte>, b: seq<byte>)
    ensures QUIT in a ==> (a + b)[..BeforeQuit(a + b)] == a[..BeforeQuit(a)]
    ensures QUIT !in a ==> (a + b)[..BeforeQuit(a + b)] == a + b[..BeforeQuit(b)] && a[..BeforeQuit(a)] == a
    ensures QUIT in a + b <==> QUIT in a || QUIT in b
  {
    if QUIT in a {
      var k := BeforeQuit(a);
      assert k < |a|;
      assert (a + b)[..k] == a[..k];
      QuitFirst(a + b, k);
    } else {
      QuitFirst(a, |a|);
      assert a[..|a|] == a;
      var k := BeforeQuit(b);
      assert (a + b)[..|a| + k] == a + b[..k];
      QuitFirst(a + b, |a| + k);
    }
  }

  lemma QuitFirst(s: seq<byte>, k: nat)
    requires k <= |s| && QUIT !in s[..k] && (k < |s| ==> s[k] == QUIT)
    ensures BeforeQuit(s) == k
  {
    var f := BeforeQuit(s);
    forall i | 0 <= i < |s|
      ensures i < k ==> s[i] != QUIT
      ensures i < f ==> s[i] != QUIT
    {
      if i < k { assert s[..k][i] == s[i]; }
      if i < f { assert s[..f][i] == s[i]; }
    }
  }

  // ---------------------------------------------------------------- the loop

  method TranslateKeys(input: seq<byte>) returns (out: seq<byte>, rest: seq<byte>)
    ensures out == Out(input) && rest == Rest(input)
  {
    hide FirstKey, KeyCode, KeyBytes;
    out := [];
    var i := 0;
    assert input[0..] == input;
    while i < |input|
      invariant 0 <= i <= |input|
      invariant out + Out(input[i..]) == Out(input) && Rest(input[i..]) == Rest(input)
    {
      var n, code := TakeKey(input[i..]);
      ReadFirst(input[i..]);
      if n == 0 { return out, input[i..]; }
      assert input[i..][n..] == input[i + n..];
      assert out + (code + Out(input[i + n..])) == out + code + Out(input[i + n..]);
      out := out + code;
      i := i + n;
    }
    NoInput();
    rest := [];
  }

  lemma ReadFirst(s: seq<byte>)
    requires s != []
    ensures match FirstKey(s)
            case None => Out(s) == [] && Rest(s) == s
            case Some(k) => Out(s) == KeyCode(k) + Out(s[|KeyBytes(k)|..]) && Rest(s) == Rest(s[|KeyBytes(k)|..])
  {
    hide FirstKey, KeyBytes, KeyCode;
    if FirstKey(s).Some? {
      var k := FirstKey(s).value;
      assert ([k] + Read(s[|KeyBytes(k)|..]).keys)[1..] == Read(s[|KeyBytes(k)|..]).keys;
    }
  }

  /** One turn of the loop, on what is left of the input: the bytes taken (none if the sequence is not
      all there) and the code to send. */
  method TakeKey(s: seq<byte>) returns (n: nat, code: seq<byte>)
    requires s != []
    ensures match FirstKey(s)
            case None => n == 0
            case Some(k) => n == |KeyBytes(k)| && code == KeyCode(k)
  {
    code := [];
    if s[0] != ESC { return 1, [s[0]]; }
    if 1 >= |s| { return 0, []; }
    if s[1] == BRACKET {
      var j := 2;
      while j < |s| && (s[j] < 0x40 || s[j] > 0x7E)
        invariant 2 <= j <= |s| && forall k :: 2 <= k < j ==> !IsFinal(s[k])
      {
        j := j + 1;
      }
      FinalFirst(s[2..], j - 2);
      if j >= |s| { return 0, []; }
      if j == 2 { code := Arrow(s[j]); }
      n := j + 1;
    } else if s[1] == LETTER_O {
      if 2 >= |s| { return 0, []; }
      n, code := 3, Arrow(s[2]);
    } else {
      n, code := 1, [ESC];
    }
  }
}
