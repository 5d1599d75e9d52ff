/** Downloads end to end: the header and the 8.3 names of server/internal/bbs/xfer.go, and their
    reading back by pcterm/internal/xfer/xfer.go around the XMODEM transfer. */
module Download {
  import opened Octets
  import opened Xmodem
  import opened XmodemLink
  import opened XmodemClean
  import opened XmodemIo

  const DOT: Octet := 0x2E
  const BLANK: Octet := 0x20
  const MAX_DOWNLOAD: nat := 0xFFFF * 128
  const HEADER: nat := 17

  // ---------------------------------------------------------------- names

  function Upper(c: Octet): Octet { if 0x61 <= c <= 0x7A then c - 0x20 else c }

  predicate Alnum(c: Octet) { 0x41 <= c <= 0x5A || 0x30 <= c <= 0x39 }

  /** The letters, in upper case, and digits of a text. */
  function Kept(s: seq<Octet>): seq<Octet> {
    if s == [] then []
    else
      var c := Upper(s[|s| - 1]);
      Kept(s[..|s| - 1]) + (if Alnum(c) then [c] else [])
  }

  /** The letters and digits of a field, as they are. */
  function Clean(s: seq<Octet>): seq<Octet> {
    if s == [] then [] else Clean(s[..|s| - 1]) + (if Alnum(s[|s| - 1]) then [s[|s| - 1]] else [])
  }

  function Blanks(n: nat): (s: seq<Octet>)
    ensures |s| == n && forall i :: 0 <= i < n ==> s[i] == BLANK
  {
    seq(n, _ => BLANK)
  }

  function Take(s: seq<Octet>, n: nat): (t: seq<Octet>)
    ensures |t| <= n && t <= s
  {
    if |s| <= n then s else s[..n]
  }

  function Field(src: seq<Octet>, n: nat): (f: seq<Octet>)
    ensures |f| == n
  {
    var t := Take(Kept(src), n);
    t + Blanks(n - |t|)
  }

  /** `strings.LastIndexByte(name, '.')` */
  function LastDot(name: seq<Octet>): (i: int)
    ensures -1 <= i < |name|
    ensures i >= 0 ==> name[i] == DOT
    ensures forall k :: i < k < |name| ==> name[k] != DOT
  {
    if name == [] then -1
    else if name[|name| - 1] == DOT then |name| - 1
    else LastDot(name[..|name| - 1])
  }

  function BaseOf(name: seq<Octet>): seq<Octet> { if LastDot(name) >= 0 then name[..LastDot(name)] else name }

  function ExtOf(name: seq<Octet>): seq<Octet> { if LastDot(name) >= 0 then name[LastDot(name) + 1..] else [] }

  /** `sedoricName`: 9 bytes of base and 3 of extension. */
  function Sedoric(name: seq<Octet>): seq<Octet> { Field(BaseOf(name), 9) + Field(ExtOf(name), 3) }

  /** `SedoricName`: the file name the 12 bytes stand for; none if the base is empty. */
  function FileName(b: seq<Octet>): seq<Octet> {
    if |b| < 12 then []
    else
      var base, ext := Clean(b[..9]), Clean(b[9..12]);
      if base == [] then [] else if ext != [] then base + [DOT] + ext else base
  }

  ghost predicate AllKept(s: seq<Octet>) { forall i :: 0 <= i < |s| ==> Alnum(s[i]) }

  lemma {:induction false} KeptAlnum(s: seq<Octet>)
    ensures AllKept(Kept(s))
  {
    hide Upper, Alnum;
    if s != [] { KeptAlnum(s[..|s| - 1]); }
  }

  function Lower(c: Octet): Octet { if 0x41 <= c <= 0x5A then c + 0x20 else c }

  function Lowered(s: seq<Octet>): seq<Octet> { seq(|s|, i requires 0 <= i < |s| => Lower(s[i])) }

  /** Names that differ by the case of their letters only have the same 12 bytes. */
  lemma CaseIrrelevant(name: seq<Octet>)
    ensures Sedoric(Lowered(name)) == Sedoric(name)
  {
    hide Kept, Lower, LastDot;
    LowerDot(name);
    var i := LastDot(name);
    if i >= 0 {
      assert Lowered(name)[..i] == Lowered(name[..i]) && Lowered(name)[i + 1..] == Lowered(name[i + 1..]);
      LowerKept(name[..i]);
      LowerKept(name[i + 1..]);
    } else {
      LowerKept(name);
    }
  }

  lemma {:induction false} LowerKept(s: seq<Octet>)
    ensures Kept(Lowered(s)) == Kept(s)
  {
    hide Alnum, Upper, Lower;
    if s != [] {
      var last := |s| - 1;
      LowerKept(s[..last]);
      assert Lowered(s)[..last] == Lowered(s[..last]);
      UpperLower(s[last]);
    }
  }

  lemma {:induction false} LowerDot(s: seq<Octet>)
    ensures LastDot(Lowered(s)) == LastDot(s)
  {
    hide Lower;
    if s != [] {
      var last := |s| - 1;
      assert Lowered(s)[..last] == Lowered(s[..last]);
      UpperLower(s[last]);
      LowerDot(s[..last]);
    }
  }

  lemma UpperLower(c: Octet)
    ensures Upper(Lower(c)) == Upper(c) && (Lower(c) == DOT <==> c == DOT)
  {}

  lemma AlnumIsUpper(c: Octet)
    requires Alnum(c)
    ensures Upper(c) == c && c != DOT && c != BLANK
  {}

  lemma {:induction false} KeptSame(s: seq<Octet>)
    requires AllKept(s)
    ensures Kept(s) == s && Clean(s) == s
  {
    hide Upper, Alnum;
    if s != [] {
      KeptSame(s[..|s| - 1]);
      AlnumIsUpper(s[|s| - 1]);
      assert s == s[..|s| - 1] + [s[|s| - 1]];
    }
  }

  lemma {:induction false} CleanBlanks(s: seq<Octet>, n: nat)
    ensures Clean(s + Blanks(n)) == Clean(s)
  {
    if n == 0 {
      assert s + Blanks(0) == s;
    } else {
      var t := s + Blanks(n);
      assert t[..|t| - 1] == s + Blanks(n - 1);
      CleanBlanks(s, n - 1);
      BlankNotKept();
    }
  }

  lemma BlankNotKept()
    ensures !Alnum(BLANK)
  {}

  lemma CleanField(src: seq<Octet>, n: nat)
    ensures Clean(Field(src, n)) == Take(Kept(src), n) && AllKept(Take(Kept(src), n))
  {
    hide Alnum;
    KeptAlnum(src);
    var t := Take(Kept(src), n);
    CleanBlanks(t, n - |t|);
    KeptSame(t);
  }

  lemma FieldAgain(src: seq<Octet>, n: nat)
    ensures Field(Take(Kept(src), n), n) == Field(src, n)
  {
    hide Alnum;
    KeptAlnum(src);
    KeptSame(Take(Kept(src), n));
  }

  lemma NoDot(s: seq<Octet>)
    requires AllKept(s)
    ensures LastDot(s) == -1
  {
    hide Alnum;
    if LastDot(s) >= 0 { AlnumIsUpper(s[LastDot(s)]); }
  }

  lemma DotBetween(base: seq<Octet>, ext: seq<Octet>)
    requires AllKept(ext)
    ensures BaseOf(base + [DOT] + ext) == base && ExtOf(base + [DOT] + ext) == ext
  {
    hide Alnum;
    var name := base + [DOT] + ext;
    var i := LastDot(name);
    assert name[|base|] == DOT;
    if i > |base| { AlnumIsUpper(ext[i - |base| - 1]); }
    assert i == |base|;
  }

  /** The name the client saves under has the same 12 bytes as the one it came from, if and only if
      something of the base was kept, or nothing of the extension. */
  lemma NameRoundTrip(name: seq<Octet>)
    ensures Sedoric(FileName(Sedoric(name))) == Sedoric(name) <==> Kept(BaseOf(name)) != [] || Kept(ExtOf(name)) == []
  {
    var b, e := Take(Kept(BaseOf(name)), 9), Take(Kept(ExtOf(name)), 3);
    var s := Sedoric(name);
    assert s[..9] == Field(BaseOf(name), 9) && s[9..12] == Field(ExtOf(name), 3);
    CleanField(BaseOf(name), 9);
    CleanField(ExtOf(name), 3);
    FieldAgain(BaseOf(name), 9);
    FieldAgain(ExtOf(name), 3);
    hide Kept, Clean, Alnum;
    if b == [] {
      EmptyName();
      FieldEmpty(ExtOf(name), 3);
      FieldEmpty(BaseOf(name), 9);
    } else if e == [] {
      NoDot(b);
      NoExtension(b);
      FieldEmpty(ExtOf(name), 3);
    } else {
      DotBetween(b, e);
    }
  }

  lemma NoExtension(b: seq<Octet>)
    requires LastDot(b) == -1
    ensures Sedoric(b) == Field(b, 9) + Blanks(3)
  {}

  lemma EmptyName()
    ensures Sedoric([]) == Blanks(9) + Blanks(3)
  {}

  lemma FieldEmpty(src: seq<Octet>, n: nat)
    requires n > 0
    ensures Kept(src) == [] <==> Take(Kept(src), n) == []
    ensures Kept(src) == [] <==> Field(src, n) == Blanks(n)
  {
    KeptAlnum(src);
    if Kept(src) != [] {
      AlnumIsUpper(Kept(src)[0]);
      assert Field(src, n)[0] == Kept(src)[0];
    }
  }

  // ---------------------------------------------------------------- what the comment on the names says

  /** A field with a space in the place of every character that is neither letter nor digit. */
  function CommentedField(src: seq<Octet>, n: nat): (f: seq<Octet>)
    ensures |f| == n
  {
    seq(n, i requires 0 <= i < n => if i < |src| && Alnum(Upper(src[i])) then Upper(src[i]) else BLANK)
  }

  function CommentedName(name: seq<Octet>): seq<Octet> {
    CommentedField(BaseOf(name), 9) + CommentedField(ExtOf(name), 3)
  }

  /** No character that is dropped stands before the last one that is kept and fits. */
  ghost predicate DropsLate(src: seq<Octet>, n: nat) {
    var m := |Take(Kept(src), n)|;
    m <= |src| && forall i :: 0 <= i < m ==> Alnum(Upper(src[i]))
  }

  lemma {:induction false} KeptWhole(src: seq<Octet>, m: nat)
    requires m <= |src| && forall i :: 0 <= i < m ==> Alnum(Upper(src[i]))
    ensures |Kept(src[..m])| == m && forall i :: 0 <= i < m ==> Kept(src[..m])[i] == Upper(src[i])
  {
    hide Upper, Alnum;
    if m > 0 {
      KeptWhole(src, m - 1);
      KeptNext(src, m - 1);
    }
  }

  /** A letter or digit beyond the first m is one more kept. */
  lemma KeptBeyond(src: seq<Octet>, m: nat, i: nat)
    requires m <= i < |src| && |Kept(src[..m])| == m && Alnum(Upper(src[i]))
    ensures |Kept(src)| > m
  {
    hide Upper, Alnum, Kept;
    assert src[..i][..m] == src[..m];
    KeptGrows(src[..i], m);
    KeptNext(src, i);
    KeptGrows(src, i + 1);
  }

  /** The field is the one the comment describes if and only if no character is dropped before the
      last kept one. */
  lemma FieldAsCommented(src: seq<Octet>, n: nat)
    ensures Field(src, n) == CommentedField(src, n) <==> DropsLate(src, n)
  {
    hide Kept, Upper, Alnum;
    KeptAlnum(src);
    BlankNotKept();
    var f, g, t := Field(src, n), CommentedField(src, n), Take(Kept(src), n);
    if f == g {
      forall i | 0 <= i < |t|
        ensures i < |src| && Alnum(Upper(src[i]))
      {
        assert f[i] == Kept(src)[i] && g[i] == f[i];
        AlnumIsUpper(Kept(src)[i]);
      }
      if t != [] {
        var last := |t| - 1;
        assert f[last] == Kept(src)[last] && g[last] == f[last];
        AlnumIsUpper(Kept(src)[last]);
      }
    }
    if DropsLate(src, n) {
      var m := |t|;
      KeptWhole(src, m);
      KeptGrows(src, m);
      forall i | 0 <= i < n
        ensures f[i] == g[i]
      {
        if i < m {
          assert Kept(src)[i] == Kept(src[..m])[i];
        } else if i < |src| && Alnum(Upper(src[i])) {
          KeptBeyond(src, m, i);
        }
      }
    }
  }

  /** `sedoricName` does what its comment says of a name if and only if neither part of the name has a
      dropped character before a kept one. */
  lemma NameAsCommented(name: seq<Octet>)
    ensures Sedoric(name) == CommentedName(name) <==> DropsLate(BaseOf(name), 9) && DropsLate(ExtOf(name), 3)
  {
    hide Field, CommentedField, DropsLate;
    FieldAsCommented(BaseOf(name), 9);
    FieldAsCommented(ExtOf(name), 3);
    assert Sedoric(name)[..9] == Field(BaseOf(name), 9) && Sedoric(name)[9..] == Field(ExtOf(name), 3);
    assert CommentedName(name)[..9] == CommentedField(BaseOf(name), 9)
        && CommentedName(name)[9..] == CommentedField(ExtOf(name), 3);
  }

  /** "A-B": the comment says `A B`, the code gives `AB`. */
  lemma HyphenDropped()
    ensures var name := [0x41, 0x2D, 0x42];
            Sedoric(name)[..3] == [0x41, 0x42, BLANK] && CommentedName(name)[..3] == [0x41, BLANK, 0x42]
  {
    hide Kept;
    var name: seq<Octet> := [0x41, 0x2D, 0x42];
    KeptHyphen(name);
    assert BaseOf(name) == name;
  }

  lemma KeptHyphen(name: seq<Octet>)
    requires name == [0x41, 0x2D, 0x42]
    ensures Kept(name) == [0x41, 0x42]
  {
    KeptNext(name, 0);
    KeptNext(name, 1);
    KeptNext(name, 2);
    assert name[..0] == [] && name[..3] == name && Kept([]) == [];
    hide Kept;
  }

  // ---------------------------------------------------------------- the two name routines

  /** `put`: writes what is kept of src over n bytes of out at most. */
  method Put(out: array<Octet>, src: seq<Octet>, off: nat, n: nat)
    requires off + n <= out.Length
    modifies out
    ensures out[..] == Written(old(out[..]), off, Take(Kept(src), n))
  {
    hide Upper, Alnum, Kept, Written, Take;
    ghost var before := out[..];
    var j, k := 0, 0;
    NothingWritten(before, off, src);
    while k < |src| && j < n
      invariant 0 <= k <= |src| && 0 <= j <= n && j == |Kept(src[..k])|
      invariant out[..] == Written(before, off, Kept(src[..k]))
    {
      var c := Upper(src[k]);
      KeptNext(src, k);
      if Alnum(c) {
        WrittenNext(before, off, Kept(src[..k]), c);
        out[off + j] := c;
        j := j + 1;
      } else {
        assert Kept(src[..k]) + [] == Kept(src[..k]);
      }
      k := k + 1;
    }
    AllTaken(src, k, n);
  }

  lemma NothingWritten(s: seq<Octet>, off: nat, src: seq<Octet>)
    requires off <= |s|
    ensures Kept(src[..0]) == [] && Written(s, off, Kept(src[..0])) == s
  {}

  /** What the loop has kept when it ends. */
  lemma AllTaken(src: seq<Octet>, k: nat, n: nat)
    requires k <= |src| && |Kept(src[..k])| <= n && (k == |src| || |Kept(src[..k])| == n)
    ensures Take(Kept(src), n) == Kept(src[..k])
  {
    hide Kept;
    KeptGrows(src, k);
    assert src[..|src|] == src;
  }

  /** s with t written over it from index off on. */
  function Written(s: seq<Octet>, off: nat, t: seq<Octet>): seq<Octet>
    requires off + |t| <= |s|
  {
    s[..off] + t + s[off + |t|..]
  }

  lemma WrittenNext(s: seq<Octet>, off: nat, t: seq<Octet>, c: Octet)
    requires off + |t| < |s|
    ensures Written(s, off, t + [c]) == Written(s, off, t)[off + |t| := c]
  {}

  lemma KeptNext(src: seq<Octet>, k: nat)
    requires k < |src|
    ensures Kept(src[..k + 1]) == Kept(src[..k]) + (if Alnum(Upper(src[k])) then [Upper(src[k])] else [])
  {
    assert src[..k + 1][..k] == src[..k];
  }

  lemma {:induction false} KeptGrows(s: seq<Octet>, k: nat)
    requires k <= |s|
    ensures Kept(s[..k]) <= Kept(s)
  {
    if k == |s| {
      assert s[..k] == s;
    } else {
      assert s[..|s| - 1][..k] == s[..k];
      KeptGrows(s[..|s| - 1], k);
    }
  }

  /** `sedoricName` */
  method SedoricName(name: seq<Octet>) returns (bytes: seq<Octet>)
    ensures bytes == Sedoric(name)
  {
    hide Kept, LastDot, Written, Field;
    var i := LastDot(name);
    var base, ext := name, [];
    if i >= 0 { base, ext := name[..i], name[i + 1..]; }
    var out := new Octet[12](_ => BLANK);
    assert out[..] == Blanks(12);
    Put(out, base, 0, 9);
    Put(out, ext, 9, 3);
    FieldsWritten(base, ext);
    bytes := out[..];
  }

  lemma FieldsWritten(base: seq<Octet>, ext: seq<Octet>)
    ensures Written(Written(Blanks(12), 0, Take(Kept(base), 9)), 9, Take(Kept(ext), 3))
            == Field(base, 9) + Field(ext, 3)
  {
    hide Kept;
    var b, e := Take(Kept(base), 9), Take(Kept(ext), 3);
    assert Written(Blanks(12), 0, b) == b + Blanks(12 - |b|);
  }

  method CleanPart(part: seq<Octet>) returns (s: seq<Octet>)
    ensures s == Clean(part)
  {
    hide Alnum;
    s := [];
    for i := 0 to |part|
      invariant s == Clean(part[..i])
    {
      assert part[..i + 1][..i] == part[..i];
      if Alnum(part[i]) { s := s + [part[i]]; }
    }
    assert part[..|part|] == part;
  }

  method ClientName(b: seq<Octet>) returns (name: seq<Octet>)
    ensures name == FileName(b)
  {
    hide Clean;
    if |b| < 12 { return []; }
    var base := CleanPart(b[..9]);
    var ext := CleanPart(b[9..12]);
    if base == [] { return []; }
    if ext != [] { return base + [DOT] + ext; }
    return base;
  }

  // ---------------------------------------------------------------- the header

  /** byte(n) */
  function Low8(n: nat): Octet { OctetOf(n % 256) }

  lemma LowValue(n: nat)
    ensures Value(Low8(n)) == n % 256
  {
    hide Value, OctetOf;
    OctetValue(n % 256);
  }

  /** `downloadHeader`: blocks on 2 bytes, name on 12, size on 3. */
  function Header(name: seq<Octet>, size: nat): (h: seq<Octet>)
    ensures |h| == HEADER
  {
    var blocks := (size + 127) / 128;
    [Low8(blocks), Low8(blocks / 256)] + Sedoric(name) + [Low8(size), Low8(size / 256), Low8(size / 65536)]
  }

  function SizeOf(h: seq<Octet>): nat
    requires |h| == HEADER
  {
    Value(h[14]) + 256 * Value(h[15]) + 65536 * Value(h[16])
  }

  lemma ThreeBytes(size: nat)
    requires size <= MAX_DOWNLOAD
    ensures size % 256 + 256 * (size / 256 % 256) + 65536 * (size / 65536 % 256) == size
  {
    assert size / 65536 < 256;
    assert size / 256 / 256 == size / 65536;
  }

  lemma HeaderSize(name: seq<Octet>, size: nat)
    requires size <= MAX_DOWNLOAD
    ensures var h := Header(name, size); h[2..14] == Sedoric(name) && SizeOf(h) == size
  {
    hide Low8, Value, Sedoric;
    LowValue(size);
    LowValue(size / 256);
    LowValue(size / 65536);
    ThreeBytes(size);
    var h := Header(name, size);
    assert h[14] == Low8(size) && h[15] == Low8(size / 256) && h[16] == Low8(size / 65536);
  }

  lemma HeaderBlocks(name: seq<Octet>, size: nat)
    requires size <= MAX_DOWNLOAD
    ensures var h := Header(name, size); Value(h[0]) + 256 * Value(h[1]) == (size + 127) / 128
  {
    hide Low8, Value, Sedoric;
    var blocks := (size + 127) / 128;
    LowValue(blocks);
    LowValue(blocks / 256);
    assert blocks / 256 < 256;
    var h := Header(name, size);
    assert h[0] == Low8(blocks) && h[1] == Low8(blocks / 256);
  }

  /** The header, field by field: blocks, name and size, low bytes first. */
  lemma HeaderRead(name: seq<Octet>, size: nat)
    requires size <= MAX_DOWNLOAD
    ensures var h := Header(name, size);
            && Value(h[0]) + 256 * Value(h[1]) == (size + 127) / 128 && h[2..14] == Sedoric(name)
            && Value(h[14]) + 256 * Value(h[15]) + 65536 * Value(h[16]) == size
  {
    hide Header, Value, Sedoric;
    HeaderSize(name, size);
    HeaderBlocks(name, size);
  }

  // ---------------------------------------------------------------- the client

  /** Saved under a name, or an error. */
  datatype Result = Saved(name: seq<Octet>, content: seq<Octet>) | NotSaved(error: Error)

  /** "BBSFILE.BIN" */
  const DEFAULT_NAME: seq<Octet> := [0x42, 0x42, 0x53, 0x46, 0x49, 0x4C, 0x45, 0x2E, 0x42, 0x49, 0x4E]

  /** What is done with what `Receive` returns: cut at the size the header gives, if it is that long. */
  function Save(h: seq<Octet>, o: Outcome): Result
    requires |h| == HEADER
  {
    match o
    case Failed(e) => NotSaved(e)
    case Got(data) =>
      var size, name := SizeOf(h), FileName(h[2..14]);
      Saved(if name == [] then DEFAULT_NAME else name, if 0 < size <= |data| then data[..size] else data)
  }

  /** `Download`, but for the writing of the file. */
  method Fetch(c: Conn) returns (r: Result)
    modifies c
    ensures var hdr := ReadFull(old(c.input), HEADER);
            r == match hdr.0 case None => NotSaved(ErrIO) case Some(h) => Save(h, RecvRun(FRESH, hdr.1).outcome)
  {
    hide ReadFull, RecvRun, Value, Clean;
    var h := c.ReadBytes(HEADER);
    if h.None? { return NotSaved(ErrIO); }
    var hdr := h.value;
    var name := ClientName(hdr[2..14]);
    var size := Value(hdr[14]) + 256 * Value(hdr[15]) + 65536 * Value(hdr[16]);
    var o := Receive(c);
    if o.Failed? { return NotSaved(o.error); }
    var data := o.data;
    if size > 0 && size <= |data| { data := data[..size]; }
    if name == [] { name := DEFAULT_NAME; }
    r := Saved(name, data);
  }

  /** The file as the client saves it: its data without trailing 0x1A bytes, under the name's 8.3 form. */
  lemma SavedFile(name: seq<Octet>, data: seq<Octet>)
    requires |data| <= MAX_DOWNLOAD
    ensures var saved := FileName(Sedoric(name));
            Save(Header(name, |data|), Got(Trimmed(data)))
                == Saved(if saved == [] then DEFAULT_NAME else saved, Trimmed(data))
  {
    hide Sedoric, Header, SizeOf, Trimmed;
    HeaderSize(name, |data|);
    TrimmedIsPrefix(data);
    assert |Trimmed(data)| <= |data|;
    if |Trimmed(data)| == |data| { assert Trimmed(data)[..|data|] == Trimmed(data); }
  }

  /** What the server writes for a file on a clean link: the header, then what `Send` writes when it
      reads what the client's `Receive` writes. */
  function ServerWrites(name: seq<Octet>, data: seq<Octet>): seq<Octet> {
    Header(name, |data|) + SendRun(Waiting(0), data, Arriving(Replies(data))).wrote
  }

  /** What `Download` makes of its input. */
  function Fetched(input: seq<Event>): Result {
    match ReadFull(input, HEADER)
    case (None, _) => NotSaved(ErrIO)
    case (Some(h), rest) => Save(h, RecvRun(FRESH, rest).outcome)
  }

  /** End to end over a clean link, for every file the server offers: the client saves the file
      without its trailing 0x1A bytes if its padded size is at most 1 MiB, and fails if it is not. */
  lemma DownloadClean(name: seq<Octet>, data: seq<Octet>)
    requires |data| <= MAX_DOWNLOAD
    ensures Fetched(Arriving(ServerWrites(name, data))) ==
            if |Padded(data)| <= MAX_RECEIVE then
              var saved := FileName(Sedoric(name));
              Saved(if saved == [] then DEFAULT_NAME else saved, Trimmed(data))
            else NotSaved(ErrTooLarge)
  {
    hide Trimmed, Padded, Sedoric, FileName, Header, RecvRun, SendRun, Replies, Fetched, Save;
    CleanLink(data);
    SavedFile(name, data);
    var h, sent := Header(name, |data|), SendRun(Waiting(0), data, Arriving(Replies(data))).wrote;
    ArrivingBoth(h, sent);
    FetchedAfter(h, Arriving(sent));
    SaveFailed(h);
  }

  lemma SaveFailed(h: seq<Octet>)
    requires |h| == HEADER
    ensures Save(h, Failed(ErrTooLarge)) == NotSaved(ErrTooLarge)
  {}

  lemma FetchedAfter(h: seq<Octet>, rest: seq<Event>)
    requires |h| == HEADER
    ensures Fetched(Arriving(h) + rest) == Save(h, RecvRun(FRESH, rest).outcome)
  {
    hide ReadFull, Save, RecvRun;
    ReadArriving(h, rest);
  }

  /** Hence exactly which files arrive as they are. */
  lemma DownloadIsExact(name: seq<Octet>, data: seq<Octet>)
    requires |data| <= MAX_DOWNLOAD
    ensures (exists n :: Fetched(Arriving(ServerWrites(name, data))) == Saved(n, data)) <==>
            |Padded(data)| <= MAX_RECEIVE && (data == [] || data[|data| - 1] != SUB)
  {
    DownloadClean(name, data);
    TrimmedIsPrefix(data);
    hide Fetched, ServerWrites, Trimmed, Padded, Sedoric, FileName;
  }
}
