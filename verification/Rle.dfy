/** The run-length code of internal/oascii/hires.go: pairs of a count (1-255) and a value. */
module Rle {
  import opened Bytes

  /** The length of the run data starts with, counted from `n` on and cut at 255. */
  function RunFrom(data: seq<byte>, n: nat): (m: nat)
    requires 1 <= n <= |data| && n <= 255
    ensures n <= m <= |data| && m <= 255
    decreases |data| - n
  {
    if n < |data| && data[n] == data[0] && n < 255 then RunFrom(data, n + 1) else n
  }

  function Run(data: seq<byte>): (m: nat)
    requires data != []
    ensures 1 <= m <= |data| && m <= 255
  {
    RunFrom(data, 1)
  }

  function Encoded(data: seq<byte>): seq<byte>
    decreases |data|
  {
    if data == [] then [] else [Run(data), data[0]] + Encoded(data[Run(data)..])
  }

  /** What the pairs of `rle` stand for, a dangling count standing for nothing. */
  function Expanded(rle: seq<byte>): seq<byte> {
    if |rle| < 2 then [] else Repeat(rle[1], rle[0]) + Expanded(rle[2..])
  }

  lemma {:induction false} RunFromEqual(data: seq<byte>, n: nat)
    requires 1 <= n <= |data| && n <= 255 && forall k :: 0 <= k < n ==> data[k] == data[0]
    ensures forall k :: 0 <= k < RunFrom(data, n) ==> data[k] == data[0]
    ensures var m := RunFrom(data, n); m == 255 || m == |data| || data[m] != data[0]
    decreases |data| - n
  {
    if n < |data| && data[n] == data[0] && n < 255 { RunFromEqual(data, n + 1); }
  }

  lemma RunEqual(data: seq<byte>)
    requires data != []
    ensures data == Repeat(data[0], Run(data)) + data[Run(data)..]
  {
    RunFromEqual(data, 1);
  }

  /** Round trip: the pairs stand for the data, whatever the data. */
  lemma {:induction false} ExpandedEncoded(data: seq<byte>)
    ensures Expanded(Encoded(data)) == data
    decreases |data|
  {
    if data != [] {
      var n := Run(data);
      assert Encoded(data)[2..] == Encoded(data[n..]);
      ExpandedEncoded(data[n..]);
      RunEqual(data);
    }
  }

  /** Whole pairs with counts between 1 and 255. */
  ghost predicate IsPairs(rle: seq<byte>) {
    rle == [] || (|rle| >= 2 && 1 <= rle[0] && IsPairs(rle[2..]))
  }

  lemma {:induction false} EncodedPairs(data: seq<byte>)
    ensures IsPairs(Encoded(data))
    ensures data != [] ==> Encoded(data) != []
    decreases |data|
  {
    if data != [] {
      EncodedPairs(data[Run(data)..]);
      assert Encoded(data)[2..] == Encoded(data[Run(data)..]);
    }
  }

  /** Dropping a prefix never costs pairs. */
  lemma {:induction false} EncodedSuffix(data: seq<byte>, c: nat)
    requires c <= |data|
    ensures |Encoded(data[c..])| <= |Encoded(data)|
    decreases |data|
  {
    hide Encoded, Run;
    if c == 0 {
      assert data[0..] == data;
    } else {
      var n := Run(data);
      EncodedNext(data);
      if n <= c {
        assert data[n..][c - n..] == data[c..];
        EncodedSuffix(data[n..], c - n);
      } else {
        var tail := data[c..];
        InsideRun(data, c);
        EncodedNext(tail);
        assert data[n..][c + Run(tail) - n..] == tail[Run(tail)..];
        EncodedSuffix(data[n..], c + Run(tail) - n);
      }
    }
  }

  lemma EncodedNext(data: seq<byte>)
    requires data != []
    ensures |Encoded(data)| == 2 + |Encoded(data[Run(data)..])|
  {
    hide Run;
  }

  /** What is left of a run opens with a run that goes as far at least. */
  lemma InsideRun(data: seq<byte>, c: nat)
    requires c < |data| && c < Run(data)
    ensures Run(data) <= c + Run(data[c..]) <= |data|
  {
    var tail := data[c..];
    RunFromEqual(data, 1);
    RunFromEqual(tail, 1);
    hide RunFrom;
    assert tail[0] == data[c] == data[0];
    assert forall k :: 0 <= k < |tail| ==> tail[k] == data[c + k];
    var n, m := Run(data), Run(tail);
    assert c + m < |data| ==> data[c + m] == tail[m];
  }

  /** The greedy code is as short as any code of the same data can be. */
  lemma {:induction false} EncodedShortest(data: seq<byte>, rle: seq<byte>)
    requires IsPairs(rle) && Expanded(rle) == data
    ensures |Encoded(data)| <= |rle|
    decreases |rle|
  {
    hide Run;
    if rle != [] {
      var c, rest := rle[0], rle[2..];
      var tail := Expanded(rest);
      EncodedShortest(tail, rest);
      OpeningRun(rle[1], c, tail);
      EncodedTail(data, c, tail);
    }
  }

  lemma EncodedTail(data: seq<byte>, c: nat, tail: seq<byte>)
    requires 1 <= c <= |data| && tail == data[c..] && c <= Run(data)
    ensures |Encoded(data)| <= 2 + |Encoded(tail)|
  {
    var n := Run(data);
    assert tail[n - c..] == data[n..];
    EncodedSuffix(tail, n - c);
  }

  lemma OpeningRun(v: byte, c: byte, tail: seq<byte>)
    requires 1 <= c
    ensures c <= Run(Repeat(v, c) + tail)
  {
    var data := Repeat(v, c) + tail;
    RunFromEqual(data, 1);
    assert forall k :: 0 <= k < c ==> data[k] == v;
  }

  lemma EncodedNil()
    ensures Encoded([]) == []
  {}

  /** One more pair of the code, from index i on. */
  lemma EncodedAt(data: seq<byte>, i: nat, out: seq<byte>)
    requires i < |data|
    ensures var n := Run(data[i..]);
            i + n <= |data| && out + Encoded(data[i..]) == out + [n, data[i]] + Encoded(data[i + n..])
  {
    var n := Run(data[i..]);
    assert data[i..][n..] == data[i + n..];
  }

  /** `RLEEncode` */
  method RLEEncode(data: seq<byte>) returns (out: seq<byte>)
    ensures out == Encoded(data)
  {
    hide Encoded;
    out := [];
    var i := 0;
    EncodedNil();
    while i < |data|
      invariant 0 <= i <= |data|
      invariant Encoded(data) == out + Encoded(data[i..])
    {
      var v := data[i];
      var n := 1;
      while i + n < |data| && data[i + n] == v && n < 255
        invariant 1 <= n <= 255 && i + n <= |data|
        invariant Run(data[i..]) == RunFrom(data[i..], n)
      {
        n := n + 1;
      }
      EncodedAt(data, i, out);
      out := out + [n, v];
      i := i + n;
    }
    assert data[i..] == [] && out + [] == out;
  }

  /** `RLEDecode`: at most n bytes of what the pairs stand for. */
  method RLEDecode(rle: seq<byte>, n: nat) returns (out: seq<byte>)
    ensures out == Expanded(rle)[..Min(n, |Expanded(rle)|)]
  {
    out := [];
    var i := 0;
    assert rle[0..] == rle;
    while i + 1 < |rle| && |out| < n
      invariant 0 <= i <= |rle| && |out| <= n
      invariant |out| < n ==> Expanded(rle) == out + Expanded(rle[i..])
      invariant out <= Expanded(rle)
    {
      var cnt, val := rle[i], rle[i + 1];
      ghost var before := out;
      assert rle[i..][2..] == rle[i + 2..];
      ghost var rest := Expanded(rle[i + 2..]);
      assert Expanded(rle) == before + Repeat(val, cnt) + rest;
      var j := 0;
      while j < cnt && |out| < n
        invariant 0 <= j <= cnt && |out| <= n
        invariant out == before + Repeat(val, j)
      {
        out := out + [val];
        j := j + 1;
      }
      assert Repeat(val, j) <= Repeat(val, cnt);
      i := i + 2;
    }
  }
}
