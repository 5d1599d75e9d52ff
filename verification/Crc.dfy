/** The two block checks of internal/xmodem/xmodem.go: the CRC-16 (polynomial 0x1021, started at 0)
    and the byte sum.  The CRC is linear, and what it detects follows from its step being injective. */
module Crc {
  import opened Octets

  function Plus(a: bv16, b: bv16): bv16 { a ^ b }

  function PlusOctet(a: Octet, b: Octet): Octet { a ^ b }

  /** One turn of the inner loop. */
  function Shift(crc: bv16): bv16 {
    if crc & 0x8000 != 0 then (crc << 1) ^ 0x1021 else crc << 1
  }

  function Shifts(crc: bv16, n: nat): bv16 {
    if n == 0 then crc else Shift(Shifts(crc, n - 1))
  }

  function Wide(b: Octet): bv16 { (b as bv16) << 8 }

  /** `crc16` */
  function Crc16(data: seq<Octet>): bv16 {
    if data == [] then 0 else Shifts(Plus(Crc16(data[..|data| - 1]), Wide(data[|data| - 1])), 8)
  }

  function Added(x: Octet, y: Octet): Octet { x + y }

  /** `checksum`: the sum modulo 256. */
  function Checksum(data: seq<Octet>): Octet {
    if data == [] then 0 else Added(Checksum(data[..|data| - 1]), data[|data| - 1])
  }

  method ComputeCrc(data: seq<Octet>) returns (crc: bv16)
    ensures crc == Crc16(data)
  {
    hide Wide, Shift, Plus;
    crc := 0;
    for k := 0 to |data|
      invariant crc == Crc16(data[..k])
    {
      assert data[..k + 1][..k] == data[..k];
      crc := Plus(crc, Wide(data[k]));
      crc := ShiftByte(crc);
    }
    assert data[..|data|] == data;
  }

  /** The inner loop: eight turns for one byte. */
  method ShiftByte(start: bv16) returns (crc: bv16)
    ensures crc == Shifts(start, 8)
  {
    hide Shift;
    crc := start;
    for i := 0 to 8
      invariant crc == Shifts(start, i)
    {
      crc := Shift(crc);
    }
  }

  method ComputeChecksum(data: seq<Octet>) returns (s: Octet)
    ensures s == Checksum(data)
  {
    s := 0;
    for k := 0 to |data|
      invariant s == Checksum(data[..k])
    {
      assert data[..k + 1][..k] == data[..k];
      s := s + data[k];
    }
    assert data[..|data|] == data;
  }

  // ---------------------------------------------------------------- linearity

  lemma ShlXor(x: bv16, y: bv16)
    ensures (x ^ y) << 1 == (x << 1) ^ (y << 1)
  {}

  lemma TopXor(x: bv16, y: bv16)
    ensures (x ^ y) & 0x8000 == (x & 0x8000) ^ (y & 0x8000)
  {}

  lemma TopBit(x: bv16)
    ensures x & 0x8000 == 0 || x & 0x8000 == 0x8000
  {}

  lemma XorSwap(a: bv16, b: bv16, p: bv16)
    ensures (a ^ b) ^ p == a ^ (b ^ p) && (a ^ b) ^ p == (a ^ p) ^ b && (a ^ p) ^ (b ^ p) == a ^ b
  {}

  lemma ShiftPlus(x: bv16, y: bv16)
    ensures Shift(Plus(x, y)) == Plus(Shift(x), Shift(y))
  {
    ShlXor(x, y);
    TopXor(x, y);
    TopBit(x);
    TopBit(y);
    XorSwap(x << 1, y << 1, 0x1021);
  }

  lemma {:induction false} ShiftsPlus(x: bv16, y: bv16, n: nat)
    ensures Shifts(Plus(x, y), n) == Plus(Shifts(x, n), Shifts(y, n))
  {
    hide Shift, Plus;
    if n > 0 {
      ShiftsPlus(x, y, n - 1);
      ShiftPlus(Shifts(x, n - 1), Shifts(y, n - 1));
    }
  }

  /** Two blocks of the same length, xored byte by byte. */
  function Xor(a: seq<Octet>, b: seq<Octet>): (c: seq<Octet>)
    requires |a| == |b|
    ensures |c| == |a| && forall i :: 0 <= i < |a| ==> c[i] == PlusOctet(a[i], b[i])
  {
    seq(|a|, i requires 0 <= i < |a| && |a| == |b| => PlusOctet(a[i], b[i]))
  }

  lemma WidePlus(x: Octet, y: Octet)
    ensures Wide(PlusOctet(x, y)) == Plus(Wide(x), Wide(y))
  {}

  lemma PlusPairs(a: bv16, b: bv16, p: bv16, q: bv16)
    ensures Plus(Plus(a, b), Plus(p, q)) == Plus(Plus(a, p), Plus(b, q))
  {
    PlusLaws(a, b, Plus(p, q));
    PlusLaws(b, p, q);
    PlusLaws(p, b, q);
    PlusLaws(a, p, Plus(b, q));
    hide Plus;
  }

  lemma PlusLaws(a: bv16, b: bv16, c: bv16)
    ensures Plus(Plus(a, b), c) == Plus(a, Plus(b, c)) && Plus(a, b) == Plus(b, a)
  {}

  lemma PlusZero(x: bv16)
    ensures Plus(0, x) == x == Plus(x, 0) && Plus(x, x) == 0
  {}

  lemma PlusEqual(x: bv16, y: bv16)
    ensures Plus(x, y) == 0 <==> x == y
  {
    PlusLaws(x, x, y);
    PlusZero(x);
    PlusZero(y);
    hide Plus;
  }

  /** The CRC of a xor is the xor of the CRCs. */
  lemma {:induction false} CrcLinear(a: seq<Octet>, b: seq<Octet>)
    requires |a| == |b|
    ensures Crc16(Xor(a, b)) == Plus(Crc16(a), Crc16(b))
  {
    PlusZero(0);
    hide Wide, Shifts, Plus, PlusOctet;
    if a != [] {
      var n := |a| - 1;
      assert Xor(a, b)[..n] == Xor(a[..n], b[..n]);
      CrcLinear(a[..n], b[..n]);
      WidePlus(a[n], b[n]);
      PlusPairs(Crc16(a[..n]), Crc16(b[..n]), Wide(a[n]), Wide(b[n]));
      ShiftsPlus(Plus(Crc16(a[..n]), Wide(a[n])), Plus(Crc16(b[..n]), Wide(b[n])), 8);
    }
  }

  // ---------------------------------------------------------------- detection

  /** The step is injective: only zero is shifted to zero. */
  lemma ShiftZero(x: bv16)
    ensures Shift(x) == 0 <==> x == 0
  {}

  lemma {:induction false} ShiftsZero(x: bv16, n: nat)
    ensures Shifts(x, n) == 0 <==> x == 0
  {
    hide Shift;
    if n > 0 {
      ShiftsZero(x, n - 1);
      ShiftZero(Shifts(x, n - 1));
    }
  }

  function Narrow(b: Octet): bv16 { b as bv16 }

  /** A byte in the low half is shifted to the high half, untouched by the polynomial. */
  lemma NarrowShifts(b: Octet)
    ensures Shifts(Narrow(b), 8) == Wide(b)
  {
    var x := Narrow(b);
    var x1 := Shift(x);
    var x2 := Shift(x1);
    var x3 := Shift(x2);
    var x4 := Shift(x3);
    NarrowFour(b, x1, x2, x3, x4);
    var x5 := Shift(x4);
    var x6 := Shift(x5);
    var x7 := Shift(x6);
    var x8 := Shift(x7);
    NarrowEight(b, x4, x5, x6, x7, x8);
    hide Shift, Wide, Narrow;
    assert Shifts(x, 1) == x1;
    assert Shifts(x, 2) == x2;
    assert Shifts(x, 3) == x3;
    assert Shifts(x, 4) == x4;
    assert Shifts(x, 5) == x5;
    assert Shifts(x, 6) == x6;
    assert Shifts(x, 7) == x7;
  }

  lemma NarrowFour(b: Octet, x1: bv16, x2: bv16, x3: bv16, x4: bv16)
    requires x1 == Shift(Narrow(b)) && x2 == Shift(x1) && x3 == Shift(x2) && x4 == Shift(x3)
    ensures x4 == Narrow(b) << 4
  {}

  lemma NarrowEight(b: Octet, x4: bv16, x5: bv16, x6: bv16, x7: bv16, x8: bv16)
    requires x4 == Narrow(b) << 4 && x5 == Shift(x4) && x6 == Shift(x5) && x7 == Shift(x6) && x8 == Shift(x7)
    ensures x8 == Wide(b)
  {}

  function Zeros(n: nat): (z: seq<Octet>)
    ensures |z| == n && forall i :: 0 <= i < n ==> z[i] == 0
  {
    seq(n, _ => 0)
  }

  lemma {:induction false} CrcThenZeros(s: seq<Octet>, n: nat)
    ensures Crc16(s + Zeros(n)) == 0 <==> Crc16(s) == 0
  {
    if n == 0 {
      assert s + Zeros(0) == s;
    } else {
      var t := s + Zeros(n);
      assert t[..|t| - 1] == s + Zeros(n - 1) && t[|t| - 1] == 0;
      CrcThenZeros(s, n - 1);
      WideZero();
      hide Wide, Plus, Shifts;
      PlusZero(Crc16(s + Zeros(n - 1)));
      ShiftsZero(Crc16(s + Zeros(n - 1)), 8);
    }
  }

  lemma WideZero()
    ensures Wide(0) == 0
  {}

  /** Two bytes after zeros: their CRC vanishes only if both do. */
  lemma CrcPair(n: nat, d1: Octet, d2: Octet)
    ensures Crc16(Zeros(n) + [d1, d2]) == 0 <==> d1 == 0 && d2 == 0
  {
    var s, t := Zeros(n) + [d1], Zeros(n) + [d1, d2];
    CrcThenZeros([], n);
    assert [] + Zeros(n) == Zeros(n);
    assert s[..|s| - 1] == Zeros(n) && t[..|t| - 1] == s;
    hide Wide, Plus, Shifts, Narrow;
    PlusZero(Wide(d1));
    assert Crc16(s) == Shifts(Wide(d1), 8);
    NarrowShifts(d2);
    ShiftsPlus(Wide(d1), Narrow(d2), 8);
    assert Plus(Crc16(s), Wide(d2)) == Shifts(Plus(Wide(d1), Narrow(d2)), 8);
    ShiftsZero(Plus(Wide(d1), Narrow(d2)), 8);
    ShiftsZero(Shifts(Plus(Wide(d1), Narrow(d2)), 8), 8);
    HalvesZero(d1, d2);
  }

  lemma HalvesZero(d1: Octet, d2: Octet)
    ensures Plus(Wide(d1), Narrow(d2)) == 0 <==> d1 == 0 && d2 == 0
  {}

  /** b is a with damage confined to bytes i and i + 1. */
  ghost predicate DamagedPair(a: seq<Octet>, b: seq<Octet>, i: nat) {
    |a| == |b| && i + 1 < |a| && forall k :: 0 <= k < |a| && k != i && k != i + 1 ==> a[k] == b[k]
  }

  lemma OctetPlus(x: Octet, y: Octet)
    ensures PlusOctet(x, y) == 0 <==> x == y
  {}

  /** The CRC tells any such damage. */
  lemma PairDetected(a: seq<Octet>, b: seq<Octet>, i: nat)
    requires DamagedPair(a, b, i)
    ensures Crc16(a) == Crc16(b) <==> a == b
  {
    var e := Xor(a, b);
    var z := Zeros(i) + [e[i], e[i + 1]];
    forall k | 0 <= k < |a| ensures e[k] == 0 <==> a[k] == b[k] { OctetPlus(a[k], b[k]); }
    assert e == z + Zeros(|a| - i - 2);
    hide Wide, Plus, Shifts, PlusOctet, Crc16;
    CrcLinear(a, b);
    CrcThenZeros(z, |a| - i - 2);
    CrcPair(i, e[i], e[i + 1]);
    PlusEqual(Crc16(a), Crc16(b));
  }

  lemma SumCancels(x: Octet, y: Octet, c: Octet)
    ensures Added(x, c) == Added(y, c) <==> x == y
  {}

  lemma SumCancelsLeft(c: Octet, x: Octet, y: Octet)
    ensures Added(c, x) == Added(c, y) <==> x == y
  {}

  /** The byte sum tells any damage to a single byte. */
  lemma {:induction false} ByteDetected(a: seq<Octet>, b: seq<Octet>, i: nat)
    requires |a| == |b| && i < |a| && forall k :: 0 <= k < |a| && k != i ==> a[k] == b[k]
    ensures Checksum(a) == Checksum(b) <==> a == b
  {
    hide Added;
    var n := |a| - 1;
    if i == n {
      assert a[..n] == b[..n];
      SumCancelsLeft(Checksum(a[..n]), a[n], b[n]);
      assert a == a[..n] + [a[n]] && b == b[..n] + [b[n]];
    } else {
      ByteDetected(a[..n], b[..n], i);
      SumCancels(Checksum(a[..n]), Checksum(b[..n]), a[n]);
      assert a == a[..n] + [a[n]] && b == b[..n] + [b[n]];
    }
  }
}
