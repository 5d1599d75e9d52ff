/** What else the CRC-16 of internal/xmodem/xmodem.go tells: any burst of at most 16 bits, wherever it
    begins, and any odd number of damaged bits. */
module Bursts {
  import opened Octets
  import opened Crc
  import opened Xmodem

  // ---------------------------------------------------------------- bursts

  /** Three bytes as 24 bits, the first one highest. */
  function Three(d1: Octet, d2: Octet, d3: Octet): bv24 { ((d1 as bv24) << 16) | ((d2 as bv24) << 8) | (d3 as bv24) }

  function High(w: bv24): bv16 { (w >> 8) as bv16 }

  function Low(w: bv24): Octet { (w & 0xFF) as Octet }

  /** The bits of w that are set lie within 16 neighbouring ones, of which s are to the right. */
  predicate Burst(w: bv24, s: nat) {
    if s == 0 then w < 0x1_0000 else w & 1 == 0 && Burst(w >> 1, s - 1)
  }

  /** The remainder of 24 bits. */
  function Reduced(w: bv24): bv16 { Plus(Shifts(High(w), 8), Narrow(Low(w))) }

  lemma {:induction false} ShiftsShift(x: bv16, n: nat)
    ensures Shifts(Shift(x), n) == Shift(Shifts(x, n))
  {
    hide Shift;
    if n > 0 { ShiftsShift(x, n - 1); }
  }

  /** The bit that moves from the low byte to the high ones. */
  function Carry(v: bv24): Octet { if v & 0x80 != 0 then 1 else 0 }

  lemma Doubled(v: bv24)
    requires v < 0x80_0000
    ensures High(v << 1) == Plus(Shift(High(v)), Narrow(Carry(v)))
    ensures Shift(Narrow(Low(v))) == Plus(Wide(Carry(v)), Narrow(Low(v << 1)))
  {}

  /** Doubling is one step, as long as no bit is lost. */
  lemma ReducedDoubled(v: bv24)
    requires v < 0x80_0000
    ensures Reduced(v << 1) == Shift(Reduced(v))
  {
    Doubled(v);
    var h, c, l := Shift(High(v)), Narrow(Carry(v)), Narrow(Low(v << 1));
    ShiftPlus(Shifts(High(v), 8), Narrow(Low(v)));
    ShiftsShift(High(v), 8);
    ShiftsPlus(h, c, 8);
    NarrowShifts(Carry(v));
    PlusLaws(Shifts(h, 8), Wide(Carry(v)), l);
    hide High, Low, Carry, Plus, Shift, Shifts, Narrow, Wide;
  }

  lemma Halved(w: bv24)
    requires w & 1 == 0
    ensures w >> 1 < 0x80_0000 && (w >> 1) << 1 == w && (w >> 1 == 0 <==> w == 0)
  {}

  lemma Short(w: bv24)
    requires w < 0x1_0000
    ensures var b := ((w >> 8) & 0xFF) as Octet; High(w) == Narrow(b) && (w == 0 <==> b == 0 && Low(w) == 0)
  {}

  /** A burst is divisible by the polynomial only if it is none. */
  lemma {:induction false} BurstReduced(w: bv24, s: nat)
    requires Burst(w, s)
    ensures Reduced(w) == 0 <==> w == 0
    decreases s
  {
    if s == 0 {
      var b := ((w >> 8) & 0xFF) as Octet;
      Short(w);
      NarrowShifts(b);
      HalvesZero(b, Low(w));
      hide High, Low, Plus, Shifts, Narrow, Wide;
    } else {
      var v := w >> 1;
      Halved(w);
      ReducedDoubled(v);
      BurstReduced(v, s - 1);
      ShiftZero(Reduced(v));
      hide Reduced, Shift;
    }
  }

  lemma ThreeParts(d1: Octet, d2: Octet, d3: Octet)
    ensures var w := Three(d1, d2, d3);
            High(w) == Plus(Wide(d1), Narrow(d2)) && Low(w) == d3 && (w == 0 <==> d1 == d2 == d3 == 0)
  {}

  /** Three bytes after zeros. */
  lemma CrcThree(n: nat, d1: Octet, d2: Octet, d3: Octet)
    ensures Crc16(Zeros(n) + [d1, d2, d3]) == 0 <==> Reduced(Three(d1, d2, d3)) == 0
  {
    hide Wide, Plus, Shifts, Narrow, Three, High, Low;
    var h := Plus(Wide(d1), Narrow(d2));
    ThreeParts(d1, d2, d3);
    CrcTwo(n, d1, d2);
    var t := Zeros(n) + [d1, d2, d3];
    assert t[..|t| - 1] == Zeros(n) + [d1, d2];
    NarrowShifts(d3);
    ShiftsPlus(Shifts(h, 8), Narrow(d3), 8);
    var r := Plus(Shifts(h, 8), Narrow(d3));
    ShiftsZero(r, 8);
    ShiftsZero(Shifts(r, 8), 8);
  }

  lemma CrcTwo(n: nat, d1: Octet, d2: Octet)
    ensures Crc16(Zeros(n) + [d1, d2]) == Shifts(Shifts(Plus(Wide(d1), Narrow(d2)), 8), 8)
  {
    hide Wide, Plus, Shifts, Narrow;
    var s, t := Zeros(n) + [d1], Zeros(n) + [d1, d2];
    CrcThenZeros([], n);
    assert [] + Zeros(n) == Zeros(n);
    assert s[..|s| - 1] == Zeros(n) && t[..|t| - 1] == s;
    PlusZero(Wide(d1));
    assert Crc16(s) == Shifts(Wide(d1), 8);
    NarrowShifts(d2);
    ShiftsPlus(Wide(d1), Narrow(d2), 8);
  }

  /** b is a with the damage of one burst of at most 16 bits, in bytes i to i + 2. */
  ghost predicate DamagedBurst(a: seq<Octet>, b: seq<Octet>, i: nat, s: nat) {
    && |a| == |b| && i + 2 < |a| && (forall k :: 0 <= k < |a| && !(i <= k <= i + 2) ==> a[k] == b[k])
    && Burst(Three(PlusOctet(a[i], b[i]), PlusOctet(a[i + 1], b[i + 1]), PlusOctet(a[i + 2], b[i + 2])), s)
  }

  /** The CRC tells any such damage. */
  lemma BurstDetected(a: seq<Octet>, b: seq<Octet>, i: nat, s: nat)
    requires DamagedBurst(a, b, i, s)
    ensures Crc16(a) == Crc16(b) <==> a == b
  {
    var e := Xor(a, b);
    var z := Zeros(i) + [e[i], e[i + 1], e[i + 2]];
    hide Wide, Plus, Shifts, PlusOctet, Crc16, Three, Burst, Reduced;
    forall k | 0 <= k < |a| ensures e[k] == 0 <==> a[k] == b[k] { OctetPlus(a[k], b[k]); }
    assert e == z + Zeros(|a| - i - 3);
    CrcLinear(a, b);
    CrcThenZeros(z, |a| - i - 3);
    CrcThree(i, e[i], e[i + 1], e[i + 2]);
    BurstReduced(Three(e[i], e[i + 1], e[i + 2]), s);
    ThreeParts(e[i], e[i + 1], e[i + 2]);
    PlusEqual(Crc16(a), Crc16(b));
  }

  // ---------------------------------------------------------------- odd damage

  /** Is the number of bits of x odd? */
  predicate Odd16(x: bv16)
    decreases x
  {
    if x == 0 then false
    else
      HalfSmaller(x);
      Odd16(x >> 1) != (x & 1 == 1)
  }

  lemma HalfSmaller(x: bv16)
    ensures x != 0 ==> x >> 1 < x
    ensures x >> 1 == 0 && x & 1 == 0 ==> x == 0
  {}

  function OddBits(s: seq<Octet>): bool {
    if s == [] then false else OddBits(s[..|s| - 1]) != Odd16(Wide(s[|s| - 1]))
  }

  lemma OddNext(x: bv16)
    ensures Odd16(x) == (Odd16(x >> 1) != (x & 1 == 1))
  {
    ZeroHalves(x);
  }

  lemma ZeroHalves(x: bv16)
    ensures x == 0 ==> x >> 1 == 0 && x & 1 == 0
  {}

  lemma {:induction false} OddPlus(x: bv16, y: bv16)
    ensures Odd16(Plus(x, y)) == (Odd16(x) != Odd16(y))
    decreases x | y
  {
    hide Odd16, Plus;
    OddNext(x);
    OddNext(y);
    OddNext(Plus(x, y));
    HalfPlus(x, y);
    LowPlus(x, y);
    NeitherSet(x, y);
    EitherHalf(x, y);
    NoneOdd();
    if x | y != 0 {
      OddPlus(x >> 1, y >> 1);
    }
  }

  lemma HalfPlus(x: bv16, y: bv16)
    ensures Plus(x, y) >> 1 == Plus(x >> 1, y >> 1)
  {}

  lemma LowPlus(x: bv16, y: bv16)
    ensures (Plus(x, y) & 1 == 1) == ((x & 1 == 1) != (y & 1 == 1))
  {}

  lemma NeitherSet(x: bv16, y: bv16)
    ensures x | y == 0 ==> x == y == Plus(x, y) == 0
  {}

  lemma EitherHalf(x: bv16, y: bv16)
    ensures (x >> 1) | (y >> 1) == (x | y) >> 1
    ensures x | y != 0 ==> (x >> 1) | (y >> 1) < x | y
  {
    HalfSmaller(x | y);
  }

  lemma OddDouble(x: bv16)
    requires x < 0x8000
    ensures Odd16(x << 1) == Odd16(x)
  {
    hide Odd16;
    OddNext(x << 1);
    DoubleHalves(x);
  }

  lemma DoubleHalves(x: bv16)
    requires x < 0x8000
    ensures (x << 1) >> 1 == x && (x << 1) & 1 == 0
  {}

  /** One more than a double. */
  lemma OddDoubleMore(x: bv16)
    requires x < 0x8000
    ensures Odd16((x << 1) | 1) != Odd16(x)
  {
    hide Odd16;
    OddNext((x << 1) | 1);
    DoubleMoreHalves(x);
  }

  lemma DoubleMoreHalves(x: bv16)
    requires x < 0x8000
    ensures ((x << 1) | 1) >> 1 == x && ((x << 1) | 1) & 1 == 1
  {}

  /** The top bit is one bit, and the polynomial has three below it. */
  lemma OddTerms()
    ensures Odd16(0x8000) && Odd16(0x1021)
  {
    hide Odd16;
    NoneOdd();
    OddDoubleMore(0);
    OddDouble(1);
    OddDouble(2);
    OddDouble(4);
    OddDouble(8);
    OddDouble(0x10);
    OddDouble(0x20);
    OddDouble(0x40);
    OddDouble(0x80);
    OddDouble(0x100);
    OddDouble(0x200);
    OddDouble(0x400);
    OddDouble(0x800);
    OddDouble(0x1000);
    OddDouble(0x2000);
    OddDouble(0x4000);
    OddDoubleMore(0x40);
    OddDouble(0x81);
    OddDouble(0x102);
    OddDouble(0x204);
    OddDouble(0x408);
    OddDoubleMore(0x810);
  }

  predicate TopBit(x: bv16) { x & 0x8000 != 0 }

  function Below(x: bv16): bv16 { x & 0x7FFF }

  function Double(x: bv16): bv16 { x << 1 }

  lemma OddShift(x: bv16)
    ensures Odd16(Shift(x)) == Odd16(x)
  {
    hide Odd16, Shift, Plus, TopBit, Below, Double;
    var r := Below(x);
    DoubleOdd(x);
    if TopBit(x) {
      OddTerms();
      TopSet(x);
      ShiftSet(x);
      OddPlus(r, 0x8000);
      OddPlus(Double(r), 0x1021);
    } else {
      TopClear(x);
    }
  }

  lemma DoubleOdd(x: bv16)
    ensures Odd16(Double(Below(x))) == Odd16(Below(x))
  {
    hide Odd16, Below;
    BelowSmall(x);
    OddDouble(Below(x));
  }

  lemma BelowSmall(x: bv16)
    ensures Below(x) < 0x8000
  {}

  lemma TopSet(x: bv16)
    requires TopBit(x)
    ensures x == Plus(Below(x), 0x8000)
  {}

  lemma ShiftSet(x: bv16)
    requires TopBit(x)
    ensures Shift(x) == Plus(Double(Below(x)), 0x1021)
  {}

  lemma TopClear(x: bv16)
    requires !TopBit(x)
    ensures x == Below(x) && Shift(x) == Double(x)
  {}

  lemma {:induction false} OddShifts(x: bv16, n: nat)
    ensures Odd16(Shifts(x, n)) == Odd16(x)
  {
    hide Shift, Odd16;
    if n > 0 {
      OddShifts(x, n - 1);
      OddShift(Shifts(x, n - 1));
    }
  }

  /** The CRC has as many bits as the block, but for an even number: the polynomial has four terms. */
  lemma {:induction false} CrcOdd(s: seq<Octet>)
    ensures Odd16(Crc16(s)) == OddBits(s)
  {
    hide Odd16, Shifts, Plus, Wide;
    if s == [] {
      NoneOdd();
    } else {
      var front, last := Crc16(s[..|s| - 1]), Wide(s[|s| - 1]);
      CrcOdd(s[..|s| - 1]);
      OddPlus(front, last);
      OddShifts(Plus(front, last), 8);
    }
  }

  lemma NoneOdd()
    ensures !Odd16(0)
  {}

  /** The CRC tells any damage to an odd number of bits, wherever they are. */
  lemma OddDetected(a: seq<Octet>, b: seq<Octet>)
    requires |a| == |b| && OddBits(Xor(a, b))
    ensures Crc16(a) != Crc16(b)
  {
    hide Odd16, Plus, Crc16, OddBits, Xor;
    CrcLinear(a, b);
    CrcOdd(Xor(a, b));
    NoneOdd();
    PlusEqual(Crc16(a), Crc16(b));
  }

  // ---------------------------------------------------------------- on the link

  /** Such damage to the data of a block, its own check bytes intact, is refused in CRC mode. */
  lemma BurstHurtTold(own: seq<Octet>, hurt: seq<Octet>, i: nat, s: nat)
    requires |own| == BLOCK && DamagedBurst(own, hurt, i, s) && own != hurt
    ensures !Fits(hurt, CheckBytes(own, true), true)
  {
    hide Crc16, Joined, HighByte, LowByte, DamagedBurst;
    BurstDetected(own, hurt, i, s);
    JoinedBack(Crc16(own));
  }

  lemma OddHurtTold(own: seq<Octet>, hurt: seq<Octet>)
    requires |own| == BLOCK == |hurt| && OddBits(Xor(own, hurt))
    ensures !Fits(hurt, CheckBytes(own, true), true)
  {
    hide Crc16, Joined, HighByte, LowByte, OddBits, Xor;
    OddDetected(own, hurt);
    JoinedBack(Crc16(own));
  }
}
