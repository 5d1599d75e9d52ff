/** The bytes of the XMODEM link, on which the source uses bit operators, and their values. */
module Octets {

  type Octet = bv8

  function If(on: bool, b: Octet): Octet { if on then b else 0 }

  function Packed(b0: bool, b1: bool, b2: bool, b3: bool, b4: bool, b5: bool, b6: bool, b7: bool): Octet {
    If(b0, 1) | If(b1, 2) | If(b2, 4) | If(b3, 8) | If(b4, 16) | If(b5, 32) | If(b6, 64) | If(b7, 128)
  }

  predicate Odd(n: nat) { n % 2 == 1 }

  /** The octet whose value is n. */
  function OctetOf(n: nat): Octet
    requires n < 256
  {
    var n1 := n / 2;
    var n2 := n1 / 2;
    var n3 := n2 / 2;
    var n4 := n3 / 2;
    var n5 := n4 / 2;
    var n6 := n5 / 2;
    Packed(Odd(n), Odd(n1), Odd(n2), Odd(n3), Odd(n4), Odd(n5), Odd(n6), Odd(n6 / 2))
  }

  function Weight(on: bool, w: nat): nat { if on then w else 0 }

  function Value(b: Octet): nat {
    Weight(b & 1 != 0, 1) + Weight(b & 2 != 0, 2) + Weight(b & 4 != 0, 4) + Weight(b & 8 != 0, 8)
    + Weight(b & 16 != 0, 16) + Weight(b & 32 != 0, 32) + Weight(b & 64 != 0, 64) + Weight(b & 128 != 0, 128)
  }

  lemma BitsBack(b0: bool, b1: bool, b2: bool, b3: bool, b4: bool, b5: bool, b6: bool, b7: bool)
    ensures var b := Packed(b0, b1, b2, b3, b4, b5, b6, b7);
            && (b & 1 != 0 <==> b0) && (b & 2 != 0 <==> b1) && (b & 4 != 0 <==> b2) && (b & 8 != 0 <==> b3)
            && (b & 16 != 0 <==> b4) && (b & 32 != 0 <==> b5) && (b & 64 != 0 <==> b6) && (b & 128 != 0 <==> b7)
  {}

  lemma PackedValue(b0: bool, b1: bool, b2: bool, b3: bool, b4: bool, b5: bool, b6: bool, b7: bool)
    ensures Value(Packed(b0, b1, b2, b3, b4, b5, b6, b7)) ==
            Weight(b0, 1) + Weight(b1, 2) + Weight(b2, 4) + Weight(b3, 8) + Weight(b4, 16) + Weight(b5, 32)
                + Weight(b6, 64) + Weight(b7, 128)
  {
    hide Packed, Weight;
    BitsBack(b0, b1, b2, b3, b4, b5, b6, b7);
  }

  lemma Halved(n: nat)
    ensures n == 2 * (n / 2) + Weight(Odd(n), 1)
  {}

  lemma Nibble(n: nat, n1: nat, n2: nat, n3: nat)
    requires n1 == n / 2 && n2 == n1 / 2 && n3 == n2 / 2
    ensures n == Weight(Odd(n), 1) + Weight(Odd(n1), 2) + Weight(Odd(n2), 4) + Weight(Odd(n3), 8) + 16 * (n3 / 2)
  {
    hide Odd;
    Halved(n);
    Halved(n1);
    Halved(n2);
    Halved(n3);
  }

  lemma Scaled(on: bool, w: nat)
    ensures Weight(on, 16 * w) == 16 * Weight(on, w)
  {}

  /** The binary digits of n add up to n. */
  lemma Digits(n: nat, n1: nat, n2: nat, n3: nat, n4: nat, n5: nat, n6: nat, n7: nat)
    requires n < 256 && n1 == n / 2 && n2 == n1 / 2 && n3 == n2 / 2 && n4 == n3 / 2 && n5 == n4 / 2 && n6 == n5 / 2
             && n7 == n6 / 2
    ensures n == Weight(Odd(n), 1) + Weight(Odd(n1), 2) + Weight(Odd(n2), 4) + Weight(Odd(n3), 8)
                 + Weight(Odd(n4), 16) + Weight(Odd(n5), 32) + Weight(Odd(n6), 64) + Weight(Odd(n7), 128)
  {
    hide Odd, Weight;
    Nibble(n, n1, n2, n3);
    Nibble(n4, n5, n6, n7);
    Scaled(Odd(n4), 1);
    Scaled(Odd(n5), 2);
    Scaled(Odd(n6), 4);
    Scaled(Odd(n7), 8);
    assert n7 / 2 == 0;
  }

  lemma OctetValue(n: nat)
    requires n < 256
    ensures Value(OctetOf(n)) == n
  {
    hide Packed, Odd, Weight, Value;
    var n1 := n / 2;
    var n2 := n1 / 2;
    var n3 := n2 / 2;
    var n4 := n3 / 2;
    var n5 := n4 / 2;
    var n6 := n5 / 2;
    PackedValue(Odd(n), Odd(n1), Odd(n2), Odd(n3), Odd(n4), Odd(n5), Odd(n6), Odd(n6 / 2));
    Digits(n, n1, n2, n3, n4, n5, n6, n6 / 2);
  }
}
