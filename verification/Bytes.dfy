/** Bytes of the display streams, as the integers 0..255, and the opcodes of the HIRES stream
    (internal/oascii/hires.go, internal/oascii/oascii.go). */
module Bytes {

  type byte = x: int | 0 <= x < 256

  const PLOT: byte := 0x1F
  const HIRES: byte := 0xFC

  const HI_END: byte := 0x00
  const HI_ON: byte := 0x01
  const HI_INK: byte := 0x02
  const HI_PAPER: byte := 0x03
  const HI_CURSET: byte := 0x10
  const HI_POINT: byte := 0x11
  const HI_LINE: byte := 0x12
  const HI_BOX: byte := 0x13
  const HI_FILLBOX: byte := 0x14
  const HI_CIRCLE: byte := 0x15
  const HI_CHAR: byte := 0x16
  const HI_BLIT: byte := 0x20

  function Min(a: int, b: int): int { if a < b then a else b }

  function Repeat(b: byte, n: nat): (s: seq<byte>)
    ensures |s| == n && forall k :: 0 <= k < n ==> s[k] == b
  {
    seq(n, _ => b)
  }

  // ---------------------------------------------------------------- bits of a byte

  predicate Bit(b: nat, j: nat) { if j == 0 then b % 2 == 1 else Bit(b / 2, j - 1) }

  /** `b |= 1 << j` when `on`, `b &^= 1 << j` otherwise. */
  function WithBit(b: nat, j: nat, on: bool): nat {
    if j == 0 then b / 2 * 2 + (if on then 1 else 0) else WithBit(b / 2, j - 1, on) * 2 + b % 2
  }

  /** Only the bit that was written changes. */
  lemma {:induction false} BitWritten(b: nat, j: nat, on: bool, k: nat)
    ensures Bit(WithBit(b, j, on), k) <==> if k == j then on else Bit(b, k)
    decreases j
  {
    if j > 0 && k > 0 { BitWritten(b / 2, j - 1, on, k - 1); }
  }

  function Power2(n: nat): nat { if n == 0 then 1 else 2 * Power2(n - 1) }

  lemma {:induction false} WithBitFits(b: nat, j: nat, on: bool, n: nat)
    requires j < n && b < Power2(n)
    ensures WithBit(b, j, on) < Power2(n)
  {
    if j > 0 { WithBitFits(b / 2, j - 1, on, n - 1); }
  }

  function WriteBit(b: byte, j: nat, on: bool): byte
    requires j < 8
  {
    assert WithBit(b, j, on) < 256 by {
      assert Power2(8) == 256;
      WithBitFits(b, j, on, 8);
    }
    WithBit(b, j, on)
  }
}
