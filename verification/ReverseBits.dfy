/** The bit reversal that undoes the CRC unit's reversed output (libraries/HAL_Drivers/drv_crypto.c). */
module ReverseBits {

  /** One round: the bits `n` apart under the two masks change places. */
  function Swap(x: bv32, n: bv6, low: bv32, high: bv32): bv32
    requires n <= 32
  {
    ((x >> n) & low) | ((x << n) & high)
  }

  function ReverseBit(x: bv32): bv32 {
    var a := Swap(x, 1, 0x55555555, 0xaaaaaaaa);
    var b := Swap(a, 2, 0x33333333, 0xcccccccc);
    var c := Swap(b, 4, 0x0f0f0f0f, 0xf0f0f0f0);
    var d := Swap(c, 8, 0x00ff00ff, 0xff00ff00);
    Swap(d, 16, 0x0000ffff, 0xffff0000)
  }

  function BitAt(x: bv32, i: bv6): bv32
    requires i < 32
  {
    (x >> i) & 1
  }

  // Each round flips one digit of every bit's position.

  lemma Flip1(x: bv32, i: bv6)
    requires i < 32
    ensures BitAt(Swap(x, 1, 0x55555555, 0xaaaaaaaa), i) == BitAt(x, i ^ 1)
  {}

  lemma Flip2(x: bv32, i: bv6)
    requires i < 32
    ensures BitAt(Swap(x, 2, 0x33333333, 0xcccccccc), i) == BitAt(x, i ^ 2)
  {}

  lemma Flip4(x: bv32, i: bv6)
    requires i < 32
    ensures BitAt(Swap(x, 4, 0x0f0f0f0f, 0xf0f0f0f0), i) == BitAt(x, i ^ 4)
  {}

  lemma Flip8(x: bv32, i: bv6)
    requires i < 32
    ensures BitAt(Swap(x, 8, 0x00ff00ff, 0xff00ff00), i) == BitAt(x, i ^ 8)
  {}

  lemma Flip16(x: bv32, i: bv6)
    requires i < 32
    ensures BitAt(Swap(x, 16, 0x0000ffff, 0xffff0000), i) == BitAt(x, i ^ 16)
  {}

  /** Bit i of the result is bit 31 - i of the argument. */
  lemma MirrorsBits(x: bv32, i: bv6)
    requires i < 32
    ensures BitAt(ReverseBit(x), i) == BitAt(x, 31 - i)
  {
    var a := Swap(x, 1, 0x55555555, 0xaaaaaaaa);
    var b := Swap(a, 2, 0x33333333, 0xcccccccc);
    var c := Swap(b, 4, 0x0f0f0f0f, 0xf0f0f0f0);
    var d := Swap(c, 8, 0x00ff00ff, 0xff00ff00);
    Flip16(d, i);
    Flip8(c, i ^ 16);
    Flip4(b, i ^ 16 ^ 8);
    Flip2(a, i ^ 16 ^ 8 ^ 4);
    Flip1(x, i ^ 16 ^ 8 ^ 4 ^ 2);
    assert i ^ 16 ^ 8 ^ 4 ^ 2 ^ 1 == 31 - i;
  }

  lemma Involution(x: bv32)
    ensures ReverseBit(ReverseBit(x)) == x
  {}

  /** The low `w` bits of `x` mirrored among themselves: a reversed reading of a `w`-bit register. */
  function ReverseLow(x: bv32, w: bv6): bv32
    requires w <= 32
  {
    ReverseBit(x) >> (32 - w)
  }

  /** Bits of a word shifted down. */
  lemma ShiftedBit(y: bv32, i: bv6)
    ensures i < 7 ==> BitAt(y >> 25, i) == BitAt(y, i + 25)
    ensures i < 8 ==> BitAt(y >> 24, i) == BitAt(y, i + 24)
    ensures i < 16 ==> BitAt(y >> 16, i) == BitAt(y, i + 16)
  {}

  /** Bit i of such a reading is bit w - 1 - i of the register. */
  lemma MirrorsLow7(x: bv32, i: bv6)
    requires i < 7
    ensures BitAt(ReverseLow(x, 7), i) == BitAt(x, 6 - i)
  {
    MirrorsBits(x, i + 25);
    ShiftedBit(ReverseBit(x), i);
  }

  lemma MirrorsLow8(x: bv32, i: bv6)
    requires i < 8
    ensures BitAt(ReverseLow(x, 8), i) == BitAt(x, 7 - i)
  {
    MirrorsBits(x, i + 24);
    ShiftedBit(ReverseBit(x), i);
  }

  lemma MirrorsLow16(x: bv32, i: bv6)
    requires i < 16
    ensures BitAt(ReverseLow(x, 16), i) == BitAt(x, 15 - i)
  {
    MirrorsBits(x, i + 16);
    ShiftedBit(ReverseBit(x), i);
  }

  /** Reversing a full-width reading undoes it. */
  lemma FullReading(x: bv32)
    ensures ReverseBit(ReverseLow(x, 32)) == x
  {
    Involution(x);
    assert ReverseBit(x) >> 0 == ReverseBit(x);
  }

  // Reversing all 32 bits of a reading that was reversed within a narrow width shifts it to the top.

  lemma Narrow7(x: bv32)
    requires x >> 7 == 0
    ensures ReverseBit(ReverseLow(x, 7)) == x << 25
    ensures x << 25 == x <==> x == 0
  {}

  lemma Narrow8(x: bv32)
    requires x >> 8 == 0
    ensures ReverseBit(ReverseLow(x, 8)) == x << 24
    ensures x << 24 == x <==> x == 0
  {}

  lemma Narrow16(x: bv32)
    requires x >> 16 == 0
    ensures ReverseBit(ReverseLow(x, 16)) == x << 16
    ensures x << 16 == x <==> x == 0
  {}
}
