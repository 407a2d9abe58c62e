// The bits of a child mask: testing one, counting them in the table of bit counts, and the
// reader's formula for how many properties stand before one. The generated reader counts the
// zeros below a bit in the inverted mask; what it needs are the ones, and the two agree for
// every mask.
module MaskBits {

  // 1 << order, for the bits of a child mask.
  function Bit(order: nat): bv32
    requires order < 8
  {
    match order
    case 0 => 0x01 case 1 => 0x02 case 2 => 0x04 case 3 => 0x08
    case 4 => 0x10 case 5 => 0x20 case 6 => 0x40 case 7 => 0x80
  }

  // (0xff << order) & 0xff
  function BitsFrom(order: nat): bv32
    requires order < 8
  {
    match order
    case 0 => 0xff case 1 => 0xfe case 2 => 0xfc case 3 => 0xf8
    case 4 => 0xf0 case 5 => 0xe0 case 6 => 0xc0 case 7 => 0x80
  }

  predicate Tests(b: bv32, bit: bv32) {
    b & bit != 0
  }

  predicate HasBit(b: bv32, order: nat)
    requires order < 8
  {
    Tests(b, Bit(order))
  }

  function BitCount(b: bv32, order: nat): nat
    requires order < 8
  {
    if HasBit(b, order) then 1 else 0
  }

  // The table of bit counts of the eight low bits.
  function Popcount8(b: bv32): nat {
    BitCount(b, 0) + BitCount(b, 1) + BitCount(b, 2) + BitCount(b, 3)
    + BitCount(b, 4) + BitCount(b, 5) + BitCount(b, 6) + BitCount(b, 7)
  }

  lemma CountsAll()
    ensures Popcount8(0) == 0 && Popcount8(0xff) == 8 && Popcount8(0x75) == 5
  {
    assert BitCount(0x75, 0) + BitCount(0x75, 2) + BitCount(0x75, 4) + BitCount(0x75, 5) + BitCount(0x75, 6) == 5;
  }

  function OnesBelow(mask: bv32, order: nat): (n: nat)
    requires order <= 8
    ensures n <= order
  {
    if order == 0 then 0 else OnesBelow(mask, order - 1) + BitCount(mask, order - 1)
  }

  lemma MissingBit(mask: bv32, order: nat, k: nat)
    requires order < 8 && k < 8
    ensures BitCount(!(mask | BitsFrom(order)) & 0xff, k) == if k < order then 1 - BitCount(mask, k) else 0
  {
  }

  // The reader's formula, zeros below the bit, is the order less the ones below the bit.
  lemma ZerosBelow(mask: bv32, order: nat)
    requires order < 8
    ensures Popcount8(!(mask | BitsFrom(order)) & 0xff) == order - OnesBelow(mask, order)
  {
    MissingBit(mask, order, 0);
    MissingBit(mask, order, 1);
    MissingBit(mask, order, 2);
    MissingBit(mask, order, 3);
    MissingBit(mask, order, 4);
    MissingBit(mask, order, 5);
    MissingBit(mask, order, 6);
    MissingBit(mask, order, 7);
    OnesBelowUnrolled(mask, order);
  }

  lemma OnesBelowUnrolled(mask: bv32, order: nat)
    requires order < 8
    ensures OnesBelow(mask, order) ==
      (if 0 < order then BitCount(mask, 0) else 0) + (if 1 < order then BitCount(mask, 1) else 0)
      + (if 2 < order then BitCount(mask, 2) else 0) + (if 3 < order then BitCount(mask, 3) else 0)
      + (if 4 < order then BitCount(mask, 4) else 0) + (if 5 < order then BitCount(mask, 5) else 0)
      + (if 6 < order then BitCount(mask, 6) else 0)
  {
    assert OnesBelow(mask, 0) == 0;
    assert OnesBelow(mask, 1) == OnesBelow(mask, 0) + BitCount(mask, 0);
    assert OnesBelow(mask, 2) == OnesBelow(mask, 1) + BitCount(mask, 1);
    assert OnesBelow(mask, 3) == OnesBelow(mask, 2) + BitCount(mask, 2);
    assert OnesBelow(mask, 4) == OnesBelow(mask, 3) + BitCount(mask, 3);
    assert OnesBelow(mask, 5) == OnesBelow(mask, 4) + BitCount(mask, 4);
    assert OnesBelow(mask, 6) == OnesBelow(mask, 5) + BitCount(mask, 5);
    assert OnesBelow(mask, 7) == OnesBelow(mask, 6) + BitCount(mask, 6);
  }

  lemma OrHasBit(a: bv32, b: bv32, order: nat)
    requires order < 8
    ensures HasBit(a | b, order) <==> HasBit(a, order) || HasBit(b, order)
  {
    OrTests(a, b, Bit(order));
  }

  lemma OrTests(a: bv32, b: bv32, bit: bv32)
    ensures Tests(a | b, bit) <==> Tests(a, bit) || Tests(b, bit)
  {
    OrMasked(a, b, bit);
    OrIsZero(a & bit, b & bit);
  }

  lemma OrMasked(a: bv32, b: bv32, bit: bv32)
    ensures (a | b) & bit == (a & bit) | (b & bit)
  {
  }

  lemma OrIsZero(a: bv32, b: bv32)
    ensures a | b == 0 <==> a == 0 && b == 0
  {
  }

  lemma ZeroHasNoBit(order: nat)
    requires order < 8
    ensures !HasBit(0, order)
  {
  }

  lemma BitHasBit(i: nat, order: nat)
    requires i < 8 && order < 8
    ensures HasBit(Bit(i), order) <==> i == order
  {
  }

  const ALL_PRESENT: bv32 := 0xffff_ffff

  lemma AllBitsPresent(order: nat)
    requires order < 8
    ensures HasBit(ALL_PRESENT, order)
  {
  }

  lemma {:induction false} OnesBelowAllPresent(order: nat)
    requires order <= 8
    ensures OnesBelow(ALL_PRESENT, order) == order
  {
    if order > 0 {
      AllBitsPresent(order - 1);
      OnesBelowAllPresent(order - 1);
    }
  }
}
