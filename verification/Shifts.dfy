// Shifts, masks and the bitwise or on natural numbers, and what packing fields into a word
// needs of them: an or of disjoint bits is a sum, shifts add up and distribute over sums, a
// field between what is below and what is above it reads back, and no field reads back from
// fewer bits than it has.
module Shifts {

  function Pow2(n: nat): (p: nat)
    ensures p > 0
  {
    if n == 0 then 1 else 2 * Pow2(n - 1)
  }

  // Bitwise or.
  function BitOr(a: nat, b: nat): nat {
    if a == 0 then b
    else if b == 0 then a
    else (if a % 2 == 1 || b % 2 == 1 then 1 else 0) + 2 * BitOr(a / 2, b / 2)
  }

  // x << places
  function ShiftLeft(x: nat, places: nat): nat {
    if places == 0 then x else 2 * ShiftLeft(x, places - 1)
  }

  // x >> places
  function ShiftRight(x: nat, places: nat): nat {
    if places == 0 then x else ShiftRight(x / 2, places - 1)
  }

  // x & ((1 << width) - 1)
  function LowBits(x: nat, width: nat): nat {
    if width == 0 then 0 else x % 2 + 2 * LowBits(x / 2, width - 1)
  }

  function Extract(x: nat, at: nat, width: nat): nat {
    LowBits(ShiftRight(x, at), width)
  }

  // A number is its low bits and the others, shifted back; shifting multiplies.
  lemma {:induction false} BitsSplit(x: nat, n: nat)
    ensures x == LowBits(x, n) + ShiftLeft(ShiftRight(x, n), n) && LowBits(x, n) < Pow2(n)
    decreases n
  {
    if n > 0 {
      BitsSplit(x / 2, n - 1);
    }
  }

  lemma {:induction false} ShiftMultiplies(x: nat, n: nat)
    ensures ShiftLeft(x, n) == x * Pow2(n)
  {
    if n > 0 {
      ShiftMultiplies(x, n - 1);
    }
  }

  lemma {:induction false} PowAdds(m: nat, n: nat)
    ensures Pow2(m + n) == Pow2(m) * Pow2(n)
    decreases n
  {
    if n > 0 {
      PowAdds(m, n - 1);
    }
  }

  predicate HasBitAt(x: nat, k: nat) {
    ShiftRight(x, k) % 2 == 1
  }

  // A bit of the or is one of either number.
  lemma {:induction false} OrBits(a: nat, b: nat, k: nat)
    ensures HasBitAt(BitOr(a, b), k) <==> HasBitAt(a, k) || HasBitAt(b, k)
    decreases k
  {
    assert BitOr(a, b) / 2 == BitOr(a / 2, b / 2);
    if k > 0 {
      OrBits(a / 2, b / 2, k - 1);
    }
  }

  lemma {:induction false} OrOfDisjoint(a: nat, x: nat, n: nat)
    requires a < Pow2(n)
    ensures BitOr(a, ShiftLeft(x, n)) == a + ShiftLeft(x, n)
    decreases n
  {
    ShiftOne(n);
    if n > 0 && a > 0 && x > 0 {
      assert ShiftLeft(x, n) % 2 == 0 && ShiftLeft(x, n) / 2 == ShiftLeft(x, n - 1);
      OrOfDisjoint(a / 2, x, n - 1);
    }
  }

  lemma {:induction false} ShiftShift(x: nat, m: nat, n: nat)
    ensures ShiftLeft(ShiftLeft(x, m), n) == ShiftLeft(x, m + n)
    decreases n
  {
    if n > 0 {
      ShiftShift(x, m, n - 1);
    }
  }

  lemma {:induction false} ShiftSum(x: nat, y: nat, n: nat)
    ensures ShiftLeft(x + y, n) == ShiftLeft(x, n) + ShiftLeft(y, n)
  {
    if n > 0 {
      ShiftSum(x, y, n - 1);
    }
  }

  lemma {:induction false} ShiftOne(n: nat)
    ensures ShiftLeft(1, n) == Pow2(n) && ShiftLeft(0, n) == 0
  {
    if n > 0 {
      ShiftOne(n - 1);
    }
  }

  // A sum of a short number and a shifted one stays short.
  lemma {:induction false} SumFits(low: nat, x: nat, m: nat, n: nat)
    requires low < Pow2(m) && x < Pow2(n)
    ensures low + ShiftLeft(x, m) < Pow2(m + n)
    decreases m
  {
    if m > 0 {
      SumFits(low / 2, x, m - 1, n);
    }
  }

  lemma {:induction false} PowGrows(m: nat, n: nat)
    requires m <= n
    ensures Pow2(m) <= Pow2(n)
    decreases n - m
  {
    if m < n {
      PowGrows(m, n - 1);
    }
  }

  lemma {:induction false} ShiftRightDrops(below: nat, x: nat, at: nat)
    requires below < Pow2(at)
    ensures ShiftRight(below + ShiftLeft(x, at), at) == x
    decreases at
  {
    if at > 0 {
      assert (below + ShiftLeft(x, at)) / 2 == below / 2 + ShiftLeft(x, at - 1);
      ShiftRightDrops(below / 2, x, at - 1);
    }
  }

  lemma {:induction false} LowBitsKeep(x: nat, above: nat, width: nat)
    requires x < Pow2(width)
    ensures LowBits(x + ShiftLeft(above, width), width) == x
    decreases width
  {
    if width > 0 {
      assert (x + ShiftLeft(above, width)) / 2 == x / 2 + ShiftLeft(above, width - 1);
      LowBitsKeep(x / 2, above, width - 1);
    }
  }

  // Reading a field out of the sum of what is below, the field, and what is above.
  lemma ExtractMiddle(below: nat, index: nat, above: nat, at: nat, width: nat)
    requires below < Pow2(at) && index < Pow2(width)
    ensures Extract(below + ShiftLeft(index, at) + ShiftLeft(above, at + width), at, width) == index
  {
    ShiftShift(above, width, at);
    ShiftSum(index, ShiftLeft(above, width), at);
    ShiftRightDrops(below, index + ShiftLeft(above, width), at);
    LowBitsKeep(index, above, width);
  }

  lemma OrStep(below: nat, index: nat, at: nat, base: nat)
    requires below < Pow2(at)
    ensures BitOr(ShiftLeft(below, base), ShiftLeft(index, base + at)) == ShiftLeft(below + ShiftLeft(index, at), base)
  {
    SumFits(0, below, base, at);
    OrOfDisjoint(ShiftLeft(below, base), index, base + at);
    ShiftShift(index, at, base);
    ShiftSum(below, ShiftLeft(index, at), base);
  }

  lemma AroundStep(rest: nat, index: nat, end: nat, at: nat) returns (sum: nat)
    requires end <= at
    ensures sum == rest + ShiftLeft(index, at - end)
    ensures ShiftLeft(rest, end) + ShiftLeft(index, at) == ShiftLeft(sum, end)
  {
    sum := rest + ShiftLeft(index, at - end);
    ShiftShift(index, at - end, end);
    ShiftSum(rest, ShiftLeft(index, at - end), end);
  }

  // A field of the packed bits, seen in the whole word.
  lemma WordAround(low: nat, below: nat, index: nat, above: nat, dataType: nat, at: nat, width: nat, base: nat, bits: nat)
    requires low < Pow2(base) && below < Pow2(at) && index < Pow2(width) && at + width <= bits
    ensures var packed := below + ShiftLeft(index, at) + ShiftLeft(above, at + width);
      Extract(low + ShiftLeft(packed, base) + ShiftLeft(dataType, base + bits), base + at, width) == index
  {
    WordSum(low, below, index, above, dataType, at, width, base, bits);
    SumFits(low, below, base, at);
    ExtractMiddle(low + ShiftLeft(below, base), index, above + ShiftLeft(dataType, bits - (at + width)), base + at, width);
  }

  lemma WordSum(low: nat, below: nat, index: nat, above: nat, dataType: nat, at: nat, width: nat, base: nat, bits: nat)
    requires at + width <= bits
    ensures var packed := below + ShiftLeft(index, at) + ShiftLeft(above, at + width);
      low + ShiftLeft(packed, base) + ShiftLeft(dataType, base + bits)
      == low + ShiftLeft(below, base) + ShiftLeft(index, base + at)
         + ShiftLeft(above + ShiftLeft(dataType, bits - (at + width)), base + at + width)
  {
    var end := at + width;
    ShiftSum(below + ShiftLeft(index, at), ShiftLeft(above, end), base);
    ShiftSum(below, ShiftLeft(index, at), base);
    ShiftShift(index, at, base);
    ShiftShift(above, end, base);
    var _ := AroundStep(above, dataType, base + end, base + bits);
  }

  lemma {:induction false} ShiftRightFits(x: nat, at: nat, rest: nat)
    requires x < Pow2(rest + at)
    ensures ShiftRight(x, at) < Pow2(rest)
    decreases at
  {
    if at > 0 {
      ShiftRightFits(x / 2, at - 1, rest);
    }
  }

  lemma {:induction false} LowBitsFit(x: nat, width: nat)
    ensures LowBits(x, width) < Pow2(width)
    decreases width
  {
    if width > 0 {
      LowBitsFit(x / 2, width - 1);
    }
  }

  // A field that reaches past the bits there are never shows its top bit.
  lemma ShortBitsLeft(common: nat, at: nat, width: nat, bits: nat)
    requires common < Pow2(bits) && 0 < width && bits < at + width
    ensures Extract(common, at, width) < Pow2(width - 1)
  {
    var rest := if at < bits then bits - at else 0;
    PowGrows(bits, rest + at);
    ShiftRightFits(common, at, rest);
    PowGrows(rest, width - 1);
    PowGrows(width - 1, width);
    ShiftOne(width);
    LowBitsKeep(ShiftRight(common, at), 0, width);
  }
}
