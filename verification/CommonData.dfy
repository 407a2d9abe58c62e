// The six bits of a node's data word that hold its flags and its small choices of kinds.
module CommonData {
  import opened Basics
  import opened Shifts

  type Kind = nat

  // A boolean member, or one whose values are a union of kinds.
  datatype Member = Flag | Choice(kinds: seq<Kind>, optional: bool)

  // A choice left out is an absent value.
  datatype Value = FlagValue(on: bool) | KindValue(kind: Option<Kind>)

  // ---------------------------------------------------------------- the layout

  // ceil(log2(count))
  function Log2Ceiling(count: nat): (w: nat)
    requires count > 0
    ensures count <= Pow2(w) && (w > 0 ==> Pow2(w - 1) < count)
  {
    if count == 1 then 0 else
      var w := Log2Ceiling((count + 1) / 2);
      if w > 0 then
        assert Pow2(w - 1) < (count + 1) / 2;
        w + 1
      else w + 1
  }

  predicate WellFormed(m: Member) {
    m.Flag? || (m.kinds != [] && forall i, j :: 0 <= i < j < |m.kinds| ==> m.kinds[i] != m.kinds[j])
  }

  // How many indices the encoding of a member has; an optional union has one more, for absent.
  function Count(m: Member): (n: nat)
    requires WellFormed(m)
    ensures n > 0
  {
    if m.Flag? then 2 else if m.optional then |m.kinds| + 1 else |m.kinds|
  }

  function Width(m: Member): nat
    requires WellFormed(m)
  {
    if m.Flag? then 1 else Log2Ceiling(Count(m))
  }

  lemma IndexFits(m: Member, index: nat)
    requires WellFormed(m) && index < Count(m)
    ensures index < Pow2(Width(m))
  {
    assert Pow2(1) == 2;
  }

  predicate AllWellFormed(ms: seq<Member>) {
    forall i :: 0 <= i < |ms| ==> WellFormed(ms[i])
  }

  function Widths(ms: seq<Member>): (ws: seq<nat>)
    requires AllWellFormed(ms)
    ensures |ws| == |ms| && forall i :: 0 <= i < |ms| ==> ws[i] == Width(ms[i])
  {
    seq(|ms|, i requires 0 <= i < |ms| => Width(ms[i]))
  }

  // The position of the k-th field: the widths of those before it.
  function BitPos(ws: seq<nat>, k: nat): nat
    requires k <= |ws|
  {
    if k == 0 then 0 else BitPos(ws, k - 1) + ws[k - 1]
  }

  function TotalWidth(ms: seq<Member>): nat
    requires AllWellFormed(ms)
  {
    BitPos(Widths(ms), |ms|)
  }

  datatype Slot = Slot(member: Member, bitPos: nat, bitWidth: nat)

  function SlotOf(ms: seq<Member>, i: nat): Slot
    requires AllWellFormed(ms) && i < |ms|
  {
    Slot(ms[i], BitPos(Widths(ms), i), Width(ms[i]))
  }

  // One bit for each flag, then the width of each choice, each from where the last one ended.
  method GetAutoEncodedLayout(flags: seq<Member>, choices: seq<Member>) returns (layout: seq<Slot>)
    requires AllWellFormed(flags) && AllWellFormed(choices) && forall m :: m in flags ==> m.Flag?
    ensures var ms := flags + choices;
      AllWellFormed(ms) && |layout| == |ms| && forall i :: 0 <= i < |ms| ==> layout[i] == SlotOf(ms, i)
  {
    var ms := flags + choices;
    layout := [];
    var bitPos := 0;
    for i := 0 to |flags|
      invariant |layout| == i && bitPos == BitPos(Widths(ms), i) && forall j :: 0 <= j < i ==> layout[j] == SlotOf(ms, j)
    {
      assert flags[i] in flags && ms[i] == flags[i];
      layout := layout + [Slot(flags[i], bitPos, 1)];
      bitPos := bitPos + 1;
    }
    layout := AddChoices(ms, |flags|, layout, bitPos);
  }

  method AddChoices(ms: seq<Member>, start: nat, flags: seq<Slot>, flagBits: nat) returns (layout: seq<Slot>)
    requires AllWellFormed(ms) && start == |flags| <= |ms| && flagBits == BitPos(Widths(ms), start)
    requires forall i :: 0 <= i < start ==> flags[i] == SlotOf(ms, i)
    ensures |layout| == |ms| && forall i :: 0 <= i < |ms| ==> layout[i] == SlotOf(ms, i)
  {
    layout := flags;
    var bitPos := flagBits;
    for i := start to |ms|
      invariant |layout| == i && bitPos == BitPos(Widths(ms), i) && forall j :: 0 <= j < i ==> layout[j] == SlotOf(ms, j)
    {
      var width := Width(ms[i]);
      layout := layout + [Slot(ms[i], bitPos, width)];
      bitPos := bitPos + width;
    }
  }

  // The bit ranges of two fields never overlap.
  lemma {:induction false} RangesDisjoint(ws: seq<nat>, i: nat, j: nat)
    requires i < j <= |ws|
    ensures BitPos(ws, i) + ws[i] <= BitPos(ws, j)
    decreases j
  {
    if i + 1 < j {
      RangesDisjoint(ws, i, j - 1);
    }
  }

  // ---------------------------------------------------------------- encoding

  function Find(kinds: seq<Kind>, kind: Kind): (i: nat)
    requires kind in kinds
    ensures i < |kinds| && kinds[i] == kind
  {
    if kinds[0] == kind then 0 else 1 + Find(kinds[1..], kind)
  }

  // The value is one its member can have.
  predicate Fits(m: Member, v: Value) {
    match m
    case Flag => v.FlagValue?
    case Choice(kinds, optional) => v.KindValue? && if v.kind.Some? then v.kind.value in kinds else optional
  }

  function Index(m: Member, v: Value): (index: nat)
    requires WellFormed(m) && Fits(m, v)
    ensures index < Count(m)
  {
    match m
    case Flag => if v.on then 1 else 0
    case Choice(kinds, optional) =>
      if v.kind.None? then 0
      else if optional then Find(kinds, v.kind.value) + 1
      else Find(kinds, v.kind.value)
  }

  predicate AllFit(ms: seq<Member>, vs: seq<Value>) {
    |vs| == |ms| && forall i :: 0 <= i < |ms| ==> Fits(ms[i], vs[i])
  }

  function Indices(ms: seq<Member>, vs: seq<Value>): (xs: seq<nat>)
    requires AllWellFormed(ms) && AllFit(ms, vs)
    ensures |xs| == |ms| && forall i :: 0 <= i < |ms| ==> xs[i] == Index(ms[i], vs[i])
  {
    seq(|ms|, i requires 0 <= i < |ms| => Index(ms[i], vs[i]))
  }

  // The first k indices or-ed together, each shifted to its position past the base bit.
  function EncodeFirst(ws: seq<nat>, xs: seq<nat>, k: nat, base: nat): nat
    requires k <= |ws| == |xs|
  {
    if k == 0 then 0 else BitOr(EncodeFirst(ws, xs, k - 1, base), ShiftLeft(xs[k - 1], base + BitPos(ws, k - 1)))
  }

  function Encode(ms: seq<Member>, vs: seq<Value>, base: nat): nat
    requires AllWellFormed(ms) && AllFit(ms, vs)
  {
    EncodeFirst(Widths(ms), Indices(ms, vs), |ms|, base)
  }

  const BASE: nat := 24
  const COMMON_BITS: nat := 6

  // The whole data word: the data type in the top bits, the encoded members below it, and
  // what the data type stores below them.
  function DataWord(dataType: nat, common: nat, low: nat, top: nat): nat {
    BitOr(BitOr(low, common), ShiftLeft(dataType, top))
  }

  // ---------------------------------------------------------------- decoding

  function DecodeGo(m: Member, index: nat): Value
    requires WellFormed(m)
  {
    match m
    case Flag => FlagValue(index != 0)
    case Choice(kinds, optional) =>
      KindValue(
        if optional then (if 1 <= index <= |kinds| then Some(kinds[index - 1]) else None)
        else if |kinds| == 2 then (if index != 0 then Some(kinds[1]) else Some(kinds[0]))
        else if index < |kinds| then Some(kinds[index]) else None)
  }

  function DecodeTypeScript(m: Member, index: nat): Value
    requires WellFormed(m)
  {
    match m
    case Flag => FlagValue(index != 0)
    case Choice(kinds, optional) =>
      KindValue(
        if optional then (if 1 <= index <= |kinds| then Some(kinds[index - 1]) else None)
        else if |kinds| == 2 then (if index != 0 then Some(kinds[1]) else Some(kinds[0]))
        else if index < |kinds| then Some(kinds[index]) else Some(kinds[0]))
  }

  // The Go decoder is handed the common bits alone; the reader looks into the whole word.
  function ReadGo(word: nat, slot: Slot, base: nat, bits: nat): Value
    requires WellFormed(slot.member)
  {
    DecodeGo(slot.member, Extract(Extract(word, base, bits), slot.bitPos, slot.bitWidth))
  }

  function ReadTypeScript(word: nat, slot: Slot, base: nat): Value
    requires WellFormed(slot.member)
  {
    DecodeTypeScript(slot.member, Extract(word, base + slot.bitPos, slot.bitWidth))
  }

  // The decoders differ exactly at an index that stands for none of three or more kinds.
  lemma DecodersAgreeExact(m: Member, index: nat)
    requires WellFormed(m)
    ensures DecodeGo(m, index) == DecodeTypeScript(m, index)
      <==> m.Flag? || m.optional || |m.kinds| == 2 || index < |m.kinds|
    ensures m.Choice? && m.optional && (index == 0 || |m.kinds| < index) ==> DecodeGo(m, index) == KindValue(None)
    ensures m.Choice? && !m.optional && |m.kinds| != 2 && |m.kinds| <= index ==>
      DecodeGo(m, index) == KindValue(None) && DecodeTypeScript(m, index) == KindValue(Some(m.kinds[0]))
  {
  }

  // A set flag is 1; the i-th kind of a choice is i, or i + 1 if it can be absent, which is 0.
  lemma {:induction false} IndexNamed(kinds: seq<Kind>, optional: bool, i: nat)
    requires WellFormed(Choice(kinds, optional)) && i < |kinds|
    ensures Index(Choice(kinds, optional), KindValue(Some(kinds[i]))) == if optional then i + 1 else i
    ensures optional ==> Index(Choice(kinds, optional), KindValue(None)) == 0
    ensures Index(Flag, FlagValue(true)) == 1 && Index(Flag, FlagValue(false)) == 0
  {
    var found := Find(kinds, kinds[i]);
    assert kinds[found] == kinds[i];
  }

  // A flag takes one bit; a choice as few as can tell its values apart, the absent one included.
  lemma WidthNamed(kinds: seq<Kind>, optional: bool)
    requires WellFormed(Choice(kinds, optional))
    ensures Width(Flag) == 1
    ensures var values, w := |kinds| + (if optional then 1 else 0), Width(Choice(kinds, optional));
      values <= Pow2(w) && (w > 0 ==> Pow2(w - 1) < values)
  {
  }

  // Two kinds take one bit, and two if they can be absent.
  lemma TwoKinds()
    ensures WellFormed(Choice([1, 2], false)) && Width(Choice([1, 2], false)) == 1
    ensures WellFormed(Choice([1, 2], true)) && Width(Choice([1, 2], true)) == 2
  {
    assert Log2Ceiling(2) == 1;
    assert Log2Ceiling(3) == 2;
  }

  lemma DecodeIndex(m: Member, v: Value)
    requires WellFormed(m) && Fits(m, v)
    ensures DecodeGo(m, Index(m, v)) == v && DecodeTypeScript(m, Index(m, v)) == v
  {
  }

  // ---------------------------------------------------------------- the round trip

  // Each index fits the width of its field.
  ghost predicate Narrow(ws: seq<nat>, xs: seq<nat>) {
    |ws| == |xs| && forall i :: 0 <= i < |ws| ==> xs[i] < Pow2(ws[i])
  }

  // The first k fields' bits on their own, as a sum.
  ghost function Packed(ws: seq<nat>, xs: seq<nat>, k: nat): nat
    requires k <= |ws| == |xs|
  {
    if k == 0 then 0 else Packed(ws, xs, k - 1) + ShiftLeft(xs[k - 1], BitPos(ws, k - 1))
  }

  lemma {:induction false} PackedFits(ws: seq<nat>, xs: seq<nat>, k: nat)
    requires Narrow(ws, xs) && k <= |ws|
    ensures Packed(ws, xs, k) < Pow2(BitPos(ws, k))
    decreases k
  {
    if k > 0 {
      PackedFits(ws, xs, k - 1);
      SumFits(Packed(ws, xs, k - 1), xs[k - 1], BitPos(ws, k - 1), ws[k - 1]);
    }
  }

  // No two fields' bits collide, so the or is a sum.
  lemma {:induction false} EncodeIsPacked(ws: seq<nat>, xs: seq<nat>, k: nat, base: nat)
    requires Narrow(ws, xs) && k <= |ws|
    ensures EncodeFirst(ws, xs, k, base) == ShiftLeft(Packed(ws, xs, k), base)
    decreases k
  {
    if k == 0 {
      ShiftOne(base);
    } else {
      EncodeIsPacked(ws, xs, k - 1, base);
      PackedFits(ws, xs, k - 1);
      OrStep(Packed(ws, xs, k - 1), xs[k - 1], BitPos(ws, k - 1), base);
    }
  }

  // The i-th field's bits among the others'.
  lemma {:induction false} PackedAround(ws: seq<nat>, xs: seq<nat>, i: nat, k: nat, at: nat, end: nat) returns (above: nat)
    requires i < k <= |ws| == |xs| && at == BitPos(ws, i) && end == at + ws[i]
    ensures Packed(ws, xs, k) == Packed(ws, xs, i) + ShiftLeft(xs[i], at) + ShiftLeft(above, end)
    decreases k
  {
    if i + 1 == k {
      above := 0;
      ShiftOne(end);
    } else {
      var rest := PackedAround(ws, xs, i, k - 1, at, end);
      RangesDisjoint(ws, i, k - 1);
      above := AroundStep(rest, xs[k - 1], end, BitPos(ws, k - 1));
    }
  }

  lemma WordIsSum(packed: nat, dataType: nat, low: nat, base: nat, bits: nat)
    requires low < Pow2(base) && packed < Pow2(bits)
    ensures DataWord(dataType, ShiftLeft(packed, base), low, base + bits)
      == low + ShiftLeft(packed, base) + ShiftLeft(dataType, base + bits)
  {
    OrOfDisjoint(low, packed, base);
    SumFits(low, packed, base, bits);
    OrOfDisjoint(low + ShiftLeft(packed, base), dataType, base + bits);
  }

  lemma EncodedWord(word: nat, ws: seq<nat>, xs: seq<nat>, packed: nat, dataType: nat, low: nat, base: nat, bits: nat)
    requires Narrow(ws, xs) && BitPos(ws, |ws|) <= bits && low < Pow2(base) && packed == Packed(ws, xs, |ws|)
    requires word == DataWord(dataType, EncodeFirst(ws, xs, |ws|, base), low, base + bits)
    ensures packed < Pow2(bits) && word == low + ShiftLeft(packed, base) + ShiftLeft(dataType, base + bits)
  {
    EncodeIsPacked(ws, xs, |ws|, base);
    PackedFits(ws, xs, |ws|);
    PowGrows(BitPos(ws, |ws|), bits);
    WordIsSum(packed, dataType, low, base, bits);
  }

  // Every field of the word reads back as its index.
  lemma FieldsRead(word: nat, ws: seq<nat>, xs: seq<nat>, i: nat, at: nat, dataType: nat, low: nat, base: nat, bits: nat)
    requires Narrow(ws, xs) && i < |ws| && at == BitPos(ws, i) && BitPos(ws, |ws|) <= bits && low < Pow2(base)
    requires word == DataWord(dataType, EncodeFirst(ws, xs, |ws|, base), low, base + bits)
    ensures FieldReadsAs(word, at, ws[i], xs[i], base, bits)
  {
    EncodedWord(word, ws, xs, Packed(ws, xs, |ws|), dataType, low, base, bits);
    PackedFieldReads(word, ws, xs, i, at, Packed(ws, xs, |ws|), dataType, low, base, bits);
  }

  lemma PackedFieldReads(word: nat, ws: seq<nat>, xs: seq<nat>, i: nat, at: nat, packed: nat, dataType: nat, low: nat, base: nat, bits: nat)
    requires Narrow(ws, xs) && i < |ws| && at == BitPos(ws, i) && BitPos(ws, |ws|) <= bits && low < Pow2(base)
    requires packed == Packed(ws, xs, |ws|) && packed < Pow2(bits) && word == low + ShiftLeft(packed, base) + ShiftLeft(dataType, base + bits)
    ensures FieldReadsAs(word, at, ws[i], xs[i], base, bits)
  {
    var below, above := FieldInPacked(ws, xs, i, at);
    RangesDisjoint(ws, i, |ws|);
    FieldReads(word, packed, below, xs[i], above, at, ws[i], at + ws[i], low, dataType, base, bits);
  }

  lemma FieldInPacked(ws: seq<nat>, xs: seq<nat>, i: nat, at: nat) returns (below: nat, above: nat)
    requires Narrow(ws, xs) && i < |ws| && at == BitPos(ws, i)
    ensures Packed(ws, xs, |ws|) == below + ShiftLeft(xs[i], at) + ShiftLeft(above, at + ws[i])
    ensures below < Pow2(at) && xs[i] < Pow2(ws[i])
  {
    below := Packed(ws, xs, i);
    PackedFits(ws, xs, i);
    RangesDisjoint(ws, i, |ws|);
    above := PackedAround(ws, xs, i, |ws|, at, at + ws[i]);
  }

  ghost predicate FieldReadsAs(word: nat, at: nat, width: nat, index: nat, base: nat, bits: nat) {
    Extract(Extract(word, base, bits), at, width) == index && Extract(word, base + at, width) == index
  }

  lemma RoundTripAt(word: nat, ms: seq<Member>, vs: seq<Value>, dataType: nat, low: nat, i: nat, base: nat, bits: nat)
    requires AllWellFormed(ms) && AllFit(ms, vs) && TotalWidth(ms) <= bits && low < Pow2(base) && i < |ms|
    requires word == DataWord(dataType, Encode(ms, vs, base), low, base + bits)
    ensures ReadGo(word, SlotOf(ms, i), base, bits) == vs[i] && ReadTypeScript(word, SlotOf(ms, i), base) == vs[i]
  {
    IndicesNarrow(ms, vs);
    var at := BitPos(Widths(ms), i);
    FieldsRead(word, Widths(ms), Indices(ms, vs), i, at, dataType, low, base, bits);
    ValueReads(word, ms[i], vs[i], at, base, bits);
  }

  lemma ValueReads(word: nat, m: Member, v: Value, at: nat, base: nat, bits: nat)
    requires WellFormed(m) && Fits(m, v) && FieldReadsAs(word, at, Width(m), Index(m, v), base, bits)
    ensures ReadGo(word, Slot(m, at, Width(m)), base, bits) == v && ReadTypeScript(word, Slot(m, at, Width(m)), base) == v
  {
    DecodeIndex(m, v);
  }

  lemma IndicesNarrow(ms: seq<Member>, vs: seq<Value>)
    requires AllWellFormed(ms) && AllFit(ms, vs)
    ensures Narrow(Widths(ms), Indices(ms, vs))
  {
    forall i | 0 <= i < |ms|
      ensures Index(ms[i], vs[i]) < Pow2(Width(ms[i]))
    {
      IndexFits(ms[i], Index(ms[i], vs[i]));
    }
  }

  // A field read from the packed bits and from the word they are part of.
  lemma FieldReads(word: nat, packed: nat, below: nat, index: nat, above: nat, at: nat, width: nat, end: nat,
                   low: nat, dataType: nat, base: nat, bits: nat)
    requires low < Pow2(base) && packed < Pow2(bits) && below < Pow2(at) && index < Pow2(width) && end == at + width <= bits
    requires packed == below + ShiftLeft(index, at) + ShiftLeft(above, end)
    requires word == low + ShiftLeft(packed, base) + ShiftLeft(dataType, base + bits)
    ensures FieldReadsAs(word, at, width, index, base, bits)
  {
    ExtractMiddle(low, packed, dataType, base, bits);
    ExtractMiddle(below, index, above, at, width);
    WordAround(low, below, index, above, dataType, at, width, base, bits);
  }

  // The word in numbers: what is below, the members from bit 24, each above those before it, and
  // the data type from bit 30.
  lemma WordNamed(word: nat, ms: seq<Member>, vs: seq<Value>, dataType: nat, low: nat)
    requires AllWellFormed(ms) && AllFit(ms, vs) && TotalWidth(ms) <= 6 && low < 0x100_0000
    requires word == DataWord(dataType, Encode(ms, vs, BASE), low, BASE + COMMON_BITS)
    ensures word == low + SumOfFields(Widths(ms), Indices(ms, vs), 0) * 0x100_0000 + dataType * 0x4000_0000
  {
    IndicesNarrow(ms, vs);
    FieldsNamed(word, Widths(ms), Indices(ms, vs), dataType, low);
  }

  lemma FieldsNamed(word: nat, ws: seq<nat>, xs: seq<nat>, dataType: nat, low: nat)
    requires Narrow(ws, xs) && BitPos(ws, |ws|) <= 6 && low < 0x100_0000
    requires word == DataWord(dataType, EncodeFirst(ws, xs, |ws|, BASE), low, BASE + COMMON_BITS)
    ensures word == low + SumOfFields(ws, xs, 0) * 0x100_0000 + dataType * 0x4000_0000
  {
    var packed := Packed(ws, xs, |ws|);
    PowersNamed();
    EncodedWord(word, ws, xs, packed, dataType, low, BASE, COMMON_BITS);
    ShiftBy(packed, 24, 0x100_0000);
    ShiftBy(dataType, 30, 0x4000_0000);
    AllPacked(ws, xs);
  }

  lemma ShiftBy(x: nat, places: nat, factor: nat)
    requires Pow2(places) == factor
    ensures ShiftLeft(x, places) == x * factor
  {
    ShiftMultiplies(x, places);
  }

  lemma AllPacked(ws: seq<nat>, xs: seq<nat>)
    requires |ws| == |xs|
    ensures Packed(ws, xs, |ws|) == SumOfFields(ws, xs, 0)
  {
    PackedIsSum(ws, xs, |ws|);
  }

  // The fields from the i-th on: its index, and the others above its bits.
  function SumOfFields(ws: seq<nat>, xs: seq<nat>, i: nat): nat
    requires i <= |ws| == |xs|
    decreases |ws| - i
  {
    if i == |ws| then 0 else xs[i] + Pow2(ws[i]) * SumOfFields(ws, xs, i + 1)
  }

  lemma {:induction false} PackedIsSum(ws: seq<nat>, xs: seq<nat>, k: nat)
    requires k <= |ws| == |xs|
    ensures Packed(ws, xs, k) + Pow2(BitPos(ws, k)) * SumOfFields(ws, xs, k) == SumOfFields(ws, xs, 0)
    decreases k
  {
    if k > 0 {
      PackedIsSum(ws, xs, k - 1);
      var at, rest := BitPos(ws, k - 1), SumOfFields(ws, xs, k);
      ShiftMultiplies(xs[k - 1], at);
      PowAdds(at, ws[k - 1]);
      Distribute(Pow2(at), xs[k - 1], Pow2(ws[k - 1]), rest);
    }
  }

  lemma Distribute(a: nat, x: nat, p: nat, rest: nat)
    ensures a * (x + p * rest) == x * a + a * p * rest
  {
  }

  lemma PowersNamed()
    ensures Pow2(24) == 0x100_0000 && Pow2(30) == 0x4000_0000
  {
    assert Pow2(8) == 256;
    assert Pow2(16) == 0x1_0000;
  }

  // If the members fit in the six bits, both decoders recover every value, whatever the data
  // type and the low bits of the word are.
  lemma CommonDataRoundTrip(ms: seq<Member>, vs: seq<Value>, dataType: nat, low: nat, i: nat)
    requires AllWellFormed(ms) && AllFit(ms, vs) && TotalWidth(ms) <= COMMON_BITS && low < Pow2(BASE) && i < |ms|
    ensures var word := DataWord(dataType, Encode(ms, vs, BASE), low, BASE + COMMON_BITS);
      ReadGo(word, SlotOf(ms, i), BASE, COMMON_BITS) == vs[i] && ReadTypeScript(word, SlotOf(ms, i), BASE) == vs[i]
  {
    RoundTripAt(DataWord(dataType, Encode(ms, vs, BASE), low, BASE + COMMON_BITS), ms, vs, dataType, low, i, BASE, COMMON_BITS);
  }

  // ---------------------------------------------------------------- when the bits run out

  lemma {:induction false} OverflowingField(ws: seq<nat>, k: nat, bits: nat) returns (i: nat)
    requires k <= |ws| && bits < BitPos(ws, k)
    ensures i < k && 0 < ws[i] && bits < BitPos(ws, i) + ws[i]
    decreases k
  {
    if ws[k - 1] > 0 {
      i := k - 1;
    } else {
      i := OverflowingField(ws, k - 1, bits);
    }
  }

  // The value with a member's last index.
  function LastValue(m: Member): (v: Value)
    requires WellFormed(m)
    ensures Fits(m, v)
  {
    if m.Flag? then FlagValue(true) else KindValue(Some(m.kinds[|m.kinds| - 1]))
  }

  lemma LastValueNeedsAllBits(m: Member, index: nat)
    requires WellFormed(m) && 0 < Width(m) && index < Pow2(Width(m) - 1)
    ensures DecodeGo(m, index) != LastValue(m)
  {
    assert Pow2(0) == 1;
    if m.Choice? {
      var last := |m.kinds| - 1;
      assert forall j :: 0 <= j < last ==> m.kinds[j] != m.kinds[last];
      assert Pow2(Width(m) - 1) < Count(m);
    }
  }

  // Nothing in the generator keeps the members within six bits. If they need more, some
  // member has a value that the Go decoder never returns, whatever the word.
  lemma TooManyBitsLoseAValue(ms: seq<Member>, bits: nat) returns (i: nat)
    requires AllWellFormed(ms) && bits < TotalWidth(ms)
    ensures i < |ms| && forall word: nat, base: nat :: ReadGo(word, SlotOf(ms, i), base, bits) != LastValue(ms[i])
  {
    i := OverflowingField(Widths(ms), |ms|, bits);
    forall word: nat, base: nat
      ensures ReadGo(word, SlotOf(ms, i), base, bits) != LastValue(ms[i])
    {
      LowBitsFit(ShiftRight(word, base), bits);
      ShortBitsLeft(Extract(word, base, bits), BitPos(Widths(ms), i), Width(ms[i]), bits);
      LastValueNeedsAllBits(ms[i], Extract(Extract(word, base, bits), BitPos(Widths(ms), i), Width(ms[i])));
    }
  }

  // Both decoders give this value back.
  ghost predicate Recovers(ms: seq<Member>, vs: seq<Value>, i: nat)
    requires AllWellFormed(ms) && AllFit(ms, vs) && i < |ms|
  {
    var word := DataWord(0, Encode(ms, vs, BASE), 0, BASE + COMMON_BITS);
    ReadGo(word, SlotOf(ms, i), BASE, COMMON_BITS) == vs[i] && ReadTypeScript(word, SlotOf(ms, i), BASE) == vs[i]
  }

  // They give every value of every member back exactly when the members fit.
  lemma RoundTripExact(ms: seq<Member>)
    requires AllWellFormed(ms)
    ensures (forall vs, i :: AllFit(ms, vs) && 0 <= i < |ms| ==> Recovers(ms, vs, i)) <==> TotalWidth(ms) <= COMMON_BITS
  {
    if TotalWidth(ms) <= COMMON_BITS {
      forall vs, i | AllFit(ms, vs) && 0 <= i < |ms|
        ensures Recovers(ms, vs, i)
      {
        CommonDataRoundTrip(ms, vs, 0, 0, i);
      }
    } else {
      var i := TooManyBitsLoseAValue(ms, COMMON_BITS);
      var vs := seq(|ms|, j requires 0 <= j < |ms| => LastValue(ms[j]));
      assert AllFit(ms, vs) && vs[i] == LastValue(ms[i]);
      assert !Recovers(ms, vs, i);
    }
  }

  // Seven flags: the last one always reads as false.
  lemma SevenFlagsOverflow()
    ensures var ms := [Flag, Flag, Flag, Flag, Flag, Flag, Flag];
      AllWellFormed(ms) && TotalWidth(ms) == 7
      && forall word: nat :: ReadGo(word, SlotOf(ms, 6), BASE, COMMON_BITS) == FlagValue(false)
  {
    var ms := [Flag, Flag, Flag, Flag, Flag, Flag, Flag];
    var ws := Widths(ms);
    assert BitPos(ws, 1) == 1 && BitPos(ws, 2) == 2 && BitPos(ws, 3) == 3;
    assert BitPos(ws, 4) == 4 && BitPos(ws, 5) == 5 && BitPos(ws, 6) == 6 && BitPos(ws, 7) == 7;
    forall word: nat
      ensures ReadGo(word, SlotOf(ms, 6), BASE, COMMON_BITS) == FlagValue(false)
    {
      LowBitsFit(ShiftRight(word, BASE), COMMON_BITS);
      ShortBitsLeft(Extract(word, BASE, COMMON_BITS), 6, 1, COMMON_BITS);
    }
  }
}
