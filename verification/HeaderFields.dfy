// Which number a header declares: the length field in any case of letters, on any of its lines.
module HeaderFields {
  import opened Basics
  import opened MessageFraming

  // Carriage return, line feed, carriage return, line feed.
  predicate BlankLineAt(s: seq<byte>, i: nat) {
    i + 4 <= |s| && s[i..i + 4] == [13, 10, 13, 10]
  }

  lemma BlankLineExact(s: seq<byte>, i: nat)
    ensures HeaderEndsAt(s, i) <==> BlankLineAt(s, i)
  {
    if i + 4 <= |s| {
      var t := s[i..i + 4];
      assert t[0] == s[i] && t[1] == s[i + 1] && t[2] == s[i + 2] && t[3] == s[i + 3];
      assert t == [t[0], t[1], t[2], t[3]];
    }
  }

  // The header ends at the first of them, and without one it has no end yet.
  lemma HeaderEndNamed(s: seq<byte>)
    ensures HeaderEnd(s) != -1 ==> HeaderEnd(s) >= 0 && BlankLineAt(s, HeaderEnd(s))
    ensures forall i: nat :: (HeaderEnd(s) == -1 || i < HeaderEnd(s)) ==> !BlankLineAt(s, i)
  {
    HeaderEndFound(s, 0);
    forall i: nat
      ensures HeaderEndsAt(s, i) <==> BlankLineAt(s, i)
    {
      BlankLineExact(s, i);
    }
  }

  // The byte is the small letter or other character, or the letter's capital.
  predicate SpellsByte(b: byte, small: byte) {
    b == small || (97 <= small <= 122 && b as int + 32 == small as int)
  }

  // "content-length: " stands at the offset, in any case.
  predicate NameAt(header: seq<byte>, i: nat) {
    i + 16 <= |header|
    && forall k :: 0 <= k < 16 ==> SpellsByte(header[i + k], SMALL_NAME[k])
  }

  // c o n t e n t - l e n g t h : and a space
  const SMALL_NAME: seq<byte> := [99, 111, 110, 116, 101, 110, 116, 45, 108, 101, 110, 103, 116, 104, 58, 32]

  lemma NameExact(header: seq<byte>, i: nat)
    requires i + 16 <= |header|
    ensures LowerCased(header[i..i + 16]) == LENGTH_NAME <==> NameAt(header, i)
  {
    var lowered := LowerCased(header[i..i + 16]);
    forall k | 0 <= k < 16
      ensures lowered[k] == LENGTH_NAME[k] <==> SpellsByte(header[i + k], SMALL_NAME[k])
    {
      assert LENGTH_NAME[k] == SMALL_NAME[k];
      LetterExact(header[i + k], k);
    }
    if NameAt(header, i) {
      assert forall k :: 0 <= k < |lowered| ==> lowered[k] == LENGTH_NAME[k];
    }
  }

  lemma LetterExact(b: byte, k: nat)
    requires k < 16
    ensures LowerCase(b) == SMALL_NAME[k] <==> SpellsByte(b, SMALL_NAME[k])
  {
    assert forall j :: 0 <= j < 16 ==> !(65 <= SMALL_NAME[j] <= 90) && (97 <= SMALL_NAME[j] <= 122 || SMALL_NAME[j] < 65);
  }

  // ---------------------------------------------------------------- decimal numbers

  function Scaled(digit: nat, places: nat): nat {
    if places == 0 then digit else 10 * Scaled(digit, places - 1)
  }

  // The number the digits name, each by its place from the left.
  function Positional(digits: seq<byte>): nat
    requires forall i :: 0 <= i < |digits| ==> 48 <= digits[i] <= 57
  {
    if digits == [] then 0 else Scaled(digits[0] as int - 48, |digits| - 1) + Positional(digits[1..])
  }

  lemma {:induction false} PositionalLast(digits: seq<byte>)
    requires digits != [] && forall i :: 0 <= i < |digits| ==> 48 <= digits[i] <= 57
    ensures Positional(digits) == 10 * Positional(digits[..|digits| - 1]) + (digits[|digits| - 1] as int - 48)
    decreases |digits|
  {
    var last := |digits| - 1;
    if last > 0 {
      PositionalLast(digits[1..]);
      assert digits[1..][..last - 1] == digits[..last][1..];
      assert Positional(digits[..last]) == Scaled(digits[0] as int - 48, last - 1) + Positional(digits[..last][1..]);
    } else {
      assert digits[1..] == [] && digits[..last] == [];
    }
  }

  lemma {:induction false} NumberIsPositional(digits: seq<byte>)
    requires forall i :: 0 <= i < |digits| ==> 48 <= digits[i] <= 57
    ensures Number(digits) == Positional(digits)
    decreases |digits|
  {
    if digits != [] {
      NumberIsPositional(digits[..|digits| - 1]);
      PositionalLast(digits);
    }
  }

  // ---------------------------------------------------------------- one field

  predicate LineEndsAt(header: seq<byte>, end: nat) {
    end == |header| || (end + 2 <= |header| && header[end] == CR && header[end + 1] == LF)
  }

  // The name, the digits and a line end stand at the offset.
  predicate FieldStands(header: seq<byte>, i: nat, digits: seq<byte>) {
    NameAt(header, i) && digits != [] && (forall k :: 0 <= k < |digits| ==> 48 <= digits[k] <= 57)
    && digits <= header[i + 16..] && LineEndsAt(header, i + 16 + |digits|)
  }

  ghost predicate HasField(header: seq<byte>, i: nat) {
    exists digits :: FieldStands(header, i, digits)
  }

  lemma FieldGivesLength(header: seq<byte>, i: nat, digits: seq<byte>)
    requires FieldStands(header, i, digits)
    ensures LengthAt(header, i) == Some(Positional(digits))
  {
    var start, end := i + 16, i + 16 + |digits|;
    NameExact(header, i);
    assert header[start..end] == digits;
    assert forall j :: start <= j < end ==> header[j] == digits[j - start];
    DigitsRun(header, start, end);
    NumberIsPositional(digits);
  }

  lemma LengthNeedsField(header: seq<byte>, i: nat)
    requires i <= |header| && LengthAt(header, i).Some?
    ensures HasField(header, i)
  {
    var start := i + 16;
    var end := DigitsEnd(header, start);
    NameExact(header, i);
    DigitsAreDigits(header, start);
    var digits := header[start..end];
    assert digits <= header[start..];
    assert FieldStands(header, i, digits);
  }

  // ---------------------------------------------------------------- the declared length

  // Before the offset no line is such a field.
  ghost predicate NoneBefore(header: seq<byte>, at: nat)
    requires at <= |header|
  {
    forall i :: 0 <= i < at && StartsLine(header, i) ==> !HasField(header, i)
  }

  lemma {:induction false} LinesSkipped(header: seq<byte>, i: nat, at: nat)
    requires i <= at <= |header| && NoneBefore(header, at)
    ensures LengthFrom(header, i) == LengthFrom(header, at)
    decreases at - i
  {
    if i < at {
      LinesSkipped(header, i + 1, at);
      if StartsLine(header, i) && LengthAt(header, i).Some? {
        LengthNeedsField(header, i);
      }
    }
  }

  // The first line that is a length field, its name in any case of its letters, declares the
  // number its digits name; without one nothing is declared.
  lemma FirstFieldDeclares(header: seq<byte>, at: nat, digits: seq<byte>)
    requires at <= |header| && StartsLine(header, at) && FieldStands(header, at, digits)
    requires NoneBefore(header, at) && !(BYTE_ORDER_MARK <= header)
    ensures ContentLength(header) == Some(Positional(digits))
  {
    LinesSkipped(header, 0, at);
    FieldGivesLength(header, at, digits);
  }

  lemma NoFieldDeclaresNothing(header: seq<byte>)
    requires NoneBefore(header, |header|) && !HasField(header, |header|) && !(BYTE_ORDER_MARK <= header)
    ensures ContentLength(header) == None
  {
    LinesSkipped(header, 0, |header|);
    if LengthAt(header, |header|).Some? {
      LengthNeedsField(header, |header|);
    }
  }

  predicate EndsALine(before: seq<byte>) {
    before == [] || (2 <= |before| && before[|before| - 2] == CR && before[|before| - 1] == LF)
  }

  // So whatever lines stand before it, none of them such a field, and whatever after it.
  lemma FieldDeclares(header: seq<byte>, before: seq<byte>, name: seq<byte>, digits: seq<byte>, after: seq<byte>)
    requires header == before + (name + (digits + after)) && !(BYTE_ORDER_MARK <= header)
    requires EndsALine(before) && NoneBefore(header, |before|)
    requires |name| == 16 && NameAt(name, 0)
    requires digits != [] && forall i :: 0 <= i < |digits| ==> 48 <= digits[i] <= 57
    requires after == [] || [CR, LF] <= after
    ensures ContentLength(header) == Some(Positional(digits))
  {
    FieldInParts(header, before, name, digits, after);
    assert forall k :: 0 <= k < |before| ==> header[k] == before[k];
    FirstFieldDeclares(header, |before|, digits);
  }

  lemma FieldInParts(header: seq<byte>, before: seq<byte>, name: seq<byte>, digits: seq<byte>, after: seq<byte>)
    requires header == before + (name + (digits + after)) && |name| == 16 && NameAt(name, 0)
    requires digits != [] && forall i :: 0 <= i < |digits| ==> 48 <= digits[i] <= 57
    requires after == [] || [CR, LF] <= after
    ensures FieldStands(header, |before|, digits)
  {
    var i := |before|;
    assert header[i..] == name + (digits + after);
    forall k | 0 <= k < 16
      ensures SpellsByte(header[i + k], SMALL_NAME[k])
    {
      assert header[i + k] == name[0 + k];
    }
    assert header[i + 16..] == digits + after;
    assert header[i + 16 + |digits|..] == after;
    if after != [] {
      assert after[0] == CR && after[1] == LF;
    }
  }

  // A mark in front of the header is dropped, once.
  lemma MarkIsDropped(header: seq<byte>)
    requires !(BYTE_ORDER_MARK <= header)
    ensures ContentLength(BYTE_ORDER_MARK + header) == ContentLength(header)
  {
    assert (BYTE_ORDER_MARK + header)[3..] == header;
  }
}
