// The byte framing of the web language server's pipe: the reader's growing buffer and the
// writer's frames (the "Header Part" of the Base Protocol, Language Server Protocol 3.17).
module MessageFraming {
  import opened Basics

  const CR: byte := 13
  const LF: byte := 10
  const BLANK_LINE: seq<byte> := [CR, LF, CR, LF]
  // "content-length: " in lower case.
  const LENGTH_NAME: seq<byte> := [99, 111, 110, 116, 101, 110, 116, 45, 108, 101, 110, 103, 116, 104, 58, 32]
  // "Content-Length: " as the writer spells it.
  const WRITTEN_NAME: seq<byte> := [67, 111, 110, 116, 101, 110, 116, 45, 76, 101, 110, 103, 116, 104, 58, 32]
  const BYTE_ORDER_MARK: seq<byte> := [239, 187, 191]

  // ---------------------------------------------------------------- the header

  predicate HeaderEndsAt(s: seq<byte>, i: nat) {
    i + 3 < |s| && s[i] == CR && s[i + 1] == LF && s[i + 2] == CR && s[i + 3] == LF
  }

  // The first blank line, or -1.
  method FindHeaderEnd(s: seq<byte>) returns (end: int)
    ensures end == HeaderEnd(s)
  {
    var i := 0;
    while i + 3 < |s|
      invariant 0 <= i
      invariant forall j :: 0 <= j < i ==> !HeaderEndsAt(s, j)
    {
      if s[i] == CR && s[i + 1] == LF && s[i + 2] == CR && s[i + 3] == LF {
        HeaderEndIsFirst(s, i);
        return i;
      }
      i := i + 1;
    }
    assert forall j: nat :: !HeaderEndsAt(s, j);
    HeaderEndFound(s, 0);
    return -1;
  }

  function HeaderEnd(s: seq<byte>): int {
    HeaderEndFrom(s, 0)
  }

  function HeaderEndFrom(s: seq<byte>, i: nat): (end: int)
    ensures end == -1 || i <= end
    decreases |s| - i
  {
    if |s| <= i + 3 then -1
    else if HeaderEndsAt(s, i) then i
    else HeaderEndFrom(s, i + 1)
  }

  lemma {:induction false} HeaderEndFound(s: seq<byte>, i: nat)
    ensures var end := HeaderEndFrom(s, i);
      if end == -1 then forall j: nat :: i <= j ==> !HeaderEndsAt(s, j)
      else HeaderEndsAt(s, end) && forall j: nat :: i <= j < end ==> !HeaderEndsAt(s, j)
    decreases |s| - i
  {
    if i + 3 < |s| && !HeaderEndsAt(s, i) {
      HeaderEndFound(s, i + 1);
    }
  }

  lemma HeaderEndIsFirst(s: seq<byte>, i: nat)
    requires HeaderEndsAt(s, i) && forall j: nat :: j < i ==> !HeaderEndsAt(s, j)
    ensures HeaderEnd(s) == i
  {
    HeaderEndFound(s, 0);
  }

  lemma HeaderEndStable(s: seq<byte>, t: seq<byte>)
    requires HeaderEnd(s) != -1
    ensures HeaderEnd(s + t) == HeaderEnd(s)
  {
    HeaderEndFound(s, 0);
    var end := HeaderEnd(s);
    assert forall j: nat :: j <= end ==> HeaderEndsAt(s + t, j) == HeaderEndsAt(s, j);
    HeaderEndIsFirst(s + t, end);
  }

  // ---------------------------------------------------------------- the declared length

  predicate IsDigit(b: byte) { 48 <= b <= 57 }

  function LowerCase(b: byte): byte {
    if 65 <= b <= 90 then b + 32 else b
  }

  function LowerCased(s: seq<byte>): seq<byte> {
    seq(|s|, i requires 0 <= i < |s| => LowerCase(s[i]))
  }

  function DigitsEnd(s: seq<byte>, i: nat): (end: nat)
    requires i <= |s|
    ensures i <= end <= |s|
    decreases |s| - i
  {
    if i < |s| && IsDigit(s[i]) then DigitsEnd(s, i + 1) else i
  }

  function DigitValue(b: byte): nat
    requires IsDigit(b)
  {
    b as int - 48
  }

  function Number(s: seq<byte>): nat
    requires forall i :: 0 <= i < |s| ==> IsDigit(s[i])
  {
    if s == [] then 0 else 10 * Number(s[..|s| - 1]) + DigitValue(s[|s| - 1])
  }

  lemma {:induction false} DigitsAreDigits(s: seq<byte>, i: nat)
    requires i <= |s|
    ensures forall j :: i <= j < DigitsEnd(s, i) ==> IsDigit(s[j])
    ensures DigitsEnd(s, i) < |s| ==> !IsDigit(s[DigitsEnd(s, i)])
    decreases |s| - i
  {
    if i < |s| && IsDigit(s[i]) {
      DigitsAreDigits(s, i + 1);
    }
  }

  // The field at offset i, if its name, one or more digits and a line end stand there.
  function LengthAt(header: seq<byte>, i: nat): Option<nat>
    requires i <= |header|
  {
    var start := i + |LENGTH_NAME|;
    if |header| < start || LowerCased(header[i..start]) != LENGTH_NAME then None
    else
      var end := DigitsEnd(header, start);
      if end > start && (end == |header| || (end + 1 < |header| && header[end] == CR && header[end + 1] == LF)) then
        DigitsAreDigits(header, start);
        Some(Number(header[start..end]))
      else None
  }

  predicate StartsLine(header: seq<byte>, i: nat)
    requires i <= |header|
  {
    i == 0 || (2 <= i && header[i - 2] == CR && header[i - 1] == LF)
  }

  // The leftmost field that starts the header or a line of it.
  function LengthFrom(header: seq<byte>, i: nat): Option<nat>
    requires i <= |header|
    decreases |header| - i
  {
    if StartsLine(header, i) && LengthAt(header, i).Some? then LengthAt(header, i)
    else if i == |header| then None
    else LengthFrom(header, i + 1)
  }

  // Decoding the header drops a leading byte order mark before the field is looked for.
  function ContentLength(header: seq<byte>): Option<nat> {
    LengthFrom(if BYTE_ORDER_MARK <= header then header[3..] else header, 0)
  }

  // ---------------------------------------------------------------- what a stream means

  datatype Step =
    | Incomplete
    | MissingLength
    | Message(body: seq<byte>, size: nat)

  // The next thing the reader does with its pending bytes.
  function NextStep(s: seq<byte>): (r: Step)
    ensures r.Message? ==> 4 <= r.size <= |s|
  {
    var end := HeaderEnd(s);
    if end == -1 then Incomplete
    else
      HeaderEndFound(s, 0);
      match ContentLength(s[..end])
      case None => MissingLength
      case Some(n) =>
        if |s| < end + 4 + n then Incomplete
        else Message(s[end + 4..end + 4 + n], end + 4 + n)
  }

  function Bodies(s: seq<byte>): seq<seq<byte>>
    decreases |s|
  {
    var step := NextStep(s);
    if step.Message? then [step.body] + Bodies(s[step.size..]) else []
  }

  function Leftover(s: seq<byte>): (r: seq<byte>)
    ensures !NextStep(r).Message?
    decreases |s|
  {
    var step := NextStep(s);
    if step.Message? then Leftover(s[step.size..]) else s
  }

  // The stream holds a header without a length: nothing after it is ever delivered.
  predicate Stuck(s: seq<byte>) {
    NextStep(Leftover(s)).MissingLength?
  }

  lemma NextStepStable(s: seq<byte>, t: seq<byte>)
    requires !NextStep(s).Incomplete?
    ensures NextStep(s + t) == NextStep(s)
  {
    HeaderEndFound(s, 0);
    HeaderEndStable(s, t);
    var end := HeaderEnd(s);
    assert (s + t)[..end] == s[..end];
    var step := NextStep(s);
    if step.Message? {
      assert (s + t)[end + 4..step.size] == s[end + 4..step.size];
    }
  }

  // Reading part of a stream first changes neither the messages nor what is left.
  lemma {:induction false} ReadInTwo(s: seq<byte>, t: seq<byte>)
    ensures Bodies(s + t) == Bodies(s) + Bodies(Leftover(s) + t)
    ensures Leftover(s + t) == Leftover(Leftover(s) + t)
    ensures Stuck(s) ==> Bodies(Leftover(s) + t) == [] && Leftover(s + t) == Leftover(s) + t && Stuck(s + t)
    decreases |s|
  {
    var step := NextStep(s);
    if step.Message? {
      NextStepStable(s, t);
      assert (s + t)[step.size..] == s[step.size..] + t;
      ReadInTwo(s[step.size..], t);
    } else if step.MissingLength? {
      NextStepStable(s, t);
    }
  }

  function Flatten(chunks: seq<seq<byte>>): seq<byte> {
    if chunks == [] then [] else chunks[0] + Flatten(chunks[1..])
  }

  // What the reader holds between chunks, what it has delivered, the errors it has fired for
  // headers without a length, and the size of its buffer.
  datatype ReaderState = ReaderState(pending: seq<byte>, delivered: seq<seq<byte>>, lengthErrors: nat, capacity: nat)

  const INITIAL_CAPACITY: nat := 4096
  const INITIAL: ReaderState := ReaderState([], [], 0, INITIAL_CAPACITY)

  function Max(a: nat, b: nat): nat { if a < b then b else a }

  function Grown(capacity: nat, needed: nat): nat {
    if capacity < needed then Max(capacity * 2, needed) else capacity
  }

  function Feed(st: ReaderState, chunk: seq<byte>): ReaderState {
    var s := st.pending + chunk;
    ReaderState(Leftover(s), st.delivered + Bodies(s), st.lengthErrors + (if Stuck(s) then 1 else 0), Grown(st.capacity, |s|))
  }

  function Run(st: ReaderState, chunks: seq<seq<byte>>): ReaderState
    decreases chunks
  {
    if chunks == [] then st else Run(Feed(st, chunks[0]), chunks[1..])
  }

  // However the stream is cut into chunks, the messages and the leftover are those of one read.
  lemma {:induction false} ChunkingIsInvisible(st: ReaderState, chunks: seq<seq<byte>>)
    requires !NextStep(st.pending).Message?
    ensures Run(st, chunks).delivered == st.delivered + Bodies(st.pending + Flatten(chunks))
    ensures Run(st, chunks).pending == Leftover(st.pending + Flatten(chunks))
    decreases chunks
  {
    if chunks == [] {
      assert st.pending + Flatten(chunks) == st.pending;
    } else {
      var first, rest := st.pending + chunks[0], Flatten(chunks[1..]);
      assert st.pending + Flatten(chunks) == first + rest;
      ReadInTwo(first, rest);
      ChunkingIsInvisible(Feed(st, chunks[0]), chunks[1..]);
      Regroup(st.delivered, Bodies(first), Bodies(Leftover(first) + rest));
    }
  }

  // A header without a length blocks the stream for good, and is reported again for every chunk.
  lemma {:induction false} StuckForever(st: ReaderState, chunks: seq<seq<byte>>)
    requires NextStep(st.pending).MissingLength?
    ensures Run(st, chunks).delivered == st.delivered
    ensures Run(st, chunks).pending == st.pending + Flatten(chunks)
    ensures Run(st, chunks).lengthErrors == st.lengthErrors + |chunks|
    decreases chunks
  {
    if chunks == [] {
      assert st.pending + Flatten(chunks) == st.pending;
    } else {
      StuckStep(st, chunks[0]);
      StuckForever(Feed(st, chunks[0]), chunks[1..]);
      Regroup(st.pending, chunks[0], Flatten(chunks[1..]));
    }
  }

  lemma {:induction false} StuckStep(st: ReaderState, chunk: seq<byte>)
    requires NextStep(st.pending).MissingLength?
    ensures var next := Feed(st, chunk);
      next.pending == st.pending + chunk && next.delivered == st.delivered && next.lengthErrors == st.lengthErrors + 1
      && NextStep(next.pending).MissingLength?
  {
    NextStepStable(st.pending, chunk);
    assert st.delivered + [] == st.delivered;
  }

  // A blank line alone is such a header.
  lemma BlankLineBlocks(chunks: seq<seq<byte>>)
    ensures var st := Run(INITIAL, [BLANK_LINE] + chunks); st.delivered == [] && st.lengthErrors == 1 + |chunks|
  {
    HeaderEndIsFirst(BLANK_LINE, 0);
    assert BLANK_LINE[..0] == [];
    assert LengthFrom([], 0) == None;
    assert NextStep(BLANK_LINE).MissingLength?;
    assert [] + BLANK_LINE == BLANK_LINE;
    assert ([BLANK_LINE] + chunks)[1..] == chunks;
    StuckForever(Feed(INITIAL, BLANK_LINE), chunks);
  }

  // ---------------------------------------------------------------- the buffer's size

  // The most bytes the reader ever has to hold at once.
  function LargestDemand(pending: seq<byte>, chunks: seq<seq<byte>>): nat
    decreases chunks
  {
    if chunks == [] then 0
    else Max(|pending + chunks[0]|, LargestDemand(Leftover(pending + chunks[0]), chunks[1..]))
  }

  lemma {:induction false} CapacityBound(st: ReaderState, chunks: seq<seq<byte>>)
    ensures st.capacity <= Run(st, chunks).capacity <= Max(st.capacity, 2 * LargestDemand(st.pending, chunks))
    decreases chunks
  {
    if chunks != [] {
      CapacityBound(Feed(st, chunks[0]), chunks[1..]);
    }
  }

  // ---------------------------------------------------------------- the writer

  function Decimal(n: nat): (s: seq<byte>)
    ensures s != [] && forall i :: 0 <= i < |s| ==> IsDigit(s[i])
  {
    if n < 10 then [(48 + n) as byte] else Decimal(n / 10) + [(48 + n % 10) as byte]
  }

  lemma {:induction false} NumberOfDecimal(n: nat)
    ensures Number(Decimal(n)) == n
  {
    var s := Decimal(n);
    if n < 10 {
      assert s[..|s| - 1] == [];
    } else {
      NumberOfDecimal(n / 10);
      assert s[..|s| - 1] == Decimal(n / 10);
    }
  }

  function Frame(body: seq<byte>): seq<byte> {
    WRITTEN_NAME + Decimal(|body|) + BLANK_LINE + body
  }

  method WriteFrame(body: array<byte>) returns (framed: array<byte>)
    ensures fresh(framed) && framed[..] == Frame(body[..])
  {
    var header := WRITTEN_NAME + Decimal(body.Length) + BLANK_LINE;
    framed := new byte[|header| + body.Length];
    forall i | 0 <= i < |header| {
      framed[i] := header[i];
    }
    forall i | 0 <= i < body.Length {
      framed[|header| + i] := body[i];
    }
    assert framed[..|header|] == header && framed[|header|..] == body[..];
  }

  lemma {:induction false} DigitsRun(s: seq<byte>, i: nat, end: nat)
    requires i <= end <= |s| && (forall j :: i <= j < end ==> IsDigit(s[j]))
    requires end < |s| ==> !IsDigit(s[end])
    ensures DigitsEnd(s, i) == end
    decreases end - i
  {
    if i < end {
      DigitsRun(s, i + 1, end);
    }
  }

  lemma WrittenHeader(n: nat)
    ensures ContentLength(WRITTEN_NAME + Decimal(n)) == Some(n)
  {
    var header, start := WRITTEN_NAME + Decimal(n), |WRITTEN_NAME|;
    assert header[0..start] == WRITTEN_NAME;
    assert LowerCased(WRITTEN_NAME) == LENGTH_NAME;
    DigitsRun(header, start, |header|);
    assert header[start..|header|] == Decimal(n);
    NumberOfDecimal(n);
    assert header[0] != BYTE_ORDER_MARK[0];
    assert LengthAt(header, 0) == Some(n);
  }

  lemma FrameStep(body: seq<byte>, rest: seq<byte>)
    ensures NextStep(Frame(body) + rest) == Message(body, |Frame(body)|)
  {
    var header := WRITTEN_NAME + Decimal(|body|);
    var s := Frame(body) + rest;
    assert s == header + (BLANK_LINE + (body + rest));
    assert forall j: nat :: j < |header| ==> s[j] == header[j] && header[j] != CR;
    assert s[|header|] == CR && s[|header| + 1] == LF && s[|header| + 2] == CR && s[|header| + 3] == LF;
    HeaderEndIsFirst(s, |header|);
    assert s[..|header|] == header;
    WrittenHeader(|body|);
    assert s[|header| + 4..|header| + 4 + |body|] == body;
  }

  function Frames(bodies: seq<seq<byte>>): seq<byte> {
    if bodies == [] then [] else Frame(bodies[0]) + Frames(bodies[1..])
  }

  lemma {:induction false} FramesRead(bodies: seq<seq<byte>>)
    ensures Bodies(Frames(bodies)) == bodies && Leftover(Frames(bodies)) == []
  {
    if bodies != [] {
      var s, size := Frames(bodies), |Frame(bodies[0])|;
      FrameStep(bodies[0], Frames(bodies[1..]));
      assert s[size..] == Frames(bodies[1..]);
      FramesRead(bodies[1..]);
    }
  }

  // Frames cut anywhere deliver exactly the written bodies, in order, and leave nothing.
  lemma FramesSurviveChunking(bodies: seq<seq<byte>>, chunks: seq<seq<byte>>)
    requires Flatten(chunks) == Frames(bodies)
    ensures Run(INITIAL, chunks).delivered == bodies && Run(INITIAL, chunks).pending == []
  {
    ChunkingIsInvisible(INITIAL, chunks);
    assert [] + Flatten(chunks) == Frames(bodies);
    FramesRead(bodies);
  }

  lemma {:induction false} FedAs(before: ReaderState, chunk: seq<byte>, after: ReaderState)
    requires var s := before.pending + chunk;
      after.pending == Leftover(s) && after.delivered == before.delivered + Bodies(s)
      && after.lengthErrors == before.lengthErrors + (if Stuck(s) then 1 else 0)
      && after.capacity == Grown(before.capacity, |s|)
    ensures after == Feed(before, chunk) && !NextStep(after.pending).Message?
  {
  }

  // What stands at the front of the pending bytes.
  method ReadNext(pending: seq<byte>) returns (step: Step)
    ensures step == NextStep(pending)
  {
    var headerEnd := FindHeaderEnd(pending);
    if headerEnd < 0 {
      return Incomplete;
    }
    HeaderEndFound(pending, 0);
    var declared := ContentLength(pending[..headerEnd]);
    if declared.None? {
      return MissingLength;
    }
    var bodyStart := headerEnd + 4;
    var bodyEnd := bodyStart + declared.value;
    if |pending| < bodyEnd {
      return Incomplete;
    }
    return Message(pending[bodyStart..bodyEnd], bodyEnd);
  }

  // Up to the offset the messages of the pending bytes have been delivered.
  ghost predicate DeliveredTo(all: seq<byte>, offset: nat, before: seq<seq<byte>>, delivered: seq<seq<byte>>) {
    offset <= |all| && delivered + Bodies(all[offset..]) == before + Bodies(all) && Leftover(all[offset..]) == Leftover(all)
  }

  lemma {:induction false} DeliverNext(all: seq<byte>, offset: nat, before: seq<seq<byte>>, done: seq<seq<byte>>,
                                       step: Step, next: nat, delivered: seq<seq<byte>>)
    requires DeliveredTo(all, offset, before, done) && step.Message? && step == NextStep(all[offset..])
    requires next == offset + step.size && delivered == done + [step.body]
    ensures DeliveredTo(all, next, before, delivered)
  {
    assert all[offset..][step.size..] == all[next..];
    Regroup(done, [step.body], Bodies(all[next..]));
  }

  // With no message at the offset everything has been: the rest is left over, stuck if its
  // header has no length.
  lemma {:induction false} DeliveredAll(all: seq<byte>, offset: nat, before: seq<seq<byte>>, delivered: seq<seq<byte>>)
    requires DeliveredTo(all, offset, before, delivered) && !NextStep(all[offset..]).Message?
    ensures delivered == before + Bodies(all) && all[offset..] == Leftover(all)
    ensures Stuck(all) <==> NextStep(all[offset..]).MissingLength?
  {
    assert Bodies(all[offset..]) == [];
    assert delivered + [] == delivered;
  }

  // ---------------------------------------------------------------- when a stream is blocked

  // A field at the start of some line is found, unless an earlier one is.
  lemma {:induction false} LengthFound(header: seq<byte>, i: nat, p: nat)
    requires i <= p <= |header| && StartsLine(header, p) && LengthAt(header, p).Some?
    ensures LengthFrom(header, i).Some?
    decreases p - i
  {
    if i < p {
      LengthFound(header, i + 1, p);
    }
  }

  // What completes the line that the bytes end in.
  function LineEnd(s: seq<byte>): seq<byte> {
    if StartsLine(s, |s|) then [] else [CR, LF]
  }

  const ZERO_LENGTH: seq<byte> := WRITTEN_NAME + [48]

  lemma ZeroLengthBytes()
    ensures |ZERO_LENGTH| == 17 && ZERO_LENGTH[0] == 67 && forall i :: 0 <= i < |ZERO_LENGTH| ==> ZERO_LENGTH[i] != CR && ZERO_LENGTH[i] != LF
  {
  }

  lemma ZeroLengthAt(front: seq<byte>)
    ensures LengthAt(front + ZERO_LENGTH, |front|).Some?
  {
    var header, start := front + ZERO_LENGTH, |front| + |LENGTH_NAME|;
    assert |WRITTEN_NAME| == |LENGTH_NAME| == 16;
    assert header[|front|..start] == WRITTEN_NAME;
    assert LowerCased(WRITTEN_NAME) == LENGTH_NAME;
    assert header[start] == 48;
    DigitsRun(header, start, |header|);
  }

  // A header that ends in a field on a line of its own declares a length, its own or an earlier one.
  lemma CompletedHeader(s: seq<byte>)
    ensures ContentLength(s + LineEnd(s) + ZERO_LENGTH).Some?
  {
    var front := s + LineEnd(s);
    var header := front + ZERO_LENGTH;
    var p := |front|;
    ZeroLengthBytes();
    ZeroLengthAt(front);
    assert StartsLine(header, p);
    if BYTE_ORDER_MARK <= header {
      assert header[p] == 67 && (p > 0 ==> header[p - 1] == LF && header[p - 2] == CR);
      assert header[0] == 239 && header[1] == 187 && header[2] == 191;
      assert 5 <= p;
      assert header[3..] == front[3..] + ZERO_LENGTH;
      ZeroLengthAt(front[3..]);
      LengthFound(header[3..], 0, p - 3);
    } else {
      LengthFound(header, 0, p);
    }
  }

  // Its end is the first blank line, if none stands before the field.
  lemma CompletedHeaderEnds(s: seq<byte>, body: seq<byte>)
    requires HeaderEnd(s) == -1
    ensures HeaderEnd(s + LineEnd(s) + ZERO_LENGTH + BLANK_LINE + body) == |s + LineEnd(s) + ZERO_LENGTH|
  {
    var front := s + LineEnd(s);
    var header := front + ZERO_LENGTH;
    var all := header + BLANK_LINE + body;
    HeaderEndFound(s, 0);
    ZeroLengthBytes();
    forall j: nat | j < |header|
      ensures !HeaderEndsAt(all, j)
    {
      if j + 3 < |s| {
        assert HeaderEndsAt(all, j) == HeaderEndsAt(s, j);
      } else if |front| <= j {
        assert all[j] == ZERO_LENGTH[j - |front|];
      } else if |front| <= j + 3 {
        assert all[|front|] == ZERO_LENGTH[0];
      } else {
        assert all[|s|] == CR;
        assert j + 3 == |s| || (all[j] == s[j] && all[j + 1] == s[j + 1]);
      }
    }
    assert all[|header|..|header| + 4] == BLANK_LINE;
    HeaderEndIsFirst(all, |header|);
  }

  function Zeros(n: nat): (s: seq<byte>)
    ensures |s| == n
  {
    seq(n, i => 0)
  }

  // What turns an incomplete message into a whole one: the bytes its body lacks, or the rest
  // of a header and then the body.
  function Completion(s: seq<byte>): seq<byte> {
    var end := HeaderEnd(s);
    if end == -1 then
      var field := LineEnd(s) + ZERO_LENGTH;
      var length := ContentLength(s + field);
      field + BLANK_LINE + Zeros(if length.Some? then length.value else 0)
    else
      HeaderEndFound(s, 0);
      var length := ContentLength(s[..end]);
      Zeros(if length.Some? && |s| < end + 4 + length.value then end + 4 + length.value - |s| else 0)
  }

  lemma {:induction false} CompletedHeaderDelivers(s: seq<byte>)
    requires HeaderEnd(s) == -1
    ensures NextStep(s + Completion(s)).Message?
  {
    var header := s + LineEnd(s) + ZERO_LENGTH;
    CompletedHeader(s);
    var body := Zeros(ContentLength(header).value);
    CompletedHeaderEnds(s, body);
    WholeMessage(header, body);
    CompletionForm(s);
  }

  lemma {:induction false} CompletionForm(s: seq<byte>)
    requires HeaderEnd(s) == -1 && ContentLength(s + LineEnd(s) + ZERO_LENGTH).Some?
    ensures var header := s + LineEnd(s) + ZERO_LENGTH;
      s + Completion(s) == header + BLANK_LINE + Zeros(ContentLength(header).value)
  {
    var header := s + LineEnd(s) + ZERO_LENGTH;
    Regroup(s, LineEnd(s), ZERO_LENGTH);
    FieldThenBody(s, LineEnd(s) + ZERO_LENGTH, BLANK_LINE, Zeros(ContentLength(header).value));
  }

  lemma {:induction false} WholeMessage(header: seq<byte>, body: seq<byte>)
    requires HeaderEnd(header + BLANK_LINE + body) == |header| && ContentLength(header) == Some(|body|)
    ensures NextStep(header + BLANK_LINE + body).Message?
  {
    assert (header + BLANK_LINE + body)[..|header|] == header;
  }

  lemma FieldThenBody(s: seq<byte>, field: seq<byte>, blank: seq<byte>, body: seq<byte>)
    ensures s + (field + blank + body) == (s + field) + blank + body
  {
  }

  lemma {:induction false} CompletionDelivers(s: seq<byte>)
    requires NextStep(s).Incomplete?
    ensures NextStep(s + Completion(s)).Message?
  {
    var end := HeaderEnd(s);
    if end == -1 {
      CompletedHeaderDelivers(s);
    } else {
      HeaderEndFound(s, 0);
      HeaderEndStable(s, Completion(s));
      assert (s + Completion(s))[..end] == s[..end];
    }
  }

  // A stream is blocked for good exactly when what is left over has a header without a length:
  // only then can nothing that follows make it deliver another message.
  lemma {:induction false} StuckExact(s: seq<byte>)
    ensures Stuck(s) <==> forall t :: Bodies(s + t) == Bodies(s)
  {
    var r := Leftover(s);
    if Stuck(s) {
      forall t
        ensures Bodies(s + t) == Bodies(s)
      {
        ReadInTwo(s, t);
      }
    } else {
      var t := Completion(r);
      CompletionDelivers(r);
      ReadInTwo(s, t);
      assert |Bodies(r + t)| > 0;
      assert Bodies(s + t) != Bodies(s);
    }
  }

  // ---------------------------------------------------------------- the reader

  class WasmMessageReader {
    var buffer: array<byte>
    var length: nat
    var delivered: seq<seq<byte>>
    var lengthErrors: nat

    ghost predicate Valid()
      reads this, buffer
    {
      length <= buffer.Length && !NextStep(Pending()).Message?
    }

    ghost function Pending(): seq<byte>
      requires length <= buffer.Length
      reads this, buffer
    {
      buffer[..length]
    }

    ghost function State(): ReaderState
      requires length <= buffer.Length
      reads this, buffer
    {
      ReaderState(Pending(), delivered, lengthErrors, buffer.Length)
    }

    constructor ()
      ensures Valid() && fresh(buffer) && State() == INITIAL
    {
      buffer := new byte[INITIAL_CAPACITY];
      length := 0;
      delivered := [];
      lengthErrors := 0;
    }

    // Makes room for the chunk, doubling at least, and appends it.
    method Append(chunk: seq<byte>)
      requires length <= buffer.Length
      modifies this, buffer
      ensures length <= buffer.Length && (buffer == old(buffer) || fresh(buffer))
      ensures Pending() == old(Pending()) + chunk
      ensures buffer.Length == Grown(old(buffer.Length), |old(Pending()) + chunk|)
      ensures delivered == old(delivered) && lengthErrors == old(lengthErrors)
    {
      if length + |chunk| > buffer.Length {
        var next := new byte[Max(buffer.Length * 2, length + |chunk|)];
        forall i | 0 <= i < length {
          next[i] := buffer[i];
        }
        buffer := next;
      }
      forall i | 0 <= i < |chunk| {
        buffer[length + i] := chunk[i];
      }
      length := length + |chunk|;
    }

    // Drops the bytes before the offset, moving the rest to the front.
    method Discard(offset: nat)
      requires offset <= length <= buffer.Length
      modifies this, buffer
      ensures buffer == old(buffer) && length <= buffer.Length
      ensures Pending() == old(Pending())[offset..]
      ensures delivered == old(delivered) && lengthErrors == old(lengthErrors)
    {
      if offset > 0 {
        forall i | 0 <= i < length - offset {
          buffer[i] := buffer[offset + i];
        }
        length := length - offset;
      }
    }

    // Delivers every complete message among the pending bytes; answers where they end.
    method Deliver() returns (offset: nat)
      requires length <= buffer.Length
      modifies this`delivered, this`lengthErrors
      ensures offset <= length && Pending()[offset..] == Leftover(Pending())
      ensures delivered == old(delivered) + Bodies(Pending())
      ensures lengthErrors == old(lengthErrors) + if Stuck(Pending()) then 1 else 0
    {
      offset := 0;
      var all := buffer[..length];
      ghost var before, errors := delivered, lengthErrors;
      assert all[0..] == all;
      while true
        invariant offset <= |all|
        invariant DeliveredTo(all, offset, before, delivered)
        invariant lengthErrors == errors
        decreases |all| - offset
      {
        var step := ReadNext(all[offset..]);
        if !step.Message? {
          DeliveredAll(all, offset, before, delivered);
          lengthErrors := lengthErrors + if step.MissingLength? then 1 else 0;
          break;
        }
        ghost var done, from := delivered, offset;
        delivered := delivered + [step.body];
        offset := offset + step.size;
        DeliverNext(all, from, before, done, step, offset, delivered);
      }
    }

    method Accept(chunk: seq<byte>)
      requires Valid()
      modifies this, buffer
      ensures Valid() && (buffer == old(buffer) || fresh(buffer))
      ensures State() == Feed(old(State()), chunk)
    {
      ghost var before := State();
      Append(chunk);
      var offset := Deliver();
      Discard(offset);
      FedAs(before, chunk, State());
    }
  }

  // A fresh reader fed a whole run of chunks.
  method AcceptAll(chunks: seq<seq<byte>>) returns (reader: WasmMessageReader)
    ensures reader.Valid() && reader.State() == Run(INITIAL, chunks)
    ensures reader.delivered == Bodies(Flatten(chunks)) && reader.Pending() == Leftover(Flatten(chunks))
    ensures reader.buffer.Length <= Max(INITIAL_CAPACITY, 2 * LargestDemand([], chunks))
  {
    reader := new WasmMessageReader();
    for i := 0 to |chunks|
      invariant reader.Valid() && fresh(reader) && fresh(reader.buffer)
      invariant Run(reader.State(), chunks[i..]) == Run(INITIAL, chunks)
    {
      assert chunks[i..][0] == chunks[i] && chunks[i..][1..] == chunks[i + 1..];
      reader.Accept(chunks[i]);
    }
    ChunkingIsInvisible(INITIAL, chunks);
    assert [] + Flatten(chunks) == Flatten(chunks);
    CapacityBound(INITIAL, chunks);
  }
}
