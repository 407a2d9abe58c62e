// What the framing costs and reports: how often the buffer grows, when errors are fired, and the bytes of a frame.
module ReaderGrowth {
  import opened Basics
  import opened MessageFraming
  import opened Shifts

  // ---------------------------------------------------------------- the buffer

  // How many of the chunks make the reader move to a larger buffer.
  function Growths(st: ReaderState, chunks: seq<seq<byte>>): nat
    decreases chunks
  {
    if chunks == [] then 0
    else
      var next := Feed(st, chunks[0]);
      (if next.capacity != st.capacity then 1 else 0) + Growths(next, chunks[1..])
  }

  // Each of them at least doubles it.
  lemma {:induction false} GrowthsDouble(st: ReaderState, chunks: seq<seq<byte>>)
    ensures st.capacity * Pow2(Growths(st, chunks)) <= Run(st, chunks).capacity
    decreases chunks
  {
    if chunks != [] {
      var next := Feed(st, chunks[0]);
      GrowthsDouble(next, chunks[1..]);
      if next.capacity != st.capacity {
        assert 2 * st.capacity <= next.capacity;
        Doubled(st.capacity, next.capacity, Pow2(Growths(next, chunks[1..])));
      }
    }
  }

  lemma Doubled(a: nat, b: nat, p: nat)
    requires 2 * a <= b
    ensures a * (2 * p) <= b * p
  {
    assert b * p == 2 * a * p + (b - 2 * a) * p;
  }

  // It is replaced exactly when the pending bytes and the chunk do not fit.
  lemma GrowsOnlyIfNeeded(st: ReaderState, chunk: seq<byte>)
    ensures Feed(st, chunk).capacity != st.capacity <==> st.capacity < |st.pending + chunk|
  {
  }

  // A buffer of 4096 bytes grows only as often as doubling takes to twice what it has to hold.
  lemma FewGrowths(chunks: seq<seq<byte>>)
    ensures INITIAL.capacity == 4096
    ensures 4096 * Pow2(Growths(INITIAL, chunks)) <= Max(4096, 2 * LargestDemand([], chunks))
  {
    GrowthsDouble(INITIAL, chunks);
    CapacityBound(INITIAL, chunks);
  }

  // It always holds what is pending.
  lemma {:induction false} PendingFits(st: ReaderState, chunks: seq<seq<byte>>)
    requires |st.pending| <= st.capacity
    ensures |Run(st, chunks).pending| <= Run(st, chunks).capacity
    decreases chunks
  {
    if chunks != [] {
      LeftoverIsShorter(st.pending + chunks[0]);
      PendingFits(Feed(st, chunks[0]), chunks[1..]);
    }
  }

  lemma {:induction false} LeftoverIsShorter(s: seq<byte>)
    ensures |Leftover(s)| <= |s|
    decreases |s|
  {
    if NextStep(s).Message? {
      LeftoverIsShorter(s[NextStep(s).size..]);
    }
  }

  // ---------------------------------------------------------------- errors

  // A stream that does not end up blocked has fired no error on the way, and one that does has
  // fired one for each chunk from the one that blocked it.
  lemma {:induction false} ErrorsExact(st: ReaderState, chunks: seq<seq<byte>>, k: nat)
    requires k <= |chunks| && !NextStep(st.pending).Message?
    requires k > 0 ==> !Stuck(st.pending + Flatten(chunks[..k]))
    requires k < |chunks| ==> Stuck(st.pending + Flatten(chunks[..k + 1]))
    ensures Run(st, chunks).lengthErrors == st.lengthErrors + (|chunks| - k)
    decreases chunks
  {
    if chunks != [] {
      var first, next := st.pending + chunks[0], Feed(st, chunks[0]);
      if k == 0 {
        assert chunks[..1] == [chunks[0]] && Flatten([chunks[0]]) == chunks[0] + [] == chunks[0];
        StuckForever(next, chunks[1..]);
      } else {
        FirstOfMany(st.pending, chunks, k);
        ReadInTwo(first, Flatten(chunks[1..][..k - 1]));
        if k < |chunks| {
          FirstOfMany(st.pending, chunks, k + 1);
          ReadInTwo(first, Flatten(chunks[1..][..k]));
        }
        ErrorsExact(next, chunks[1..], k - 1);
      }
    }
  }

  lemma FirstOfMany(pending: seq<byte>, chunks: seq<seq<byte>>, k: nat)
    requires 0 < k <= |chunks|
    ensures pending + Flatten(chunks[..k]) == pending + chunks[0] + Flatten(chunks[1..][..k - 1])
  {
    assert chunks[..k][1..] == chunks[1..][..k - 1];
  }

  // ---------------------------------------------------------------- the bytes of a frame

  // "Content-Length: ", the size in decimal without a leading zero, a blank line, the body.
  lemma FrameNamed(body: seq<byte>, frame: seq<byte>)
    requires frame == [67, 111, 110, 116, 101, 110, 116, 45, 76, 101, 110, 103, 116, 104, 58, 32]
                      + Decimal(|body|) + [13, 10, 13, 10] + body
    ensures Frame(body) == frame
  {
  }

  lemma {:induction false} NoLeadingZero(n: nat)
    ensures Decimal(n)[0] != 48 <==> n > 0
    ensures n == 0 ==> |Decimal(n)| == 1
    decreases n
  {
    if n >= 10 {
      NoLeadingZero(n / 10);
    }
  }
}
