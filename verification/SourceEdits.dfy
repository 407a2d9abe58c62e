// Applying text edits to a source from the last to the first.
module SourceEdits {
  import opened Basics
  import opened Text

  datatype Edit = Edit(start: int, end: int, newText: string)

  // The position a slice takes an index for: counted from the end if negative, and cut to the text.
  function SlicePosition(index: int, length: nat): (position: nat)
    ensures position <= length && (0 <= index <= length ==> position == index)
  {
    if length < index then length
    else if 0 <= index then index
    else if length + index < 0 then 0
    else length + index
  }

  function Splice(text: string, e: Edit): string {
    text[..SlicePosition(e.start, |text|)] + e.newText + text[SlicePosition(e.end, |text|)..]
  }

  // One edit after the other, each in the text the one before left.
  function SpliceAll(text: string, es: seq<Edit>): string
    decreases es
  {
    if es == [] then text else SpliceAll(Splice(text, es[0]), es[1..])
  }

  predicate InRange(es: seq<Edit>, from: int, to: int) {
    forall i :: 0 <= i < |es| ==> from <= es[i].start <= es[i].end <= to
  }

  // No two edits touch a common character or start at the same place.
  predicate Disjoint(es: seq<Edit>) {
    forall i, j :: 0 <= i < j < |es| ==>
      es[i].start != es[j].start && (es[i].end <= es[j].start || es[j].end <= es[i].start)
  }

  predicate DistinctStarts(es: seq<Edit>) {
    forall i, j :: 0 <= i < j < |es| ==> es[i].start != es[j].start
  }

  // Edits from left to right, each ending before the next one starts.
  predicate Ordered(es: seq<Edit>, from: int, to: int) {
    if es == [] then from <= to
    else from <= es[0].start <= es[0].end <= to && Ordered(es[1..], es[0].end, to)
  }

  // All edits at once: the text from position `from` with every edited stretch replaced.
  function Replaced(text: string, es: seq<Edit>, from: int): string
    requires 0 <= from && Ordered(es, from, |text|)
  {
    OrderedBounds(es, from, |text|);
    if es == [] then text[from..]
    else text[from..es[0].start] + es[0].newText + Replaced(text, es[1..], es[0].end)
  }

  // ---------------------------------------------------------------- the sort

  function Insert(e: Edit, es: seq<Edit>): (r: seq<Edit>)
    ensures multiset(r) == multiset(es) + multiset{e} && |r| == |es| + 1
  {
    if es == [] || es[0].start <= e.start then [e] + es
    else
      assert es == [es[0]] + es[1..];
      [es[0]] + Insert(e, es[1..])
  }

  // The library's stable sort by descending start.
  function SortDescending(es: seq<Edit>): (r: seq<Edit>)
    ensures multiset(r) == multiset(es) && |r| == |es|
  {
    if es == [] then [] else
      assert es == [es[0]] + es[1..];
      Insert(es[0], SortDescending(es[1..]))
  }

  predicate Descending(es: seq<Edit>) {
    es == [] || ((forall e :: e in es[1..] ==> e.start < es[0].start) && Descending(es[1..]))
  }

  lemma {:induction false} InsertDescends(e: Edit, es: seq<Edit>)
    requires Descending(es) && forall f :: f in es ==> f.start != e.start
    ensures Descending(Insert(e, es))
  {
    if es != [] {
      if es[0].start <= e.start {
        assert ([e] + es)[1..] == es;
        assert forall f :: f in es ==> f == es[0] || f in es[1..];
      } else {
        InsertDescends(e, es[1..]);
        var rest := Insert(e, es[1..]);
        assert forall f :: f in rest ==> f in multiset(rest);
        assert ([es[0]] + rest)[1..] == rest;
      }
    }
  }

  lemma {:induction false} SortDescends(es: seq<Edit>)
    requires DistinctStarts(es)
    ensures Descending(SortDescending(es))
  {
    if es != [] {
      SortDescends(es[1..]);
      var rest := SortDescending(es[1..]);
      forall f | f in rest
        ensures f.start != es[0].start
      {
        assert f in multiset(rest);
        assert f in es[1..];
        var i :| 1 <= i < |es| && es[i] == f;
      }
      InsertDescends(es[0], rest);
    }
  }

  lemma HeadIsGreatest(a: seq<Edit>, b: seq<Edit>)
    requires Descending(a) && Descending(b) && multiset(a) == multiset(b) && a != []
    ensures b != [] && a[0] == b[0]
  {
    assert a[0] in multiset(a);
    AtMostHead(b, a[0]);
    assert b[0] in multiset(b);
    AtMostHead(a, b[0]);
  }

  lemma AtMostHead(es: seq<Edit>, e: Edit)
    requires Descending(es) && e in multiset(es)
    ensures es != [] && (e == es[0] || e.start < es[0].start)
  {
    assert es == [es[0]] + es[1..];
  }

  // Distinct starts leave only one descending order.
  lemma {:induction false} DescendingUnique(a: seq<Edit>, b: seq<Edit>)
    requires Descending(a) && Descending(b) && multiset(a) == multiset(b)
    ensures a == b
    decreases a
  {
    if a == [] {
      assert |multiset(b)| == 0;
    } else {
      HeadIsGreatest(a, b);
      assert a == [a[0]] + a[1..] && b == [b[0]] + b[1..];
      assert multiset(a[1..]) == multiset(a) - multiset{a[0]};
      assert multiset(b[1..]) == multiset(b) - multiset{b[0]};
      DescendingUnique(a[1..], b[1..]);
    }
  }

  // ---------------------------------------------------------------- applying

  predicate Applicable(text: string, es: seq<Edit>) {
    Disjoint(es) && InRange(es, 0, |text|)
  }

  function Reverse(es: seq<Edit>): (r: seq<Edit>)
    ensures |r| == |es|
  {
    if es == [] then [] else Reverse(es[1..]) + [es[0]]
  }

  lemma {:induction false} ReverseConcat(a: seq<Edit>, b: seq<Edit>)
    ensures Reverse(a + b) == Reverse(b) + Reverse(a)
    decreases a
  {
    if a == [] {
      assert a + b == b;
    } else {
      assert (a + b)[1..] == a[1..] + b;
      ReverseConcat(a[1..], b);
    }
  }

  // What the edits mean, whatever order they are listed in.
  function Meaning(text: string, es: seq<Edit>): string
    requires Applicable(text, es)
  {
    SortedIsOrdered(es, 0, |text|);
    Replaced(text, Reverse(SortDescending(es)), 0)
  }

  lemma PairAt(es: seq<Edit>, e: Edit, f: Edit)
    requires Disjoint(es) && e in es && f in es && e.start < f.start
    ensures e.end <= f.start || f.end <= e.start
  {
    var i :| 0 <= i < |es| && es[i] == e;
    var j :| 0 <= j < |es| && es[j] == f;
    assert i < j || j < i;
  }

  lemma SortedIsOrdered(es: seq<Edit>, from: int, to: int)
    requires Disjoint(es) && InRange(es, from, to) && from <= to
    ensures Ordered(Reverse(SortDescending(es)), from, to)
  {
    SortDescends(es);
    SortedMembers(es);
    ReverseOrdered(es, SortDescending(es), from, to);
  }

  lemma SortedMembers(es: seq<Edit>)
    ensures forall e :: e in SortDescending(es) <==> e in es
  {
    assert forall e :: e in SortDescending(es) <==> e in multiset(SortDescending(es));
    assert forall e :: e in es <==> e in multiset(es);
  }

  // A descending list of disjoint edits, read backwards, is ordered.
  lemma {:induction false} ReverseOrdered(es: seq<Edit>, d: seq<Edit>, from: int, to: int)
    requires Disjoint(es) && Descending(d) && from <= to
    requires forall e :: e in d ==> e in es && from <= e.start <= e.end <= to
    ensures Ordered(Reverse(d), from, to)
    decreases d
  {
    if d != [] {
      var e, rest := d[0], d[1..];
      forall f | f in rest
        ensures f.start <= f.end <= e.start
      {
        PairAt(es, f, e);
      }
      ReverseOrdered(es, rest, from, e.start);
      OrderedAppend(Reverse(rest), [e], from, e.start, to);
    }
  }

  lemma {:induction false} OrderedAppend(a: seq<Edit>, b: seq<Edit>, from: int, mid: int, to: int)
    requires Ordered(a, from, mid) && Ordered(b, mid, to)
    ensures Ordered(a + b, from, to)
    decreases a
  {
    if a == [] {
      assert a + b == b;
      OrderedWiden(b, from, mid, to);
    } else {
      OrderedAppend(a[1..], b, a[0].end, mid, to);
      OrderedBounds(b, mid, to);
      OrderedBounds(a[1..], a[0].end, mid);
      assert (a + b)[1..] == a[1..] + b;
    }
  }

  lemma OrderedWiden(es: seq<Edit>, from: int, mid: int, to: int)
    requires from <= mid && Ordered(es, mid, to)
    ensures Ordered(es, from, to)
  {
    OrderedBounds(es, mid, to);
  }

  lemma {:induction false} OrderedBounds(es: seq<Edit>, from: int, to: int)
    requires Ordered(es, from, to)
    ensures from <= to
    decreases es
  {
    if es != [] {
      OrderedBounds(es[1..], es[0].end, to);
    }
  }

  // Starting earlier only adds the text in between.
  lemma ReplacedFrom(text: string, es: seq<Edit>, from: int, later: int)
    requires 0 <= from <= later && Ordered(es, later, |text|)
    ensures Ordered(es, from, |text|) && later <= |text|
    ensures Replaced(text, es, from) == text[from..later] + Replaced(text, es, later)
  {
    OrderedWiden(es, from, later, |text|);
    OrderedBounds(es, later, |text|);
    if es != [] {
      var e := es[0];
      Regroup(text[from..later], text[later..e.start], e.newText);
      Regroup(text[from..later], text[later..e.start] + e.newText, Replaced(text, es[1..], e.end));
      assert text[from..e.start] == text[from..later] + text[later..e.start];
    } else {
      assert text[from..] == text[from..later] + text[later..];
    }
  }

  // Splicing in one more edit on the left of those already made.
  lemma SpliceLeft(text: string, e: Edit, es: seq<Edit>)
    requires Ordered([e] + es, 0, |text|)
    ensures Ordered(es, 0, |text|) && e.end <= |Replaced(text, es, 0)|
    ensures Splice(Replaced(text, es, 0), e) == Replaced(text, [e] + es, 0)
  {
    assert ([e] + es)[1..] == es;
    ReplacedFrom(text, es, 0, e.end);
    var after := Replaced(text, es, e.end);
    assert Replaced(text, es, 0) == text[..e.end] + after;
    assert (text[..e.end] + after)[..e.start] == text[..e.start];
    assert (text[..e.end] + after)[e.end..] == after;
  }

  lemma SpliceNext(text: string, sorted: seq<Edit>, i: nat)
    requires i < |sorted| && Ordered(Reverse(sorted), 0, |text|)
    ensures var done, edit := Reverse(sorted[..i]), sorted[i];
      Ordered(done, 0, |text|) && 0 <= edit.start <= edit.end <= |Replaced(text, done, 0)|
      && Ordered(Reverse(sorted[..i + 1]), 0, |text|)
      && Splice(Replaced(text, done, 0), edit) == Replaced(text, Reverse(sorted[..i + 1]), 0)
  {
    var done := Reverse(sorted[..i]);
    assert sorted[..i + 1] == sorted[..i] + [sorted[i]];
    ReverseConcat(sorted[..i], [sorted[i]]);
    assert Reverse([sorted[i]]) == [sorted[i]];
    assert sorted == sorted[..i + 1] + sorted[i + 1..];
    ReverseConcat(sorted[..i + 1], sorted[i + 1..]);
    OrderedPart(Reverse(sorted), |sorted| - (i + 1), 0, |text|);
    SpliceLeft(text, sorted[i], done);
  }

  method Sort(edits: array<Edit>)
    modifies edits
    ensures edits[..] == SortDescending(old(edits[..]))
  {
    var sorted := SortDescending(edits[..]);
    forall i | 0 <= i < edits.Length {
      edits[i] := sorted[i];
    }
  }

  // The descending splices, whatever the edits are; the caller's list is left sorted. For
  // disjoint edits they amount to replacing all edited stretches at once.
  method ApplyEdits(source: string, edits: array<Edit>) returns (result: string)
    modifies edits
    ensures edits[..] == SortDescending(old(edits[..]))
    ensures result == SpliceAll(source, SortDescending(old(edits[..])))
    ensures Applicable(source, old(edits[..])) ==> result == Meaning(source, old(edits[..]))
  {
    ghost var es := edits[..];
    Sort(edits);
    ghost var sorted := edits[..];
    result := source;
    assert sorted[0..] == sorted;
    for i := 0 to edits.Length
      invariant edits[..] == sorted
      invariant SpliceAll(result, sorted[i..]) == SpliceAll(source, sorted)
    {
      assert sorted[i..][0] == sorted[i] && sorted[i..][1..] == sorted[i + 1..];
      var edit := edits[i];
      result := result[..SlicePosition(edit.start, |result|)] + edit.newText + result[SlicePosition(edit.end, |result|)..];
    }
    if Applicable(source, es) {
      SplicesReplace(source, es);
    }
  }

  lemma SplicesReplace(text: string, es: seq<Edit>)
    requires Applicable(text, es)
    ensures SpliceAll(text, SortDescending(es)) == Meaning(text, es)
  {
    SortedIsOrdered(es, 0, |text|);
    var sorted := SortDescending(es);
    SpliceRest(text, sorted, 0);
    assert sorted[..0] == [] && sorted[0..] == sorted;
  }

  // With the first i edits made, the others complete the replacement.
  lemma {:induction false} SpliceRest(text: string, sorted: seq<Edit>, i: nat)
    requires i <= |sorted| && Ordered(Reverse(sorted), 0, |text|)
    ensures Ordered(Reverse(sorted[..i]), 0, |text|)
    ensures SpliceAll(Replaced(text, Reverse(sorted[..i]), 0), sorted[i..]) == Replaced(text, Reverse(sorted), 0)
    decreases |sorted| - i
  {
    if i == |sorted| {
      assert sorted[..i] == sorted;
    } else {
      SpliceRest(text, sorted, i + 1);
      SpliceNext(text, sorted, i);
      assert sorted[i..][0] == sorted[i] && sorted[i..][1..] == sorted[i + 1..];
    }
  }

  lemma {:induction false} OrderedPart(es: seq<Edit>, k: nat, from: int, to: int)
    requires Ordered(es, from, to) && k <= |es|
    ensures Ordered(es[k..], from, to)
    decreases k
  {
    if k > 0 {
      OrderedPart(es[1..], k - 1, es[0].end, to);
      assert es[k..] == es[1..][k - 1..];
      OrderedWiden(es[k..], from, es[0].end, to);
    }
  }

  // ---------------------------------------------------------------- independence of order

  lemma StartsShuffle(es: seq<Edit>, fs: seq<Edit>)
    requires DistinctStarts(es) && multiset(es) == multiset(fs)
    ensures DistinctStarts(fs)
  {
    forall i, j | 0 <= i < j < |fs|
      ensures fs[i].start != fs[j].start
    {
      OccursTwice(fs, i, j);
      assert fs[i] in multiset(fs) && fs[j] in multiset(fs);
      var p :| 0 <= p < |es| && es[p] == fs[i];
      OccursOnce(es, p);
      var q :| 0 <= q < |es| && es[q] == fs[j];
      assert p < q || q < p;
    }
  }

  lemma OccursTwice(fs: seq<Edit>, i: nat, j: nat)
    requires i < j < |fs|
    ensures fs[i] == fs[j] ==> multiset(fs)[fs[i]] >= 2
  {
    assert fs == fs[..i] + [fs[i]] + fs[i + 1..j] + [fs[j]] + fs[j + 1..];
  }

  lemma OccursOnce(es: seq<Edit>, k: nat)
    requires DistinctStarts(es) && k < |es|
    ensures multiset(es)[es[k]] == 1
  {
    var rest := es[..k] + es[k + 1..];
    assert es == es[..k] + [es[k]] + es[k + 1..];
    assert multiset(es) == multiset(rest) + multiset{es[k]};
    forall m | 0 <= m < |rest|
      ensures rest[m] != es[k]
    {
      assert rest[m] == es[if m < k then m else m + 1];
    }
  }

  // Edits with distinct starts, overlapping or not, give one result in whatever order they come.
  lemma OrderDoesNotMatter(text: string, es: seq<Edit>, fs: seq<Edit>)
    requires DistinctStarts(es) && multiset(es) == multiset(fs)
    ensures Descending(SortDescending(es)) && SortDescending(es) == SortDescending(fs)
    ensures SpliceAll(text, SortDescending(fs)) == SpliceAll(text, SortDescending(es))
  {
    StartsShuffle(es, fs);
    SortDescends(es);
    SortDescends(fs);
    DescendingUnique(SortDescending(es), SortDescending(fs));
  }

  // ---------------------------------------------------------------- nested edits

  // By how much the edits make the text longer.
  function Growth(es: seq<Edit>): int {
    if es == [] then 0 else |es[0].newText| - (es[0].end - es[0].start) + Growth(es[1..])
  }

  lemma {:induction false} ReplacedLength(text: string, es: seq<Edit>, from: int)
    requires 0 <= from && Ordered(es, from, |text|)
    ensures |Replaced(text, es, from)| == |text| - from + Growth(es)
    decreases es
  {
    OrderedBounds(es, from, |text|);
    if es != [] {
      ReplacedLength(text, es[1..], es[0].end);
      OrderedBounds(es[1..], es[0].end, |text|);
    }
  }

  lemma {:induction false} SpliceAllConcat(text: string, a: seq<Edit>, b: seq<Edit>)
    ensures SpliceAll(text, a + b) == SpliceAll(SpliceAll(text, a), b)
    decreases a
  {
    if a == [] {
      assert a + b == b;
    } else {
      assert (a + b)[1..] == a[1..] + b;
      SpliceAllConcat(Splice(text, a[0]), a[1..], b);
    }
  }

  // Edits of a first part leave what follows it alone.
  lemma {:induction false} SpliceInFront(part: string, rest: string, es: seq<Edit>)
    requires Ordered(es, 0, |part|)
    ensures SpliceAll(part + rest, Reverse(es)) == Replaced(part, es, 0) + rest
    decreases es
  {
    if es == [] {
      assert part[0..] == part;
    } else {
      var e, others := es[0], es[1..];
      OrderedBounds(others, e.end, |part|);
      OrderedWiden(others, 0, e.end, |part|);
      SpliceInFront(part, rest, others);
      SpliceAllConcat(part + rest, Reverse(others), [e]);
      assert es == [e] + others;
      SpliceLeft(part, e, others);
      var made := Replaced(part, others, 0);
      SpliceOne(made + rest, e);
      SpliceWithin(made, rest, e);
    }
  }

  lemma SpliceOne(text: string, e: Edit)
    ensures SpliceAll(text, [e]) == Splice(text, e)
  {
    assert SpliceAll(Splice(text, e), []) == Splice(text, e);
  }

  lemma SpliceWithin(part: string, rest: string, e: Edit)
    requires 0 <= e.start <= e.end <= |part|
    ensures Splice(part + rest, e) == Splice(part, e) + rest
  {
    assert (part + rest)[..e.start] == part[..e.start];
    assert (part + rest)[e.end..] == part[e.end..] + rest;
  }

  predicate Ascending(es: seq<Edit>) {
    forall i, j :: 0 <= i < j < |es| ==> es[i].start < es[j].start
  }

  lemma {:induction false} ReverseDescends(es: seq<Edit>)
    requires Ascending(es)
    ensures Descending(Reverse(es)) && multiset(Reverse(es)) == multiset(es)
    decreases es
  {
    if es != [] {
      var e, rest := es[0], es[1..];
      assert es == [e] + rest;
      ReverseDescends(rest);
      forall f | f in Reverse(rest)
        ensures e.start < f.start
      {
        assert f in multiset(Reverse(rest));
        assert f in rest;
        var i :| 1 <= i < |es| && es[i] == f;
      }
      AppendLowest(Reverse(rest), e);
    }
  }

  lemma {:induction false} AppendLowest(es: seq<Edit>, e: Edit)
    requires Descending(es) && forall f :: f in es ==> e.start < f.start
    ensures Descending(es + [e])
    decreases es
  {
    if es == [] {
      assert es + [e] == [e];
    } else {
      AppendLowest(es[1..], e);
      assert (es + [e])[1..] == es[1..] + [e];
    }
  }

  // Sorting brings edits given in any order into the reverse of their ascending order.
  lemma SortIsReverse(ascending: seq<Edit>, es: seq<Edit>)
    requires Ascending(ascending) && multiset(es) == multiset(ascending)
    ensures SortDescending(es) == Reverse(ascending)
  {
    ReverseDescends(ascending);
    StartsShuffle(ascending, es);
    SortDescends(es);
    DescendingUnique(SortDescending(es), Reverse(ascending));
  }

  // Cutting n characters off a changed stretch and what follows it leaves just what follows
  // when the stretch has n characters, or fewer with nothing after it.
  lemma CutExact(stretch: string, rest: string, n: nat)
    ensures (stretch + rest)[SlicePosition(n, |stretch + rest|)..] == rest
      <==> |stretch| == n || (|stretch| < n && rest == "")
  {
    if |stretch| == n {
      assert (stretch + rest)[n..] == rest;
    }
  }

  // The text once the edits after and inside a stretch are made.
  lemma SpliceInside(text: string, start: int, end: int, inner: seq<Edit>, after: seq<Edit>)
    requires 0 <= start && Ordered(inner, start, end) && Ordered(after, end, |text|)
    ensures start <= end <= |text| && Ordered(inner, start, |text[..end]|)
    ensures SpliceAll(text, Reverse(after) + Reverse(inner))
      == text[..start] + (Replaced(text[..end], inner, start) + Replaced(text, after, end))
  {
    OrderedBounds(inner, start, end);
    OrderedBounds(after, end, |text|);
    var part, rest := text[..end], Replaced(text, after, end);
    OrderedWiden(after, 0, end, |text|);
    SpliceInFront(text, "", after);
    ReplacedFrom(text, after, 0, end);
    assert text + "" == text && part + rest + "" == part + rest;
    SpliceAllConcat(text, Reverse(after), Reverse(inner));
    OrderedWiden(inner, 0, start, |part|);
    SpliceInFront(part, rest, inner);
    ReplacedFrom(part, inner, 0, start);
    assert part[..start] == text[..start];
    Regroup(text[..start], Replaced(part, inner, start), rest);
  }

  // What the outer edit leaves of its changed stretch and of the text after it.
  function Remains(text: string, outer: Edit, inner: seq<Edit>, after: seq<Edit>): string
    requires 0 <= outer.start <= outer.end <= |text|
    requires Ordered(inner, outer.start, outer.end) && Ordered(after, outer.end, |text|)
  {
    var both := Replaced(text[..outer.end], inner, outer.start) + Replaced(text, after, outer.end);
    both[SlicePosition(outer.end - outer.start, |both|)..]
  }

  // And then the outer edit of that stretch.
  lemma SpliceOuter(text: string, outer: Edit, inner: seq<Edit>, after: seq<Edit>)
    requires 0 <= outer.start && Ordered(inner, outer.start, outer.end) && Ordered(after, outer.end, |text|)
    ensures outer.start <= outer.end <= |text|
    ensures SpliceAll(text, Reverse([outer] + inner + after)) == text[..outer.start] + outer.newText + Remains(text, outer, inner, after)
  {
    SpliceInside(text, outer.start, outer.end, inner, after);
    var tail := Replaced(text[..outer.end], inner, outer.start) + Replaced(text, after, outer.end);
    ReverseThree(outer, inner, after);
    SpliceAllConcat(text, Reverse(after) + Reverse(inner), [outer]);
    SpliceOne(text[..outer.start] + tail, outer);
    CutBehind(text[..outer.start], tail, outer);
  }

  lemma ReverseThree(outer: Edit, inner: seq<Edit>, after: seq<Edit>)
    ensures Reverse([outer] + inner + after) == Reverse(after) + Reverse(inner) + [outer]
  {
    ReverseConcat([outer] + inner, after);
    ReverseConcat([outer], inner);
    assert Reverse([outer]) == [outer];
    assert Reverse(after) + (Reverse(inner) + [outer]) == Reverse(after) + Reverse(inner) + [outer];
  }

  lemma CutBehind(front: string, tail: string, outer: Edit)
    requires |front| == outer.start <= outer.end
    ensures Splice(front + tail, outer) == front + outer.newText + tail[SlicePosition(outer.end - outer.start, |tail|)..]
  {
    assert (front + tail)[..outer.start] == front;
    var cut := SlicePosition(outer.end, |front + tail|);
    assert (front + tail)[cut..] == tail[cut - |front|..];
  }

  // The outermost edits alone, all at once.
  lemma OutermostReplaced(text: string, before: seq<Edit>, outer: Edit, after: seq<Edit>)
    requires Ordered(before, 0, outer.start) && 0 <= outer.start <= outer.end && Ordered(after, outer.end, |text|)
    ensures outer.start <= |text| && Ordered(before + ([outer] + after), 0, |text|) && Ordered(before, 0, |text[..outer.start]|)
    ensures Replaced(text, before + ([outer] + after), 0)
      == Replaced(text[..outer.start], before, 0) + (outer.newText + Replaced(text, after, outer.end))
  {
    OrderedBounds(after, outer.end, |text|);
    var tail := [outer] + after;
    assert tail[1..] == after;
    ReplacedInTwo(text, before, tail, 0, outer.start);
    assert text[outer.start..outer.start] + outer.newText == outer.newText;
  }

  lemma NestedSpliced(text: string, before: seq<Edit>, outer: Edit, inner: seq<Edit>, after: seq<Edit>)
    requires Ordered(before, 0, outer.start) && 0 <= outer.start <= outer.end <= |text|
    requires Ordered(inner, outer.start, outer.end) && Ordered(after, outer.end, |text|)
    ensures Ordered(before, 0, |text[..outer.start]|)
    ensures SpliceAll(text, Reverse(before + ([outer] + inner + after)))
      == Replaced(text[..outer.start], before, 0) + (outer.newText + Remains(text, outer, inner, after))
  {
    var front, remains := text[..outer.start], Remains(text, outer, inner, after);
    ReverseConcat(before, [outer] + inner + after);
    SpliceAllConcat(text, Reverse([outer] + inner + after), Reverse(before));
    SpliceOuter(text, outer, inner, after);
    Regroup(front, outer.newText, remains);
    SpliceInFront(front, outer.newText + remains, before);
  }

  // Edits nested in an outer one, which are made before it, are harmless exactly when they
  // keep its length, or shorten it with nothing left after it; else the outer edit leaves some
  // of its own stretch or takes some of what follows.
  lemma NestedExact(text: string, before: seq<Edit>, outer: Edit, inner: seq<Edit>, after: seq<Edit>, es: seq<Edit>)
    requires multiset(es) == multiset(before + ([outer] + inner + after)) && Ascending(before + ([outer] + inner + after))
    requires Ordered(before, 0, outer.start) && 0 <= outer.start
    requires Ordered(inner, outer.start, outer.end) && Ordered(after, outer.end, |text|)
    ensures outer.end <= |text| && Ordered(before + ([outer] + after), 0, |text|)
    ensures SpliceAll(text, SortDescending(es)) == Replaced(text, before + ([outer] + after), 0)
      <==> Growth(inner) == 0 || (Growth(inner) < 0 && Replaced(text, after, outer.end) == "")
  {
    SortIsReverse(before + ([outer] + inner + after), es);
    NestedInOrder(text, before, outer, inner, after);
  }

  lemma NestedInOrder(text: string, before: seq<Edit>, outer: Edit, inner: seq<Edit>, after: seq<Edit>)
    requires Ordered(before, 0, outer.start) && 0 <= outer.start
    requires Ordered(inner, outer.start, outer.end) && Ordered(after, outer.end, |text|)
    ensures outer.end <= |text| && Ordered(before + ([outer] + after), 0, |text|)
    ensures SpliceAll(text, Reverse(before + ([outer] + inner + after))) == Replaced(text, before + ([outer] + after), 0)
      <==> Growth(inner) == 0 || (Growth(inner) < 0 && Replaced(text, after, outer.end) == "")
  {
    OrderedBounds(inner, outer.start, outer.end);
    OutermostReplaced(text, before, outer, after);
    NestedSpliced(text, before, outer, inner, after);
    var rest := Replaced(text, after, outer.end);
    StretchExact(text[..outer.end], inner, outer.start, rest);
    SameEnds(Replaced(text[..outer.start], before, 0), outer.newText, Remains(text, outer, inner, after), rest);
  }

  lemma StretchExact(part: string, inner: seq<Edit>, start: int, rest: string)
    requires 0 <= start <= |part| && Ordered(inner, start, |part|)
    ensures var both := Replaced(part, inner, start) + rest;
      both[SlicePosition(|part| - start, |both|)..] == rest <==> Growth(inner) == 0 || (Growth(inner) < 0 && rest == "")
  {
    ReplacedLength(part, inner, start);
    CutExact(Replaced(part, inner, start), rest, |part| - start);
  }

  // A promise type inside a promise type: unwrapping the inner one first makes the outer edit
  // take the semicolon after it.
  lemma NestedPromiseLosesText()
    ensures var text, outer, inner := "Promise<M<Promise<V>>>;", Edit(0, 22, "M<Promise<V>>"), Edit(10, 20, "V");
      SpliceAll(text, SortDescending([outer, inner])) == "M<Promise<V>>"
  {
    var text, outer, inner := "Promise<M<Promise<V>>>;", Edit(0, 22, "M<Promise<V>>"), Edit(10, 20, "V");
    assert [outer, inner][1..] == [inner] && [inner][1..] == [];
    assert SortDescending([inner]) == [inner];
    assert SortDescending([outer, inner]) == [inner, outer];
    var spliced := Splice(text, inner);
    assert [inner, outer][1..] == [outer];
    SpliceOne(spliced, outer);
    assert |spliced| == 14;
  }

  // ---------------------------------------------------------------- several outer edits

  // An outer edit with all the edits inside it, in whatever layers.
  datatype Group = Group(outer: Edit, inner: seq<Edit>)

  function Flattened(groups: seq<Group>): seq<Edit> {
    if groups == [] then [] else [groups[0].outer] + groups[0].inner + Flattened(groups[1..])
  }

  function Outers(groups: seq<Group>): (es: seq<Edit>)
    ensures |es| == |groups|
  {
    if groups == [] then [] else [groups[0].outer] + Outers(groups[1..])
  }

  // The outer edits one after the other, each with its inner ones in its range and in
  // ascending order.
  predicate Grouped(groups: seq<Group>, from: int, to: int) {
    if groups == [] then from <= to
    else
      var outer, inner := groups[0].outer, groups[0].inner;
      from <= outer.start <= outer.end <= to && InRange(inner, outer.start, outer.end) && Ascending(inner)
      && Grouped(groups[1..], outer.end, to)
  }

  predicate KeepsLength(e: Edit) {
    |e.newText| == e.end - e.start
  }

  predicate AllKeepLength(es: seq<Edit>) {
    forall e :: e in es ==> KeepsLength(e)
  }

  predicate NoneLengthens(es: seq<Edit>) {
    forall e :: e in es ==> |e.newText| <= e.end - e.start
  }

  lemma {:induction false} OutersOrdered(groups: seq<Group>, from: int, to: int)
    requires Grouped(groups, from, to)
    ensures Ordered(Outers(groups), from, to) && from <= to
    decreases groups
  {
    if groups != [] {
      OutersOrdered(groups[1..], groups[0].outer.end, to);
      assert Outers(groups)[1..] == Outers(groups[1..]);
    }
  }

  // Edits in descending order whose starts lie in the text, all within a stretch.
  predicate Within(es: seq<Edit>, text: string, start: int, end: int) {
    Descending(es) && InRange(es, start, end) && 0 <= start <= end
    && start <= |text| && (es != [] ==> es[0].start <= |text|)
  }

  lemma WithinNext(es: seq<Edit>, text: string, start: int, end: int)
    requires Within(es, text, start, end) && es != []
    ensures Within(es[1..], Splice(text, es[0]), start, end)
    ensures |Splice(text, es[0])| == es[0].start + |es[0].newText| + |text| - SlicePosition(es[0].end, |text|)
    ensures Splice(text, es[0])[..start] == text[..start]
  {
    if |es| > 1 {
      assert es[1] in es[1..];
    }
    assert text[..es[0].start][..start] == text[..start];
  }

  // Edits that lengthen nothing keep the text within any bound that their stretch is within,
  // and leave what stands before the stretch.
  lemma {:induction false} StaysBounded(text: string, es: seq<Edit>, start: int, end: int, bound: int)
    requires Within(es, text, start, end) && NoneLengthens(es) && |text| <= bound && end <= bound
    ensures start <= |SpliceAll(text, es)| <= bound && SpliceAll(text, es)[..start] == text[..start]
    decreases es
  {
    if es != [] {
      WithinNext(es, text, start, end);
      assert es[0] in es;
      assert forall e :: e in es[1..] ==> e in es;
      StaysBounded(Splice(text, es[0]), es[1..], start, end, bound);
    }
  }

  // Edits that all keep their length leave what stands after the stretch.
  lemma {:induction false} KeepsTail(text: string, es: seq<Edit>, start: int, end: int)
    requires Within(es, text, start, end) && AllKeepLength(es) && end <= |text|
    ensures |SpliceAll(text, es)| == |text| && SpliceAll(text, es)[end..] == text[end..]
    decreases es
  {
    if es != [] {
      var e, next := es[0], Splice(text, es[0]);
      WithinNext(es, text, start, end);
      assert e in es && KeepsLength(e);
      assert forall f :: f in es[1..] ==> f in es;
      KeepsTail(next, es[1..], start, end);
      assert next[e.end..] == text[e.end..];
      assert next[end..] == next[e.end..][end - e.end..] && text[end..] == text[e.end..][end - e.end..];
    }
  }

  // If one of them shortens, the text gets shorter, unless nothing stands after the stretch.
  lemma {:induction false} ShorterOnce(text: string, es: seq<Edit>, start: int, end: int)
    requires Within(es, text, start, end) && NoneLengthens(es) && !AllKeepLength(es) && end < |text|
    ensures |SpliceAll(text, es)| < |text|
    decreases es
  {
    WithinNext(es, text, start, end);
    assert es[0] in es;
    assert forall e :: e in es <==> e == es[0] || e in es[1..];
    if KeepsLength(es[0]) {
      ShorterOnce(Splice(text, es[0]), es[1..], start, end);
    } else {
      StaysBounded(Splice(text, es[0]), es[1..], start, end, |text| - 1);
    }
  }

  // What the edits of one group make of a text, with the outer one made last.
  lemma GroupSpliced(text: string, group: Group)
    requires var outer := group.outer; Within(Reverse(group.inner), text, outer.start, outer.end)
    requires NoneLengthens(group.inner)
    ensures group.outer.start <= |text|
    ensures var outer, made := group.outer, SpliceAll(text, Reverse(group.inner));
      SpliceAll(text, Reverse([outer] + group.inner))
      == text[..outer.start] + outer.newText + made[SlicePosition(outer.end, |made|)..]
  {
    var outer, es := group.outer, Reverse(group.inner);
    ReverseMembers(group.inner);
    StaysBounded(text, es, outer.start, outer.end, if outer.end < |text| then |text| else outer.end);
    ReverseConcat([outer], group.inner);
    assert Reverse([outer]) == [outer];
    SpliceAllConcat(text, es, [outer]);
    SpliceOne(SpliceAll(text, es), outer);
  }

  lemma {:induction false} ReverseMembers(es: seq<Edit>)
    ensures forall e :: e in Reverse(es) <==> e in es
    decreases es
  {
    if es != [] {
      ReverseMembers(es[1..]);
      assert es == [es[0]] + es[1..];
    }
  }

  predicate NestedNoneLengthens(groups: seq<Group>) {
    forall group :: group in groups ==> NoneLengthens(group.inner)
  }

  // In each group the inner edits keep their length, or nothing follows the outer one.
  predicate EachHarmless(text: string, groups: seq<Group>, from: int)
    requires 0 <= from && Grouped(groups, from, |text|)
  {
    groups == []
    || (var outer, rest := groups[0].outer, groups[1..];
        OutersOrdered(rest, outer.end, |text|);
        (AllKeepLength(groups[0].inner) || Replaced(text, Outers(rest), outer.end) == "") && EachHarmless(text, rest, outer.end))
  }

  // What the outer edit leaves of a text that is as it should be, or shorter: what should be
  // left exactly if it is as it should be and the group is harmless, or less.
  lemma GroupLeaves(text: string, rest: string, now: string, group: Group)
    requires var outer := group.outer; 0 <= outer.start <= outer.end <= |text|
    requires var outer := group.outer; InRange(group.inner, outer.start, outer.end) && Ascending(group.inner)
    requires NoneLengthens(group.inner)
    requires var outer := group.outer; outer.end <= |now| && (now == text[..outer.end] + rest || |now| < outer.end + |rest|)
    ensures var outer, made := group.outer, SpliceAll(now, Reverse(group.inner));
      var left := made[SlicePosition(outer.end, |made|)..];
      (left == rest <==> now == text[..outer.end] + rest && (AllKeepLength(group.inner) || rest == ""))
      && (left != rest ==> |left| < |rest|)
  {
    var start, end, es := group.outer.start, group.outer.end, Reverse(group.inner);
    InnerWithin(now, group);
    var should := end + |rest|;
    if |now| < should {
      StaysBounded(now, es, start, end, should - 1);
    } else {
      StaysBounded(now, es, start, end, should);
      assert now[end..] == rest;
      if AllKeepLength(es) {
        KeepsTail(now, es, start, end);
      } else if rest != "" {
        ShorterOnce(now, es, start, end);
      }
    }
  }

  lemma InnerWithin(now: string, group: Group)
    requires var outer := group.outer; 0 <= outer.start <= outer.end <= |now| && InRange(group.inner, outer.start, outer.end)
    requires Ascending(group.inner) && NoneLengthens(group.inner)
    ensures Within(Reverse(group.inner), now, group.outer.start, group.outer.end)
    ensures NoneLengthens(Reverse(group.inner)) && (AllKeepLength(Reverse(group.inner)) <==> AllKeepLength(group.inner))
  {
    var es := Reverse(group.inner);
    ReverseDescends(group.inner);
    ReverseMembers(group.inner);
    forall i | 0 <= i < |es|
      ensures group.outer.start <= es[i].start <= es[i].end <= group.outer.end
    {
      assert es[i] in es;
      var j :| 0 <= j < |group.inner| && group.inner[j] == es[i];
    }
  }

  // What was made is what it should be exactly if `harmless`, else shorter; either way it
  // starts like the text.
  predicate Settled(text: string, made: string, should: string, from: int, harmless: bool) {
    (made == should <==> harmless) && (made != should ==> |made| < |should|)
    && 0 <= from <= |made| && from <= |text| && made[..from] == text[..from]
  }

  lemma GroupSettles(text: string, rest: string, now: string, group: Group, from: int, harmless: bool)
    requires var outer := group.outer; 0 <= from <= outer.start <= outer.end <= |text|
    requires InRange(group.inner, group.outer.start, group.outer.end) && Ascending(group.inner) && NoneLengthens(group.inner)
    requires Settled(text, now, text[..group.outer.end] + rest, group.outer.end, harmless)
    ensures var outer := group.outer;
      Settled(text, SpliceAll(now, Reverse([outer] + group.inner)), text[..outer.start] + outer.newText + rest, from,
        harmless && (AllKeepLength(group.inner) || rest == ""))
  {
    var outer := group.outer;
    InnerWithin(now, group);
    GroupSpliced(now, group);
    GroupLeaves(text, rest, now, group);
    assert now[..outer.start] == now[..outer.end][..outer.start] == text[..outer.end][..outer.start] == text[..outer.start];
    var made := SpliceAll(now, Reverse(group.inner));
    var left := made[SlicePosition(outer.end, |made|)..];
    SameFront(text[..outer.start] + outer.newText, left, rest);
    assert (text[..outer.start] + outer.newText + left)[..from] == text[..from];
  }

  lemma {:induction false} GroupsInOrder(text: string, groups: seq<Group>, from: int)
    requires 0 <= from && Grouped(groups, from, |text|) && NestedNoneLengthens(groups)
    ensures Ordered(Outers(groups), 0, |text|)
    ensures Settled(text, SpliceAll(text, Reverse(Flattened(groups))), Replaced(text, Outers(groups), 0), from,
      EachHarmless(text, groups, from))
    decreases groups
  {
    OutersOrdered(groups, from, |text|);
    OrderedWiden(Outers(groups), 0, from, |text|);
    if groups == [] {
      assert text[0..] == text;
    } else {
      var group, others := groups[0], groups[1..];
      var end := group.outer.end;
      assert group in groups;
      assert forall g :: g in others ==> g in groups;
      GroupsInOrder(text, others, end);
      OutersOrdered(others, end, |text|);
      ReplacedFrom(text, Outers(others), 0, end);
      FirstGroup(text, groups, from);
      GroupSettles(text, Replaced(text, Outers(others), end), SpliceAll(text, Reverse(Flattened(others))), group, from,
        EachHarmless(text, others, end));
    }
  }

  // The first group is spliced last; what it should give is its new text before the rest.
  lemma FirstGroup(text: string, groups: seq<Group>, from: int)
    requires 0 <= from && Grouped(groups, from, |text|) && groups != []
    ensures var outer, others := groups[0].outer, groups[1..];
      Ordered(Outers(groups), 0, |text|) && Ordered(Outers(others), outer.end, |text|)
      && SpliceAll(text, Reverse(Flattened(groups)))
         == SpliceAll(SpliceAll(text, Reverse(Flattened(others))), Reverse([outer] + groups[0].inner))
      && Replaced(text, Outers(groups), 0) == text[..outer.start] + outer.newText + Replaced(text, Outers(others), outer.end)
  {
    var outer, inner, others := groups[0].outer, groups[0].inner, groups[1..];
    OutersOrdered(groups, from, |text|);
    OrderedWiden(Outers(groups), 0, from, |text|);
    OutersOrdered(others, outer.end, |text|);
    assert Outers(groups)[1..] == Outers(others);
    ReverseConcat([outer] + inner, Flattened(others));
    SpliceAllConcat(text, Reverse(Flattened(others)), Reverse([outer] + inner));
  }

  // Edits nested in several outer ones, in any layers, none of them lengthening, as when types
  // are unwrapped: the result is that of the outermost edits exactly when in each of them the
  // nested ones keep their length or nothing follows it.
  lemma NestedShorteningExact(text: string, groups: seq<Group>, es: seq<Edit>)
    requires Grouped(groups, 0, |text|) && NestedNoneLengthens(groups)
    requires multiset(es) == multiset(Flattened(groups)) && Ascending(Flattened(groups))
    ensures Ordered(Outers(groups), 0, |text|)
    ensures SpliceAll(text, SortDescending(es)) == Replaced(text, Outers(groups), 0) <==> EachHarmless(text, groups, 0)
  {
    SortIsReverse(Flattened(groups), es);
    GroupsInOrder(text, groups, 0);
  }

  // The inner edits of each group are disjoint and together keep the length.
  predicate EachBalanced(groups: seq<Group>) {
    forall group :: group in groups ==>
      Ordered(group.inner, group.outer.start, group.outer.end) && Growth(group.inner) == 0
  }

  lemma {:induction false} BalancedInOrder(text: string, groups: seq<Group>, from: int)
    requires 0 <= from && Grouped(groups, from, |text|) && EachBalanced(groups)
    ensures Ordered(Outers(groups), 0, |text|)
    ensures SpliceAll(text, Reverse(Flattened(groups))) == Replaced(text, Outers(groups), 0)
    decreases groups
  {
    OutersOrdered(groups, from, |text|);
    OrderedWiden(Outers(groups), 0, from, |text|);
    if groups == [] {
      assert text[0..] == text;
    } else {
      assert groups[0] in groups;
      assert forall g :: g in groups[1..] ==> g in groups;
      var outer := groups[0].outer;
      BalancedInOrder(text, groups[1..], outer.end);
      OutersOrdered(groups[1..], outer.end, |text|);
      ReplacedFrom(text, Outers(groups[1..]), 0, outer.end);
      FirstGroup(text, groups, from);
      BalancedGroup(text, groups[0], Replaced(text, Outers(groups[1..]), outer.end));
    }
  }

  lemma BalancedGroup(text: string, group: Group, rest: string)
    requires var outer := group.outer; 0 <= outer.start <= outer.end <= |text|
    requires Ordered(group.inner, group.outer.start, group.outer.end) && Growth(group.inner) == 0
    ensures var outer := group.outer;
      SpliceAll(text[..outer.end] + rest, Reverse([outer] + group.inner)) == text[..outer.start] + outer.newText + rest
  {
    var outer, inner, part := group.outer, group.inner, text[..group.outer.end];
    OrderedWiden(inner, 0, outer.start, |part|);
    SpliceInFront(part, rest, inner);
    ReplacedFrom(part, inner, 0, outer.start);
    ReplacedLength(part, inner, outer.start);
    var front, stretch := part[..outer.start], Replaced(part, inner, outer.start);
    Regroup(front, stretch, rest);
    ReverseConcat([outer], inner);
    assert Reverse([outer]) == [outer];
    SpliceAllConcat(part + rest, Reverse(inner), [outer]);
    SpliceOne(front + (stretch + rest), outer);
    CutBehind(front, stretch + rest, outer);
    assert (stretch + rest)[|stretch|..] == rest;
  }

  // Whatever the single edits do, nested ones that together keep the length of each outer
  // stretch are harmless.
  lemma BalancedNestingIsHarmless(text: string, groups: seq<Group>, es: seq<Edit>)
    requires Grouped(groups, 0, |text|) && EachBalanced(groups)
    requires multiset(es) == multiset(Flattened(groups)) && Ascending(Flattened(groups))
    ensures Ordered(Outers(groups), 0, |text|)
    ensures SpliceAll(text, SortDescending(es)) == Replaced(text, Outers(groups), 0)
  {
    SortIsReverse(Flattened(groups), es);
    BalancedInOrder(text, groups, 0);
  }

  // ---------------------------------------------------------------- editing a slice

  function Shift(e: Edit, offset: int): Edit {
    Edit(e.start - offset, e.end - offset, e.newText)
  }

  function Shifted(es: seq<Edit>, offset: int): (r: seq<Edit>)
    ensures |r| == |es|
  {
    if es == [] then [] else [Shift(es[0], offset)] + Shifted(es[1..], offset)
  }

  // Ordered edits in two halves: each half replaces its own stretch of the text.
  lemma {:induction false} ReplacedInTwo(text: string, a: seq<Edit>, b: seq<Edit>, from: int, mid: int)
    requires 0 <= from && Ordered(a, from, mid) && Ordered(b, mid, |text|)
    ensures 0 <= mid <= |text| && Ordered(a + b, from, |text|) && Ordered(a, from, |text[..mid]|)
    ensures Replaced(text, a + b, from) == Replaced(text[..mid], a, from) + Replaced(text, b, mid)
    decreases a
  {
    OrderedBounds(b, mid, |text|);
    OrderedBounds(a, from, mid);
    OrderedAppend(a, b, from, mid, |text|);
    if a == [] {
      assert a + b == b;
      ReplacedFrom(text, b, from, mid);
      assert text[..mid][from..] == text[from..mid];
    } else {
      var e, rest := a[0], a[1..];
      assert (a + b)[1..] == rest + b;
      ReplacedInTwo(text, rest, b, e.end, mid);
      OrderedBounds(rest, e.end, mid);
      assert text[..mid][from..e.start] == text[from..e.start];
      Regroup(text[from..e.start] + e.newText, Replaced(text[..mid], rest, e.end), Replaced(text, b, mid));
    }
  }

  lemma ShiftedCons(e: Edit, rest: seq<Edit>, offset: int)
    ensures var shifted := Shifted([e] + rest, offset); shifted[0] == Shift(e, offset) && shifted[1..] == Shifted(rest, offset)
  {
    assert ([e] + rest)[1..] == rest;
  }

  // Shifting edits and text by the same offset changes nothing.
  lemma {:induction false} ReplacedShifted(text: string, es: seq<Edit>, offset: int, from: int)
    requires 0 <= offset <= from && Ordered(es, from, |text|)
    ensures offset <= |text| && Ordered(Shifted(es, offset), from - offset, |text[offset..]|)
    ensures Replaced(text[offset..], Shifted(es, offset), from - offset) == Replaced(text, es, from)
    decreases es
  {
    OrderedBounds(es, from, |text|);
    if es == [] {
      assert text[offset..][from - offset..] == text[from..];
    } else {
      var e, rest := es[0], es[1..];
      ReplacedShifted(text, rest, offset, e.end);
      OrderedBounds(rest, e.end, |text|);
      ShiftedCons(e, rest, offset);
      assert es == [e] + rest;
      assert text[offset..][from - offset..e.start - offset] == text[from..e.start];
    }
  }

  lemma SliceOfOrdered(text: string, before: seq<Edit>, inside: seq<Edit>, after: seq<Edit>, start: int, end: int)
    requires Ordered(before, 0, start) && Ordered(inside, start, end) && Ordered(after, end, |text|)
    ensures 0 <= start <= end <= |text| && Ordered(before + (inside + after), 0, |text|)
    ensures Ordered(before, 0, |text[..start]|)
    ensures Ordered(Shifted(inside, start), 0, |text[start..end]|) && Ordered(Shifted(after, end), 0, |text[end..]|)
    ensures Replaced(text, before + (inside + after), 0)
      == Replaced(text[..start], before, 0)
         + (Replaced(text[start..end], Shifted(inside, start), 0) + Replaced(text[end..], Shifted(after, end), 0))
  {
    OrderedBounds(before, 0, start);
    OrderedBounds(inside, start, end);
    OrderedAppend(inside, after, start, end, |text|);
    ReplacedInTwo(text, before, inside + after, 0, start);
    ReplacedInTwo(text, inside, after, start, end);
    ReplacedShifted(text[..end], inside, start, start);
    ReplacedShifted(text, after, end, end);
    assert text[..end][start..] == text[start..end];
  }

  lemma {:induction false} InsertShifted(e: Edit, es: seq<Edit>, offset: int)
    ensures Shifted(Insert(e, es), offset) == Insert(Shift(e, offset), Shifted(es, offset))
    decreases es
  {
    if es != [] && e.start < es[0].start {
      InsertShifted(e, es[1..], offset);
    }
  }

  lemma {:induction false} SortShifted(es: seq<Edit>, offset: int)
    ensures SortDescending(Shifted(es, offset)) == Shifted(SortDescending(es), offset)
    decreases es
  {
    if es != [] {
      SortShifted(es[1..], offset);
      InsertShifted(es[0], SortDescending(es[1..]), offset);
    }
  }

  lemma {:induction false} ReverseShifted(es: seq<Edit>, offset: int)
    ensures Reverse(Shifted(es, offset)) == Shifted(Reverse(es), offset)
    decreases es
  {
    if es != [] {
      ReverseShifted(es[1..], offset);
      ShiftedConcat(Reverse(es[1..]), [es[0]], offset);
    }
  }

  lemma {:induction false} ShiftedConcat(a: seq<Edit>, b: seq<Edit>, offset: int)
    ensures Shifted(a + b, offset) == Shifted(a, offset) + Shifted(b, offset)
    decreases a
  {
    if a == [] {
      assert a + b == b;
    } else {
      assert (a + b)[1..] == a[1..] + b;
      ShiftedConcat(a[1..], b, offset);
    }
  }

  lemma {:induction false} ShiftedAt(es: seq<Edit>, offset: int, i: nat)
    requires i < |es|
    ensures Shifted(es, offset)[i] == Shift(es[i], offset)
    decreases i
  {
    if i > 0 {
      ShiftedAt(es[1..], offset, i - 1);
    }
  }

  lemma ShiftedApplicable(es: seq<Edit>, offset: int, to: int)
    requires Disjoint(es) && InRange(es, offset, to)
    ensures Disjoint(Shifted(es, offset)) && InRange(Shifted(es, offset), 0, to - offset)
  {
    forall i | 0 <= i < |es|
      ensures Shifted(es, offset)[i] == Shift(es[i], offset)
    {
      ShiftedAt(es, offset, i);
    }
  }

  lemma {:induction false} DescendingConcat(a: seq<Edit>, b: seq<Edit>)
    requires Descending(a) && Descending(b) && forall e, f :: e in a && f in b ==> f.start < e.start
    ensures Descending(a + b)
    decreases a
  {
    if a == [] {
      assert a + b == b;
    } else {
      DescendingConcat(a[1..], b);
      assert (a + b)[1..] == a[1..] + b;
    }
  }

  // Listing the edits of two neighbouring stretches together sorts them stretch by stretch.
  lemma SortInTwo(a: seq<Edit>, b: seq<Edit>, from: int, mid: int, to: int)
    requires Disjoint(a + b) && InRange(a, from, mid) && InRange(b, mid, to)
    ensures Disjoint(a) && Disjoint(b)
    ensures SortDescending(a + b) == SortDescending(b) + SortDescending(a)
  {
    PartsDisjoint(a, b);
    SortDescends(a);
    SortDescends(b);
    SortDescends(a + b);
    SortedMembers(a);
    SortedMembers(b);
    DescendingConcat(SortDescending(b), SortDescending(a));
    DescendingUnique(SortDescending(a + b), SortDescending(b) + SortDescending(a));
  }

  lemma PartsDisjoint(a: seq<Edit>, b: seq<Edit>)
    requires Disjoint(a + b)
    ensures Disjoint(a) && Disjoint(b)
    ensures forall e, f :: e in a && f in b ==> e.start != f.start
  {
    var all := a + b;
    assert forall i :: 0 <= i < |b| ==> all[|a| + i] == b[i];
    forall i, j | 0 <= i < j < |b|
      ensures b[i].start != b[j].start && (b[i].end <= b[j].start || b[j].end <= b[i].start)
    {
      assert all[|a| + i] == b[i] && all[|a| + j] == b[j];
    }
    forall i, j | 0 <= i < j < |a|
      ensures a[i].start != a[j].start && (a[i].end <= a[j].start || a[j].end <= a[i].start)
    {
      assert all[i] == a[i] && all[j] == a[j];
    }
    forall e, f | e in a && f in b
      ensures e.start != f.start
    {
      var i :| 0 <= i < |a| && a[i] == e;
      var j :| 0 <= j < |b| && b[j] == f;
      assert all[i] == e && all[|a| + j] == f;
    }
  }

  lemma MeaningOfShifted(text: string, es: seq<Edit>, offset: int)
    requires Disjoint(es) && InRange(es, offset, offset + |text|)
    ensures var inOrder := Shifted(Reverse(SortDescending(es)), offset);
      Applicable(text, Shifted(es, offset)) && Ordered(inOrder, 0, |text|)
      && Meaning(text, Shifted(es, offset)) == Replaced(text, inOrder, 0)
  {
    ShiftedApplicable(es, offset, offset + |text|);
    SortedIsOrdered(Shifted(es, offset), 0, |text|);
    SortShifted(es, offset);
    ReverseShifted(SortDescending(es), offset);
  }

  lemma RangeOfConcat(a: seq<Edit>, b: seq<Edit>, from: int, mid: int, to: int)
    requires InRange(a, from, mid) && InRange(b, mid, to) && from <= mid <= to
    ensures InRange(a + b, from, to)
  {
  }

  // Editing a slice with the edits shifted to it gives the matching slice of the whole
  // result, whatever is edited before and after it.
  lemma SliceCommutes(text: string, before: seq<Edit>, inside: seq<Edit>, after: seq<Edit>, start: int, end: int)
    requires 0 <= start <= end <= |text| && Disjoint(before + (inside + after))
    requires InRange(before, 0, start) && InRange(inside, start, end) && InRange(after, end, |text|)
    ensures Applicable(text, before + (inside + after)) && Applicable(text[..start], before)
    ensures Applicable(text[start..end], Shifted(inside, start)) && Applicable(text[end..], Shifted(after, end))
    ensures Meaning(text, before + (inside + after))
      == Meaning(text[..start], before)
         + (Meaning(text[start..end], Shifted(inside, start)) + Meaning(text[end..], Shifted(after, end)))
  {
    RangeOfConcat(inside, after, start, end, |text|);
    RangeOfConcat(before, inside + after, 0, start, |text|);
    SortInTwo(before, inside + after, 0, start, |text|);
    SortInTwo(inside, after, start, end, |text|);
    MeaningOfShifted(text[start..end], inside, start);
    MeaningOfShifted(text[end..], after, end);
    SortedIsOrdered(before, 0, start);
    SortedIsOrdered(inside, start, end);
    SortedIsOrdered(after, end, |text|);
    var early, middle, late := SortDescending(before), SortDescending(inside), SortDescending(after);
    ReverseConcat(late + middle, early);
    ReverseConcat(late, middle);
    SliceOfOrdered(text, Reverse(early), Reverse(middle), Reverse(late), start, end);
  }
}
