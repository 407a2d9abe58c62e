// The order edits are applied in when starts coincide, and where an edit with an index outside the text lands.
module EditOrder {
  import opened Basics
  import opened SourceEdits

  // No edit starts after one before it.
  predicate Falls(es: seq<Edit>) {
    es == [] || ((forall e :: e in es[1..] ==> e.start <= es[0].start) && Falls(es[1..]))
  }

  lemma {:induction false} InsertFalls(e: Edit, es: seq<Edit>)
    requires Falls(es)
    ensures Falls(Insert(e, es))
  {
    if es != [] && e.start < es[0].start {
      InsertFalls(e, es[1..]);
      var rest := Insert(e, es[1..]);
      assert Insert(e, es) == [es[0]] + rest && Insert(e, es)[1..] == rest;
      forall f | f in rest
        ensures f.start <= es[0].start
      {
        assert f in multiset(rest);
        assert f == e || f in multiset(es[1..]);
      }
    } else if es != [] {
      assert ([e] + es)[1..] == es && es == [es[0]] + es[1..];
    }
  }

  // The starts fall in every list of edits.
  lemma {:induction false} SortFalls(es: seq<Edit>)
    ensures Falls(SortDescending(es))
  {
    if es != [] {
      SortFalls(es[1..]);
      InsertFalls(es[0], SortDescending(es[1..]));
    }
  }

  function StartingAt(es: seq<Edit>, start: int): seq<Edit> {
    if es == [] then [] else OneAt(es[0], start) + StartingAt(es[1..], start)
  }

  function OneAt(e: Edit, start: int): seq<Edit> {
    if e.start == start then [e] else []
  }

  lemma StartingAtCons(e: Edit, es: seq<Edit>, start: int)
    ensures StartingAt([e] + es, start) == OneAt(e, start) + StartingAt(es, start)
  {
    assert ([e] + es)[1..] == es;
  }

  lemma InsertBehind(e: Edit, es: seq<Edit>)
    requires es != [] && e.start < es[0].start
    ensures Insert(e, es) == [es[0]] + Insert(e, es[1..]) && es == [es[0]] + es[1..]
  {
  }

  lemma {:induction false} InsertIsStable(e: Edit, es: seq<Edit>, start: int)
    ensures StartingAt(Insert(e, es), start) == StartingAt([e] + es, start)
    decreases |es|
  {
    if es != [] && e.start < es[0].start {
      InsertBehind(e, es);
      InsertIsStable(e, es[1..], start);
      StartingAtCons(e, es, start);
      StartingAtCons(e, es[1..], start);
      StartingAtCons(es[0], es[1..], start);
      StartingAtCons(es[0], Insert(e, es[1..]), start);
      SwapEmpty(OneAt(e, start), OneAt(es[0], start), StartingAt(es[1..], start));
    }
  }

  // Edits with one start are applied in the order they are listed in.
  lemma {:induction false} SortIsStable(es: seq<Edit>, start: int)
    ensures StartingAt(SortDescending(es), start) == StartingAt(es, start)
  {
    if es != [] {
      SortIsStable(es[1..], start);
      InsertIsStable(es[0], SortDescending(es[1..]), start);
      StartingAtCons(es[0], SortDescending(es[1..]), start);
    }
  }

  // Of two insertions at one place, the one listed last comes first in the text.
  lemma LastInsertionIsFirst(front: string, back: string, one: string, two: string)
    ensures var at := |front|;
      SpliceAll(front + back, SortDescending([Edit(at, at, one), Edit(at, at, two)])) == front + two + one + back
  {
    var at, text := |front|, front + back;
    var a, b := Edit(at, at, one), Edit(at, at, two);
    assert [a, b][1..] == [b] && SortDescending([b]) == [b];
    assert SortDescending([a, b]) == [a] + [b];
    var after := Splice(text, a);
    assert text[..at] == front && text[at..] == back;
    assert after == front + one + back;
    assert after[..at] == front && after[at..] == one + back;
    assert Splice(after, b) == front + two + (one + back);
    assert ([a] + [b])[1..] == [b];
    assert SpliceAll(text, [a] + [b]) == SpliceAll(after, [b]) == Splice(after, b);
  }

  // A negative index counts from the end; one beyond either end is that end.
  lemma SlicePositionNamed(text: string, n: int)
    requires 0 <= n
    ensures n <= |text| ==> |text[SlicePosition(n, |text|)..]| == |text| - n
    ensures 0 < n <= |text| ==> |text[SlicePosition(-n, |text|)..]| == n
    ensures |text| < n ==> text[SlicePosition(n, |text|)..] == "" && text[SlicePosition(-n, |text|)..] == text
  {
  }
}
