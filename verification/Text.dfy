// Splitting, joining and searching strings, with the facts the path modules rest on:
// splitting undoes joining where no part holds the separator, joining undoes splitting always,
// the first position of a character or a text is where the search says, and a string split
// once more behind a new separator has one more, empty, part.
module Text {

  // The first position of c at or after `from`, or -1.
  function IndexOf(s: string, c: char, from: nat): (i: int)
    ensures i == -1 || from <= i < |s|
    ensures i == -1 ==> forall j :: from <= j < |s| ==> s[j] != c
    ensures i != -1 ==> s[i] == c && forall j :: from <= j < i ==> s[j] != c
    decreases |s| - from
  {
    if |s| <= from then -1 else if s[from] == c then from else IndexOf(s, c, from + 1)
  }

  lemma IndexOfIs(s: string, c: char, from: nat, i: nat)
    requires from <= i < |s| && s[i] == c && forall j :: from <= j < i ==> s[j] != c
    ensures IndexOf(s, c, from) == i
  {
  }

  function Split(s: string, c: char): (parts: seq<string>)
    ensures parts != [] && forall part :: part in parts ==> c !in part
    decreases |s|
  {
    var i := IndexOf(s, c, 0);
    if i == -1 then [s] else [s[..i]] + Split(s[i + 1..], c)
  }

  function Join(parts: seq<string>, c: char): string {
    if parts == [] then "" else if |parts| == 1 then parts[0] else parts[0] + [c] + Join(parts[1..], c)
  }

  lemma JoinCons(part: string, parts: seq<string>, c: char)
    requires parts != []
    ensures Join([part] + parts, c) == part + [c] + Join(parts, c)
  {
    assert ([part] + parts)[1..] == parts;
  }

  lemma {:induction false} JoinSplit(s: string, c: char)
    ensures Join(Split(s, c), c) == s
    decreases |s|
  {
    var i := IndexOf(s, c, 0);
    if i != -1 {
      JoinSplit(s[i + 1..], c);
      JoinCons(s[..i], Split(s[i + 1..], c), c);
      assert s == s[..i] + [c] + s[i + 1..];
    }
  }

  lemma {:induction false} SplitJoin(parts: seq<string>, c: char)
    requires parts != [] && forall part :: part in parts ==> c !in part
    ensures Split(Join(parts, c), c) == parts
  {
    var head, rest := parts[0], parts[1..];
    assert head in parts && parts == [head] + rest;
    if rest != [] {
      assert forall part :: part in rest ==> part in parts;
      SplitJoin(rest, c);
      JoinCons(head, rest, c);
      SplitHead(head, Join(rest, c), c);
    } else {
      SplitWhole(head, c);
    }
  }

  lemma {:induction false} SplitWhole(s: string, c: char)
    requires c !in s
    ensures Split(s, c) == [s]
  {
  }

  lemma {:induction false} SplitHead(head: string, tail: string, c: char)
    requires c !in head
    ensures Split(head + [c] + tail, c) == [head] + Split(tail, c)
  {
    var s := head + [c] + tail;
    assert forall j :: 0 <= j < |head| ==> s[j] == head[j] && head[j] in head;
    IndexOfIs(s, c, 0, |head|);
    assert s[..|head|] == head && s[|head| + 1..] == tail;
  }

  lemma {:induction false} SplitAppend(s: string, c: char)
    ensures Split(s + [c], c) == Split(s, c) + [""]
    decreases |s|
  {
    var i := IndexOf(s, c, 0);
    if i == -1 {
      SplitHead(s, "", c);
      assert s + [c] + "" == s + [c];
    } else {
      var head, tail := s[..i], s[i + 1..];
      assert s == head + [c] + tail;
      SplitAppend(tail, c);
      SplitHead(head, tail, c);
      SplitHead(head, tail + [c], c);
      assert head + [c] + (tail + [c]) == s + [c];
    }
  }

  // Joining in two: the tail of the parts follows one separator.
  lemma {:induction false} JoinTwo(a: seq<string>, b: seq<string>, c: char)
    requires a != [] && b != []
    ensures Join(a + b, c) == Join(a, c) + [c] + Join(b, c)
  {
    if |a| == 1 {
      assert (a + b)[1..] == b;
    } else {
      assert (a + b)[1..] == a[1..] + b;
      JoinTwo(a[1..], b, c);
    }
  }

  predicate EndsWith(s: string, suffix: string) {
    |suffix| <= |s| && s[|s| - |suffix|..] == suffix
  }

  predicate StandsAt(s: string, t: string, i: nat) {
    i + |t| <= |s| && s[i..i + |t|] == t
  }

  // The first position of the substring at or after `from`, or -1.
  function IndexOfText(s: string, t: string, from: nat): (i: int)
    ensures i == -1 || (from <= i && StandsAt(s, t, i))
    ensures forall j: nat :: from <= j && (i == -1 || j < i) ==> !StandsAt(s, t, j)
    decreases |s| - from
  {
    if StandsAt(s, t, from) then from
    else if |s| <= from then -1
    else IndexOfText(s, t, from + 1)
  }

  // The position of a URI's query or fragment, or the end.
  function SuffixStart(s: string): (n: nat)
    ensures n <= |s|
  {
    if s == "" || s[0] == '?' || s[0] == '#' then 0 else 1 + SuffixStart(s[1..])
  }

  // What it keeps holds neither mark, and it ends at one of them or with the text.
  lemma SuffixStartsAtMark(s: string)
    ensures '?' !in s[..SuffixStart(s)] && '#' !in s[..SuffixStart(s)]
    ensures SuffixStart(s) < |s| ==> s[SuffixStart(s)] == '?' || s[SuffixStart(s)] == '#'
  {
    if SuffixStart(s) > 0 {
      SuffixStartsAtMark(s[1..]);
      assert s[..SuffixStart(s)] == [s[0]] + s[1..][..SuffixStart(s[1..])];
    }
  }

  lemma {:induction false} SuffixBehind(s: string, suffix: string)
    requires '?' !in s && '#' !in s && (suffix == "" || suffix[0] == '?' || suffix[0] == '#')
    ensures SuffixStart(s + suffix) == |s|
    decreases |s|
  {
    if s == "" {
      assert s + suffix == suffix;
    } else {
      assert s[0] in s && (s + suffix)[1..] == s[1..] + suffix;
      SuffixBehind(s[1..], suffix);
    }
  }

  function LastIndexOf(s: string, c: char): (i: int)
    ensures -1 <= i < |s|
    ensures i != -1 ==> s[i] == c
    ensures forall j :: i < j < |s| ==> s[j] != c
  {
    if s == "" then -1 else if s[|s| - 1] == c then |s| - 1 else LastIndexOf(s[..|s| - 1], c)
  }

  lemma SuffixOfSuffix(s: string, n: nat, size: nat)
    requires n <= |s| && size <= |s| - n
    ensures s[|s| - size..] == s[n..][|s| - n - size..]
  {
  }

  lemma SuffixHasNo(s: string, n: nat, c: char)
    requires n <= |s| && c !in s
    ensures c !in s[n..]
  {
  }

  lemma AfterPrefix(prefix: string, s: string)
    ensures (prefix + s)[|prefix|..] == s
  {
  }

  lemma NoSuffix(s: string)
    requires '?' !in s && '#' !in s
    ensures SuffixStart(s) == |s|
  {
    if s != "" {
      assert forall c :: c in s[1..] ==> c in s;
      NoSuffix(s[1..]);
    }
  }

  lemma JoinOneMore(parts: seq<string>, part: string)
    ensures Join(parts + [part], '/') == Join(parts, '/') + if parts == [] then part else "/" + part
  {
    if parts == [] {
      assert parts + [part] == [part];
    } else {
      JoinTwo(parts, [part], '/');
    }
  }

  lemma JoinHasNoNul(s: string, c: char)
    requires '\0' !in s
    ensures forall part :: part in Split(s, c) ==> '\0' !in part
    decreases |s|
  {
    var i := IndexOf(s, c, 0);
    if i != -1 {
      assert forall d :: d in s[i + 1..] ==> d in s;
      JoinHasNoNul(s[i + 1..], c);
    }
  }

  lemma ConcatHasNo(a: string, b: string, c: char)
    requires c !in a && c !in b
    ensures c !in a + b
  {
  }

  lemma JoinHasNo(parts: seq<string>, c: char, d: char)
    requires c != d && forall part :: part in parts ==> d !in part
    ensures d !in Join(parts, c)
  {
    if parts != [] {
      assert parts[0] in parts;
      JoinHasNo(parts[1..], c, d);
    }
  }

  // The first separator after a part without one is at its end.
  lemma PartEnds(before: string, part: string, after: string)
    requires '/' !in part
    ensures IndexOf(before + part + "/" + after, '/', |before|) == |before| + |part|
  {
    var s := before + part + "/" + after;
    assert forall j :: |before| <= j < |before| + |part| ==> s[j] == part[j - |before|] && part[j - |before|] in part;
    IndexOfIs(s, '/', |before|, |before| + |part|);
  }

  lemma IndexOfPrefix(s: string, c: char, from: nat, n: nat)
    requires n <= |s|
    ensures IndexOf(s[..n], c, from) == if IndexOf(s, c, from) < n then IndexOf(s, c, from) else -1
    decreases n - from
  {
    if from < n && s[from] != c {
      IndexOfPrefix(s, c, from + 1, n);
    }
  }

  lemma GlueScheme(scheme: string, rest: string)
    ensures scheme + ":" + ("//" + rest) == scheme + "://" + rest
  {
  }

  lemma GlueAuthority(before: string, name: string, rest: string)
    ensures before + (name + "/" + rest) == before + name + "/" + rest
  {
  }

  lemma RegroupParts(prefix: string, scheme: string, authority: string, tail: string)
    ensures "/" + prefix + (scheme + "/" + authority + "/" + tail) == "/" + (prefix + scheme + "/" + authority + "/" + tail)
  {
  }

  lemma RegroupBare(prefix: string, scheme: string, authority: string)
    ensures ("/" + prefix + (scheme + "/" + authority))[1..] == prefix + scheme + "/" + authority
  {
  }

  lemma {:induction false} SchemePrefix(s: string, from: nat, n: nat)
    requires n <= |s|
    ensures var i := IndexOfText(s, "://", from);
      IndexOfText(s[..n], "://", from) == if i != -1 && i + 3 <= n then i else -1
  {
    var p := s[..n];
    var i, j := IndexOfText(s, "://", from), IndexOfText(p, "://", from);
    assert forall k: nat :: k + 3 <= n ==> (StandsAt(p, "://", k) <==> StandsAt(s, "://", k));
    if j != -1 {
      assert StandsAt(s, "://", j);
    }
    if i != -1 && i + 3 <= n {
      assert StandsAt(p, "://", i);
    }
  }

  lemma SameFront(front: string, a: string, b: string)
    ensures front + a == front + b <==> a == b
  {
    assert (front + a)[|front|..] == a && (front + b)[|front|..] == b;
  }

  lemma SameEnds(front: string, middle: string, a: string, b: string)
    ensures front + (middle + a) == front + (middle + b) <==> a == b
  {
    assert (front + (middle + a))[|front| + |middle|..] == a;
    assert (front + (middle + b))[|front| + |middle|..] == b;
  }

  // Two dot-free names in front of the same text, each ended by a dot or by its end, are one.
  lemma FirstDot(tail: string, base: string, other: string, dotted: bool)
    requires '.' !in base && '.' !in other && base + "." <= tail && other <= tail
    requires if dotted then |other| < |tail| && tail[|other|] == '.' else tail == other
    ensures base == other
  {
    assert tail[|base|] == '.';
    assert forall i :: 0 <= i < |base| ==> tail[i] == base[i] && base[i] in base;
    assert forall i :: 0 <= i < |other| ==> tail[i] == other[i] && other[i] in other;
    assert |base| == |other|;
    assert base == tail[..|base|];
  }
}
