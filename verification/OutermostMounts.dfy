// Dropping the mounts that lie in another one: a single pass over the mounts by length.
module OutermostMounts {
  import opened Basics
  import opened Text

  datatype Mount = Mount(mountPoint: string, scheme: string)

  function WithSlash(path: string): string {
    if path != "" && path[|path| - 1] == '/' then path else path + "/"
  }

  // The mount is the same as, or lies below, the outer one on the same file system.
  predicate LiesIn(mount: Mount, outer: Mount) {
    outer.scheme == mount.scheme && WithSlash(outer.mountPoint) <= WithSlash(mount.mountPoint)
  }

  // A mount point without one slash at its end.
  function Bare(path: string): string {
    if path != "" && path[|path| - 1] == '/' then path[..|path| - 1] else path
  }

  // Lying in a mount is starting with all of its folder names, so "/ab" does not lie in "/a".
  lemma LiesInExact(mount: Mount, outer: Mount)
    ensures LiesIn(mount, outer) <==> mount.scheme == outer.scheme && Split(Bare(outer.mountPoint), '/') <= Split(Bare(mount.mountPoint), '/')
  {
    var a, b := Bare(outer.mountPoint), Bare(mount.mountPoint);
    assert WithSlash(outer.mountPoint) == a + "/" && WithSlash(mount.mountPoint) == b + "/";
    if a + "/" <= b + "/" {
      TextPrefixSplits(a, b);
    }
    if Split(a, '/') <= Split(b, '/') {
      SplitPrefixJoins(a, b);
    }
  }

  lemma TextPrefixSplits(a: string, b: string)
    requires a + "/" <= b + "/"
    ensures Split(a, '/') <= Split(b, '/')
  {
    if |a| < |b| {
      var rest := b[|a| + 1..];
      assert b[|a|] == (b + "/")[|a|] == (a + "/")[|a|] == '/';
      assert b == a + "/" + rest;
      SplitTwo(a, rest);
    } else {
      assert a == (b + "/")[..|a|] == b;
    }
  }

  lemma SplitTwo(a: string, rest: string)
    ensures Split(a + "/" + rest, '/') == Split(a, '/') + Split(rest, '/')
  {
    JoinSplit(a, '/');
    JoinSplit(rest, '/');
    JoinTwo(Split(a, '/'), Split(rest, '/'), '/');
    SplitJoin(Split(a, '/') + Split(rest, '/'), '/');
  }

  lemma SplitPrefixJoins(a: string, b: string)
    requires Split(a, '/') <= Split(b, '/')
    ensures a + "/" <= b + "/"
  {
    var names, rest := Split(a, '/'), Split(b, '/')[|Split(a, '/')|..];
    assert Split(b, '/') == names + rest;
    JoinSplit(a, '/');
    JoinSplit(b, '/');
    if rest != [] {
      JoinTwo(names, rest, '/');
    } else {
      assert names + rest == names;
    }
  }

  predicate ByLength(ms: seq<Mount>) {
    forall i, j :: 0 <= i < j < |ms| ==> |ms[i].mountPoint| <= |ms[j].mountPoint|
  }

  ghost predicate AtLeast(n: nat, ms: seq<Mount>) {
    forall m :: m in ms ==> n <= |m.mountPoint|
  }

  ghost predicate AtMost(n: nat, ms: seq<Mount>) {
    forall m :: m in ms ==> |m.mountPoint| <= n
  }

  // The library's sort: stable, shorter mount points first.
  function Insert(m: Mount, ms: seq<Mount>): (r: seq<Mount>)
    ensures multiset(r) == multiset(ms) + multiset{m}
  {
    if ms == [] || |m.mountPoint| <= |ms[0].mountPoint| then [m] + ms
    else
      assert ms == [ms[0]] + ms[1..];
      [ms[0]] + Insert(m, ms[1..])
  }

  function Sort(ms: seq<Mount>): (r: seq<Mount>)
    ensures multiset(r) == multiset(ms)
  {
    if ms == [] then [] else
      assert ms == [ms[0]] + ms[1..];
      Insert(ms[0], Sort(ms[1..]))
  }

  lemma ByLengthCons(m: Mount, ms: seq<Mount>)
    ensures ByLength([m] + ms) <==> AtLeast(|m.mountPoint|, ms) && ByLength(ms)
  {
    var all := [m] + ms;
    assert forall i :: 0 <= i < |ms| ==> ms[i] == all[i + 1];
    if ByLength(all) {
      forall x | x in ms
        ensures |m.mountPoint| <= |x.mountPoint|
      {
        var i :| 0 <= i < |ms| && ms[i] == x;
        assert all[0] == m && all[i + 1] == x;
      }
    }
  }

  lemma {:induction false} InsertKeepsOrder(m: Mount, ms: seq<Mount>)
    requires ByLength(ms)
    ensures ByLength(Insert(m, ms))
  {
    if ms == [] {
    } else {
      assert ms == [ms[0]] + ms[1..];
      ByLengthCons(ms[0], ms[1..]);
      if |m.mountPoint| <= |ms[0].mountPoint| {
        ByLengthCons(m, ms);
      } else {
        InsertKeepsOrder(m, ms[1..]);
        var rest := Insert(m, ms[1..]);
        assert forall x :: x in rest ==> x in multiset(rest);
        ByLengthCons(ms[0], rest);
      }
    }
  }

  lemma {:induction false} SortIsByLength(ms: seq<Mount>)
    ensures ByLength(Sort(ms))
  {
    if ms != [] {
      SortIsByLength(ms[1..]);
      InsertKeepsOrder(ms[0], Sort(ms[1..]));
    }
  }

  // Sorting by the raw length is enough although nesting is decided with a slash added: a
  // mount that lies in a longer or equally long one has the same slash-terminated path.
  lemma ShorterCannotBeInside(short: Mount, long: Mount)
    requires |short.mountPoint| <= |long.mountPoint| && LiesIn(short, long)
    ensures LiesIn(long, short)
  {
    var s, l := WithSlash(short.mountPoint), WithSlash(long.mountPoint);
    assert l == s[..|l|];
    assert s[..|short.mountPoint|] == short.mountPoint;
    if |l| == |short.mountPoint| {
      assert short.mountPoint == l && l[|l| - 1] == '/';
    }
    assert s == l;
  }

  lemma LiesInTransitive(a: Mount, b: Mount, c: Mount)
    requires LiesIn(a, b) && LiesIn(b, c)
    ensures LiesIn(a, c)
  {
  }

  ghost predicate Unnested(kept: seq<Mount>) {
    forall i, j :: 0 <= i < |kept| && 0 <= j < |kept| && i != j ==> !LiesIn(kept[i], kept[j])
  }

  ghost predicate Covers(kept: seq<Mount>, mounts: seq<Mount>) {
    forall m :: m in mounts ==> exists k :: k in kept && LiesIn(m, k)
  }

  // A mount that lies in none of the shorter ones kept so far can join them.
  lemma JoinsUnnested(kept: seq<Mount>, mount: Mount)
    requires Unnested(kept) && ByLength(kept) && AtMost(|mount.mountPoint|, kept)
    requires forall k :: k in kept ==> !LiesIn(mount, k)
    ensures Unnested(kept + [mount]) && ByLength(kept + [mount])
  {
    forall k | k in kept
      ensures !LiesIn(k, mount)
    {
      if LiesIn(k, mount) {
        ShorterCannotBeInside(k, mount);
      }
    }
  }

  lemma CoversMore(kept: seq<Mount>, more: seq<Mount>, mounts: seq<Mount>, mount: Mount)
    requires Covers(kept, mounts) && (exists k :: k in kept + more && LiesIn(mount, k))
    ensures Covers(kept + more, mounts + [mount])
  {
    forall m | m in mounts
      ensures exists k :: k in kept + more && LiesIn(m, k)
    {
      var k :| k in kept && LiesIn(m, k);
      assert k in kept + more;
    }
  }

  lemma NextIsLongest(sorted: seq<Mount>, kept: seq<Mount>)
    requires ByLength(sorted) && sorted != [] && multiset(kept) <= multiset(sorted[..|sorted| - 1])
    ensures AtMost(|sorted[|sorted| - 1].mountPoint|, kept)
  {
    forall k | k in kept
      ensures |k.mountPoint| <= |sorted[|sorted| - 1].mountPoint|
    {
      assert k in multiset(kept);
      assert k in multiset(sorted[..|sorted| - 1]);
      assert k in sorted[..|sorted| - 1];
    }
  }

  // The mounts that lie in none of those kept before them.
  function Outermost(sorted: seq<Mount>): seq<Mount> {
    if sorted == [] then []
    else
      var kept, mount := Outermost(sorted[..|sorted| - 1]), sorted[|sorted| - 1];
      if exists outer | outer in kept :: LiesIn(mount, outer) then kept else kept + [mount]
  }

  lemma {:induction false} OutermostOfSorted(sorted: seq<Mount>)
    requires ByLength(sorted)
    ensures IsOutermost(Outermost(sorted), sorted)
  {
    if sorted != [] {
      var init, mount := sorted[..|sorted| - 1], sorted[|sorted| - 1];
      assert sorted == init + [mount];
      OutermostOfSorted(init);
      NextIsLongest(sorted, Outermost(init));
      OneMore(Outermost(init), init, mount);
    }
  }

  // What is kept of the mounts: none nests in another, all lie in them, and they are among them.
  ghost predicate IsOutermost(kept: seq<Mount>, mounts: seq<Mount>) {
    Unnested(kept) && Covers(kept, mounts) && ByLength(kept) && multiset(kept) <= multiset(mounts)
  }

  lemma OneMore(kept: seq<Mount>, init: seq<Mount>, mount: Mount)
    requires IsOutermost(kept, init) && AtMost(|mount.mountPoint|, kept)
    ensures if exists outer | outer in kept :: LiesIn(mount, outer) then IsOutermost(kept, init + [mount])
            else IsOutermost(kept + [mount], init + [mount])
  {
    if exists outer | outer in kept :: LiesIn(mount, outer) {
      assert kept + [] == kept;
      CoversMore(kept, [], init, mount);
    } else {
      JoinsUnnested(kept, mount);
      assert LiesIn(mount, mount) && mount in kept + [mount];
      CoversMore(kept, [mount], init, mount);
    }
  }

  method OutermostMountPoints(mounts: seq<Mount>) returns (kept: seq<Mount>)
    ensures IsOutermost(kept, mounts) && kept == Outermost(Sort(mounts))
  {
    var sorted := Sort(mounts);
    kept := [];
    for i := 0 to |sorted|
      invariant kept == Outermost(sorted[..i])
    {
      assert sorted[..i + 1][..i] == sorted[..i];
      if !exists outer | outer in kept :: LiesIn(sorted[i], outer) {
        kept := kept + [sorted[i]];
      }
    }
    assert sorted[..|sorted|] == sorted;
    KeptOfSorted(mounts);
  }

  lemma KeptOfSorted(mounts: seq<Mount>)
    ensures IsOutermost(Outermost(Sort(mounts)), mounts)
  {
    SortIsByLength(mounts);
    OutermostOfSorted(Sort(mounts));
    SortKeepsMembers(mounts);
  }

  // The mounts of one length, in their order.
  function OfLength(ms: seq<Mount>, n: nat): seq<Mount> {
    if ms == [] then [] else OneOf(ms[0], n) + OfLength(ms[1..], n)
  }

  function OneOf(m: Mount, n: nat): seq<Mount> {
    if |m.mountPoint| == n then [m] else []
  }

  lemma OfLengthCons(m: Mount, ms: seq<Mount>, n: nat)
    ensures OfLength([m] + ms, n) == OneOf(m, n) + OfLength(ms, n)
  {
    assert ([m] + ms)[1..] == ms;
  }

  // Mounts of one length stay in the order they came in.
  lemma {:induction false} SortIsStable(ms: seq<Mount>, n: nat)
    ensures OfLength(Sort(ms), n) == OfLength(ms, n)
  {
    if ms != [] {
      SortIsStable(ms[1..], n);
      InsertIsStable(ms[0], Sort(ms[1..]), n);
      OfLengthCons(ms[0], Sort(ms[1..]), n);
    }
  }

  lemma InsertBehind(m: Mount, ms: seq<Mount>)
    requires ms != [] && |ms[0].mountPoint| < |m.mountPoint|
    ensures Insert(m, ms) == [ms[0]] + Insert(m, ms[1..]) && ms == [ms[0]] + ms[1..]
  {
  }

  lemma {:induction false} InsertIsStable(m: Mount, ms: seq<Mount>, n: nat)
    ensures OfLength(Insert(m, ms), n) == OfLength([m] + ms, n)
    decreases |ms|
  {
    if ms != [] && |ms[0].mountPoint| < |m.mountPoint| {
      InsertBehind(m, ms);
      InsertIsStable(m, ms[1..], n);
      OfLengthCons(m, ms, n);
      OfLengthCons(m, ms[1..], n);
      OfLengthCons(ms[0], ms[1..], n);
      OfLengthCons(ms[0], Insert(m, ms[1..]), n);
      SwapEmpty(OneOf(m, n), OneOf(ms[0], n), OfLength(ms[1..], n));
    }
  }

  lemma SortKeepsMembers(mounts: seq<Mount>)
    ensures forall m :: m in mounts ==> m in Sort(mounts)
  {
    forall m | m in mounts
      ensures m in Sort(mounts)
    {
      assert m in multiset(mounts);
      assert m in multiset(Sort(mounts));
    }
  }

  // What is kept is outermost among all the mounts: one that a kept mount lies in is at the same place.
  lemma KeptAreOutermost(kept: seq<Mount>, mounts: seq<Mount>, i: nat, outer: Mount)
    requires Unnested(kept) && Covers(kept, mounts)
    requires i < |kept| && outer in mounts && LiesIn(kept[i], outer)
    ensures LiesIn(outer, kept[i])
  {
    var k :| k in kept && LiesIn(outer, k);
    var j :| 0 <= j < |kept| && kept[j] == k;
    LiesInTransitive(kept[i], outer, k);
    assert i == j;
  }
}
