// Ordering enum members so that each comes after the members it mentions, as far as the
// mentions are not circular.
module TopoSort {

  // A member with the identifiers its value mentions, in order of appearance.
  datatype Member = Member(name: string, mentions: seq<string>)

  ghost predicate DistinctNames(members: seq<Member>) {
    forall i, j :: 0 <= i < j < |members| ==> members[i].name != members[j].name
  }

  // ---------------------------------------------------------------- the graph

  // Each member name with the other members it depends on, in order of first mention.
  type Graph = map<string, seq<string>>

  ghost predicate Closed(g: Graph) {
    forall a, i :: a in g && 0 <= i < |g[a]| ==> g[a][i] in g && g[a][i] != a
  }

  ghost predicate Edge(g: Graph, a: string, b: string) {
    a in g && b in g[a]
  }

  ghost predicate IsPath(g: Graph, p: seq<string>) {
    p != [] && forall i :: 0 <= i < |p| - 1 ==> Edge(g, p[i], p[i + 1])
  }

  ghost predicate Reaches(g: Graph, a: string, b: string) {
    exists p :: IsPath(g, p) && p[0] == a && p[|p| - 1] == b
  }

  function Dependencies(name: string, mentions: seq<string>, names: set<string>): (r: seq<string>)
    ensures forall x :: x in r <==> x in mentions && x != name && x in names
  {
    if mentions == [] then []
    else
      var init := Dependencies(name, mentions[..|mentions| - 1], names);
      var last := mentions[|mentions| - 1];
      assert mentions == mentions[..|mentions| - 1] + [last];
      if last != name && last in names && last !in init then init + [last] else init
  }

  function NameSet(members: seq<Member>): set<string> {
    set m | m in members :: m.name
  }

  // Where two members share a name, the later one's mentions count.
  function LastMentions(members: seq<Member>, name: string): seq<string> {
    if members == [] then []
    else if members[|members| - 1].name == name then members[|members| - 1].mentions
    else LastMentions(members[..|members| - 1], name)
  }

  function DependencyGraph(members: seq<Member>): (g: Graph)
    ensures Closed(g) && g.Keys == NameSet(members)
  {
    var names := NameSet(members);
    var g := map a | a in names :: Dependencies(a, LastMentions(members, a), names);
    assert forall a, i :: a in g && 0 <= i < |g[a]| ==> g[a][i] in g[a];
    g
  }

  // What a member depends on is what the value of the last member of its name mentions, other
  // than itself, among the members.
  lemma EdgesAreMentions(members: seq<Member>, i: nat, b: string)
    requires i < |members| && forall k :: i < k < |members| ==> members[k].name != members[i].name
    ensures Edge(DependencyGraph(members), members[i].name, b)
      <==> b in members[i].mentions && b != members[i].name && b in NameSet(members)
  {
    LastMentionsFound(members, i);
    assert members[i] in members;
  }

  lemma {:induction false} LastMentionsFound(members: seq<Member>, i: nat)
    requires i < |members| && forall k :: i < k < |members| ==> members[k].name != members[i].name
    ensures LastMentions(members, members[i].name) == members[i].mentions
    decreases |members|
  {
    if i < |members| - 1 {
      LastMentionsFound(members[..|members| - 1], i);
    }
  }

  // The first is mentioned somewhere before the second is.
  ghost predicate MentionedBefore(mentions: seq<string>, a: string, b: string) {
    exists k :: 0 <= k < |mentions| && mentions[k] == a && b !in mentions[..k + 1]
  }

  ghost predicate InMentionOrder(mentions: seq<string>, names: seq<string>) {
    forall i, j :: 0 <= i < j < |names| ==> MentionedBefore(mentions, names[i], names[j])
  }

  lemma MentionedStill(mentions: seq<string>, a: string, b: string, next: string)
    requires MentionedBefore(mentions, a, b) || (a in mentions && b == next && next !in mentions)
    ensures MentionedBefore(mentions + [next], a, b)
  {
    var k :| 0 <= k < |mentions| && mentions[k] == a && b !in mentions[..k + 1];
    assert (mentions + [next])[..k + 1] == mentions[..k + 1];
  }

  // Each dependency is listed once, in the order of first mention.
  lemma {:induction false} DependenciesInOrder(name: string, mentions: seq<string>, names: set<string>)
    ensures InMentionOrder(mentions, Dependencies(name, mentions, names))
    decreases |mentions|
  {
    if mentions != [] {
      var init, last := mentions[..|mentions| - 1], mentions[|mentions| - 1];
      assert mentions == init + [last];
      DependenciesInOrder(name, init, names);
      var r := Dependencies(name, mentions, names);
      forall i, j | 0 <= i < j < |r|
        ensures MentionedBefore(mentions, r[i], r[j])
      {
        MentionedStill(init, r[i], r[j], last);
      }
    }
  }

  // ---------------------------------------------------------------- the order

  // Every dependency of a listed name is listed before it, or reaches it.
  ghost predicate InOrder(g: Graph, sorted: seq<string>) {
    forall i, b :: 0 <= i < |sorted| && Edge(g, sorted[i], b) ==> b in sorted[..i] || Reaches(g, b, sorted[i])
  }

  ghost predicate Distinct(s: seq<string>) {
    forall i, j :: 0 <= i < j < |s| ==> s[i] != s[j]
  }

  // The names being visited form a path, each depending on the next.
  ghost predicate IsStack(g: Graph, stack: seq<string>, visiting: set<string>) {
    Distinct(stack) && (forall x :: x in stack <==> x in visiting) && (stack != [] ==> IsPath(g, stack))
    && forall x :: x in stack ==> x in g
  }

  lemma StackReachesTop(g: Graph, stack: seq<string>, b: string)
    requires IsPath(g, stack) && b in stack
    ensures Reaches(g, b, stack[|stack| - 1])
  {
    var k :| 0 <= k < |stack| && stack[k] == b;
    var p := stack[k..];
    forall i | 0 <= i < |p| - 1
      ensures Edge(g, p[i], p[i + 1])
    {
      assert p[i] == stack[k + i] && p[i + 1] == stack[k + i + 1];
    }
    assert IsPath(g, p) && p[0] == b && p[|p| - 1] == stack[|stack| - 1];
  }

  // A name not listed yet whose dependencies all are.
  ghost predicate Ready(g: Graph, name: string, listed: seq<string>) {
    name !in listed && forall b :: Edge(g, name, b) ==> b in listed
  }

  ghost predicate AllReady(g: Graph, names: seq<string>) {
    forall i :: 0 <= i < |names| ==> Ready(g, names[i], names[..i])
  }

  // One of the first names reaches it.
  ghost predicate Needed(g: Graph, names: seq<string>, x: string) {
    exists j :: 0 <= j < |names| && Reaches(g, names[j], x)
  }

  ghost predicate AllNeeded(g: Graph, names: seq<string>, listed: seq<string>) {
    forall x :: x in listed ==> Needed(g, names, x)
  }

  // From the position on, nothing is listed before one of the names that it or a name before it
  // does not need.
  ghost predicate NothingEarly(g: Graph, names: seq<string>, listed: seq<string>, from: nat) {
    forall i, k :: 0 <= i < |names| && from <= k < |listed| && names[i] in listed[k..] ==> Needed(g, names[..i + 1], listed[k])
  }

  lemma ReachesItself(g: Graph, a: string)
    ensures Reaches(g, a, a)
  {
    assert IsPath(g, [a]);
  }

  lemma ReachesThrough(g: Graph, a: string, b: string, x: string)
    requires Edge(g, a, b) && Reaches(g, b, x)
    ensures Reaches(g, a, x)
  {
    var p :| IsPath(g, p) && p[0] == b && p[|p| - 1] == x;
    var q := [a] + p;
    assert forall i :: 0 <= i < |q| - 1 ==> q[i + 1] == p[i] && (i > 0 ==> q[i] == p[i - 1]);
    assert IsPath(g, q);
  }

  lemma NeededByMore(g: Graph, names: seq<string>, more: seq<string>, x: string)
    requires names <= more && Needed(g, names, x)
    ensures Needed(g, more, x)
  {
    var j :| 0 <= j < |names| && Reaches(g, names[j], x);
    assert more[j] == names[j];
  }

  // The names with the next one and what it needs, unless it is there or being visited.
  function Listed(g: Graph, name: string, visiting: set<string>, listed: seq<string>): (r: seq<string>)
    requires Closed(g) && name in g
    ensures listed <= r
    decreases g.Keys - visiting, 0
  {
    if name in listed || name in visiting then listed
    else
      assert forall i :: 0 <= i < |g[name]| ==> g[name][i] in g;
      ListedAll(g, g[name], visiting + {name}, listed) + [name]
  }

  function ListedAll(g: Graph, names: seq<string>, visiting: set<string>, listed: seq<string>): (r: seq<string>)
    requires Closed(g) && forall i :: 0 <= i < |names| ==> names[i] in g
    ensures listed <= r
    decreases g.Keys - visiting, |names| + 1
  {
    if names == [] then listed
    else ListedAll(g, names[1..], visiting, Listed(g, names[0], visiting, listed))
  }

  // A list of distinct names of the graph none of which is being visited.
  ghost predicate Clean(g: Graph, listed: seq<string>, visiting: set<string>) {
    Distinct(listed) && forall x :: x in listed ==> x in g && x !in visiting
  }

  lemma {:induction false} ListedIsClean(g: Graph, name: string, visiting: set<string>, listed: seq<string>)
    requires Closed(g) && name in g && Clean(g, listed, visiting)
    ensures var r := Listed(g, name, visiting, listed); Clean(g, r, visiting) && (name in r || name in visiting)
    decreases g.Keys - visiting, 0
  {
    if name !in listed && name !in visiting {
      ListedAllIsClean(g, g[name], visiting + {name}, listed);
    }
  }

  lemma {:induction false} ListedAllIsClean(g: Graph, names: seq<string>, visiting: set<string>, listed: seq<string>)
    requires Closed(g) && Clean(g, listed, visiting) && forall i :: 0 <= i < |names| ==> names[i] in g
    ensures var r := ListedAll(g, names, visiting, listed);
      Clean(g, r, visiting) && forall i :: 0 <= i < |names| ==> names[i] in r || names[i] in visiting
    decreases g.Keys - visiting, |names| + 1
  {
    if names != [] {
      ListedIsClean(g, names[0], visiting, listed);
      ListedAllIsClean(g, names[1..], visiting, Listed(g, names[0], visiting, listed));
    }
  }

  // A visit adds only what the name needs, and the name last.
  lemma {:induction false} ListedIsNeeded(g: Graph, name: string, visiting: set<string>, listed: seq<string>)
    requires Closed(g) && name in g
    ensures var r := Listed(g, name, visiting, listed);
      AllNeeded(g, [name], r[|listed|..]) && (r != listed ==> r[|r| - 1] == name)
    decreases g.Keys - visiting, 0
  {
    if name !in listed && name !in visiting {
      var inner := ListedAll(g, g[name], visiting + {name}, listed);
      ListedAllIsNeeded(g, g[name], visiting + {name}, listed);
      NeededByName(g, name, inner[|listed|..]);
      assert (inner + [name])[|listed|..] == inner[|listed|..] + [name];
    }
  }

  lemma {:induction false} ListedAllIsNeeded(g: Graph, names: seq<string>, visiting: set<string>, listed: seq<string>)
    requires Closed(g) && forall i :: 0 <= i < |names| ==> names[i] in g
    ensures AllNeeded(g, names, ListedAll(g, names, visiting, listed)[|listed|..])
    decreases g.Keys - visiting, |names| + 1
  {
    if names != [] {
      var first := Listed(g, names[0], visiting, listed);
      var r := ListedAll(g, names[1..], visiting, first);
      ListedIsNeeded(g, names[0], visiting, listed);
      ListedAllIsNeeded(g, names[1..], visiting, first);
      forall x | x in r[|listed|..]
        ensures Needed(g, names, x)
      {
        assert r[|listed|..] == first[|listed|..] + r[|first|..];
        if x in first[|listed|..] {
          assert [names[0]] == names[..1];
          NeededByMore(g, names[..1], names, x);
        } else {
          NeededByRest(g, names, x);
        }
      }
    }
  }

  lemma NeededByRest(g: Graph, names: seq<string>, x: string)
    requires names != [] && Needed(g, names[1..], x)
    ensures Needed(g, names, x)
  {
    var j :| 0 <= j < |names[1..]| && Reaches(g, names[1..][j], x);
    assert names[j + 1] == names[1..][j];
  }

  // Names visited one after the other: nothing is listed before one of them that neither it nor
  // a name before it needs.
  lemma {:induction false} NothingListedEarly(g: Graph, names: seq<string>, visiting: set<string>, listed: seq<string>)
    requires Closed(g) && Clean(g, listed, visiting) && forall i :: 0 <= i < |names| ==> names[i] in g
    ensures NothingEarly(g, names, ListedAll(g, names, visiting, listed), |listed|)
    decreases |names|
  {
    if names != [] {
      var first := Listed(g, names[0], visiting, listed);
      var r := ListedAll(g, names[1..], visiting, first);
      ListedIsClean(g, names[0], visiting, listed);
      ListedAllIsClean(g, names[1..], visiting, first);
      NothingListedEarly(g, names[1..], visiting, first);
      forall i, k | 0 <= i < |names| && |listed| <= k < |r| && names[i] in r[k..]
        ensures Needed(g, names[..i + 1], r[k])
      {
        if k < |first| {
          ListedIsNeeded(g, names[0], visiting, listed);
          assert r[k] == first[|listed|..][k - |listed|];
          NeededByMore(g, [names[0]], names[..i + 1], r[k]);
        } else {
          NotListedAgain(g, first, r, k, names[0], visiting);
          assert names[1..][i - 1] == names[i] && names[1..][..i] == names[..i + 1][1..];
          NeededByRest(g, names[..i + 1], r[k]);
        }
      }
    }
  }

  lemma NotListedAgain(g: Graph, first: seq<string>, r: seq<string>, k: nat, name: string, visiting: set<string>)
    requires first <= r && Clean(g, r, visiting) && |first| <= k < |r| && (name in first || name in visiting)
    ensures name !in r[k..]
  {
    forall i | k <= i < |r|
      ensures r[i] != name
    {
      assert r[i] in r;
      assert forall j :: 0 <= j < |first| ==> first[j] == r[j] && r[j] != r[i];
    }
  }

  lemma NeededByName(g: Graph, name: string, listed: seq<string>)
    requires name in g && AllNeeded(g, g[name], listed)
    ensures AllNeeded(g, [name], listed + [name])
  {
    forall x | x in listed + [name]
      ensures Needed(g, [name], x)
    {
      if x in listed {
        var j :| 0 <= j < |g[name]| && Reaches(g, g[name][j], x);
        assert Edge(g, name, g[name][j]);
        ReachesThrough(g, name, g[name][j], x);
      } else {
        ReachesItself(g, name);
      }
      assert [name][0] == name;
    }
  }

  class Sorter {
    const g: Graph
    var visited: set<string>
    var visiting: set<string>
    var sorted: seq<string>

    constructor (g: Graph)
      ensures this.g == g && visited == {} && visiting == {} && sorted == []
    {
      this.g := g;
      visited, visiting, sorted := {}, {}, [];
    }

    ghost predicate Valid()
      reads this
    {
      Closed(g) && forall x :: x in sorted <==> x in visited
    }

    method Visit(name: string)
      requires Valid() && name in g
      modifies this
      ensures Valid() && visiting == old(visiting)
      ensures sorted == Listed(g, name, old(visiting), old(sorted))
      decreases g.Keys - visiting
    {
      if name in visited {
        return;
      }
      if name in visiting {
        return;
      }
      visiting := visiting + {name};
      var deps := g[name];
      assert forall j :: 0 <= j < |deps| ==> deps[j] in g;
      for i := 0 to |deps|
        invariant Valid() && visiting == old(visiting) + {name}
        invariant ListedAll(g, deps, visiting, old(sorted)) == ListedAll(g, deps[i..], visiting, sorted)
      {
        assert deps[i..][0] == deps[i] && deps[i..][1..] == deps[i + 1..];
        Visit(deps[i]);
      }
      visiting := visiting - {name};
      visited := visited + {name};
      sorted := sorted + [name];
    }

    // Visits from outside, one name after the other.
    method VisitAll(names: seq<string>)
      requires Valid() && visiting == {} && sorted == [] && forall i :: 0 <= i < |names| ==> names[i] in g
      modifies this
      ensures Valid() && visiting == {}
      ensures sorted == ListedAll(g, names, {}, [])
    {
      for i := 0 to |names|
        invariant Valid() && visiting == {}
        invariant ListedAll(g, names, {}, []) == ListedAll(g, names[i..], {}, sorted)
      {
        assert names[i..][0] == names[i] && names[i..][1..] == names[i + 1..];
        Visit(names[i]);
      }
    }
  }

  // Once its dependencies are listed or still being visited, a name can be listed.
  lemma FinishName(g: Graph, listed: seq<string>, name: string, path: seq<string>)
    requires InOrder(g, listed) && name in g && IsPath(g, path) && path[|path| - 1] == name
    requires forall b :: b in g[name] ==> b in listed || b in path
    ensures InOrder(g, listed + [name])
  {
    var after := listed + [name];
    forall i, b | 0 <= i < |after| && Edge(g, after[i], b)
      ensures b in after[..i] || Reaches(g, b, after[i])
    {
      if i < |listed| {
        assert after[..i] == listed[..i] && Edge(g, listed[i], b);
      } else {
        assert after[..i] == listed;
        if b !in listed {
          StackReachesTop(g, path, b);
        }
      }
    }
  }

  lemma PushedIsStack(g: Graph, stack: seq<string>, visiting: set<string>, name: string)
    requires IsStack(g, stack, visiting) && name in g && name !in visiting
    requires stack != [] ==> Edge(g, stack[|stack| - 1], name)
    ensures IsStack(g, stack + [name], visiting + {name})
  {
    var path := stack + [name];
    assert forall i :: 0 <= i < |path| - 1 ==> Edge(g, path[i], path[i + 1]);
  }

  lemma {:induction false} ListedInOrder(g: Graph, name: string, stack: seq<string>, visiting: set<string>, listed: seq<string>)
    requires Closed(g) && name in g && Clean(g, listed, visiting) && InOrder(g, listed)
    requires IsStack(g, stack, visiting) && (stack != [] ==> Edge(g, stack[|stack| - 1], name))
    ensures InOrder(g, Listed(g, name, visiting, listed))
    decreases g.Keys - visiting, 0
  {
    if name !in listed && name !in visiting {
      var path := stack + [name];
      PushedIsStack(g, stack, visiting, name);
      assert forall i :: 0 <= i < |g[name]| ==> Edge(g, path[|path| - 1], g[name][i]);
      ListedAllIsClean(g, g[name], visiting + {name}, listed);
      ListedAllInOrder(g, g[name], path, visiting + {name}, listed);
      FinishName(g, ListedAll(g, g[name], visiting + {name}, listed), name, path);
    }
  }

  // Every dependency of a listed name is before it or circular, however the visits nest.
  lemma {:induction false} ListedAllInOrder(g: Graph, names: seq<string>, stack: seq<string>, visiting: set<string>, listed: seq<string>)
    requires Closed(g) && Clean(g, listed, visiting) && InOrder(g, listed) && forall i :: 0 <= i < |names| ==> names[i] in g
    requires IsStack(g, stack, visiting)
    requires stack != [] ==> forall i :: 0 <= i < |names| ==> Edge(g, stack[|stack| - 1], names[i])
    ensures InOrder(g, ListedAll(g, names, visiting, listed))
    decreases g.Keys - visiting, |names| + 1
  {
    if names != [] {
      ListedIsClean(g, names[0], visiting, listed);
      ListedInOrder(g, names[0], stack, visiting, listed);
      ListedAllInOrder(g, names[1..], stack, visiting, Listed(g, names[0], visiting, listed));
    }
  }

  lemma {:induction false} NothingToList(g: Graph, names: seq<string>, visiting: set<string>, listed: seq<string>)
    requires Closed(g) && forall i :: 0 <= i < |names| ==> names[i] in g && names[i] in listed
    ensures ListedAll(g, names, visiting, listed) == listed
    decreases |names|
  {
    if names != [] {
      NothingToList(g, names[1..], visiting, listed);
    }
  }

  // Names that each come when all they depend on is listed stay as they are.
  lemma {:induction false} ReadyStay(g: Graph, names: seq<string>, i: nat)
    requires Closed(g) && AllReady(g, names) && i <= |names| && forall k :: 0 <= k < |names| ==> names[k] in g
    ensures ListedAll(g, names[i..], {}, names[..i]) == names
    decreases |names| - i
  {
    if i < |names| {
      var name := names[i];
      assert Ready(g, name, names[..i]);
      assert forall k :: 0 <= k < |g[name]| ==> Edge(g, name, g[name][k]);
      NothingToList(g, g[name], {name}, names[..i]);
      assert {} + {name} == {name};
      assert Listed(g, name, {}, names[..i]) == names[..i] + [name] == names[..i + 1];
      assert names[i..][0] == name && names[i..][1..] == names[i + 1..];
      ReadyStay(g, names, i + 1);
    } else {
      assert names[i..] == [] && names[..i] == names;
    }
  }

  // ---------------------------------------------------------------- the sort

  function FirstNamed(members: seq<Member>, name: string): (m: Member)
    requires name in NameSet(members)
    ensures m in members && m.name == name
  {
    if members[0].name == name then members[0]
    else
      assert members == [members[0]] + members[1..];
      FirstNamed(members[1..], name)
  }

  function MembersNamed(members: seq<Member>, names: seq<string>): (r: seq<Member>)
    requires forall x :: x in names ==> x in NameSet(members)
    ensures |r| == |names| && forall i :: 0 <= i < |r| ==> r[i] == FirstNamed(members, names[i])
  {
    seq(|names|, i requires 0 <= i < |names| => assert names[i] in names; FirstNamed(members, names[i]))
  }

  // Each member already stands after its dependencies.
  ghost predicate AlreadyInOrder(members: seq<Member>) {
    forall i, b :: 0 <= i < |members| && Edge(DependencyGraph(members), members[i].name, b) ==>
      exists j :: 0 <= j < i && members[j].name == b
  }

  ghost predicate KeepsOrder(members: seq<Member>) {
    DistinctNames(members) && AlreadyInOrder(members)
  }

  function Names(members: seq<Member>): (r: seq<string>)
    ensures |r| == |members| && forall i :: 0 <= i < |r| ==> r[i] == members[i].name
  {
    seq(|members|, i requires 0 <= i < |members| => members[i].name)
  }

  // With nothing out of order, each name is new and its dependencies are listed.
  lemma NamesAreReady(members: seq<Member>)
    requires KeepsOrder(members)
    ensures AllReady(DependencyGraph(members), Names(members))
  {
    var names := Names(members);
    forall i | 0 <= i < |names|
      ensures Ready(DependencyGraph(members), names[i], names[..i])
    {
      forall b | Edge(DependencyGraph(members), names[i], b)
        ensures b in names[..i]
      {
        var j :| 0 <= j < i && members[j].name == b;
        assert names[..i][j] == b;
      }
    }
  }

  function SortedNames(members: seq<Member>): seq<string> {
    NamesInSet(members);
    ListedAll(DependencyGraph(members), Names(members), {}, [])
  }

  method SortNames(members: seq<Member>) returns (names: seq<string>)
    ensures names == SortedNames(members)
  {
    NamesInSet(members);
    var sorter := new Sorter(DependencyGraph(members));
    sorter.VisitAll(Names(members));
    names := sorter.sorted;
  }

  lemma SortedNamesHold(members: seq<Member>)
    ensures var g, names := DependencyGraph(members), SortedNames(members);
      Distinct(names) && InOrder(g, names) && NothingEarly(g, Names(members), names, 0)
    ensures forall x :: x in SortedNames(members) <==> x in NameSet(members)
    ensures KeepsOrder(members) ==> SortedNames(members) == Names(members)
  {
    var g, names := DependencyGraph(members), Names(members);
    NamesInSet(members);
    ListedAllIsClean(g, names, {}, []);
    ListedAllInOrder(g, names, [], {}, []);
    NothingListedEarly(g, names, {}, []);
    AllListed(members);
    if KeepsOrder(members) {
      NamesAreReady(members);
      ReadyStay(g, names, 0);
      assert names[0..] == names && names[..0] == [];
    }
  }

  lemma AllListed(members: seq<Member>)
    ensures forall x :: x in SortedNames(members) <==> x in NameSet(members)
  {
    var g, names := DependencyGraph(members), Names(members);
    NamesInSet(members);
    ListedAllIsClean(g, names, {}, []);
    forall x | x in NameSet(members)
      ensures x in SortedNames(members)
    {
      var i :| 0 <= i < |names| && names[i] == x;
    }
  }

  lemma NamesInSet(members: seq<Member>)
    ensures forall x :: x in Names(members) <==> x in NameSet(members)
    ensures forall i :: 0 <= i < |Names(members)| ==> Names(members)[i] in DependencyGraph(members)
  {
    forall x | x in NameSet(members)
      ensures x in Names(members)
    {
      var m :| m in members && m.name == x;
      var i :| 0 <= i < |members| && members[i] == m;
      assert Names(members)[i] == x;
    }
  }

  // One member for each name, in an order that puts every dependency first unless it is
  // circular; the whole input if its names are distinct, and unchanged if already in order. No
  // member is put before another one unless it or a member before it in the input needs that.
  method TopoSortMembers(members: seq<Member>) returns (sorted: seq<Member>)
    ensures Distinct(Names(sorted)) && forall x :: x in Names(sorted) <==> x in NameSet(members)
    ensures sorted == MembersNamed(members, Names(sorted))
    ensures InOrder(DependencyGraph(members), Names(sorted))
    ensures multiset(sorted) == multiset(members) <==> DistinctNames(members)
    ensures DistinctNames(members) && AlreadyInOrder(members) ==> sorted == members
    ensures NothingEarly(DependencyGraph(members), Names(members), Names(sorted), 0)
  {
    var names := SortNames(members);
    AllListed(members);
    sorted := MembersNamed(members, names);
    assert Names(sorted) == names;
    SortedNamesHold(members);
    PermutationExact(members, names);
    if DistinctNames(members) && AlreadyInOrder(members) {
      AllNamed(members);
    }
  }

  lemma AllNamed(members: seq<Member>)
    requires DistinctNames(members) && forall x :: x in Names(members) ==> x in NameSet(members)
    ensures MembersNamed(members, Names(members)) == members
  {
    forall i | 0 <= i < |members|
      ensures MembersNamed(members, Names(members))[i] == members[i]
    {
      FirstNamedIs(members, i);
    }
  }

  lemma {:induction false} FirstNamedIs(members: seq<Member>, i: nat)
    requires i < |members| && DistinctNames(members)
    ensures members[i].name in NameSet(members) && FirstNamed(members, members[i].name) == members[i]
  {
    assert members[i] in members;
    if i > 0 {
      assert members[0].name != members[i].name;
      FirstNamedIs(members[1..], i - 1);
    }
  }

  // The result is a rearrangement of the input exactly when no name occurs twice.
  lemma PermutationExact(members: seq<Member>, names: seq<string>)
    requires Distinct(names) && forall x :: x in names <==> x in NameSet(members)
    ensures multiset(MembersNamed(members, names)) == multiset(members) <==> DistinctNames(members)
  {
    var sorted := MembersNamed(members, names);
    if DistinctNames(members) {
      forall m
        ensures multiset(sorted)[m] == multiset(members)[m]
      {
        OccursOnce(members, m);
        OccursOnce(sorted, m);
        if m in members {
          var i :| 0 <= i < |members| && members[i] == m;
          FirstNamedIs(members, i);
          var j :| 0 <= j < |names| && names[j] == m.name;
          assert sorted[j] == m;
        }
      }
    } else {
      var i, j :| 0 <= i < j < |members| && members[i].name == members[j].name;
      TwoIndices(sorted, members, i, j);
    }
  }

  lemma {:induction false} OccursOnce(members: seq<Member>, m: Member)
    requires DistinctNames(members)
    ensures multiset(members)[m] == if m in members then 1 else 0
  {
    if members != [] {
      var rest := members[1..];
      assert members == [members[0]] + rest;
      assert forall k :: 0 <= k < |rest| ==> rest[k] == members[k + 1];
      OccursOnce(rest, m);
    }
  }

  // A list of distinct names cannot hold two members of the same name.
  lemma TwoIndices(sorted: seq<Member>, members: seq<Member>, i: nat, j: nat)
    requires DistinctNames(sorted)
    requires i < j < |members| && members[i].name == members[j].name
    ensures multiset(sorted) != multiset(members)
  {
    var a, b := members[i], members[j];
    assert members == members[..i] + [a] + members[i + 1..j] + [b] + members[j + 1..];
    assert a == b ==> multiset(members)[a] >= 2;
    OccursOnce(sorted, a);
    assert a in multiset(members) && b in multiset(members);
    assert a in sorted && b in sorted ==> a == b;
  }

  // Of two members with one name only the first is found for it.
  lemma SecondOfANameIsLost()
    ensures var first, second := Member("A", ["B"]), Member("A", []);
      NameSet([first, second]) == {"A"} && MembersNamed([first, second], ["A"]) == [first]
  {
    var first, second := Member("A", ["B"]), Member("A", []);
    assert first in [first, second];
    assert FirstNamed([first, second], "A") == first;
  }
}
