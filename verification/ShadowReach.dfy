// Whether a use of a shadowed variable can still be reached in the control-flow graph after
// the declaration that shadows it.
module ShadowReach {
  import opened Basics

  type Pos = int

  datatype Node = Node(pos: Pos, end: Pos)

  // A basic block; its successors are indices into the graph.
  datatype Block = Block(nodes: seq<Node>, succs: seq<nat>)

  type Graph = seq<Block>

  predicate PosInBlock(b: Block, pos: Pos) {
    b.nodes != [] && b.nodes[0].pos <= pos && pos <= b.nodes[|b.nodes| - 1].end
  }

  // The nodes follow one another in the source.
  predicate InSourceOrder(b: Block) {
    (forall i :: 0 <= i < |b.nodes| ==> b.nodes[i].pos <= b.nodes[i].end)
    && forall i, j :: 0 <= i < j < |b.nodes| ==> b.nodes[i].end <= b.nodes[j].pos
  }

  // Such a block holds every position from the start of its first node to the end of its last
  // one, that of each node between included, and no other.
  lemma BlockHoldsItsNodes(b: Block, pos: Pos)
    requires InSourceOrder(b)
    ensures (exists i :: 0 <= i < |b.nodes| && b.nodes[i].pos <= pos <= b.nodes[i].end) ==> PosInBlock(b, pos)
    ensures PosInBlock(b, pos) ==>
      exists i, j :: 0 <= i <= j < |b.nodes| && b.nodes[i].pos <= pos <= b.nodes[j].end
    ensures PosInBlock(b, pos) ==>
      forall i :: 0 <= i < |b.nodes| ==> b.nodes[0].pos <= b.nodes[i].pos && b.nodes[i].end <= b.nodes[|b.nodes| - 1].end
    ensures (exists i, j :: 0 <= i <= j < |b.nodes| && b.nodes[i].pos <= pos <= b.nodes[j].end) ==> PosInBlock(b, pos)
  {
    if i, j :| 0 <= i <= j < |b.nodes| && b.nodes[i].pos <= pos <= b.nodes[j].end {
      assert b.nodes[0].pos <= b.nodes[i].pos && b.nodes[j].end <= b.nodes[|b.nodes| - 1].end;
    }
  }

  predicate WellFormed(g: Graph) {
    forall b, i :: 0 <= b < |g| && 0 <= i < |g[b].succs| ==> g[b].succs[i] < |g|
  }

  predicate Uses(b: Block, uses: seq<Pos>) {
    exists i :: 0 <= i < |uses| && PosInBlock(b, uses[i])
  }

  lemma UsesExact(b: Block, uses: seq<Pos>)
    ensures Uses(b, uses) <==> exists pos :: pos in uses && PosInBlock(b, pos)
  {
    if pos :| pos in uses && PosInBlock(b, pos) {
      var i :| 0 <= i < |uses| && uses[i] == pos;
    }
  }

  // The first of the uses that lies in the block.
  ghost predicate FirstUseIn(b: Block, uses: seq<Pos>, pos: Pos) {
    exists i :: 0 <= i < |uses| && uses[i] == pos && PosInBlock(b, uses[i])
      && forall j :: 0 <= j < i ==> !PosInBlock(b, uses[j])
  }

  // A path along the graph that never enters a block holding the shadowed declaration and
  // ends in a block holding a use.
  ghost predicate LivePath(g: Graph, decl: Pos, uses: seq<Pos>, p: seq<nat>)
    requires WellFormed(g)
  {
    p != [] && (forall i :: 0 <= i < |p| ==> p[i] < |g| && !PosInBlock(g[p[i]], decl))
    && (forall i :: 0 <= i < |p| - 1 ==> p[i + 1] in g[p[i]].succs)
    && Uses(g[p[|p| - 1]], uses)
  }

  // The blocks in s cannot lead anywhere new: each holds the declaration, or it holds no use
  // and all its successors have been seen.
  ghost predicate Exhausted(g: Graph, decl: Pos, uses: seq<Pos>, s: set<nat>, seen: set<nat>)
    requires WellFormed(g)
  {
    forall b :: b in s && b < |g| ==>
      PosInBlock(g[b], decl) || (!Uses(g[b], uses) && forall c :: c in g[b].succs ==> c in seen)
  }

  ghost function Indices(n: nat): (s: set<nat>)
    ensures forall i: nat :: i in s <==> i < n
  {
    if n == 0 then {} else Indices(n - 1) + {n - 1}
  }

  class Search {
    const g: Graph
    const decl: Pos
    const uses: seq<Pos>
    var seen: set<nat>

    constructor (g: Graph, decl: Pos, uses: seq<Pos>)
      ensures this.g == g && this.decl == decl && this.uses == uses && seen == {}
    {
      this.g := g;
      this.decl := decl;
      this.uses := uses;
      seen := {};
    }

    ghost predicate Done(before: set<nat>)
      requires WellFormed(g)
      reads this
    {
      before <= seen && Exhausted(g, decl, uses, seen - before, seen)
    }

    // Follows the successors depth first, entering each block once.
    method Reachable(b: nat) returns (found: Option<Pos>, ghost path: seq<nat>)
      requires WellFormed(g) && b < |g|
      modifies this
      ensures found.Some? ==> LivePath(g, decl, uses, path) && path[0] == b && FirstUseIn(g[path[|path| - 1]], uses, found.value)
      ensures found.None? ==> b in seen && Done(old(seen))
      decreases Indices(|g|) - seen
    {
      path := [];
      if b in seen {
        return None, path;
      }
      seen := seen + {b};
      if PosInBlock(g[b], decl) {
        return None, path;
      }
      for i := 0 to |uses|
        invariant forall j :: 0 <= j < i ==> !PosInBlock(g[b], uses[j])
      {
        if PosInBlock(g[b], uses[i]) {
          assert FirstUseIn(g[b], uses, uses[i]);
          return Some(uses[i]), [b];
        }
      }
      for i := 0 to |g[b].succs|
        invariant old(seen) + {b} <= seen
        invariant forall j :: 0 <= j < i ==> g[b].succs[j] in seen
        invariant Exhausted(g, decl, uses, seen - old(seen) - {b}, seen)
      {
        ghost var before := seen;
        var succ := g[b].succs[i];
        ghost var rest;
        found, rest := Reachable(succ);
        if found.Some? {
          path := [b] + rest;
          LivePathFrom(g, decl, uses, b, rest);
          return found, path;
        }
        assert seen - old(seen) - {b} == (before - old(seen) - {b}) + (seen - before);
      }
      return None, [];
    }
  }

  lemma LivePathFrom(g: Graph, decl: Pos, uses: seq<Pos>, b: nat, p: seq<nat>)
    requires WellFormed(g) && b < |g| && !PosInBlock(g[b], decl)
    requires LivePath(g, decl, uses, p) && p[0] in g[b].succs
    ensures LivePath(g, decl, uses, [b] + p)
  {
    var q := [b] + p;
    assert forall i :: 0 < i < |q| ==> q[i] == p[i - 1];
  }

  // No live path starts inside an exhausted set.
  lemma {:induction false} NoLivePath(g: Graph, decl: Pos, uses: seq<Pos>, seen: set<nat>, p: seq<nat>)
    requires WellFormed(g) && Exhausted(g, decl, uses, seen, seen)
    requires p != [] && p[0] in seen
    ensures !LivePath(g, decl, uses, p)
    decreases |p|
  {
    if LivePath(g, decl, uses, p) && |p| > 1 {
      var rest := p[1..];
      assert p[0 + 1] in g[p[0]].succs;
      assert forall i :: 0 <= i < |rest| ==> rest[i] == p[i + 1];
      NoLivePath(g, decl, uses, seen, rest);
    }
  }

  datatype Verdict =
    | NoStartBlock            // the shadowing identifier is in no block: the program dereferences nil here
    | Unreachable
    | ReachableFrom(use: Pos)

  ghost predicate LivePathAfter(g: Graph, start: nat, decl: Pos, uses: seq<Pos>, p: seq<nat>)
    requires WellFormed(g) && start < |g|
  {
    LivePath(g, decl, uses, p) && p[0] in g[start].succs
  }

  // The first block at or after `from` that holds the position.
  function StartBlock(g: Graph, ident: Pos, from: nat): (start: Option<nat>)
    ensures start.None? ==> forall b :: from <= b < |g| ==> !PosInBlock(g[b], ident)
    ensures start.Some? ==>
      from <= start.value < |g| && PosInBlock(g[start.value], ident)
      && forall b :: from <= b < start.value ==> !PosInBlock(g[b], ident)
    decreases |g| - from
  {
    if |g| <= from then None else if PosInBlock(g[from], ident) then Some(from) else StartBlock(g, ident, from + 1)
  }

  // A graph of one block without nodes: no block holds the identifier.
  lemma EmptyBlockHoldsNothing(ident: Pos)
    ensures WellFormed([Block([], [])]) && StartBlock([Block([], [])], ident, 0) == None
  {
    var g: Graph := [Block([], [])];
    assert !PosInBlock(g[0], ident);
    assert StartBlock(g, ident, 1) == None;
  }

  ghost predicate ReachableAfter(g: Graph, start: nat, decl: Pos, uses: seq<Pos>)
    requires WellFormed(g) && start < |g|
  {
    exists p :: LivePathAfter(g, start, decl, uses, p)
  }

  // The use is the first one of a block that a live path ends in.
  ghost predicate ReachesUse(g: Graph, start: nat, decl: Pos, uses: seq<Pos>, use: Pos)
    requires WellFormed(g) && start < |g|
  {
    exists p :: LivePathAfter(g, start, decl, uses, p) && FirstUseIn(g[p[|p| - 1]], uses, use)
  }

  // A use is reported exactly when a live path leads from a successor of the first block with
  // the identifier to a block with a use.
  method PositionIsReachable(g: Graph, ident: Pos, decl: Pos, uses: seq<Pos>) returns (r: Verdict)
    requires WellFormed(g)
    ensures match StartBlock(g, ident, 0)
      case None => r == NoStartBlock
      case Some(start) =>
        if ReachableAfter(g, start, decl, uses) then r.ReachableFrom? && ReachesUse(g, start, decl, uses, r.use) else r == Unreachable
  {
    var start := FindStart(g, ident);
    if start.None? {
      return NoStartBlock;
    }
    var found := SearchFrom(g, start.value, decl, uses);
    return if found.Some? then ReachableFrom(found.value) else Unreachable;
  }

  method FindStart(g: Graph, ident: Pos) returns (start: Option<nat>)
    ensures start == StartBlock(g, ident, 0)
  {
    for i := 0 to |g|
      invariant StartBlock(g, ident, i) == StartBlock(g, ident, 0)
    {
      if PosInBlock(g[i], ident) {
        return Some(i);
      }
    }
    return None;
  }

  // Searches from each successor of the start block in turn, with one set of blocks seen.
  method SearchFrom(g: Graph, start: nat, decl: Pos, uses: seq<Pos>) returns (found: Option<Pos>)
    requires WellFormed(g) && start < |g|
    ensures if ReachableAfter(g, start, decl, uses) then found.Some? && ReachesUse(g, start, decl, uses, found.value) else found == None
  {
    var search := new Search(g, decl, uses);
    for i := 0 to |g[start].succs|
      invariant Exhausted(g, decl, uses, search.seen, search.seen)
      invariant forall j :: 0 <= j < i ==> g[start].succs[j] in search.seen
      invariant search.g == g && search.decl == decl && search.uses == uses
    {
      ghost var before := search.seen;
      ghost var path;
      found, path := search.Reachable(g[start].succs[i]);
      if found.Some? {
        assert LivePathAfter(g, start, decl, uses, path);
        return;
      }
      assert search.seen == before + (search.seen - before);
    }
    NoLivePathAfter(g, start, decl, uses, search.seen);
    return None;
  }

  lemma NoLivePathAfter(g: Graph, start: nat, decl: Pos, uses: seq<Pos>, seen: set<nat>)
    requires WellFormed(g) && start < |g| && Exhausted(g, decl, uses, seen, seen)
    requires forall c :: c in g[start].succs ==> c in seen
    ensures !ReachableAfter(g, start, decl, uses)
  {
    forall p | p != [] && p[0] in seen
      ensures !LivePath(g, decl, uses, p)
    {
      NoLivePath(g, decl, uses, seen, p);
    }
  }
}
