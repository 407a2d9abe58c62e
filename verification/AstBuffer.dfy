// The binary form of an AST: what the encoder writes, and the readers that find a node's
// children and properties again in the flat list of records.
module AstBuffer {
  import opened Basics
  import opened MaskBits

  // A node or a node list; its children are its properties in visitor order, then its JSDoc.
  datatype Tree = Tree(kind: nat, data: bv32, children: seq<Tree>)

  // The fields of an encoded record that carry structure.
  datatype Record = Record(kind: nat, next: nat, parent: nat, data: bv32)

  const NIL: Record := Record(0, 0, 0, 0)

  // ---------------------------------------------------------------- the format

  function Size(t: Tree): (n: nat)
    ensures n >= 1
  {
    1 + SizeAll(t.children)
  }

  function SizeAll(ts: seq<Tree>): (n: nat)
    ensures n >= |ts|
  {
    if ts == [] then 0 else Size(ts[0]) + SizeAll(ts[1..])
  }

  // A tree at index i in pre-order: its record, then its children one after the other.
  function Layout(t: Tree, i: nat, parent: nat, next: nat): (rs: seq<Record>)
    ensures |rs| == Size(t)
  {
    [Record(t.kind, next, parent, t.data)] + LayoutAll(t.children, i + 1, i)
  }

  // Siblings from index i on: each names the next one, the last names none.
  function LayoutAll(ts: seq<Tree>, i: nat, parent: nat): (rs: seq<Record>)
    ensures |rs| == SizeAll(ts)
  {
    if ts == [] then []
    else Layout(ts[0], i, parent, if |ts| == 1 then 0 else i + Size(ts[0])) + LayoutAll(ts[1..], i + Size(ts[0]), parent)
  }

  // The nodes section: a nil record, so that 0 can mean no node, and the root at index 1.
  function Buffer(root: Tree): seq<Record> {
    [NIL] + Layout(root, 1, 0, 0)
  }

  // The nil record is all zeros, and the root has neither a parent nor a next sibling.
  lemma FirstRecords(root: Tree)
    ensures Buffer(root)[0] == Record(0, 0, 0, 0) && Buffer(root)[1] == Record(root.kind, 0, 0, root.data)
  {
  }

  // ---------------------------------------------------------------- the encoder

  function Linked(nodes: seq<Record>, prev: nat, next: nat): (r: seq<Record>)
    requires prev < |nodes|
    ensures |r| == |nodes|
  {
    if prev == 0 then nodes else Link(nodes, prev, next)
  }

  function Link(rs: seq<Record>, at: nat, next: nat): seq<Record>
    requires at < |rs|
  {
    rs[at := rs[at].(next := next)]
  }

  lemma LinkRight(a: seq<Record>, b: seq<Record>, at: nat, next: nat)
    requires at < |b|
    ensures Link(a + b, |a| + at, next) == a + Link(b, at, next)
  {
  }

  lemma LayoutCons(t: Tree, ts: seq<Tree>, i: nat, parent: nat)
    ensures SizeAll([t] + ts) == Size(t) + SizeAll(ts)
    ensures LayoutAll([t] + ts, i, parent)
      == Layout(t, i, parent, if ts == [] then 0 else i + Size(t)) + LayoutAll(ts, i + Size(t), parent)
  {
    assert ([t] + ts)[1..] == ts;
  }

  lemma LayoutSingle(t: Tree, i: nat, parent: nat)
    ensures LayoutAll([t], i, parent) == Layout(t, i, parent, 0) && SizeAll([t]) == Size(t)
  {
    assert [t] + [] == [t];
    LayoutCons(t, [], i, parent);
  }

  // How far after the first sibling's record the last sibling's record stands.
  function LastOffset(ts: seq<Tree>): (n: nat)
    requires ts != []
    ensures n < SizeAll(ts)
  {
    if |ts| == 1 then 0 else Size(ts[0]) + LastOffset(ts[1..])
  }

  lemma {:induction false} LastOffsetAppend(ts: seq<Tree>, t: Tree)
    ensures LastOffset(ts + [t]) == SizeAll(ts)
    decreases |ts|
  {
    if ts == [] {
      assert ts + [t] == [t];
    } else {
      assert (ts + [t])[1..] == ts[1..] + [t];
      LastOffsetAppend(ts[1..], t);
    }
  }

  // Siblings with one more written after them, the one before it told where it is.
  function Extended(ts: seq<Tree>, t: Tree, i: nat, parent: nat): seq<Record>
    requires ts != []
  {
    Link(LayoutAll(ts, i, parent), LastOffset(ts), i + SizeAll(ts)) + Layout(t, i + SizeAll(ts), parent, 0)
  }

  lemma {:induction false} LayoutAppend(ts: seq<Tree>, t: Tree, i: nat, parent: nat)
    requires ts != []
    ensures Extended(ts, t, i, parent) == LayoutAll(ts + [t], i, parent)
    decreases |ts|
  {
    if |ts| == 1 {
      assert ts == [ts[0]];
      LayoutAppendToOne(ts[0], t, i, parent);
    } else {
      assert ts == [ts[0]] + ts[1..];
      LayoutAppend(ts[1..], t, i + Size(ts[0]), parent);
      LayoutConsAppend(ts[0], ts[1..], t, i, parent);
    }
  }

  lemma {:induction false} LayoutAppendToOne(u: Tree, t: Tree, i: nat, parent: nat)
    ensures Extended([u], t, i, parent) == LayoutAll([u] + [t], i, parent)
  {
    ExtendedSingle(u, t, i, parent);
    LayoutSingle(t, i + Size(u), parent);
    LayoutCons(u, [t], i, parent);
  }

  lemma {:induction false} ExtendedSingle(u: Tree, t: Tree, i: nat, parent: nat)
    ensures Extended([u], t, i, parent) == Layout(u, i, parent, i + Size(u)) + Layout(t, i + Size(u), parent, 0)
  {
    LayoutSingle(u, i, parent);
    LinkFirst(u, i, parent, i + Size(u));
  }

  lemma {:induction false} LayoutConsAppend(head: Tree, rest: seq<Tree>, t: Tree, i: nat, parent: nat)
    requires rest != [] && Extended(rest, t, i + Size(head), parent) == LayoutAll(rest + [t], i + Size(head), parent)
    ensures Extended([head] + rest, t, i, parent) == LayoutAll([head] + rest + [t], i, parent)
  {
    ExtendedCons(head, rest, t, i, parent);
    LayoutConsTwice(head, rest, t, i, parent);
  }

  lemma {:induction false} ExtendedCons(head: Tree, rest: seq<Tree>, t: Tree, i: nat, parent: nat)
    requires rest != []
    ensures Extended([head] + rest, t, i, parent)
      == Layout(head, i, parent, i + Size(head)) + Extended(rest, t, i + Size(head), parent)
  {
    var j := i + Size(head);
    OffsetCons(head, rest);
    LayoutCons(head, rest, i, parent);
    LayoutAppendStep(Layout(head, i, parent, j), LayoutAll(rest, j, parent),
      LastOffset(rest), j + SizeAll(rest), Layout(t, j + SizeAll(rest), parent, 0));
  }

  lemma {:induction false} LayoutConsTwice(head: Tree, rest: seq<Tree>, t: Tree, i: nat, parent: nat)
    ensures LayoutAll([head] + rest + [t], i, parent)
      == Layout(head, i, parent, i + Size(head)) + LayoutAll(rest + [t], i + Size(head), parent)
  {
    assert [head] + rest + [t] == [head] + (rest + [t]);
    LayoutCons(head, rest + [t], i, parent);
  }

  lemma OffsetCons(head: Tree, rest: seq<Tree>)
    requires rest != []
    ensures LastOffset([head] + rest) == Size(head) + LastOffset(rest) && SizeAll([head] + rest) == Size(head) + SizeAll(rest)
  {
    assert ([head] + rest)[1..] == rest;
  }

  lemma LinkFirst(t: Tree, i: nat, parent: nat, next: nat)
    ensures Link(Layout(t, i, parent, 0), 0, next) == Layout(t, i, parent, next)
  {
  }

  lemma LayoutAppendStep(first: seq<Record>, rest: seq<Record>, at: nat, next: nat, last: seq<Record>)
    requires at < |rest|
    ensures Link(first + rest, |first| + at, next) + last == first + (Link(rest, at, next) + last)
  {
    LinkRight(first, rest, at, next);
    Regroup(first, Link(rest, at, next), last);
  }

  lemma {:induction false} LayoutExtend(base: seq<Record>, nodes: seq<Record>, ts: seq<Tree>, t: Tree, parent: nat)
    requires base != [] && nodes == base + LayoutAll(ts, |base|, parent)
    ensures Linked(nodes, if ts == [] then 0 else |base| + LastOffset(ts), |nodes|) + Layout(t, |nodes|, parent, 0)
      == base + LayoutAll(ts + [t], |base|, parent)
  {
    if ts == [] {
      ExtendNothing(base, nodes, ts, t, parent);
    } else {
      ExtendSiblings(base, nodes, ts, t, parent);
      LayoutAppend(ts, t, |base|, parent);
    }
  }

  lemma {:induction false} ExtendNothing(base: seq<Record>, nodes: seq<Record>, ts: seq<Tree>, t: Tree, parent: nat)
    requires base != [] && ts == [] && nodes == base + LayoutAll(ts, |base|, parent)
    ensures Linked(nodes, 0, |nodes|) + Layout(t, |nodes|, parent, 0) == base + LayoutAll(ts + [t], |base|, parent)
  {
    assert ts + [t] == [t] && nodes == base;
    LayoutSingle(t, |base|, parent);
  }

  lemma {:induction false} ExtendSiblings(base: seq<Record>, nodes: seq<Record>, ts: seq<Tree>, t: Tree, parent: nat)
    requires base != [] && ts != [] && nodes == base + LayoutAll(ts, |base|, parent)
    ensures Linked(nodes, |base| + LastOffset(ts), |nodes|) + Layout(t, |nodes|, parent, 0) == base + Extended(ts, t, |base|, parent)
  {
    LayoutAppendStep(base, LayoutAll(ts, |base|, parent), LastOffset(ts), |nodes|, Layout(t, |nodes|, parent, 0));
  }

  lemma {:induction false} NextSibling(base: seq<Record>, ts: seq<Tree>, k: nat, parent: nat)
    requires base != [] && k < |ts|
    ensures var nodes := base + LayoutAll(ts[..k], |base|, parent);
      Linked(nodes, if k == 0 then 0 else |base| + LastOffset(ts[..k]), |nodes|) + Layout(ts[k], |nodes|, parent, 0)
      == base + LayoutAll(ts[..k + 1], |base|, parent)
    ensures LastOffset(ts[..k + 1]) == SizeAll(ts[..k])
  {
    assert ts[..k + 1] == ts[..k] + [ts[k]];
    LayoutExtend(base, base + LayoutAll(ts[..k], |base|, parent), ts[..k], ts[k], parent);
    LastOffsetAppend(ts[..k], ts[k]);
  }

  // The encoder's walk: the records so far, the node whose children are being visited, and
  // the sibling visited before, 0 for none.
  class Encoder {
    var nodes: seq<Record>
    var parentIndex: nat
    var prevIndex: nat

    constructor ()
      ensures nodes == [NIL] && parentIndex == 0 && prevIndex == 0
    {
      nodes := [NIL];
      parentIndex := 0;
      prevIndex := 0;
    }

    method Visit(t: Tree)
      requires prevIndex < |nodes|
      modifies this
      ensures nodes == Linked(old(nodes), old(prevIndex), |old(nodes)|) + Layout(t, |old(nodes)|, old(parentIndex), 0)
      ensures prevIndex == |old(nodes)| && parentIndex == old(parentIndex)
      decreases t, 1
    {
      var currentIndex := |nodes|;
      if prevIndex != 0 {
        nodes := nodes[prevIndex := nodes[prevIndex].(next := currentIndex)];
      }
      nodes := nodes + [Record(t.kind, 0, parentIndex, t.data)];
      var saveParentIndex := parentIndex;
      prevIndex := 0;
      parentIndex := currentIndex;
      VisitChildren(t);
      prevIndex := currentIndex;
      parentIndex := saveParentIndex;
    }

    method VisitChildren(t: Tree)
      requires prevIndex == 0 && nodes != []
      modifies this
      ensures nodes == old(nodes) + LayoutAll(t.children, |old(nodes)|, old(parentIndex))
      ensures parentIndex == old(parentIndex)
      decreases t, 0
    {
      ghost var base := nodes;
      for k := 0 to |t.children|
        invariant nodes == base + LayoutAll(t.children[..k], |base|, parentIndex) && base != []
        invariant prevIndex == if k == 0 then 0 else |base| + LastOffset(t.children[..k])
        invariant prevIndex < |nodes| && parentIndex == old(parentIndex)
      {
        NextSibling(base, t.children, k, parentIndex);
        Visit(t.children[k]);
      }
      assert t.children[..|t.children|] == t.children;
    }
  }

  method Encode(root: Tree) returns (nodes: seq<Record>)
    ensures nodes == Buffer(root)
  {
    var encoder := new Encoder();
    encoder.nodes := encoder.nodes + [Record(root.kind, 0, 0, root.data)];
    encoder.parentIndex := 1;
    encoder.VisitChildren(root);
    nodes := encoder.nodes;
  }

  // ---------------------------------------------------------------- where nodes are

  // Node u of the tree t stored at index i is stored at index k.
  ghost predicate Occurs(t: Tree, i: nat, u: Tree, k: nat) {
    (u == t && k == i) || OccursIn(t.children, i + 1, u, k)
  }

  ghost predicate OccursIn(ts: seq<Tree>, i: nat, u: Tree, k: nat) {
    ts != [] && (Occurs(ts[0], i, u, k) || OccursIn(ts[1..], i + Size(ts[0]), u, k))
  }

  ghost predicate ComesAfter(buffer: seq<Record>, end: nat, i: nat) {
    end < |buffer| ==> buffer[end].parent < i
  }

  // The records of u stand at index k, under a node before it, and what follows belongs higher up.
  ghost predicate Placed(buffer: seq<Record>, k: nat, u: Tree) {
    k + Size(u) <= |buffer|
    && buffer[k..k + Size(u)] == Layout(u, k, buffer[k].parent, buffer[k].next)
    && buffer[k].parent < k
    && ComesAfter(buffer, k + Size(u), k)
  }

  ghost predicate PlacedAll(buffer: seq<Record>, i: nat, ts: seq<Tree>, parent: nat) {
    i + SizeAll(ts) <= |buffer|
    && buffer[i..i + SizeAll(ts)] == LayoutAll(ts, i, parent)
    && parent < i
    && ComesAfter(buffer, i + SizeAll(ts), parent + 1)
  }

  lemma PlacedChildren(buffer: seq<Record>, k: nat, u: Tree)
    requires Placed(buffer, k, u)
    ensures PlacedAll(buffer, k + 1, u.children, k)
  {
    var layout := Layout(u, k, buffer[k].parent, buffer[k].next);
    assert buffer[k + 1..k + Size(u)] == buffer[k..k + Size(u)][1..] == layout[1..];
  }

  lemma PlacedFirst(buffer: seq<Record>, i: nat, ts: seq<Tree>, parent: nat)
    requires PlacedAll(buffer, i, ts, parent) && ts != []
    ensures Placed(buffer, i, ts[0]) && buffer[i].parent == parent
    ensures buffer[i].next == if |ts| == 1 then 0 else i + Size(ts[0])
    ensures PlacedAll(buffer, i + Size(ts[0]), ts[1..], parent)
  {
    var size, all := Size(ts[0]), LayoutAll(ts, i, parent);
    var slice := buffer[i..i + SizeAll(ts)];
    assert buffer[i] == slice[0] == all[0];
    var first := Layout(ts[0], i, parent, if |ts| == 1 then 0 else i + size);
    var rest := LayoutAll(ts[1..], i + size, parent);
    assert slice == first + rest;
    SliceOfConcat(buffer, i, first, rest);
    if |ts| > 1 {
      assert buffer[i + size] == rest[0] == Layout(ts[1], i + size, parent, if |ts| == 2 then 0 else i + size + Size(ts[1]))[0];
    }
  }

  lemma SliceOfConcat(buffer: seq<Record>, i: nat, a: seq<Record>, b: seq<Record>)
    requires i + |a| + |b| <= |buffer| && buffer[i..i + |a| + |b|] == a + b
    ensures buffer[i..i + |a|] == a && buffer[i + |a|..i + |a| + |b|] == b
  {
    var slice := buffer[i..i + |a| + |b|];
    assert buffer[i..i + |a|] == slice[..|a|];
    assert buffer[i + |a|..i + |a| + |b|] == slice[|a|..];
  }

  lemma {:induction false} Located(buffer: seq<Record>, t: Tree, i: nat, u: Tree, k: nat)
    requires Placed(buffer, i, t) && Occurs(t, i, u, k)
    ensures Placed(buffer, k, u)
    decreases t
  {
    if !(u == t && k == i) {
      PlacedChildren(buffer, i, t);
      LocatedIn(buffer, t.children, i + 1, i, u, k);
    }
  }

  lemma {:induction false} LocatedIn(buffer: seq<Record>, ts: seq<Tree>, i: nat, parent: nat, u: Tree, k: nat)
    requires PlacedAll(buffer, i, ts, parent) && OccursIn(ts, i, u, k)
    ensures Placed(buffer, k, u)
    decreases ts
  {
    PlacedFirst(buffer, i, ts, parent);
    if Occurs(ts[0], i, u, k) {
      Located(buffer, ts[0], i, u, k);
    } else {
      LocatedIn(buffer, ts[1..], i + Size(ts[0]), parent, u, k);
    }
  }

  // Every node of an encoded tree stands where the walk put it.
  lemma EncodedNodesArePlaced(root: Tree, u: Tree, k: nat)
    requires Occurs(root, 1, u, k)
    ensures Placed(Buffer(root), k, u)
  {
    var buffer := Buffer(root);
    assert buffer[1..1 + Size(root)] == Layout(root, 1, 0, 0);
    assert buffer[1] == Layout(root, 1, 0, 0)[0];
    assert Placed(buffer, 1, root);
    Located(buffer, root, 1, u, k);
  }

  // ---------------------------------------------------------------- children

  // A node has children exactly if the next record names it as its parent.
  predicate HasChildren(buffer: seq<Record>, index: nat) {
    if index + 1 >= |buffer| then false else buffer[index + 1].parent == index
  }

  lemma HasChildrenExact(root: Tree, u: Tree, k: nat)
    requires Occurs(root, 1, u, k)
    ensures HasChildren(Buffer(root), k) <==> u.children != []
  {
    EncodedNodesArePlaced(root, u, k);
    PlacedHasChildren(Buffer(root), k, u);
  }

  lemma PlacedHasChildren(buffer: seq<Record>, k: nat, u: Tree)
    requires Placed(buffer, k, u)
    ensures HasChildren(buffer, k) <==> u.children != []
  {
    if u.children != [] {
      PlacedChildren(buffer, k, u);
      PlacedFirst(buffer, k + 1, u.children, k);
    }
  }

  function ChildIndices(ts: seq<Tree>, i: nat): (r: seq<nat>)
    ensures |r| == |ts|
  {
    if ts == [] then [] else [i] + ChildIndices(ts[1..], i + Size(ts[0]))
  }

  lemma {:induction false} NextChild(buffer: seq<Record>, at: nat, rest: seq<Tree>, parent: nat)
    requires PlacedAll(buffer, at, rest, parent) && rest != []
    ensures PlacedAll(buffer, at + Size(rest[0]), rest[1..], parent)
    ensures at < |buffer| && buffer[at].next == if |rest| == 1 then 0 else at + Size(rest[0])
    ensures ChildIndices(rest, at) == [at] + ChildIndices(rest[1..], at + Size(rest[0]))
  {
    PlacedFirst(buffer, at, rest, parent);
  }

  // The walk along `next` from a node's first child: it ends, and meets each child once, in order.
  method CollectChildren(buffer: seq<Record>, index: nat, ghost u: Tree) returns (children: seq<nat>)
    requires Placed(buffer, index, u)
    ensures children == ChildIndices(u.children, index + 1)
  {
    PlacedHasChildren(buffer, index, u);
    PlacedChildren(buffer, index, u);
    if !HasChildren(buffer, index) {
      return [];
    }
    children := CollectSiblings(buffer, index + 1, u.children, index);
  }

  // Of the siblings from `first` on, those before `at` have been collected.
  ghost predicate CollectedTo(buffer: seq<Record>, ts: seq<Tree>, first: nat, parent: nat,
                              siblings: seq<nat>, rest: seq<Tree>, at: nat) {
    PlacedAll(buffer, at, rest, parent) && siblings + ChildIndices(rest, at) == ChildIndices(ts, first)
  }

  lemma {:induction false} CollectNext(buffer: seq<Record>, ts: seq<Tree>, first: nat, parent: nat,
                                       siblings: seq<nat>, rest: seq<Tree>, at: nat)
    requires CollectedTo(buffer, ts, first, parent, siblings, rest, at) && rest != []
    ensures at < |buffer| && buffer[at].next == if |rest| == 1 then 0 else at + Size(rest[0])
    ensures CollectedTo(buffer, ts, first, parent, siblings + [at], rest[1..], at + Size(rest[0]))
  {
    NextChild(buffer, at, rest, parent);
    Regroup(siblings, [at], ChildIndices(rest[1..], at + Size(rest[0])));
  }

  method CollectSiblings(buffer: seq<Record>, first: nat, ghost ts: seq<Tree>, ghost parent: nat) returns (siblings: seq<nat>)
    requires PlacedAll(buffer, first, ts, parent) && ts != []
    ensures siblings == ChildIndices(ts, first)
  {
    ghost var rest := ts;
    ghost var at: nat := first;
    siblings := [];
    var next: nat := first;
    while next != 0
      invariant CollectedTo(buffer, ts, first, parent, siblings, rest, at)
      invariant next == if rest == [] then 0 else at
      decreases |rest|
    {
      CollectNext(buffer, ts, first, parent, siblings, rest, at);
      siblings := siblings + [next];
      next := buffer[next].next;
      at := at + Size(rest[0]);
      rest := rest[1..];
    }
  }

  ghost predicate LinksInRange(buffer: seq<Record>) {
    forall i :: 0 <= i < |buffer| ==> buffer[i].next < |buffer|
  }

  function Follow(buffer: seq<Record>, from: nat, steps: nat): (i: nat)
    requires LinksInRange(buffer) && from < |buffer|
    ensures i < |buffer|
    decreases steps
  {
    if steps == 0 then from else Follow(buffer, buffer[from].next, steps - 1)
  }

  // Following `next` n times from the first child reaches the n-th child.
  lemma {:induction false} FollowReachesChild(buffer: seq<Record>, i: nat, ts: seq<Tree>, parent: nat, n: nat)
    requires LinksInRange(buffer) && PlacedAll(buffer, i, ts, parent) && n < |ts|
    ensures i < |buffer| && Follow(buffer, i, n) == ChildIndices(ts, i)[n]
    ensures Placed(buffer, ChildIndices(ts, i)[n], ts[n])
    decreases n
  {
    if n > 0 {
      NextChild(buffer, i, ts, parent);
      FollowReachesChild(buffer, i + Size(ts[0]), ts[1..], parent, n - 1);
    } else {
      PlacedFirst(buffer, i, ts, parent);
    }
  }

  lemma {:induction false} LayoutLinks(t: Tree, i: nat, parent: nat, next: nat, bound: nat)
    requires next < bound && i + Size(t) <= bound
    ensures forall r :: r in Layout(t, i, parent, next) ==> r.next < bound
    decreases t
  {
    LayoutAllLinks(t.children, i + 1, i, bound);
  }

  lemma {:induction false} LayoutAllLinks(ts: seq<Tree>, i: nat, parent: nat, bound: nat)
    requires 0 < bound && i + SizeAll(ts) <= bound
    ensures forall r :: r in LayoutAll(ts, i, parent) ==> r.next < bound
    decreases ts
  {
    if ts != [] {
      LayoutLinks(ts[0], i, parent, if |ts| == 1 then 0 else i + Size(ts[0]), bound);
      LayoutAllLinks(ts[1..], i + Size(ts[0]), parent, bound);
    }
  }

  lemma EncodedLinksInRange(root: Tree)
    ensures LinksInRange(Buffer(root))
  {
    var layout := Layout(root, 1, 0, 0);
    LayoutLinks(root, 1, 0, 0, |Buffer(root)|);
    forall i | 0 <= i < |Buffer(root)|
      ensures Buffer(root)[i].next < |Buffer(root)|
    {
      if i > 0 {
        assert Buffer(root)[i] == layout[i - 1] && layout[i - 1] in layout;
      }
    }
  }

  // ---------------------------------------------------------------- properties

  const DATA_TYPE_MASK: bv32 := 0xc0_00_00_00
  const CHILD_MASK: bv32 := 0xff

  // Nodes of the other data types have no mask, and read as if every property were present.
  function ChildMask(data: bv32): bv32 {
    if data & DATA_TYPE_MASK != 0 then ALL_PRESENT else data & CHILD_MASK
  }

  // The two top bits tell the data type; only type 0 has a mask, its low byte.
  lemma ChildMaskNamed(data: bv32)
    ensures data < 0x4000_0000 ==> ChildMask(data) == data % 0x100
    ensures 0x4000_0000 <= data ==> ChildMask(data) == 0xffff_ffff
  {
    assert data < 0x4000_0000 ==> data & 0xc000_0000 == 0;
    assert 0x4000_0000 <= data ==> data & 0xc000_0000 != 0;
  }

  // The mask the encoder writes for a node's optional properties.
  function PropertyMask(props: seq<Option<Tree>>): bv32
    requires |props| <= 8
  {
    if props == [] then 0
    else PropertyMask(props[..|props| - 1]) | if props[|props| - 1].Some? then Bit(|props| - 1) else 0
  }

  lemma {:induction false} PropertyMaskBits(props: seq<Option<Tree>>, order: nat)
    requires |props| <= 8 && order < 8
    ensures HasBit(PropertyMask(props), order) <==> order < |props| && props[order].Some?
  {
    if props == [] {
      ZeroHasNoBit(order);
    } else {
      var last := |props| - 1;
      PropertyMaskBits(props[..last], order);
      if props[last].Some? {
        OrHasBit(PropertyMask(props[..last]), Bit(last), order);
        BitHasBit(last, order);
      } else {
        OrHasBit(PropertyMask(props[..last]), 0, order);
        ZeroHasNoBit(order);
      }
    }
  }

  function Present(props: seq<Option<Tree>>): seq<Tree> {
    if props == [] then []
    else Present(props[..|props| - 1]) + if props[|props| - 1].Some? then [props[|props| - 1].value] else []
  }

  // A node of the children data type: its properties are its first children, in mask order,
  // and its JSDoc comments follow.
  ghost predicate Conforms(u: Tree, props: seq<Option<Tree>>, jsDoc: seq<Tree>) {
    |props| <= 8
    && u.data & DATA_TYPE_MASK == 0 && u.data & CHILD_MASK == PropertyMask(props)
    && u.children == Present(props) + jsDoc
  }

  lemma {:induction false} PresentCount(props: seq<Option<Tree>>, order: nat)
    requires |props| <= 8 && order <= |props|
    ensures |Present(props[..order])| == OnesBelow(PropertyMask(props), order)
    ensures Present(props[..order]) <= Present(props)
    ensures order < |props| && props[order].Some? ==>
      |Present(props[..order])| < |Present(props)| && Present(props)[|Present(props[..order])|] == props[order].value
    decreases order, |props|
  {
    if order > 0 {
      PresentCount(props, order - 1);
      PropertyMaskBits(props, order - 1);
      assert props[..order][..order - 1] == props[..order - 1];
    }
    PresentPrefix(props, order);
    if order < |props| && props[order].Some? {
      PresentPrefix(props, order + 1);
      assert props[..order + 1][..order] == props[..order];
    }
  }

  lemma {:induction false} PresentPrefix(props: seq<Option<Tree>>, n: nat)
    requires n <= |props|
    ensures Present(props[..n]) <= Present(props)
    decreases |props|
  {
    if n == |props| {
      assert props[..n] == props;
    } else {
      var shorter := props[..|props| - 1];
      PresentPrefix(shorter, n);
      assert shorter[..n] == props[..n];
    }
  }

  // What the lookup of a bit answers for a node stored at an index.
  function Lookup(buffer: seq<Record>, index: nat, u: Tree, order: nat): Option<nat>
    requires LinksInRange(buffer) && Placed(buffer, index, u) && order < 8
  {
    PlacedHasChildren(buffer, index, u);
    if u.children == [] || !HasBit(ChildMask(u.data), order) then None
    else Some(Follow(buffer, index + 1, OnesBelow(ChildMask(u.data), order)))
  }

  // Looks a property up by its bit, walking past the properties present before it.
  method GetChildAtOrder(buffer: seq<Record>, index: nat, order: nat, ghost u: Tree) returns (r: Option<nat>)
    requires LinksInRange(buffer) && Placed(buffer, index, u) && order < 8
    ensures r == Lookup(buffer, index, u, order)
  {
    PlacedHasChildren(buffer, index, u);
    assert buffer[index] == buffer[index..index + Size(u)][0];
    if !HasChildren(buffer, index) {
      return None;
    }
    var mask := ChildMask(buffer[index].data);
    if !HasBit(mask, order) {
      return None;
    }
    ZerosBelow(mask, order);
    var propertyIndex := order - Popcount8(!(mask | BitsFrom(order)) & 0xff);
    var childIndex := index + 1;
    var i := 0;
    while i < propertyIndex
      invariant 0 <= i <= propertyIndex && 0 <= childIndex < |buffer|
      invariant Follow(buffer, childIndex, propertyIndex - i) == Follow(buffer, index + 1, propertyIndex)
    {
      childIndex := buffer[childIndex].next;
      i := i + 1;
    }
    return Some(childIndex);
  }

  // Where the subtree of a property is stored: nowhere if it is absent, else at the child
  // after those of the properties present before it.
  function StoredAt(u: Tree, props: seq<Option<Tree>>, index: nat, order: nat): Option<nat>
    requires order < |props| && Present(props) <= u.children
  {
    if props[order].None? then None
    else
      PresentSplit(props, order);
      Some(ChildIndices(u.children, index + 1)[|Present(props[..order])|])
  }

  lemma PresentSplit(props: seq<Option<Tree>>, order: nat)
    requires order < |props| && props[order].Some?
    ensures |Present(props[..order])| < |Present(props)| && Present(props)[|Present(props[..order])|] == props[order].value
  {
    PresentPrefix(props, order);
    PresentPrefix(props, order + 1);
    assert props[..order + 1][..order] == props[..order];
  }

  // The n-th child's record: where the walk gets after n links, behind the node's own record.
  lemma ChildReached(buffer: seq<Record>, index: nat, u: Tree, n: nat)
    requires LinksInRange(buffer) && Placed(buffer, index, u) && n < |u.children|
    ensures index + 1 < |buffer|
    ensures var at := Follow(buffer, index + 1, n);
      index < at && at == ChildIndices(u.children, index + 1)[n] && Placed(buffer, at, u.children[n])
  {
    PlacedChildren(buffer, index, u);
    FollowReachesChild(buffer, index + 1, u.children, index, n);
    IndicesGrow(u.children, index + 1, 0, n);
  }

  // A record standing where a property is stored carries that property's subtree.
  lemma StoredIsPlaced(buffer: seq<Record>, index: nat, u: Tree, props: seq<Option<Tree>>, order: nat)
    requires LinksInRange(buffer) && Placed(buffer, index, u) && order < |props| && Present(props) <= u.children
    ensures props[order].Some? ==>
      var at := StoredAt(u, props, index, order).value;
      index < at < |buffer| && at == Follow(buffer, index + 1, |Present(props[..order])|) && Placed(buffer, at, props[order].value)
  {
    if props[order].Some? {
      PresentSplit(props, order);
      ChildReached(buffer, index, u, |Present(props[..order])|);
    }
  }

  lemma {:induction false} IndicesGrow(ts: seq<Tree>, i: nat, a: nat, b: nat)
    requires a <= b < |ts|
    ensures i <= ChildIndices(ts, i)[a] <= ChildIndices(ts, i)[b] && (a < b ==> ChildIndices(ts, i)[a] < ChildIndices(ts, i)[b])
    decreases ts
  {
    if b > 0 {
      IndicesGrow(ts[1..], i + Size(ts[0]), if a > 0 then a - 1 else 0, b - 1);
    }
  }

  // In every encoded tree the lookup finds exactly the record stored for the property.
  method GetProperty(root: Tree, buffer: seq<Record>, index: nat, order: nat,
                     ghost u: Tree, ghost props: seq<Option<Tree>>, ghost jsDoc: seq<Tree>) returns (r: Option<nat>)
    requires buffer == Buffer(root) && Occurs(root, 1, u, index)
    requires Conforms(u, props, jsDoc) && order < |props|
    ensures r == StoredAt(u, props, index, order)
    ensures r.Some? ==> 0 < r.value && Placed(buffer, r.value, props[order].value)
  {
    EncodedNodesArePlaced(root, u, index);
    EncodedLinksInRange(root);
    PropertyMaskBits(props, order);
    PresentCount(props, order);
    StoredIsPlaced(buffer, index, u, props, order);
    r := GetChildAtOrder(buffer, index, order, u);
  }

  lemma {:induction false} FollowPastChildren(buffer: seq<Record>, i: nat, ts: seq<Tree>, parent: nat, n: nat)
    requires LinksInRange(buffer) && PlacedAll(buffer, i, ts, parent) && ts != [] && |ts| <= n && buffer[0].next == 0
    ensures Follow(buffer, i, n) == 0
    decreases n
  {
    PlacedFirst(buffer, i, ts, parent);
    if |ts| > 1 {
      FollowPastChildren(buffer, i + Size(ts[0]), ts[1..], parent, n - 1);
    } else {
      FollowNil(buffer, n - 1);
    }
  }

  lemma {:induction false} FollowNil(buffer: seq<Record>, n: nat)
    requires LinksInRange(buffer) && buffer != [] && buffer[0].next == 0
    ensures Follow(buffer, 0, n) == 0
    decreases n
  {
    if n > 0 {
      FollowNil(buffer, n - 1);
    }
  }

  // A node without a mask looks its properties up by position: the child of that number, or
  // the nil record at index 0 when there are fewer.
  lemma MasklessLookup(root: Tree, u: Tree, index: nat, order: nat)
    requires Occurs(root, 1, u, index) && order < 8
    requires u.data & DATA_TYPE_MASK != 0 && u.children != []
    ensures LinksInRange(Buffer(root)) && Placed(Buffer(root), index, u)
    ensures Lookup(Buffer(root), index, u, order)
      == Some(if order < |u.children| then ChildIndices(u.children, index + 1)[order] else 0)
  {
    var buffer := Buffer(root);
    AllBitsPresent(order);
    OnesBelowAllPresent(order);
    EncodedNodesArePlaced(root, u, index);
    EncodedLinksInRange(root);
    PlacedChildren(buffer, index, u);
    PlacedFirst(buffer, index + 1, u.children, index);
    if order < |u.children| {
      FollowReachesChild(buffer, index + 1, u.children, index, order);
    } else {
      FollowPastChildren(buffer, index + 1, u.children, index, order);
    }
  }

  ghost predicate AllPresent(props: seq<Option<Tree>>) {
    forall k :: 0 <= k < |props| ==> props[k].Some?
  }

  lemma {:induction false} PresentAtMost(props: seq<Option<Tree>>)
    ensures |Present(props)| <= |props| && (|Present(props)| == |props| <==> AllPresent(props))
    decreases |props|
  {
    if props != [] {
      PresentAtMost(props[..|props| - 1]);
    }
  }

  // The child numbered like a property is the property's exactly when it and all before it are present.
  lemma PositionExact(u: Tree, index: nat, props: seq<Option<Tree>>, order: nat)
    requires order < |props| && Present(props) <= u.children
    ensures Some(if order < |u.children| then ChildIndices(u.children, index + 1)[order] else 0) == StoredAt(u, props, index, order)
      <==> AllPresent(props[..order + 1])
  {
    PresentAtMost(props[..order]);
    assert AllPresent(props[..order + 1]) <==> AllPresent(props[..order]) && props[order].Some?;
    if props[order].Some? {
      PresentSplit(props, order);
      var n := |Present(props[..order])|;
      IndicesGrow(u.children, index + 1, 0, n);
      if order < |u.children| {
        IndicesGrow(u.children, index + 1, n, order);
      }
    }
  }

  // That is where the property is stored exactly when the node has no children at all, or
  // the property and all those before it are present.
  lemma MasklessExact(root: Tree, u: Tree, index: nat, props: seq<Option<Tree>>, jsDoc: seq<Tree>, order: nat)
    requires Occurs(root, 1, u, index) && order < |props| <= 8
    requires u.data & DATA_TYPE_MASK != 0 && u.children == Present(props) + jsDoc
    ensures LinksInRange(Buffer(root)) && Placed(Buffer(root), index, u)
    ensures Lookup(Buffer(root), index, u, order) == StoredAt(u, props, index, order)
      <==> u.children == [] || AllPresent(props[..order + 1])
  {
    EncodedNodesArePlaced(root, u, index);
    EncodedLinksInRange(root);
    PositionExact(u, index, props, order);
    if u.children != [] {
      MasklessLookup(root, u, index, order);
    } else if props[order].Some? {
      PresentSplit(props, order);
    }
  }

  // A node without a mask whose first property is absent: the second is looked for behind it.
  lemma MasklessLookupFails(second: Tree)
    ensures var root := Tree(1, 0x8000_0000, [second]);
      LinksInRange(Buffer(root)) && Placed(Buffer(root), 1, root)
      && Lookup(Buffer(root), 1, root, 1) == Some(0)
      && Present([None, Some(second)]) == root.children && StoredAt(root, [None, Some(second)], 1, 1) == Some(2)
  {
    var root := Tree(1, 0x8000_0000, [second]);
    var props: seq<Option<Tree>>, first: seq<Option<Tree>> := [None, Some(second)], [None];
    assert props[..1] == first && first[..0] == [] && Present(first) == [];
    assert Present(props) == [second];
    assert root.data & DATA_TYPE_MASK != 0;
    MasklessLookup(root, root, 1, 1);
  }

  // ---------------------------------------------------------------- the Go decoder

  // The child the decoder's pass takes for a property, 0 standing for none.
  function Taken(children: seq<nat>, mask: bv32, order: nat): nat
    requires order < 8
  {
    if HasBit(mask, order) && OnesBelow(mask, order) < |children| then children[OnesBelow(mask, order)] else 0
  }

  function Min(a: nat, b: nat): nat { if a < b then a else b }

  // The decoder's pass: each property whose bit is set takes the next child.
  method DecodeProperties(children: seq<nat>, mask: bv32, count: nat) returns (taken: seq<nat>)
    requires count <= 8
    ensures |taken| == count && forall order :: 0 <= order < count ==> taken[order] == Taken(children, mask, order)
  {
    taken := [];
    var pos := 0;
    for i := 0 to count
      invariant |taken| == i && pos == Min(OnesBelow(mask, i), |children|)
      invariant forall order :: 0 <= order < i ==> taken[order] == Taken(children, mask, order)
    {
      var ci := 0;
      if HasBit(mask, i) && pos < |children| {
        ci := children[pos];
        pos := pos + 1;
      }
      assert ci == Taken(children, mask, i);
      taken := taken + [ci];
    }
  }

  // On nodes with several properties the decoder's sequential pass and the reader's bit-count
  // lookup name the same record for every property.
  method DecodersAgree(root: Tree, buffer: seq<Record>, index: nat, order: nat,
                       ghost u: Tree, ghost props: seq<Option<Tree>>, ghost jsDoc: seq<Tree>)
    returns (read: Option<nat>, decoded: seq<nat>)
    requires buffer == Buffer(root) && Occurs(root, 1, u, index)
    requires Conforms(u, props, jsDoc) && order < |props| && 2 <= |props|
    ensures order < |decoded| && decoded[order] == RecordOrNil(read)
    ensures read == StoredAt(u, props, index, order)
  {
    read := GetProperty(root, buffer, index, order, u, props, jsDoc);
    PlacedRecord(root, u, index);
    var children := CollectChildren(buffer, index, u);
    decoded := DecodeProperties(children, buffer[index].data & CHILD_MASK, 8);
    PropertyMaskBits(props, order);
    PresentCount(props, order);
  }

  function RecordOrNil(r: Option<nat>): nat {
    match r case None => 0 case Some(index) => index
  }

  // The decoder of nodes with one property takes the first child, whatever the mask says.
  function SingleChild(children: seq<nat>): nat {
    if children == [] then 0 else children[0]
  }

  // There it names the reader's record exactly when the property is present or nothing else
  // is stored below the node; otherwise it takes the first JSDoc comment for the property.
  method SingleChildDecoder(root: Tree, buffer: seq<Record>, index: nat,
                            ghost u: Tree, ghost props: seq<Option<Tree>>, ghost jsDoc: seq<Tree>)
    returns (read: Option<nat>, decoded: nat)
    requires buffer == Buffer(root) && Occurs(root, 1, u, index)
    requires Conforms(u, props, jsDoc) && |props| == 1
    ensures read == StoredAt(u, props, index, 0)
    ensures decoded == RecordOrNil(read) <==> props[0].Some? || jsDoc == []
    ensures props[0].None? && jsDoc != [] ==> Placed(buffer, decoded, jsDoc[0])
  {
    read := GetProperty(root, buffer, index, 0, u, props, jsDoc);
    PlacedRecord(root, u, index);
    var children := CollectChildren(buffer, index, u);
    decoded := SingleChild(children);
    SingleProperty(u, props, jsDoc, index);
    if u.children != [] {
      PlacedChildren(buffer, index, u);
      PlacedFirst(buffer, index + 1, u.children, index);
    }
  }

  // The only property of a node is its first child, or its children are all JSDoc.
  lemma SingleProperty(u: Tree, props: seq<Option<Tree>>, jsDoc: seq<Tree>, index: nat)
    requires |props| == 1 && u.children == Present(props) + jsDoc
    ensures StoredAt(u, props, index, 0) == if props[0].Some? then Some(index + 1) else None
    ensures if props[0].Some? then u.children != [] else u.children == jsDoc
    ensures u.children != [] ==> SingleChild(ChildIndices(u.children, index + 1)) == index + 1
  {
    assert props[..0] == [] && Present(props[..0]) == [];
    assert Present(props) == if props[0].Some? then [props[0].value] else [];
    if u.children != [] {
      assert ChildIndices(u.children, index + 1)[0] == index + 1;
    }
  }

  // A return statement without an expression and with a comment: the reader finds no
  // expression, the decoder the comment.
  lemma CommentReadAsExpression(comment: Tree)
    ensures var root := Tree(1, 0, [comment]);
      Conforms(root, [None], [comment]) && StoredAt(root, [None], 1, 0) == None
      && SingleChild(ChildIndices(root.children, 2)) == 2
  {
    var props: seq<Option<Tree>> := [None];
    assert props[..0] == [] && Present(props) == [];
    assert PropertyMask(props) == 0;
    assert ChildIndices([comment], 2)[0] == 2;
  }

  lemma PlacedRecord(root: Tree, u: Tree, index: nat)
    requires Occurs(root, 1, u, index)
    ensures var buffer := Buffer(root);
      LinksInRange(buffer) && Placed(buffer, index, u) && index < |buffer| && buffer[index].data == u.data
  {
    EncodedNodesArePlaced(root, u, index);
    EncodedLinksInRange(root);
    PlacedChildren(Buffer(root), index, u);
    assert Buffer(root)[index] == Buffer(root)[index..index + Size(u)][0];
  }
}
