// Indexed access to an encoded node list: a walk along `next` that resumes where the last one ended.
module NodeListCursor {
  import opened Basics
  import opened AstBuffer

  // The index a request stands for, counting back from the end when negative.
  function Position(length: nat, index: int): Option<nat> {
    if index >= length || (index < 0 && -index > length) then None
    else Some(if index < 0 then length + index else index)
  }

  // How many links a request follows with the cursor at c.
  function Cost(c: nat, n: nat): nat {
    if n >= c then n - c else n
  }

  class RemoteNodeList {
    const buffer: seq<Record>
    const index: nat
    const length: nat          // the list record's data field
    ghost const list: Tree     // the list this record encodes
    var cursorIndex: nat
    var cursorNodeIndex: nat
    ghost var followed: nat    // links followed so far

    ghost predicate Encoded() {
      LinksInRange(buffer) && Placed(buffer, index, list) && |list.children| == length
    }

    // The cursor node is the head followed cursorIndex times.
    ghost predicate Valid()
      reads this
    {
      Encoded()
      && (if length == 0 then cursorIndex == 0
          else index + 1 < |buffer| && cursorIndex < length && cursorNodeIndex == Follow(buffer, index + 1, cursorIndex))
    }

    constructor (root: Tree, index: nat, length: nat, ghost list: Tree)
      requires Occurs(root, 1, list, index) && |list.children| == length
      ensures Valid() && cursorIndex == 0 && followed == 0
      ensures this.buffer == Buffer(root) && this.index == index && this.length == length && this.list == list
    {
      EncodedLinksInRange(root);
      EncodedNodesArePlaced(root, list, index);
      PlacedChildren(Buffer(root), index, list);
      this.buffer := Buffer(root);
      this.index := index;
      this.length := length;
      this.list := list;
      cursorIndex := 0;
      cursorNodeIndex := index + 1;
      followed := 0;
    }

    // The n-th element: what the uncached walk from the head finds.
    method At(index: int) returns (r: Option<nat>)
      requires Valid()
      modifies this
      ensures Valid()
      ensures 0 <= index < length ==> r == Some(ChildIndices(list.children, this.index + 1)[index])
      ensures index < 0 <= length + index ==> r == Some(ChildIndices(list.children, this.index + 1)[length + index])
      ensures length + index < 0 || length <= index ==> r == None
      ensures match Position(length, index)
        case None => r == None && cursorIndex == old(cursorIndex) && followed == old(followed)
        case Some(n) =>
          this.index + 1 < |buffer| && r == Some(Follow(buffer, this.index + 1, n))
          && r.value == ChildIndices(list.children, this.index + 1)[n] && Placed(buffer, r.value, list.children[n])
          && cursorIndex == n && followed == old(followed) + Cost(old(cursorIndex), n)
    {
      if index >= length || (index < 0 && -index > length) {
        return None;
      }
      var n := if index < 0 then length + index else index;
      var i: nat, next: nat := 0, this.index + 1;
      if n >= cursorIndex {
        i, next := cursorIndex, cursorNodeIndex;
      }
      next := Walk(i, next, n);
      cursorIndex := n;
      cursorNodeIndex := next;
      ChildReached(buffer, this.index, list, n);
      return Some(next);
    }

    // Follows `next` from the i-th element to the n-th.
    method Walk(start: nat, node: nat, n: nat) returns (next: nat)
      requires LinksInRange(buffer) && this.index + 1 < |buffer|
      requires start <= n && node == Follow(buffer, this.index + 1, start)
      modifies this`followed
      ensures next == Follow(buffer, this.index + 1, n) && followed == old(followed) + (n - start)
    {
      var i := start;
      next := node;
      while i < n
        invariant start <= i <= n
        invariant next == Follow(buffer, this.index + 1, i)
        invariant followed == old(followed) + (i - start)
      {
        FollowOneMore(buffer, this.index + 1, i);
        next := buffer[next].next;
        i := i + 1;
        followed := followed + 1;
      }
    }

    // A run of requests, answered one after the other: each as by an uncached walk.
    method AtEach(indices: seq<int>) returns (r: seq<Option<nat>>)
      requires Valid()
      modifies this
      ensures Valid() && |r| == |indices|
      ensures forall i :: 0 <= i < |r| ==> r[i] == Element(list, index, indices[i])
      ensures forall i :: 0 <= i < |r| && 0 <= indices[i] < length ==>
        r[i] == Some(ChildIndices(list.children, index + 1)[indices[i]])
      ensures forall i :: 0 <= i < |r| && indices[i] < 0 <= length + indices[i] ==>
        r[i] == Some(ChildIndices(list.children, index + 1)[length + indices[i]])
      ensures forall i :: 0 <= i < |r| && (length + indices[i] < 0 || length <= indices[i]) ==> r[i] == None
      ensures followed == old(followed) + TotalCost(length, old(cursorIndex), indices)
    {
      r := [];
      for k := 0 to |indices|
        invariant Valid() && |r| == k
        invariant forall i :: 0 <= i < k ==> r[i] == Element(list, index, indices[i])
        invariant followed + TotalCost(length, cursorIndex, indices[k..]) == old(followed) + TotalCost(length, old(cursorIndex), indices)
      {
        assert indices[k..][0] == indices[k] && indices[k..][1..] == indices[k + 1..];
        var node := At(indices[k]);
        r := r + [node];
      }
    }
  }

  // The element a request stands for, by where the list is stored.
  function Element(list: Tree, index: nat, request: int): Option<nat> {
    match Position(|list.children|, request)
    case None => None
    case Some(n) => Some(ChildIndices(list.children, index + 1)[n])
  }

  lemma {:induction false} FollowOneMore(buffer: seq<Record>, from: nat, steps: nat)
    requires LinksInRange(buffer) && from < |buffer|
    ensures Follow(buffer, from, steps + 1) == buffer[Follow(buffer, from, steps)].next
    decreases steps
  {
    if steps > 0 {
      FollowOneMore(buffer, buffer[from].next, steps - 1);
    }
  }

  // A request for nothing leaves the cursor where it is.
  function TotalCost(length: nat, c: nat, indices: seq<int>): nat
    decreases indices
  {
    if indices == [] then 0
    else match Position(length, indices[0])
      case None => TotalCost(length, c, indices[1..])
      case Some(n) => Cost(c, n) + TotalCost(length, n, indices[1..])
  }

  // A request behind the cursor walks from the first element, one at or before it from the cursor.
  lemma RequestCost(length: nat, c: nat, n: nat)
    requires n < length
    ensures TotalCost(length, c, [n]) == if c <= n then n - c else n
    ensures TotalCost(length, c, [n, n]) == TotalCost(length, c, [n])
  {
    assert [n][1..] == [] && [n, n][1..] == [n];
  }

  // Forward access from a cursor not beyond it follows only the links up to the last index.
  lemma {:induction false} ForwardAccessIsLinear(length: nat, c: nat, indices: seq<int>)
    requires indices != [] && c <= indices[0]
    requires forall i :: 0 <= i < |indices| ==> 0 <= indices[i] < length
    requires forall i, j :: 0 <= i < j < |indices| ==> indices[i] <= indices[j]
    ensures TotalCost(length, c, indices) == indices[|indices| - 1] - c
    decreases indices
  {
    if |indices| > 1 {
      ForwardAccessIsLinear(length, indices[0], indices[1..]);
    } else {
      assert indices[1..] == [];
    }
  }
}
