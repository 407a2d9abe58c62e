// Which asynchronous methods end up issuing batched requests: a fixpoint over method names.
module BatchedMethods {
  import opened Basics

  // The parts of a method body that matter: calls of Promise.all, calls of a property by its
  // name, and everything else.
  datatype Node =
    | PromiseAll(children: seq<Node>)
    | PropertyCall(name: string, children: seq<Node>)
    | Other(children: seq<Node>)

  datatype Method = Method(name: string, body: Node)

  // The batched call the program looks for, given the names known to be batched.
  predicate ContainsBatchedCall(node: Node, batched: set<string>) {
    node.PromiseAll? || (node.PropertyCall? && node.name in batched)
    || exists child | child in node.children :: ContainsBatchedCall(child, batched)
  }

  predicate ContainsPromiseAll(node: Node) {
    node.PromiseAll? || exists child | child in node.children :: ContainsPromiseAll(child)
  }

  predicate Calls(node: Node, name: string) {
    (node.PropertyCall? && node.name == name) || exists child | child in node.children :: Calls(child, name)
  }

  // A batched call is a Promise.all or a call of some batched name.
  lemma {:induction false} BatchedCallExact(node: Node, batched: set<string>)
    ensures ContainsBatchedCall(node, batched) <==>
      ContainsPromiseAll(node) || exists name | name in batched :: Calls(node, name)
    decreases node
  {
    forall child | child in node.children
      ensures ContainsBatchedCall(child, batched) <==>
        ContainsPromiseAll(child) || exists name | name in batched :: Calls(child, name)
    {
      BatchedCallExact(child, batched);
    }
    if ContainsBatchedCall(node, batched) && !node.PromiseAll? && !(node.PropertyCall? && node.name in batched) {
      var child :| child in node.children && ContainsBatchedCall(child, batched);
      if !ContainsPromiseAll(child) {
        var name :| name in batched && Calls(child, name);
        assert Calls(node, name);
      }
    }
  }

  // The part of the body that a path of child positions leads to.
  function PartAt(node: Node, path: seq<nat>): Option<Node>
    decreases |path|
  {
    if path == [] then Some(node)
    else if path[0] < |node.children| then PartAt(node.children[path[0]], path[1..])
    else None
  }

  ghost predicate HoldsPromiseAll(node: Node) {
    exists path :: PartAt(node, path).Some? && PartAt(node, path).value.PromiseAll?
  }

  ghost predicate HoldsCall(node: Node, name: string) {
    exists path, children :: PartAt(node, path) == Some(PropertyCall(name, children))
  }

  // Both looked for at every depth.
  lemma {:induction false} PromiseAllExact(node: Node)
    ensures ContainsPromiseAll(node) <==> HoldsPromiseAll(node)
    decreases node
  {
    forall i | 0 <= i < |node.children|
      ensures ContainsPromiseAll(node.children[i]) <==> HoldsPromiseAll(node.children[i])
    {
      PromiseAllExact(node.children[i]);
    }
    if ContainsPromiseAll(node) {
      if node.PromiseAll? {
        assert PartAt(node, []) == Some(node);
      } else {
        var i :| 0 <= i < |node.children| && ContainsPromiseAll(node.children[i]);
        var path :| PartAt(node.children[i], path).Some? && PartAt(node.children[i], path).value.PromiseAll?;
        Deeper(node, i, path);
      }
    }
    if HoldsPromiseAll(node) && !node.PromiseAll? {
      var path :| PartAt(node, path).Some? && PartAt(node, path).value.PromiseAll?;
      assert PartAt(node, path) == PartAt(node.children[path[0]], path[1..]);
      assert HoldsPromiseAll(node.children[path[0]]);
    }
  }

  lemma Deeper(node: Node, i: nat, path: seq<nat>)
    requires i < |node.children|
    ensures PartAt(node, [i] + path) == PartAt(node.children[i], path)
  {
    assert ([i] + path)[1..] == path;
  }

  lemma {:induction false} CallsExact(node: Node, name: string)
    ensures Calls(node, name) <==> HoldsCall(node, name)
    decreases node
  {
    forall i | 0 <= i < |node.children|
      ensures Calls(node.children[i], name) <==> HoldsCall(node.children[i], name)
    {
      CallsExact(node.children[i], name);
    }
    if Calls(node, name) {
      if node.PropertyCall? && node.name == name {
        assert PartAt(node, []) == Some(PropertyCall(name, node.children));
      } else {
        var i :| 0 <= i < |node.children| && Calls(node.children[i], name);
        var path, children :| PartAt(node.children[i], path) == Some(PropertyCall(name, children));
        Deeper(node, i, path);
      }
    }
    if HoldsCall(node, name) && !(node.PropertyCall? && node.name == name) {
      var path, children :| PartAt(node, path) == Some(PropertyCall(name, children));
      assert PartAt(node, path) == PartAt(node.children[path[0]], path[1..]);
      assert HoldsCall(node.children[path[0]], name);
    }
  }

  // ---------------------------------------------------------------- chains of calls

  // A body with the first name calls the second by name.
  ghost predicate CallsByName(methods: seq<Method>, caller: string, callee: string) {
    exists m :: m in methods && m.name == caller && Calls(m.body, callee)
  }

  ghost predicate Batches(methods: seq<Method>, name: string) {
    exists m :: m in methods && m.name == name && ContainsPromiseAll(m.body)
  }

  // Names such that a body of each calls the next, and a body of the last holds a Promise.all.
  ghost predicate Chain(methods: seq<Method>, names: seq<string>) {
    names != []
    && if |names| == 1 then Batches(methods, names[0])
       else CallsByName(methods, names[0], names[1]) && Chain(methods, names[1..])
  }

  ghost predicate LeadsToPromiseAll(methods: seq<Method>, name: string) {
    exists names :: Chain(methods, names) && names[0] == name
  }

  ghost predicate Justified(methods: seq<Method>, batched: set<string>) {
    forall name :: name in batched ==> LeadsToPromiseAll(methods, name)
  }

  // No method left out would still be added.
  ghost predicate Stable(methods: seq<Method>, batched: set<string>) {
    forall m :: m in methods && ContainsBatchedCall(m.body, batched) ==> m.name in batched
  }

  lemma AddingIsJustified(methods: seq<Method>, batched: set<string>, m: Method)
    requires Justified(methods, batched) && m in methods && ContainsBatchedCall(m.body, batched)
    ensures LeadsToPromiseAll(methods, m.name)
  {
    BatchedCallExact(m.body, batched);
    if ContainsPromiseAll(m.body) {
      assert Chain(methods, [m.name]);
    } else {
      var name :| name in batched && Calls(m.body, name);
      var rest :| Chain(methods, rest) && rest[0] == name;
      assert ([m.name] + rest)[1..] == rest;
      assert Chain(methods, [m.name] + rest);
    }
  }

  lemma {:induction false} StableHoldsChains(methods: seq<Method>, batched: set<string>, names: seq<string>)
    requires Stable(methods, batched) && Chain(methods, names)
    ensures names[0] in batched
    decreases |names|
  {
    if |names| == 1 {
      var m :| m in methods && m.name == names[0] && ContainsPromiseAll(m.body);
      BatchedCallExact(m.body, batched);
    } else {
      StableHoldsChains(methods, batched, names[1..]);
      var m :| m in methods && m.name == names[0] && Calls(m.body, names[1]);
      BatchedCallExact(m.body, batched);
    }
  }

  function MethodNames(methods: seq<Method>): (s: set<string>)
    ensures |s| <= |methods|
  {
    if methods == [] then {}
    else
      var init := MethodNames(methods[..|methods| - 1]);
      init + {methods[|methods| - 1].name}
  }

  lemma {:induction false} MethodNamesHoldAll(methods: seq<Method>)
    ensures forall m :: m in methods ==> m.name in MethodNames(methods)
  {
    if methods != [] {
      MethodNamesHoldAll(methods[..|methods| - 1]);
      assert methods == methods[..|methods| - 1] + [methods[|methods| - 1]];
    }
  }

  // One round over the methods.
  method MarkRound(methods: seq<Method>, before: set<string>) returns (batched: set<string>, changed: bool)
    requires before <= MethodNames(methods) && Justified(methods, before)
    ensures before <= batched <= MethodNames(methods) && Justified(methods, batched)
    ensures changed <==> batched != before
    ensures !changed ==> Stable(methods, batched)
  {
    MethodNamesHoldAll(methods);
    batched := before;
    changed := false;
    for i := 0 to |methods|
      invariant before <= batched <= MethodNames(methods) && Justified(methods, batched)
      invariant changed <==> batched != before
      invariant !changed ==> Stable(methods[..i], batched)
    {
      var candidate := methods[i];
      assert methods[..i + 1] == methods[..i] + [candidate];
      if candidate.name !in batched && ContainsBatchedCall(candidate.body, batched) {
        AddingIsJustified(methods, batched, candidate);
        batched := batched + {candidate.name};
        changed := true;
      }
    }
    assert methods[..|methods|] == methods;
  }

  // The loop marks exactly the names from which a chain of calls leads to a Promise.all, and
  // needs at most one round more than there are method names.
  method MarkBatched(methods: seq<Method>) returns (batched: set<string>, rounds: nat)
    ensures forall name :: name in batched <==> LeadsToPromiseAll(methods, name)
    ensures rounds <= |batched| + 1 <= |MethodNames(methods)| + 1
  {
    batched := {};
    rounds := 0;
    var changed := true;
    while changed
      invariant batched <= MethodNames(methods) && Justified(methods, batched)
      invariant if changed then rounds <= |batched| else rounds <= |batched| + 1 && Stable(methods, batched)
      decreases MethodNames(methods) - batched, changed
    {
      ghost var before := batched;
      batched, changed := MarkRound(methods, batched);
      rounds := rounds + 1;
      if changed {
        SizeGrows(before, batched);
      }
    }
    SizeAtMost(batched, MethodNames(methods));
    forall name | LeadsToPromiseAll(methods, name)
      ensures name in batched
    {
      var names :| Chain(methods, names) && names[0] == name;
      StableHoldsChains(methods, batched, names);
    }
  }

  lemma SizeAtMost<T>(a: set<T>, b: set<T>)
    requires a <= b
    ensures |a| <= |b|
  {
    assert b == a + (b - a);
  }

  lemma SizeGrows<T>(a: set<T>, b: set<T>)
    requires a <= b && a != b
    ensures |a| < |b|
  {
    assert b == a + (b - a) && b - a != {};
  }
}
