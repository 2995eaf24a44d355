/** The MIB tree shown for a set of loaded modules: `IsPartOfLoadedModules`, `PruneSubTree` with both
    ignore flags off, and `PopulateSubTree`. */
module MibTrees {

  /** A node of the SMI tree with its children in order. */
  datatype SmiNode = SmiNode(id: nat, owner: string, children: seq<SmiNode>)

  /** An item of the tree widget. */
  datatype MibNode = MibNode(id: nat, items: seq<MibNode>)

  // ---------- the functions of the loader ----------

  predicate IsPart(pmodv: seq<string>, n: SmiNode) {
    n.owner in pmodv
  }

  /** `PruneSubTree`: true when nothing of the subtree is to be shown. */
  predicate Prune(pmodv: seq<string>, n: SmiNode)
    decreases n, 1
  {
    !IsPart(pmodv, n) && PruneAll(pmodv, n.children)
  }

  predicate PruneAll(pmodv: seq<string>, ns: seq<SmiNode>)
    decreases ns, 0
  {
    ns == [] || (Prune(pmodv, ns[0]) && PruneAll(pmodv, ns[1..]))
  }

  /** The item that `PopulateSubTree` makes of a node. */
  function Shown(pmodv: seq<string>, n: SmiNode): MibNode
    decreases n, 1
  {
    MibNode(n.id, ShownAll(pmodv, n.children))
  }

  function ShownAll(pmodv: seq<string>, ns: seq<SmiNode>): seq<MibNode>
    decreases ns, 0
  {
    if ns == [] then []
    else (if Prune(pmodv, ns[0]) then [] else [Shown(pmodv, ns[0])]) + ShownAll(pmodv, ns[1..])
  }

  /** The names under which the first `n` module files load. */
  function LoadedNames(modules: seq<string>, found: map<string, string>, n: nat): (names: seq<string>)
    requires n <= |modules|
    ensures forall m :: m in names <==> exists i :: 0 <= i < n && modules[i] in found && found[modules[i]] == m
  {
    if n == 0 then []
    else LoadedNames(modules, found, n - 1) + (if modules[n - 1] in found then [found[modules[n - 1]]] else [])
  }

  /** `from` says which of the first `n` module files these names come from: ascending, and all that load. */
  ghost predicate NamesInOrder(modules: seq<string>, found: map<string, string>, names: seq<string>,
                               from: seq<nat>, n: nat)
    requires n <= |modules|
  {
    && |from| == |names|
    && (forall i, j | 0 <= i < j < |from| :: from[i] < from[j])
    && (forall i | 0 <= i < |from| :: from[i] < n && modules[from[i]] in found && names[i] == found[modules[from[i]]])
    && forall k | 0 <= k < n && modules[k] in found :: k in from
  }

  lemma NamesInOrderNext(modules: seq<string>, found: map<string, string>, names: seq<string>, from: seq<nat>, n: nat)
    requires n < |modules| && NamesInOrder(modules, found, names, from, n)
    ensures if modules[n] in found then NamesInOrder(modules, found, names + [found[modules[n]]], from + [n], n + 1)
      else NamesInOrder(modules, found, names, from, n + 1)
  {
    if modules[n] in found {
      var more := from + [n];
      forall k | 0 <= k < n + 1 && modules[k] in found
        ensures k in more
      {
        if k == n {
          assert more[|from|] == n;
        } else {
          var i :| 0 <= i < |from| && from[i] == k;
          assert more[i] == k;
        }
      }
    }
  }

  /** The names follow the order of the files, one for each file that loads. */
  lemma {:induction false} LoadedInOrder(modules: seq<string>, found: map<string, string>, n: nat)
    returns (from: seq<nat>)
    requires n <= |modules|
    ensures NamesInOrder(modules, found, LoadedNames(modules, found, n), from, n)
  {
    if n == 0 {
      from := [];
    } else {
      from := LoadedInOrder(modules, found, n - 1);
      hide NamesInOrder;
      NamesInOrderNext(modules, found, LoadedNames(modules, found, n - 1), from, n - 1);
      if modules[n - 1] in found {
        from := from + [n - 1];
      } else {
        assert LoadedNames(modules, found, n) == LoadedNames(modules, found, n - 1);
      }
    }
  }

  class MibViewLoader {
    var pmodv: seq<string>

    constructor ()
      ensures pmodv == []
    {
      pmodv := [];
    }

    /** `Load`: the names of the modules that could be loaded, in order.  `found` says which of the
        module files load, and under which module name. */
    method Load(modules: seq<string>, found: map<string, string>)
      modifies this
      ensures pmodv == LoadedNames(modules, found, |modules|)
    {
      var modv := [];
      var i := 0;
      while i < |modules|
        invariant i <= |modules| && modv == LoadedNames(modules, found, i)
      {
        if modules[i] in found {
          modv := modv + [found[modules[i]]];
        }
        i := i + 1;
      }
      pmodv := modv;
    }

    method IsPartOfLoadedModules(n: SmiNode) returns (r: bool)
      ensures r == IsPart(pmodv, n) == (n.owner in pmodv)
    {
      var i := 0;
      while i < |pmodv|
        invariant i <= |pmodv| && n.owner !in pmodv[..i]
      {
        if pmodv[i] == n.owner {
          return true;
        }
        i := i + 1;
      }
      r := false;
    }

    method PruneSubTree(n: SmiNode) returns (r: bool)
      ensures r == Prune(pmodv, n)
      decreases n
    {
      var part := IsPartOfLoadedModules(n);
      if part {
        return false;
      }
      var k := 0;
      while k < |n.children|
        invariant k <= |n.children| && PruneAll(pmodv, n.children) == PruneAll(pmodv, n.children[k..])
      {
        var pruned := PruneSubTree(n.children[k]);
        if !pruned {
          return false;
        }
        k := k + 1;
      }
      r := true;
    }

    /** `PopulateSubTree`: each child that is not pruned is placed after the item made before it. */
    method PopulateSubTree(n: SmiNode) returns (current: MibNode)
      ensures current == Shown(pmodv, n)
      decreases n
    {
      hide Prune, IsPart;
      var items: seq<MibNode> := [];
      var k := 0;
      while k < |n.children|
        invariant k <= |n.children|
        invariant ShownAll(pmodv, n.children) == items + ShownAll(pmodv, n.children[k..])
      {
        var pruned := PruneSubTree(n.children[k]);
        if !pruned {
          var item := PopulateSubTree(n.children[k]);
          items := items + [item];
        }
        k := k + 1;
      }
      current := MibNode(n.id, items);
    }
  }

  // ---------- subtrees and edges, independently ----------

  /** All nodes of some subtrees, parents before children. */
  function Nodes(ns: seq<SmiNode>): seq<SmiNode> {
    if ns == [] then [] else [ns[0]] + Nodes(ns[0].children) + Nodes(ns[1..])
  }

  /** Some node of the subtree belongs to a loaded module. */
  ghost predicate HasLoaded(pmodv: seq<string>, n: SmiNode) {
    exists i :: 0 <= i < |Nodes([n])| && Nodes([n])[i].owner in pmodv
  }

  /** The parent-child pairs below a node, in the order of the tree. */
  function Edges(parent: nat, ns: seq<SmiNode>): seq<(nat, SmiNode)>
    decreases ns
  {
    if ns == [] then []
    else [(parent, ns[0])] + Edges(ns[0].id, ns[0].children) + Edges(parent, ns[1..])
  }

  function ItemEdges(parent: nat, items: seq<MibNode>): seq<(nat, nat)>
    decreases items
  {
    if items == [] then []
    else [(parent, items[0].id)] + ItemEdges(items[0].id, items[0].items) + ItemEdges(parent, items[1..])
  }

  /** The pairs whose child leads to a loaded module. */
  ghost function Leading(pmodv: seq<string>, es: seq<(nat, SmiNode)>): seq<(nat, nat)> {
    if es == [] then []
    else (if HasLoaded(pmodv, es[0].1) then [(es[0].0, es[0].1.id)] else []) + Leading(pmodv, es[1..])
  }

  ghost predicate SomePart(pmodv: seq<string>, nodes: seq<SmiNode>) {
    exists i :: 0 <= i < |nodes| && nodes[i].owner in pmodv
  }

  lemma SomePartOfSum(pmodv: seq<string>, a: seq<SmiNode>, b: seq<SmiNode>)
    ensures SomePart(pmodv, a + b) <==> SomePart(pmodv, a) || SomePart(pmodv, b)
  {
    if SomePart(pmodv, a) {
      var i :| 0 <= i < |a| && a[i].owner in pmodv;
      assert (a + b)[i] == a[i];
    }
    if SomePart(pmodv, b) {
      var i :| 0 <= i < |b| && b[i].owner in pmodv;
      assert (a + b)[|a| + i] == b[i];
    }
  }

  lemma NodesOfOne(n: SmiNode)
    ensures Nodes([n]) == [n] + Nodes(n.children)
  {
  }

  lemma PartOrBelow(pmodv: seq<string>, n: SmiNode)
    ensures HasLoaded(pmodv, n) <==> IsPart(pmodv, n) || SomePart(pmodv, Nodes(n.children))
  {
    NodesOfOne(n);
    SomePartOfSum(pmodv, [n], Nodes(n.children));
    assert SomePart(pmodv, [n]) <==> IsPart(pmodv, [n][0]);
    assert HasLoaded(pmodv, n) <==> SomePart(pmodv, Nodes([n]));
  }

  lemma PartOfOne(pmodv: seq<string>, n: SmiNode)
    ensures SomePart(pmodv, [n]) <==> IsPart(pmodv, n)
  {
    assert [n][0] == n;
  }

  lemma {:induction false} PruneAllExactly(pmodv: seq<string>, ns: seq<SmiNode>)
    ensures PruneAll(pmodv, ns) <==> !SomePart(pmodv, Nodes(ns))
    decreases ns
  {
    if ns != [] {
      hide IsPart, SomePart;
      var n := ns[0];
      PruneAllExactly(pmodv, n.children);
      PruneAllExactly(pmodv, ns[1..]);
      SomePartOfSum(pmodv, [n], Nodes(n.children));
      SomePartOfSum(pmodv, [n] + Nodes(n.children), Nodes(ns[1..]));
      PartOfOne(pmodv, n);
    }
  }

  // ---------- main results ----------

  /** A subtree is pruned exactly when none of its nodes belongs to a loaded module. */
  lemma {:induction false} PruneExactly(pmodv: seq<string>, n: SmiNode)
    ensures Prune(pmodv, n) <==> !HasLoaded(pmodv, n)
  {
    hide IsPart, SomePart, HasLoaded;
    PruneAllExactly(pmodv, n.children);
    PartOrBelow(pmodv, n);
  }

  lemma {:induction false} LeadingOfSum(pmodv: seq<string>, a: seq<(nat, SmiNode)>, b: seq<(nat, SmiNode)>)
    ensures Leading(pmodv, a + b) == Leading(pmodv, a) + Leading(pmodv, b)
  {
    hide HasLoaded;
    if a == [] {
      assert a + b == b;
    } else {
      assert (a + b)[1..] == a[1..] + b;
      LeadingOfSum(pmodv, a[1..], b);
    }
  }

  lemma {:induction false} LeadingOne(pmodv: seq<string>, parent: nat, n: SmiNode)
    ensures Leading(pmodv, [(parent, n)]) == if HasLoaded(pmodv, n) then [(parent, n.id)] else []
  {
  }

  /** Below a pruned node nothing leads to a loaded module. */
  lemma {:induction false} PrunedEdges(pmodv: seq<string>, parent: nat, ns: seq<SmiNode>)
    requires PruneAll(pmodv, ns)
    ensures Leading(pmodv, Edges(parent, ns)) == []
    decreases ns
  {
    if ns != [] {
      hide HasLoaded, IsPart;
      var n := ns[0];
      PruneExactly(pmodv, n);
      PrunedEdges(pmodv, n.id, n.children);
      PrunedEdges(pmodv, parent, ns[1..]);
      LeadingOfSum(pmodv, [(parent, n)], Edges(n.id, n.children));
      LeadingOfSum(pmodv, [(parent, n)] + Edges(n.id, n.children), Edges(parent, ns[1..]));
      LeadingOne(pmodv, parent, n);
    }
  }

  lemma {:induction false} PrunedBelow(pmodv: seq<string>, n: SmiNode)
    requires Prune(pmodv, n)
    ensures PruneAll(pmodv, n.children)
  {
  }

  lemma {:induction false} ItemEdgesOfFirst(parent: nat, item: MibNode, rest: seq<MibNode>)
    ensures ItemEdges(parent, [item] + rest)
      == [(parent, item.id)] + ItemEdges(item.id, item.items) + ItemEdges(parent, rest)
  {
  }

  lemma {:induction false} ShownEdges(pmodv: seq<string>, parent: nat, ns: seq<SmiNode>)
    ensures ItemEdges(parent, ShownAll(pmodv, ns)) == Leading(pmodv, Edges(parent, ns))
    decreases ns
  {
    if ns != [] {
      hide HasLoaded, IsPart, Prune;
      var n := ns[0];
      PruneExactly(pmodv, n);
      ShownEdges(pmodv, n.id, n.children);
      ShownEdges(pmodv, parent, ns[1..]);
      LeadingOfSum(pmodv, [(parent, n)], Edges(n.id, n.children));
      LeadingOfSum(pmodv, [(parent, n)] + Edges(n.id, n.children), Edges(parent, ns[1..]));
      LeadingOne(pmodv, parent, n);
      if Prune(pmodv, n) {
        PrunedBelow(pmodv, n);
        PrunedEdges(pmodv, n.id, n.children);
        assert ShownAll(pmodv, ns) == ShownAll(pmodv, ns[1..]);
      } else {
        ItemEdgesOfFirst(parent, Shown(pmodv, n), ShownAll(pmodv, ns[1..]));
      }
    }
  }

  /** The shown tree has the root of the SMI tree, and of its parent-child pairs exactly those whose
      child is, or is an ancestor of, a node of a loaded module, in the order of the tree. */
  lemma {:induction false} ShownExactly(pmodv: seq<string>, root: SmiNode)
    ensures Shown(pmodv, root).id == root.id
    ensures ItemEdges(root.id, Shown(pmodv, root).items) == Leading(pmodv, Edges(root.id, root.children))
  {
    ShownEdges(pmodv, root.id, root.children);
  }

  lemma {:induction false} NothingShown(pmodv: seq<string>, ns: seq<SmiNode>)
    requires ShownAll(pmodv, ns) == []
    ensures PruneAll(pmodv, ns)
    decreases ns
  {
    if ns != [] {
      NothingShown(pmodv, ns[1..]);
    }
  }

  /** A node below the root that is shown without children belongs to a loaded module. */
  lemma {:induction false} ShownLeafIsLoaded(pmodv: seq<string>, n: SmiNode)
    requires !Prune(pmodv, n) && Shown(pmodv, n).items == []
    ensures n.owner in pmodv
  {
    NothingShown(pmodv, n.children);
  }

  // ---------- the whole shown tree ----------

  /** All items of some trees, parents before children. */
  function Items(items: seq<MibNode>): seq<MibNode> {
    if items == [] then [] else [items[0]] + Items(items[0].items) + Items(items[1..])
  }

  /** The items of those nodes that are, or are ancestors of, nodes of loaded modules. */
  ghost function ItemsOf(pmodv: seq<string>, nodes: seq<SmiNode>): seq<MibNode> {
    if nodes == [] then []
    else (if HasLoaded(pmodv, nodes[0]) then [Shown(pmodv, nodes[0])] else []) + ItemsOf(pmodv, nodes[1..])
  }

  lemma {:induction false} ItemsOfSum(pmodv: seq<string>, a: seq<SmiNode>, b: seq<SmiNode>)
    ensures ItemsOf(pmodv, a + b) == ItemsOf(pmodv, a) + ItemsOf(pmodv, b)
  {
    hide HasLoaded, Shown;
    if a == [] {
      assert a + b == b;
    } else {
      assert (a + b)[1..] == a[1..] + b;
      ItemsOfSum(pmodv, a[1..], b);
    }
  }

  lemma {:induction false} ItemsOfFirst(pmodv: seq<string>, n: SmiNode, below: seq<SmiNode>, rest: seq<SmiNode>)
    ensures ItemsOf(pmodv, [n] + below + rest)
      == (if HasLoaded(pmodv, n) then [Shown(pmodv, n)] else []) + ItemsOf(pmodv, below) + ItemsOf(pmodv, rest)
  {
    hide HasLoaded;
    ItemsOfSum(pmodv, [n] + below, rest);
    ItemsOfSum(pmodv, [n], below);
    assert [n][1..] == [];
  }

  lemma {:induction false} PrunedItems(pmodv: seq<string>, ns: seq<SmiNode>)
    requires PruneAll(pmodv, ns)
    ensures ItemsOf(pmodv, Nodes(ns)) == []
    decreases ns
  {
    if ns != [] {
      hide HasLoaded, IsPart;
      var n := ns[0];
      PruneExactly(pmodv, n);
      PrunedItems(pmodv, n.children);
      PrunedItems(pmodv, ns[1..]);
      ItemsOfFirst(pmodv, n, Nodes(n.children), Nodes(ns[1..]));
    }
  }

  lemma {:induction false} ItemsOfTree(item: MibNode, rest: seq<MibNode>)
    ensures Items([item] + rest) == [item] + Items(item.items) + Items(rest)
  {
    assert ([item] + rest)[1..] == rest;
  }

  /** The items below the root are, in order, those of exactly the nodes that are, or are ancestors of, nodes
      of loaded modules. */
  lemma {:induction false} ShownItems(pmodv: seq<string>, ns: seq<SmiNode>)
    ensures Items(ShownAll(pmodv, ns)) == ItemsOf(pmodv, Nodes(ns))
    decreases ns
  {
    if ns != [] {
      hide HasLoaded, IsPart, Prune;
      var n := ns[0];
      PruneExactly(pmodv, n);
      ShownItems(pmodv, n.children);
      ShownItems(pmodv, ns[1..]);
      ItemsOfFirst(pmodv, n, Nodes(n.children), Nodes(ns[1..]));
      if Prune(pmodv, n) {
        PrunedBelow(pmodv, n);
        PrunedItems(pmodv, n.children);
        assert ShownAll(pmodv, ns) == ShownAll(pmodv, ns[1..]);
      } else {
        ItemsOfTree(Shown(pmodv, n), ShownAll(pmodv, ns[1..]));
      }
    }
  }

  lemma {:induction false} ItemIsShown(pmodv: seq<string>, nodes: seq<SmiNode>, i: nat) returns (n: SmiNode)
    requires i < |ItemsOf(pmodv, nodes)|
    ensures n in nodes && HasLoaded(pmodv, n) && ItemsOf(pmodv, nodes)[i] == Shown(pmodv, n)
  {
    hide HasLoaded;
    var k := if HasLoaded(pmodv, nodes[0]) then 1 else 0;
    if i < k {
      n := nodes[0];
    } else {
      n := ItemIsShown(pmodv, nodes[1..], i - k);
    }
  }

  /** Every leaf of the shown tree below the root stands for a node of a loaded module. */
  lemma {:induction false} ShownLeafsAreLoaded(pmodv: seq<string>, root: SmiNode, i: nat)
    requires i < |Items(Shown(pmodv, root).items)| && Items(Shown(pmodv, root).items)[i].items == []
    ensures exists n :: n in Nodes(root.children) && n.owner in pmodv
                        && Items(Shown(pmodv, root).items)[i] == Shown(pmodv, n)
  {
    hide HasLoaded;
    ShownItems(pmodv, root.children);
    var n := ItemIsShown(pmodv, Nodes(root.children), i);
    PruneExactly(pmodv, n);
    ShownLeafIsLoaded(pmodv, n);
  }
}
