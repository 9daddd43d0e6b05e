/** Paths stored as an arena of component edges, with a count of each node's children that carry state. */
module ComponentTree {
  import opened Octets

  datatype Node<C, S> = Node(parent: Option<nat>, state: Option<S>, children: map<C, nat>, activeChildren: nat)

  const ROOT_NODE: nat := 0

  /** Nodes are never removed, so ids stay valid; `paths` and `index` say which path each id stands for. */
  class ComponentTree<C(==,!new), S(==,!new)> {
    var nodes: seq<Node<C, S>>
    ghost var paths: seq<seq<C>>
    ghost var index: map<seq<C>, nat>

    ghost predicate Valid()
      reads this
    {
      Shaped(nodes, paths) && Indexed(paths, index) && Counted(nodes)
    }

    /** The paths that carry state. */
    ghost function Contents(): map<seq<C>, S>
      reads this
    {
      ContentsOf(nodes, index)
    }

    lemma Sizes()
      requires Valid()
      ensures |nodes| == |paths| > 0 && paths[ROOT_NODE] == []
    {
    }

    /** A path has one node. */
    lemma SameId(i: nat, j: nat)
      requires Valid() && i < |paths| && j < |paths|
      ensures paths[i] == paths[j] ==> i == j
    {
    }

    lemma IndexedPath(path: seq<C>)
      requires Valid()
      ensures path in index ==> index[path] < |paths| && paths[index[path]] == path
    {
    }

    /** Prefixes of a path with a node have nodes. */
    lemma {:induction false} PrefixesIndexed(path: seq<C>, n: nat)
      requires Valid() && n <= |path|
      ensures path in index ==> path[..n] in index
      decreases |path| - n
    {
      if n < |path| {
        PrefixesIndexed(path, n + 1);
        if path in index && n + 1 < |path| {
          ParentIndexed(nodes, paths, index, path[..n + 1]);
          assert path[..n + 1][..n] == path[..n];
        } else if path in index {
          assert path[..n + 1] == path;
          ParentIndexed(nodes, paths, index, path);
        }
      } else {
        assert path[..n] == path;
      }
    }

    lemma OnlyIndexed(path: seq<C>)
      ensures path in Contents() ==> path in index
    {
    }

    constructor (rootState: Option<S>)
      ensures Valid() && paths == [[]]
      ensures Contents() == if rootState.Some? then map[[] := rootState.value] else map[]
    {
      nodes := [Node(None, rootState, map[], 0)];
      paths := [[]];
      index := map[[] := 0];
      new;
      assert Active(nodes, 0) == {};
    }

    /** The child of a node by component. */
    function Child(parent: nat, component: C): (r: Option<nat>)
      requires Valid()
      reads this
      ensures parent < |paths| ==>
                && (r.Some? <==> paths[parent] + [component] in index)
                && (r.Some? ==> r.value == index[paths[parent] + [component]])
    {
      if parent >= |nodes| then None
      else
        EdgeOrNothing(nodes, paths, index, parent, component);
        if component in nodes[parent].children then Some(nodes[parent].children[component]) else None
    }

    /** The child, created without state if it is not there yet. */
    method EnsureChild(parent: nat, component: C) returns (node: nat)
      requires Valid() && parent < |nodes|
      modifies this
      ensures Valid() && Contents() == old(Contents())
      ensures |old(paths)| <= |paths| && forall i :: 0 <= i < |old(paths)| ==> paths[i] == old(paths)[i]
      ensures |nodes| == |paths| && node < |nodes| && paths[node] == paths[parent] + [component]
    {
      var found := Child(parent, component);
      if found.Some? {
        return found.value;
      }
      node := |nodes|;
      ghost var before, pathsBefore, indexBefore := nodes, paths, index;
      nodes := nodes + [Node(Some(parent), None, map[], 0)];
      nodes := nodes[parent := nodes[parent].(children := nodes[parent].children[component := node])];
      paths := paths + [paths[parent] + [component]];
      index := index[paths[parent] + [component] := node];
      ChildAdded(before, pathsBefore, indexBefore, parent, component, nodes, paths, index);
    }

    function State(node: nat): (r: Option<S>)
      requires Valid()
      reads this
      ensures node < |paths| ==> r == if paths[node] in Contents() then Some(Contents()[paths[node]]) else None
    {
      if node < |nodes| then nodes[node].state else None
    }

    /** Gives a node state; the parent's counter notices only a node that had none. */
    method SetState(node: nat, state: S)
      requires Valid()
      modifies this`nodes
      ensures Valid() && |nodes| == |old(nodes)|
      ensures node < |paths| ==> Contents() == old(Contents())[paths[node] := state]
      ensures node >= |paths| ==> Contents() == old(Contents())
    {
      hide Shaped, Indexed, Counted, ContentsOf;
      ShapedSizes(nodes, paths);
      if node >= |nodes| {
        return;
      }
      ghost var before := nodes;
      var activate := nodes[node].state.None?;
      var parent := nodes[node].parent;
      nodes := nodes[node := nodes[node].(state := Some(state))];
      ParentInRange(before, paths, node);
      if activate && parent.Some? {
        nodes := nodes[parent.value := nodes[parent.value].(activeChildren := nodes[parent.value].activeChildren + 1)];
      }
      StateReplaced(before, paths, index, node, Some(state), nodes);
    }

    /** Takes a node's state away. */
    method ClearState(node: nat)
      requires Valid()
      modifies this`nodes
      ensures Valid() && |nodes| == |old(nodes)|
      ensures node < |paths| ==> Contents() == old(Contents()) - {paths[node]}
      ensures node >= |paths| ==> Contents() == old(Contents())
    {
      hide Shaped, Indexed, Counted, ContentsOf;
      ShapedSizes(nodes, paths);
      if node >= |nodes| {
        return;
      }
      ghost var before := nodes;
      var deactivate := nodes[node].state.Some?;
      var parent := nodes[node].parent;
      nodes := nodes[node := nodes[node].(state := None)];
      ParentInRange(before, paths, node);
      if deactivate && parent.Some? {
        ParentCounts(before, paths, node);
        nodes := nodes[parent.value := nodes[parent.value].(activeChildren := nodes[parent.value].activeChildren - 1)];
      }
      StateReplaced(before, paths, index, node, None, nodes);
    }

    /** Whether any path one component longer carries state. */
    predicate HasActiveChildren(node: nat)
      requires Valid()
      reads this
      ensures node < |paths| ==> (HasActiveChildren(node) <==> exists c :: paths[node] + [c] in Contents())
    {
      if node < |nodes| then
        ActiveMeansPath(nodes, paths, index, node);
        nodes[node].activeChildren != 0
      else false
    }
  }

  // --------------------------------------------------------------- the shape

  /** Node `i` hangs under an earlier node, by its last component. */
  ghost predicate HangsUnder<C, S>(nodes: seq<Node<C, S>>, paths: seq<seq<C>>, i: nat)
    requires |nodes| == |paths| && i < |nodes|
  {
    && paths[i] != [] && nodes[i].parent.Some? && nodes[i].parent.value < i
    && var parent, last := nodes[i].parent.value, paths[i][|paths[i]| - 1];
       && paths[i] == paths[parent] + [last]
       && last in nodes[parent].children && nodes[parent].children[last] == i
  }

  /** The edge from `p` by `c` leads to the node whose path it extends. */
  ghost predicate EdgeFits<C, S>(nodes: seq<Node<C, S>>, paths: seq<seq<C>>, p: nat, c: C)
    requires |nodes| == |paths| && p < |nodes| && c in nodes[p].children
  {
    var k := nodes[p].children[c];
    0 < k < |nodes| && nodes[k].parent == Some(p) && paths[k] == paths[p] + [c]
  }

  /** A tree rooted at the empty path. */
  ghost predicate Shaped<C(!new), S>(nodes: seq<Node<C, S>>, paths: seq<seq<C>>)
  {
    && |nodes| == |paths| > 0 && paths[ROOT_NODE] == [] && nodes[ROOT_NODE].parent.None?
    && (forall i :: 0 < i < |nodes| ==> HangsUnder(nodes, paths, i))
    && (forall p, c :: 0 <= p < |nodes| && c in nodes[p].children ==> EdgeFits(nodes, paths, p, c))
  }

  /** Paths and ids are in one-to-one correspondence. */
  ghost predicate Indexed<C>(paths: seq<seq<C>>, index: map<seq<C>, nat>)
  {
    && (forall p :: p in index ==> index[p] < |paths| && paths[index[p]] == p)
    && (forall i :: 0 <= i < |paths| ==> paths[i] in index && index[paths[i]] == i)
  }

  /** The children of a node that carry state. */
  ghost function Active<C, S>(nodes: seq<Node<C, S>>, p: nat): set<nat>
  {
    set k: nat | k < |nodes| && nodes[k].parent == Some(p) && nodes[k].state.Some?
  }

  /** Each counter is the number of the node's children that carry state. */
  ghost predicate Counted<C, S>(nodes: seq<Node<C, S>>)
  {
    forall p :: 0 <= p < |nodes| ==> nodes[p].activeChildren == |Active(nodes, p)|
  }

  ghost function ContentsOf<C, S>(nodes: seq<Node<C, S>>, index: map<seq<C>, nat>): map<seq<C>, S>
  {
    map p | p in index && index[p] < |nodes| && nodes[index[p]].state.Some? :: nodes[index[p]].state.value
  }

  lemma ShapedSizes<C(!new), S>(nodes: seq<Node<C, S>>, paths: seq<seq<C>>)
    requires Shaped(nodes, paths)
    ensures |nodes| == |paths| > 0
  {
  }

  lemma ParentInRange<C(!new), S>(nodes: seq<Node<C, S>>, paths: seq<seq<C>>, node: nat)
    requires Shaped(nodes, paths) && node < |nodes|
    ensures nodes[node].parent.Some? ==> nodes[node].parent.value < node
  {
    if node > 0 { assert HangsUnder(nodes, paths, node); }
  }

  lemma EdgeOrNothing<C(!new), S>(nodes: seq<Node<C, S>>, paths: seq<seq<C>>, index: map<seq<C>, nat>, parent: nat, component: C)
    requires Shaped(nodes, paths) && Indexed(paths, index) && parent < |nodes|
    ensures component in nodes[parent].children <==> paths[parent] + [component] in index
    ensures component in nodes[parent].children ==> index[paths[parent] + [component]] == nodes[parent].children[component]
  {
    if component in nodes[parent].children {
      assert EdgeFits(nodes, paths, parent, component);
    }
    var path := paths[parent] + [component];
    if path in index {
      ChildOfPath(nodes, paths, index, parent, component);
    }
  }

  lemma ChildOfPath<C(!new), S>(nodes: seq<Node<C, S>>, paths: seq<seq<C>>, index: map<seq<C>, nat>, parent: nat, component: C)
    requires Shaped(nodes, paths) && Indexed(paths, index) && parent < |nodes| && paths[parent] + [component] in index
    ensures component in nodes[parent].children && nodes[index[paths[parent] + [component]]].parent == Some(parent)
  {
    var path := paths[parent] + [component];
    var k := index[path];
    assert HangsUnder(nodes, paths, k);
    var above := nodes[k].parent.value;
    assert path[..|path| - 1] == paths[parent] == paths[above];
    assert index[paths[parent]] == parent && index[paths[above]] == above;
  }

  lemma ParentIndexed<C(!new), S>(nodes: seq<Node<C, S>>, paths: seq<seq<C>>, index: map<seq<C>, nat>, path: seq<C>)
    requires Shaped(nodes, paths) && Indexed(paths, index) && path in index && path != []
    ensures path[..|path| - 1] in index
  {
    var k := index[path];
    assert HangsUnder(nodes, paths, k);
    assert path[..|path| - 1] == paths[nodes[k].parent.value];
  }

  lemma ActiveMeansPath<C(!new), S>(nodes: seq<Node<C, S>>, paths: seq<seq<C>>, index: map<seq<C>, nat>, node: nat)
    requires Shaped(nodes, paths) && Indexed(paths, index) && Counted(nodes) && node < |nodes|
    ensures nodes[node].activeChildren != 0 <==> exists c :: paths[node] + [c] in ContentsOf(nodes, index)
  {
    if k :| k in Active(nodes, node) {
      assert HangsUnder(nodes, paths, k);
      assert paths[node] + [paths[k][|paths[k]| - 1]] in ContentsOf(nodes, index);
    }
    if c :| paths[node] + [c] in ContentsOf(nodes, index) {
      ChildOfPath(nodes, paths, index, node, c);
      assert index[paths[node] + [c]] in Active(nodes, node);
    }
  }

  // ------------------------------------------------------------- its changes

  lemma ChildAdded<C(!new), S>(
      nodes: seq<Node<C, S>>, paths: seq<seq<C>>, index: map<seq<C>, nat>, parent: nat, component: C,
      nodes': seq<Node<C, S>>, paths': seq<seq<C>>, index': map<seq<C>, nat>)
    requires Shaped(nodes, paths) && Indexed(paths, index) && Counted(nodes) && parent < |nodes|
    requires paths[parent] + [component] !in index && component !in nodes[parent].children
    requires nodes' == (nodes + [Node(Some(parent), None, map[], 0)])
                       [parent := nodes[parent].(children := nodes[parent].children[component := |nodes|])]
    requires paths' == paths + [paths[parent] + [component]] && index' == index[paths[parent] + [component] := |nodes|]
    ensures Shaped(nodes', paths') && Indexed(paths', index') && Counted(nodes')
    ensures ContentsOf(nodes', index') == ContentsOf(nodes, index)
  {
    ShapeGrows(nodes, paths, parent, component, nodes', paths');
    CountsKept(nodes, paths, parent, nodes');
    ShapedSizes(nodes, paths);
    hide Shaped, Counted, Indexed, ContentsOf;
    IndexGrows(paths, index, paths[parent] + [component]);
    ContentsGrow(nodes, paths, index, nodes', index');
  }

  lemma IndexGrows<C(!new)>(paths: seq<seq<C>>, index: map<seq<C>, nat>, path: seq<C>)
    requires Indexed(paths, index) && path !in index
    ensures Indexed(paths + [path], index[path := |paths|])
  {
  }

  /** A node without state adds nothing to the contents. */
  lemma ContentsGrow<C(!new), S>(
      nodes: seq<Node<C, S>>, paths: seq<seq<C>>, index: map<seq<C>, nat>, nodes': seq<Node<C, S>>, index': map<seq<C>, nat>)
    requires Indexed(paths, index) && |paths| == |nodes| && |nodes'| == |nodes| + 1 && nodes'[|nodes|].state.None?
    requires forall i :: 0 <= i < |nodes| ==> nodes'[i].state == nodes[i].state
    requires index'.Keys >= index.Keys && forall p :: p in index' ==> index'[p] == if p in index then index[p] else |nodes|
    ensures ContentsOf(nodes', index') == ContentsOf(nodes, index)
  {
  }

  lemma ShapeGrows<C(!new), S>(
      nodes: seq<Node<C, S>>, paths: seq<seq<C>>, parent: nat, component: C, nodes': seq<Node<C, S>>, paths': seq<seq<C>>)
    requires Shaped(nodes, paths) && parent < |nodes| && component !in nodes[parent].children
    requires nodes' == (nodes + [Node(Some(parent), None, map[], 0)])
                       [parent := nodes[parent].(children := nodes[parent].children[component := |nodes|])]
    requires paths' == paths + [paths[parent] + [component]]
    ensures Shaped(nodes', paths')
  {
    forall i | 0 < i < |nodes'| ensures HangsUnder(nodes', paths', i) {
      if i < |nodes| { assert HangsUnder(nodes, paths, i); }
    }
    forall p, c | 0 <= p < |nodes'| && c in nodes'[p].children ensures EdgeFits(nodes', paths', p, c) {
      if p < |nodes| && c in nodes[p].children { assert EdgeFits(nodes, paths, p, c); }
    }
  }

  lemma CountsKept<C(!new), S>(nodes: seq<Node<C, S>>, paths: seq<seq<C>>, parent: nat, nodes': seq<Node<C, S>>)
    requires Shaped(nodes, paths) && Counted(nodes) && |nodes'| == |nodes| + 1
    requires nodes'[|nodes|] == Node(Some(parent), None, map[], 0)
    requires forall i :: 0 <= i < |nodes| ==>
               nodes'[i].parent == nodes[i].parent && nodes'[i].state == nodes[i].state
               && nodes'[i].activeChildren == nodes[i].activeChildren
    ensures Counted(nodes')
  {
    NoOrphans(nodes, paths, |nodes|);
    hide Shaped;
    forall p | 0 <= p < |nodes'| ensures nodes'[p].activeChildren == |Active(nodes', p)| {
      assert Active(nodes', p) == Active(nodes, p);
    }
  }

  lemma NoOrphans<C(!new), S>(nodes: seq<Node<C, S>>, paths: seq<seq<C>>, p: nat)
    requires Shaped(nodes, paths) && p >= |nodes|
    ensures Active(nodes, p) == {}
  {
    forall k: nat | k < |nodes| ensures nodes[k].parent != Some(p) {
      if k > 0 { assert HangsUnder(nodes, paths, k); }
    }
  }

  /** Only states and counters differ. */
  ghost predicate SameEdges<C, S>(a: seq<Node<C, S>>, b: seq<Node<C, S>>)
  {
    |a| == |b| && forall i :: 0 <= i < |a| ==> a[i].parent == b[i].parent && a[i].children == b[i].children
  }

  lemma ShapeKept<C(!new), S>(a: seq<Node<C, S>>, b: seq<Node<C, S>>, paths: seq<seq<C>>)
    requires Shaped(a, paths) && SameEdges(a, b)
    ensures Shaped(b, paths)
  {
    forall i | 0 < i < |b| ensures HangsUnder(b, paths, i) {
      assert HangsUnder(a, paths, i);
    }
    forall p, c | 0 <= p < |b| && c in b[p].children ensures EdgeFits(b, paths, p, c) {
      assert EdgeFits(a, paths, p, c);
    }
  }

  lemma ParentCounts<C(!new), S>(nodes: seq<Node<C, S>>, paths: seq<seq<C>>, node: nat)
    requires Shaped(nodes, paths) && Counted(nodes) && node < |nodes| && nodes[node].state.Some? && nodes[node].parent.Some?
    ensures nodes[node].parent.value < |nodes| && nodes[nodes[node].parent.value].activeChildren > 0
  {
    ParentInRange(nodes, paths, node);
    assert node in Active(nodes, nodes[node].parent.value);
  }

  /** How a node's state counts for `p`. */
  function CountsFor<C, S>(n: Node<C, S>, p: nat): nat { if n.parent == Some(p) && n.state.Some? then 1 else 0 }

  /** A node's own share of a count. */
  lemma OwnShare<C, S>(a: seq<Node<C, S>>, node: nat, p: nat)
    requires node < |a|
    ensures |Active(a, p)| == |Active(a, p) - {node}| + CountsFor(a[node], p)
  {
    if CountsFor(a[node], p) == 1 {
      assert Active(a, p) == (Active(a, p) - {node}) + {node};
    } else {
      assert Active(a, p) == Active(a, p) - {node};
    }
  }

  /** Changing one node's state moves the count of its parent alone. */
  lemma ActiveAfter<C, S>(a: seq<Node<C, S>>, node: nat, b: seq<Node<C, S>>, p: nat)
    requires node < |a| == |b|
    requires forall i :: 0 <= i < |a| && i != node ==> a[i].parent == b[i].parent && a[i].state == b[i].state
    ensures |Active(b, p)| == |Active(a, p)| + CountsFor(b[node], p) - CountsFor(a[node], p)
  {
    hide CountsFor, Active;
    OwnShare(a, node, p);
    OwnShare(b, node, p);
    SameOthers(a, node, b, p);
  }

  lemma SameOthers<C, S>(a: seq<Node<C, S>>, node: nat, b: seq<Node<C, S>>, p: nat)
    requires node < |a| == |b|
    requires forall i :: 0 <= i < |a| && i != node ==> a[i].parent == b[i].parent && a[i].state == b[i].state
    ensures Active(a, p) - {node} == Active(b, p) - {node}
  {
  }

  ghost predicate StatesMoved<C, S>(a: seq<Node<C, S>>, node: nat, state: Option<S>, b: seq<Node<C, S>>)
    requires |a| == |b|
  {
    forall i :: 0 <= i < |a| ==> b[i].state == if i == node then state else a[i].state
  }

  ghost predicate CountsMoved<C, S>(a: seq<Node<C, S>>, node: nat, b: seq<Node<C, S>>)
    requires node < |a| == |b|
  {
    forall i :: 0 <= i < |a| ==> b[i].activeChildren == a[i].activeChildren + CountsFor(b[node], i) - CountsFor(a[node], i)
  }

  lemma StateReplaced<C(!new), S>(
      a: seq<Node<C, S>>, paths: seq<seq<C>>, index: map<seq<C>, nat>, node: nat, state: Option<S>, b: seq<Node<C, S>>)
    requires Shaped(a, paths) && Indexed(paths, index) && Counted(a) && node < |a| == |b|
    requires SameEdges(a, b) && StatesMoved(a, node, state, b) && CountsMoved(a, node, b)
    ensures Shaped(b, paths) && Counted(b)
    ensures ContentsOf(b, index) ==
            if state.Some? then ContentsOf(a, index)[paths[node] := state.value] else ContentsOf(a, index) - {paths[node]}
  {
    ShapeKept(a, b, paths);
    ShapedSizes(a, paths);
    ContentsReplaced(a, paths, index, node, state, b);
    hide Shaped, ContentsOf, CountsFor, Indexed;
    forall p | 0 <= p < |b| ensures b[p].activeChildren == |Active(b, p)| {
      ActiveAfter(a, node, b, p);
    }
  }

  lemma ContentsReplaced<C(!new), S>(
      a: seq<Node<C, S>>, paths: seq<seq<C>>, index: map<seq<C>, nat>, node: nat, state: Option<S>, b: seq<Node<C, S>>)
    requires Indexed(paths, index) && node < |a| == |b| == |paths| && StatesMoved(a, node, state, b)
    ensures ContentsOf(b, index) ==
            if state.Some? then ContentsOf(a, index)[paths[node] := state.value] else ContentsOf(a, index) - {paths[node]}
  {
  }
}
