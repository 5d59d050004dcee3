/** The tree utilities of Tree.py, layered on the graph store: a tree is a
    graph plus a `root` and a `rooted` flag, and each node records its
    parent id under the attribute "parent". */
module Trees {

  import opened Values
  import opened Text
  import opened GraphStore

  /** Python's cs[i] for a possibly negative index i; None where Python
      raises IndexError. */
  function Column(cs: seq<string>, i: int): (r: Option<string>)
    ensures r.Some? <==> -|cs| <= i < |cs|
    ensures 0 <= i < |cs| ==> r == Some(cs[i])
    ensures -|cs| <= i < 0 ==> r == Some(cs[|cs| + i])
  {
    if 0 <= i < |cs| then Some(cs[i])
    else if -|cs| <= i < 0 then Some(cs[|cs| + i])
    else None
  }

  /** The attributes load_tree_csv gives a node it creates from its own row. */
  function RowNode(n: Id, p: Id): Attrs {
    map["id" := Str(n), "parent" := Str(p)]
  }

  /** The attributes of a parent node created before its own row is read. */
  function StubNode(p: Id): Attrs {
    map["id" := Str(p), "parent" := Nil]
  }

  /** update_root's test: a node is a root when its parent is None or itself. */
  predicate IsRoot(nodes: map<Id, Attrs>, n: Id)
    requires n in nodes && "parent" in nodes[n]
  {
    nodes[n]["parent"] == Nil || nodes[n]["parent"] == Str(n)
  }

  /** Every node of s has a "parent" attribute. */
  predicate HasParents(nodes: map<Id, Attrs>, s: seq<Id>) {
    forall i | 0 <= i < |s| :: s[i] in nodes && "parent" in nodes[s[i]]
  }

  /** The root after update_root has scanned s, starting from root: the
      last root of s, or root when s has none. */
  function LastRoot(nodes: map<Id, Attrs>, s: seq<Id>, root: Option<Id>): Option<Id>
    requires HasParents(nodes, s)
    decreases |s|
  {
    if s == [] then root
    else if IsRoot(nodes, s[|s| - 1]) then Some(s[|s| - 1])
    else LastRoot(nodes, s[..|s| - 1], root)
  }

  /** LastRoot picks a root of s that no later node of s follows, and keeps
      the old root only when s has no root at all. */
  lemma {:induction false} LastRootIsLast(nodes: map<Id, Attrs>, s: seq<Id>, root: Option<Id>)
    requires HasParents(nodes, s)
    ensures var r := LastRoot(nodes, s, root);
      || (r == root && forall i | 0 <= i < |s| :: !IsRoot(nodes, s[i]))
      || (exists i | 0 <= i < |s| :: r == Some(s[i]) && IsRoot(nodes, s[i])
            && forall j | i < j < |s| :: !IsRoot(nodes, s[j]))
    decreases |s|
  {
    if s != [] && !IsRoot(nodes, s[|s| - 1]) {
      var s' := s[..|s| - 1];
      assert HasParents(nodes, s');
      LastRootIsLast(nodes, s', root);
      var r := LastRoot(nodes, s', root);
      if r == root && forall i | 0 <= i < |s'| :: !IsRoot(nodes, s'[i]) {
      } else {
        var i :| 0 <= i < |s'| && r == Some(s'[i]) && IsRoot(nodes, s'[i])
          && forall j | i < j < |s'| :: !IsRoot(nodes, s'[j]);
        assert r == Some(s[i]) && IsRoot(nodes, s[i]);
      }
    }
  }

  /** A root scan that found any root does not depend on where it started. */
  lemma {:induction false} LastRootFound(nodes: map<Id, Attrs>, s: seq<Id>, root: Option<Id>, root': Option<Id>)
    requires HasParents(nodes, s)
    requires exists i | 0 <= i < |s| :: IsRoot(nodes, s[i])
    ensures LastRoot(nodes, s, root) == LastRoot(nodes, s, root')
    ensures LastRoot(nodes, s, root).Some?
    decreases |s|
  {
    if !IsRoot(nodes, s[|s| - 1]) {
      var s' := s[..|s| - 1];
      var i :| 0 <= i < |s| && IsRoot(nodes, s[i]);
      assert s'[i] == s[i];
      LastRootFound(nodes, s', root, root');
    }
  }

  class Tree {
    /** The graph the tree is stored in. */
    const graph: Graph
    /** t['root']. */
    var root: Option<Id>
    /** t['rooted']. */
    var rooted: bool

    ghost predicate Valid()
      reads this, graph
    {
      graph.Valid()
    }

    /** create_tree(directed, weighted): an empty graph, no root. */
    constructor (directed: bool, weighted: bool)
      ensures Valid() && fresh(graph)
      ensures graph.order == [] && graph.nodes == map[] && graph.edges == map[]
      ensures graph.edgeAttrs == map[] && graph.nbEdges == 0
      ensures graph.directed == directed && graph.weighted == weighted
      ensures root == None && !rooted
    {
      graph := new Graph(directed, weighted);
      root, rooted := None, false;
    }

    /** parent(t, n): the "parent" attribute of n; KeyError when n is not a
        node or has no such attribute. */
    function Parent(n: Id): (r: Result<Value, Error>)
      reads graph
      ensures r.Ok? <==> n in graph.nodes && "parent" in graph.nodes[n]
      ensures r.Ok? ==> r.value == graph.nodes[n]["parent"]
      ensures r.Err? ==> r.error == KeyError
    {
      if n in graph.nodes && "parent" in graph.nodes[n] then Ok(graph.nodes[n]["parent"]) else Err(KeyError)
    }

    /** children(t, n): the targets of n in insertion order, or None when n
        has no edge entry. */
    function Children(n: Id): (r: Option<seq<Id>>)
      reads graph
      ensures r.Some? <==> n in graph.edges
    {
      if n in graph.edges then Some(graph.edges[n]) else None
    }

    /** is_leaf(t, n): whether n has no children; TypeError (len(None))
        when n has no edge entry. */
    function IsLeaf(n: Id): (r: Result<bool, Error>)
      reads graph
      ensures r.Err? <==> Children(n).None?
      ensures r.Err? ==> r.error == TypeError
    {
      match Children(n)
      case None => Err(TypeError)
      case Some(cs) => Ok(|cs| == 0)
    }

    /** update_root(t): scans the nodes in insertion order and makes the
        last root found the tree's root (the old root stays when there is
        none), then sets rooted. A node without a "parent" attribute stops
        the scan with KeyError, leaving the root found so far and rooted
        as it was. */
    method UpdateRoot() returns (r: Result<Option<Id>, Error>)
      requires Valid()
      modifies this
      ensures Valid()
      ensures r.Ok? <==> HasParents(graph.nodes, graph.order)
      ensures r.Ok? ==> r.value == root == LastRoot(graph.nodes, graph.order, old(root)) && rooted == root.Some?
      ensures r.Err? ==> (
        && r.error == KeyError && rooted == old(rooted)
        && exists k | 0 <= k < |graph.order| ::
             && HasParents(graph.nodes, graph.order[..k])
             && !(graph.order[k] in graph.nodes && "parent" in graph.nodes[graph.order[k]])
             && root == LastRoot(graph.nodes, graph.order[..k], old(root)))
    {
      var order, nodes := graph.order, graph.nodes;
      var i := 0;
      while i < |order|
        invariant 0 <= i <= |order| && rooted == old(rooted)
        invariant HasParents(nodes, order[..i])
        invariant root == LastRoot(nodes, order[..i], old(root))
      {
        var n := order[i];
        assert order[..i + 1][..i] == order[..i];
        if n !in nodes || "parent" !in nodes[n] {
          return Err(KeyError);
        }
        var p := nodes[n]["parent"];
        if p == Nil || p == Str(n) {
          root := Some(n);
        }
        i := i + 1;
      }
      assert order[..i] == order;
      rooted := root.Some?;
      r := Ok(root);
    }

    /** The body of load_tree_csv for one row (already stripped): the row
        is split on sep and its idCol and parentCol fields (Python indices,
        negative ones counted from the end) name a node n and its parent p.
        The edge p -> n is added unless p == n. */
    method LoadRow(line: string, sep: char, idCol: int, parentCol: int) returns (r: Outcome)
      requires Valid()
      modifies graph
      ensures Valid()
      ensures r == Pass || r == Fail(IndexError) || r == Fail(KeyError)
      ensures var cs := Split(line, sep);
        r == Fail(IndexError) <==> Column(cs, idCol).None? || Column(cs, parentCol).None?
      ensures var cs := Split(line, sep);
        r == Fail(KeyError) <==>
          && Column(cs, idCol).Some? && Column(cs, parentCol).Some?
          && var n := Column(cs, idCol).value;
             n in old(graph.nodes) && "parent" !in old(graph.nodes)[n]
      ensures r.Fail? ==>
        && graph.order == old(graph.order) && graph.nodes == old(graph.nodes) && graph.edges == old(graph.edges)
        && graph.edgeAttrs == old(graph.edgeAttrs) && graph.nbEdges == old(graph.nbEdges)
      ensures r.Pass? ==>
        var cs := Split(line, sep);
        var n, p := Column(cs, idCol).value, Column(cs, parentCol).value;
        && graph.nodes == RowNodes(old(graph.nodes), n, p)
        && graph.order == RowOrder(old(graph.order), old(graph.nodes), n, p)
        && (p == n ==> graph.edgeAttrs == old(graph.edgeAttrs) && graph.nbEdges == old(graph.nbEdges)
                       && graph.edges == WithEmpty(old(graph.edges), n))
        && (p != n ==> (p, n) in graph.edgeAttrs
                       && ((p, n) in old(graph.edgeAttrs) ==>
                             graph.edgeAttrs == old(graph.edgeAttrs) && graph.edges == old(graph.edges))
                       && ((p, n) !in old(graph.edgeAttrs) ==>
                             && graph.edgeAttrs == Stored(old(graph.edgeAttrs), p, n, map[], graph.directed)
                             && graph.edges == Appended(WithEmpty(WithEmpty(old(graph.edges), n), p), p, n, graph.directed)))
    {
      var cs := Split(line, sep);
      var nc, pc := Column(cs, idCol), Column(cs, parentCol);
      if nc.None? || pc.None? {
        return Fail(IndexError);
      }
      var n, p := nc.value, pc.value;
      if n in graph.nodes && "parent" !in graph.nodes[n] {
        return Fail(KeyError);
      }
      RecordParent(n, p);
      if p != n {
        var _ := graph.AddEdge(p, n, None, None, None);
      }
      r := Pass;
    }

    /** The node part of a load_tree_csv row: a new n is created with its id
        and parent, an existing n gets its parent overwritten, and a
        missing p is created with parent None. */
    method RecordParent(n: Id, p: Id)
      requires Valid()
      requires n in graph.nodes ==> "parent" in graph.nodes[n]
      modifies graph
      ensures Valid()
      ensures graph.nodes == RowNodes(old(graph.nodes), n, p)
      ensures graph.order == RowOrder(old(graph.order), old(graph.nodes), n, p)
      ensures graph.edges == WithEmpty(WithEmpty(old(graph.edges), n), p)
      ensures graph.edgeAttrs == old(graph.edgeAttrs) && graph.nbEdges == old(graph.nbEdges)
    {
      ghost var nodes0, order0 := graph.nodes, graph.order;
      SetChild(n, p);
      ghost var order1 := graph.order;
      assert p in graph.nodes <==> p in nodes0 || p == n;
      AddStub(p);
      RowOrderSteps(order0, nodes0, n, p, order1, graph.order);
    }

    /** Lines 40-45 of a load_tree_csv row: a new n is created with its id
        and parent, an existing n gets its parent overwritten. */
    method SetChild(n: Id, p: Id)
      requires Valid()
      modifies graph
      ensures Valid()
      ensures n in old(graph.nodes) ==> graph.nodes == old(graph.nodes)[n := old(graph.nodes)[n]["parent" := Str(p)]]
      ensures n !in old(graph.nodes) ==> graph.nodes == old(graph.nodes)[n := RowNode(n, p)]
      ensures graph.order == old(graph.order) + (if n in old(graph.nodes) then [] else [n])
      ensures graph.edges == WithEmpty(old(graph.edges), n)
      ensures graph.edgeAttrs == old(graph.edgeAttrs) && graph.nbEdges == old(graph.nbEdges)
    {
      TablesFacts(graph);
      if n !in graph.nodes {
        var _ := graph.AddNode(n, Some(RowNode(n, p)));
      } else {
        graph.SetNodeAttr(n, "parent", Str(p));
      }
    }

    /** Lines 46-47 of a load_tree_csv row: a parent not yet present is
        created with parent None. */
    method AddStub(p: Id)
      requires Valid()
      modifies graph
      ensures Valid()
      ensures graph.nodes == if p in old(graph.nodes) then old(graph.nodes) else old(graph.nodes)[p := StubNode(p)]
      ensures graph.order == old(graph.order) + (if p in old(graph.nodes) then [] else [p])
      ensures graph.edges == WithEmpty(old(graph.edges), p)
      ensures graph.edgeAttrs == old(graph.edgeAttrs) && graph.nbEdges == old(graph.nbEdges)
    {
      TablesFacts(graph);
      if p !in graph.nodes {
        var _ := graph.AddNode(p, Some(StubNode(p)));
      }
    }

    /** The kept list of prune(t, leaves, root): starting from [root] (or
        from nothing when there is no root), each leaf's walk appends the
        leaf and its ancestors up to the first node already kept. */
    method Kept(leaves: seq<Id>, start: Option<Id>) returns (r: Result<seq<Id>, Error>)
      ensures r == ClimbAll(graph.nodes, if start.Some? then [start.value] else [], leaves)
    {
      var nodes := graph.nodes;
      var kept: seq<Id> := if start.Some? then [start.value] else [];
      ghost var init := kept;
      var i := 0;
      while i < |leaves|
        invariant 0 <= i <= |leaves|
        invariant ClimbAll(nodes, init, leaves) == ClimbAll(nodes, kept, leaves[i..])
      {
        assert leaves[i..][0] == leaves[i] && leaves[i..][1..] == leaves[i + 1..];
        ghost var before := kept;
        var n := Some(leaves[i]);
        while n.Some? && n.value !in kept
          invariant Climb(nodes, kept, n) == Climb(nodes, before, Some(leaves[i]))
          decreases nodes.Keys - Elems(kept)
        {
          var x := n.value;
          assert Elems(kept + [x]) == Elems(kept) + {x};
          kept := kept + [x];
          if x !in nodes || "parent" !in nodes[x] {
            return Err(KeyError);
          }
          match nodes[x]["parent"]
          case Nil => n := None;
          case Str(m) => n := Some(m);
          case Int(_) => return Err(KeyError);
          case Strs(_) => return Err(TypeError);
        }
        i := i + 1;
      }
      assert leaves[i..] == [];
      r := Ok(kept);
    }

    /** prune(t, leaves, root): a new tree holding the kept nodes (root, the
        leaves and their ancestors), each with its attributes, and the
        edges of t between kept nodes, with empty attributes. Its root is
        the given root, or t's root when none is given. KeyError when there
        is then no root or the root is not a node; the walk's own errors
        come first. */
    method Prune(leaves: seq<Id>, root: Option<Id>) returns (r: Result<Tree, Error>)
      requires Valid()
      ensures var rt := if root.Some? then root else this.root;
        var w := ClimbAll(graph.nodes, if rt.Some? then [rt.value] else [], leaves);
        && (r.Err? <==> w.Err? || rt.None? || rt.value !in graph.nodes)
        && (r.Err? ==> r.error == if w.Err? then w.error else KeyError)
        && (r.Ok? ==>
              var p, kept := r.value, Elems(w.value);
              && fresh(p) && fresh(p.graph) && p.Valid()
              && p.root == rt && p.rooted
              && p.graph.directed == graph.directed && p.graph.weighted == graph.weighted
              && p.graph.nodes.Keys == kept
              && (forall x | x in kept :: x in graph.nodes && p.graph.nodes[x] == graph.nodes[x])
              && (forall a, b :: (a, b) in p.graph.edgeAttrs <==> (a, b) in graph.edgeAttrs && a in kept && b in kept)
              && (forall a, b | (a, b) in p.graph.edgeAttrs :: p.graph.edgeAttrs[(a, b)] == map[])
              && (p.graph.directed ==>
                    forall a | a in p.graph.edges :: a in graph.edges && p.graph.edges[a] == Filter(graph.edges[a], w.value)))
    {
      var rt := if root.Some? then root else this.root;
      var w := Kept(leaves, rt);
      if w.Err? {
        return Err(w.error);
      }
      if rt.None? || rt.value !in graph.nodes {
        return Err(KeyError);
      }
      var kept := w.value;
      ClimbAllGrows(graph.nodes, [rt.value], leaves);
      TablesFacts(graph);
      var t := Build(kept);
      t.root, t.rooted := rt, true;
      r := Ok(t);
    }

    /** The second half of prune: a new tree with the listed nodes of t and
        the edges of t between them. */
    method Build(kept: seq<Id>) returns (t: Tree)
      requires Valid()
      requires forall x | x in kept :: x in graph.nodes
      requires NoDup(kept)
      ensures fresh(t) && fresh(t.graph) && t.Valid()
      ensures t.root == None && !t.rooted
      ensures t.graph.directed == graph.directed && t.graph.weighted == graph.weighted
      ensures t.graph.nodes.Keys == Elems(kept)
      ensures forall x | x in kept :: t.graph.nodes[x] == graph.nodes[x]
      ensures forall a, b :: (a, b) in t.graph.edgeAttrs <==> (a, b) in graph.edgeAttrs && a in kept && b in kept
      ensures forall a, b | (a, b) in t.graph.edgeAttrs :: t.graph.edgeAttrs[(a, b)] == map[]
      ensures t.graph.directed ==>
        forall a | a in t.graph.edges :: a in graph.edges && t.graph.edges[a] == Filter(graph.edges[a], kept)
    {
      TablesFacts(graph);
      var nodes, edges, attrs := graph.nodes, graph.edges, graph.edgeAttrs;
      t := new Tree(graph.directed, graph.weighted);
      Fill(t, nodes, edges, attrs, kept);
      BuildDone(nodes, edges, attrs, t.graph.nodes, t.graph.edgeAttrs, kept);
      if t.graph.directed {
        TablesFacts(t.graph);
        ListedDone(edges, t.graph.nodes, t.graph.edges, kept);
      }
    }

    /** The loop of prune's second half, on a tree that starts empty: each
        kept node in turn, with its edges to kept nodes. */
    static method Fill(t: Tree, nodes: map<Id, Attrs>, edges: map<Id, seq<Id>>, attrs: map<(Id, Id), Attrs>, kept: seq<Id>)
      requires t.Valid() && t.graph.nodes == map[] && t.graph.edges == map[] && t.graph.edgeAttrs == map[]
      requires forall x | x in kept :: x in nodes && x in edges
      requires NoDup(kept) && (forall x | x in edges :: NoDup(edges[x]))
      requires forall a, b | (a, b) in attrs :: (b, a) in attrs || t.graph.directed
      requires forall n, c | n in edges && c in edges[n] :: (n, c) in attrs
      modifies t.graph
      ensures t.Valid()
      ensures Copied(nodes, t.graph.nodes, kept, |kept|) && Linked(edges, attrs, t.graph.edgeAttrs, kept, |kept|)
      ensures t.graph.directed ==> Listed(edges, t.graph.edges, kept, |kept|)
    {
      var i := 0;
      while i < |kept|
        invariant 0 <= i <= |kept| && t.Valid()
        invariant Copied(nodes, t.graph.nodes, kept, i)
        invariant Linked(edges, attrs, t.graph.edgeAttrs, kept, i)
        invariant t.graph.directed ==> Listed(edges, t.graph.edges, kept, i)
      {
        AddKept(t, nodes, edges, attrs, kept, i);
        i := i + 1;
      }
    }

    /** One turn of prune's second half: the i-th kept node is added with a
        copy of its attributes, then its edges to kept nodes. */
    static method AddKept(t: Tree, nodes: map<Id, Attrs>, edges: map<Id, seq<Id>>, attrs: map<(Id, Id), Attrs>,
                          kept: seq<Id>, i: nat)
      requires i < |kept| && kept[i] in nodes && kept[i] in edges && t.Valid()
      requires forall a, b | (a, b) in attrs :: (b, a) in attrs || t.graph.directed
      requires forall n, c | n in edges && c in edges[n] :: (n, c) in attrs
      requires forall x | x in edges :: NoDup(edges[x])
      requires NoDup(kept)
      requires Copied(nodes, t.graph.nodes, kept, i) && Linked(edges, attrs, t.graph.edgeAttrs, kept, i)
      requires t.graph.directed ==> Listed(edges, t.graph.edges, kept, i)
      modifies t.graph
      ensures t.Valid()
      ensures Copied(nodes, t.graph.nodes, kept, i + 1) && Linked(edges, attrs, t.graph.edgeAttrs, kept, i + 1)
      ensures t.graph.directed ==> Listed(edges, t.graph.edges, kept, i + 1)
    {
      var n := kept[i];
      ghost var before, tedges := t.graph.nodes, t.graph.edges;
      var _ := t.graph.AddNode(n, None);
      t.graph.SetNodeAttrs(n, nodes[n]);
      CopiedStep(nodes, before, t.graph.nodes, kept, i);
      if t.graph.directed {
        ListedStart(edges, tedges, t.graph.edges, kept, i);
      }
      assert LinkedUpTo(edges, attrs, t.graph.edgeAttrs, kept, i, 0);
      LinkTargets(t, nodes, edges, attrs, kept, i);
      LinkedNext(edges, attrs, t.graph.edgeAttrs, kept, i);
      if t.graph.directed {
        ListedNext(edges, t.graph.edges, kept, i);
      }
    }

    /** The inner loop of prune's second half: the edges of t's source from
        the i-th kept node to kept nodes, added to the tree being built. */
    static method LinkTargets(t: Tree, nodes: map<Id, Attrs>, edges: map<Id, seq<Id>>, attrs: map<(Id, Id), Attrs>,
                              kept: seq<Id>, i: nat)
      requires i < |kept| && kept[i] in edges && t.Valid()
      requires forall a, b | (a, b) in attrs :: (b, a) in attrs || t.graph.directed
      requires forall n, c | n in edges && c in edges[n] :: (n, c) in attrs
      requires NoDup(edges[kept[i]])
      requires Copied(nodes, t.graph.nodes, kept, i + 1) && LinkedUpTo(edges, attrs, t.graph.edgeAttrs, kept, i, 0)
      requires t.graph.directed ==> ListedUpTo(edges, t.graph.edges, kept, i, 0)
      modifies t.graph
      ensures t.Valid()
      ensures Copied(nodes, t.graph.nodes, kept, i + 1) && LinkedUpTo(edges, attrs, t.graph.edgeAttrs, kept, i, |edges[kept[i]]|)
      ensures t.graph.directed ==> ListedUpTo(edges, t.graph.edges, kept, i, |edges[kept[i]]|)
    {
      var n, cs := kept[i], edges[kept[i]];
      var j := 0;
      while j < |cs|
        invariant 0 <= j <= |cs| && t.Valid()
        invariant Copied(nodes, t.graph.nodes, kept, i + 1)
        invariant LinkedUpTo(edges, attrs, t.graph.edgeAttrs, kept, i, j)
        invariant t.graph.directed ==> ListedUpTo(edges, t.graph.edges, kept, i, j)
      {
        LinkTarget(t, nodes, edges, attrs, kept, i, j);
        j := j + 1;
      }
    }

    /** One turn of the inner loop: the j-th source target of the i-th kept
        node, linked when it is kept. */
    static method LinkTarget(t: Tree, nodes: map<Id, Attrs>, edges: map<Id, seq<Id>>, attrs: map<(Id, Id), Attrs>,
                             kept: seq<Id>, i: nat, j: nat)
      requires i < |kept| && kept[i] in edges && j < |edges[kept[i]]| && t.Valid()
      requires forall a, b | (a, b) in attrs :: (b, a) in attrs || t.graph.directed
      requires forall n, c | n in edges && c in edges[n] :: (n, c) in attrs
      requires NoDup(edges[kept[i]])
      requires Copied(nodes, t.graph.nodes, kept, i + 1) && LinkedUpTo(edges, attrs, t.graph.edgeAttrs, kept, i, j)
      requires t.graph.directed ==> ListedUpTo(edges, t.graph.edges, kept, i, j)
      modifies t.graph
      ensures t.Valid()
      ensures Copied(nodes, t.graph.nodes, kept, i + 1) && LinkedUpTo(edges, attrs, t.graph.edgeAttrs, kept, i, j + 1)
      ensures t.graph.directed ==> ListedUpTo(edges, t.graph.edges, kept, i, j + 1)
    {
      var n, c := kept[i], edges[kept[i]][j];
      ghost var tnodes, tedges, tattrs := t.graph.nodes, t.graph.edges, t.graph.edgeAttrs;
      TablesFacts(t.graph);
      if c in kept {
        var _ := t.graph.AddEdge(n, c, None, None, None);
        LinkStep(nodes, edges, attrs, kept, i, j, tnodes, tattrs, t.graph.nodes, t.graph.edgeAttrs, t.graph.directed);
      }
      if t.graph.directed {
        ListedLink(edges, tnodes, tedges, tattrs, t.graph.edges, kept, i, j);
      }
    }

    /** as_newick(t, node, length, label): the Newick string of the subtree
        at node (the root when node is None), as Newick describes it on
        the tables before the call. Each node whose label was read has its
        "newick" attribute set to the label's string; nothing else changes.
        With neither a node nor a root, is_leaf(t, None) raises TypeError. */
    method AsNewick(node: Option<Id>, length: Option<string>, labelAttr: string, ghost rank: map<Id, nat>)
      returns (r: Result<string, Error>)
      requires Valid() && Ranked(graph.edges, rank)
      requires var n := if node.Some? then node else root; n.Some? ==> n.value in rank
      modifies graph
      ensures Valid()
      ensures graph.order == old(graph.order) && graph.edges == old(graph.edges)
      ensures graph.edgeAttrs == old(graph.edgeAttrs) && graph.nbEdges == old(graph.nbEdges)
      ensures var n := if node.Some? then node else root;
        r == if n.None? then Err(TypeError)
             else Newick(old(graph.nodes), graph.edges, graph.edgeAttrs, root, rank, n.value, length, labelAttr)
      ensures Stamped(old(graph.nodes), graph.nodes, labelAttr)
    {
      var n := if node.Some? then node else root;
      if n.None? {
        return Err(TypeError);
      }
      r := NewickAt(n.value, length, labelAttr, rank);
    }

    /** The recursive body of as_newick at one node. */
    method NewickAt(node: Id, length: Option<string>, labelAttr: string, ghost rank: map<Id, nat>)
      returns (r: Result<string, Error>)
      requires Valid() && Ranked(graph.edges, rank) && node in rank
      modifies graph
      ensures Valid()
      ensures graph.order == old(graph.order) && graph.edges == old(graph.edges)
      ensures graph.edgeAttrs == old(graph.edgeAttrs) && graph.nbEdges == old(graph.nbEdges)
      ensures r == Newick(old(graph.nodes), graph.edges, graph.edgeAttrs, root, rank, node, length, labelAttr)
      ensures r.Ok? ==>
        node in graph.nodes && "newick" in graph.nodes[node] && graph.nodes[node]["newick"] == Str(Label(old(graph.nodes), node, labelAttr).value)
      ensures Stamped(old(graph.nodes), graph.nodes, labelAttr)
      decreases rank[node], 1, 0
    {
      ghost var nodes0 := graph.nodes;
      if node !in graph.edges {
        return Err(TypeError);
      }
      ghost var mark := if root == Some(node) then ";" else "";
      ghost var innerR := if graph.edges[node] == [] then Ok("")
        else Wrap(NewickList(nodes0, graph.edges, graph.edgeAttrs, root, rank, node, graph.edges[node], length, labelAttr));
      ghost var want := Assemble(innerR, Label(nodes0, node, labelAttr), Length(nodes0, graph.edges, graph.edgeAttrs, node, length), mark);
      assert want == Newick(nodes0, graph.edges, graph.edgeAttrs, root, rank, node, length, labelAttr);
      var inner := "";
      if graph.edges[node] != [] {
        var parts := NewickChildren(node, length, labelAttr, rank);
        if parts.Err? {
          return Err(parts.error);
        }
        inner := "(" + Join(parts.value, ',') + ")";
      }
      assert innerR == Ok(inner);
      NodeLabel(nodes0, graph.nodes, labelAttr, node, length, graph.edges, graph.edgeAttrs);
      if node !in graph.nodes || labelAttr !in graph.nodes[node] {
        return Err(KeyError);
      }
      var lab := Render(graph.nodes[node][labelAttr]);
      ghost var nodes1 := graph.nodes;
      graph.SetNodeAttr(node, "newick", Str(lab));
      StampStep(nodes0, nodes1, labelAttr, node);
      NodeLabel(nodes0, graph.nodes, labelAttr, node, length, graph.edges, graph.edgeAttrs);
      var suffix := Length(graph.nodes, graph.edges, graph.edgeAttrs, node, length);
      if suffix.Err? {
        return Err(suffix.error);
      }
      r := Ok(inner + lab + suffix.value + (if root == Some(node) then ";" else ""));
    }

    /** The loop of as_newick over the children of node. */
    method NewickChildren(node: Id, length: Option<string>, labelAttr: string, ghost rank: map<Id, nat>)
      returns (r: Result<seq<string>, Error>)
      requires Valid() && Ranked(graph.edges, rank) && node in rank && node in graph.edges
      modifies graph
      ensures Valid()
      ensures graph.order == old(graph.order) && graph.edges == old(graph.edges)
      ensures graph.edgeAttrs == old(graph.edgeAttrs) && graph.nbEdges == old(graph.nbEdges)
      ensures r == NewickList(old(graph.nodes), graph.edges, graph.edgeAttrs, root, rank, node, graph.edges[node], length, labelAttr)
      ensures Stamped(old(graph.nodes), graph.nodes, labelAttr)
      decreases rank[node], 0, 1
    {
      ghost var nodes0 := graph.nodes;
      var cs := graph.edges[node];
      var parts: seq<string> := [];
      var i := 0;
      assert cs[i..] == cs;
      ghost var whole := NewickList(nodes0, graph.edges, graph.edgeAttrs, root, rank, node, cs, length, labelAttr);
      assert whole.Ok? ==> [] + whole.value == whole.value;
      while i < |cs|
        invariant 0 <= i <= |cs| && Valid()
        invariant Stamped(nodes0, graph.nodes, labelAttr)
        invariant graph.order == old(graph.order) && graph.edges == old(graph.edges)
        invariant graph.edgeAttrs == old(graph.edgeAttrs) && graph.nbEdges == old(graph.nbEdges)
        invariant whole == Prepend(parts, NewickList(nodes0, graph.edges, graph.edgeAttrs, root, rank, node, cs[i..], length, labelAttr))
      {
        var sub := ChildStep(node, cs, i, parts, length, labelAttr, rank, nodes0, whole);
        if sub.Err? {
          return Err(sub.error);
        }
        parts := parts + [sub.value];
        i := i + 1;
      }
      assert cs[i..] == [] && parts + [] == parts;
      r := Ok(parts);
    }

    /** One turn of as_newick's loop over the children of node: the string
        of the i-th child, which is the list's error when it fails, and
        otherwise joins the parts already built. */
    method ChildStep(node: Id, cs: seq<Id>, i: nat, parts: seq<string>, length: Option<string>, labelAttr: string,
                     ghost rank: map<Id, nat>, ghost nodes0: map<Id, Attrs>, ghost whole: Result<seq<string>, Error>)
      returns (sub: Result<string, Error>)
      requires Valid() && Ranked(graph.edges, rank) && node in rank && node in graph.edges && cs == graph.edges[node] && i < |cs|
      requires Stamped(nodes0, graph.nodes, labelAttr)
      requires whole == NewickList(nodes0, graph.edges, graph.edgeAttrs, root, rank, node, cs, length, labelAttr)
      requires whole == Prepend(parts, NewickList(nodes0, graph.edges, graph.edgeAttrs, root, rank, node, cs[i..], length, labelAttr))
      modifies graph
      ensures Valid()
      ensures graph.order == old(graph.order) && graph.edges == old(graph.edges)
      ensures graph.edgeAttrs == old(graph.edgeAttrs) && graph.nbEdges == old(graph.nbEdges)
      ensures Stamped(nodes0, graph.nodes, labelAttr)
      ensures sub.Err? ==> whole == Err(sub.error)
      ensures sub.Ok? ==>
                whole == Prepend(parts + [sub.value], NewickList(nodes0, graph.edges, graph.edgeAttrs, root, rank, node, cs[i + 1..], length, labelAttr))
      decreases rank[node], 0, 0
    {
      ghost var nodes1 := graph.nodes;
      sub := NewickAt(cs[i], length, labelAttr, rank);
      StampedNewick(nodes0, nodes1, graph.edges, graph.edgeAttrs, root, rank, cs[i], length, labelAttr);
      StampTrans(nodes0, nodes1, graph.nodes, labelAttr);
      ListStep(nodes0, graph.edges, graph.edgeAttrs, root, rank, node, cs, i, parts, sub, length, labelAttr);
    }
  }

  lemma RowOrderSteps(order: seq<Id>, nodes: map<Id, Attrs>, n: Id, p: Id, order1: seq<Id>, order2: seq<Id>)
    requires order1 == order + (if n in nodes then [] else [n])
    requires order2 == order1 + (if p in nodes || p == n then [] else [p])
    ensures order2 == RowOrder(order, nodes, n, p)
  {
  }

  /** The insertion order after a load_tree_csv row naming n and its
      parent p: n is appended when new, then p when new and distinct. */
  function RowOrder(order: seq<Id>, nodes: map<Id, Attrs>, n: Id, p: Id): (r: seq<Id>)
    ensures |order| <= |r| && r[..|order|] == order
    ensures forall x :: x in r[|order|..] <==> x !in nodes && (x == n || x == p)
    ensures n !in nodes ==> r[|order|] == n
  {
    var added := (if n in nodes then [] else [n]) + (if p in nodes || p == n then [] else [p]);
    assert (order + added)[|order|..] == added;
    order + added
  }

  /** The node table after a load_tree_csv row naming n and its parent p. */
  function RowNodes(nodes: map<Id, Attrs>, n: Id, p: Id): (r: map<Id, Attrs>)
    ensures r.Keys == nodes.Keys + {n, p}
    ensures forall x | x in nodes && x != n :: r[x] == nodes[x]
  {
    var m := if n in nodes then nodes[n := nodes[n]["parent" := Str(p)]] else nodes[n := RowNode(n, p)];
    if p in m then m else m[p := StubNode(p)]
  }

  /** children and is_leaf read the edge table: c is a child of n exactly
      when the edge n -> c is stored, each child is listed once, and n is a
      leaf exactly when no edge leaves it. */
  lemma ChildrenAreEdges(t: Tree, n: Id)
    requires t.Valid()
    ensures t.Children(n).Some? <==> n in t.graph.nodes
    ensures t.Children(n).Some? ==>
              NoDup(t.Children(n).value) && forall c :: c in t.Children(n).value <==> (n, c) in t.graph.edgeAttrs
    ensures t.IsLeaf(n).Ok? ==> (t.IsLeaf(n).value <==> forall c :: (n, c) !in t.graph.edgeAttrs)
  {
    TablesFacts(t.graph);
    if t.IsLeaf(n).Ok? && !t.IsLeaf(n).value {
      var c := t.graph.edges[n][0];
      assert c in t.graph.edges[n];
    }
  }

  /** The ids of a list. */
  function Elems(s: seq<Id>): set<Id> {
    set x | x in s
  }

  /** prune's walk up from n: n and its ancestors are appended to kept
      until the walk reaches a node already kept or a None parent. A node
      missing from the table or without a "parent" attribute raises
      KeyError; a parent that is a number raises KeyError on the next
      lookup, and one that is a list TypeError (a list is not hashable). */
  function Climb(nodes: map<Id, Attrs>, kept: seq<Id>, n: Option<Id>): (r: Result<seq<Id>, Error>)
    decreases nodes.Keys - Elems(kept)
  {
    if n.None? || n.value in kept then Ok(kept)
    else
      var k := kept + [n.value];
      if n.value !in nodes || "parent" !in nodes[n.value] then Err(KeyError)
      else
        assert Elems(k) == Elems(kept) + {n.value};
        match nodes[n.value]["parent"]
        case Nil => Ok(k)
        case Str(m) => Climb(nodes, k, Some(m))
        case Int(_) => Err(KeyError)
        case Strs(_) => Err(TypeError)
  }

  /** prune's loop over the leaves: one walk per leaf, in order, stopping at
      the first error. */
  function ClimbAll(nodes: map<Id, Attrs>, kept: seq<Id>, leaves: seq<Id>): (r: Result<seq<Id>, Error>)
    decreases |leaves|
  {
    if leaves == [] then Ok(kept)
    else
      match Climb(nodes, kept, Some(leaves[0]))
      case Err(e) => Err(e)
      case Ok(k) => ClimbAll(nodes, k, leaves[1..])
  }

  /** What a walk adds: the list only grows; the start node ends up kept;
      each node added is a node whose parent is None or a string that is
      kept too; and each node added is the start or the parent of a node
      added before it. */
  predicate Grown(nodes: map<Id, Attrs>, kept: seq<Id>, r: seq<Id>)
  {
    && |kept| <= |r| && r[..|kept|] == kept
    && (forall i | |kept| <= i < |r| ::
          && r[i] in nodes && "parent" in nodes[r[i]]
          && (nodes[r[i]]["parent"] == Nil || (nodes[r[i]]["parent"].Str? && nodes[r[i]]["parent"].s in r)))
  }

  /** Each node a walk adds is its start or the parent of the node added
      just before it. */
  predicate Chained(nodes: map<Id, Attrs>, kept: seq<Id>, r: seq<Id>, start: Id)
    requires |kept| <= |r|
  {
    && (|kept| < |r| ==> r[|kept|] == start)
    && (forall i | |kept| <= i < |r| - 1 ::
          r[i] in nodes && "parent" in nodes[r[i]] && nodes[r[i]]["parent"] == Str(r[i + 1]))
  }

  /** Each node the walks add is one of the leaves or the parent of a node
      added before it: nothing is kept that is not a leaf or an ancestor of
      one. */
  predicate Sourced(nodes: map<Id, Attrs>, kept: seq<Id>, r: seq<Id>, leaves: seq<Id>)
    requires |kept| <= |r|
  {
    forall i | |kept| <= i < |r| ::
      || r[i] in leaves
      || exists j | |kept| <= j < i :: r[j] in nodes && "parent" in nodes[r[j]] && nodes[r[j]]["parent"] == Str(r[i])
  }

  lemma {:induction false} ClimbGrows(nodes: map<Id, Attrs>, kept: seq<Id>, n: Option<Id>)
    requires Climb(nodes, kept, n).Ok?
    ensures var r := Climb(nodes, kept, n).value;
      && Grown(nodes, kept, r)
      && (n.Some? ==> n.value in r)
      && (n.Some? ==> Chained(nodes, kept, r, n.value))
      && (NoDup(kept) ==> NoDup(r))
    decreases nodes.Keys - Elems(kept)
  {
    if n.Some? && n.value !in kept {
      var x := n.value;
      var k := kept + [x];
      assert Elems(k) == Elems(kept) + {x};
      var r := Climb(nodes, kept, n).value;
      match nodes[x]["parent"]
      case Nil =>
      case Str(m) =>
        ClimbGrows(nodes, k, Some(m));
        assert r[..|k|] == k;
        assert r[..|kept|] == k[..|kept|];
        assert r[|kept|] == x;
        if |k| < |r| {
          assert r[|k|] == m;
        }
    }
  }

  lemma {:induction false} ClimbAllGrows(nodes: map<Id, Attrs>, kept: seq<Id>, leaves: seq<Id>)
    requires ClimbAll(nodes, kept, leaves).Ok?
    ensures var r := ClimbAll(nodes, kept, leaves).value;
      && Grown(nodes, kept, r)
      && (forall l | l in leaves :: l in r)
      && Sourced(nodes, kept, r, leaves)
      && (NoDup(kept) ==> NoDup(r))
    decreases |leaves|
  {
    if leaves != [] {
      var k := Climb(nodes, kept, Some(leaves[0])).value;
      ClimbGrows(nodes, kept, Some(leaves[0]));
      ClimbAllGrows(nodes, k, leaves[1..]);
      var r := ClimbAll(nodes, kept, leaves).value;
      GrownTrans(nodes, kept, k, r);
      SourcedStep(nodes, kept, k, r, leaves);
      forall l | l in leaves ensures l in r {
        if l != leaves[0] {
          assert l in leaves[1..];
        } else {
          assert r[..|k|] == k;
          assert l in r[..|k|];
        }
      }
    }
  }

  /** Two walks in a row grow the list as one walk does. */
  lemma GrownTrans(nodes: map<Id, Attrs>, kept: seq<Id>, k: seq<Id>, r: seq<Id>)
    requires Grown(nodes, kept, k) && Grown(nodes, k, r)
    ensures Grown(nodes, kept, r)
  {
    assert r[..|kept|] == k[..|kept|];
    forall i | |kept| <= i < |r|
      ensures r[i] in nodes && "parent" in nodes[r[i]]
      ensures nodes[r[i]]["parent"] == Nil || (nodes[r[i]]["parent"].Str? && nodes[r[i]]["parent"].s in r)
    {
      if i < |k| {
        assert r[i] == k[i];
        if nodes[r[i]]["parent"].Str? {
          assert nodes[r[i]]["parent"].s in r[..|k|];
        }
      }
    }
  }

  /** A walk from the first leaf followed by walks from the others adds
      only leaves and their ancestors. */
  lemma SourcedStep(nodes: map<Id, Attrs>, kept: seq<Id>, k: seq<Id>, r: seq<Id>, leaves: seq<Id>)
    requires leaves != []
    requires |kept| <= |k| <= |r| && r[..|k|] == k
    requires Chained(nodes, kept, k, leaves[0])
    requires Sourced(nodes, k, r, leaves[1..])
    ensures Sourced(nodes, kept, r, leaves)
  {
    forall i | |kept| <= i < |r|
      ensures || r[i] in leaves
              || exists j | |kept| <= j < i :: r[j] in nodes && "parent" in nodes[r[j]] && nodes[r[j]]["parent"] == Str(r[i])
    {
      if i < |k| {
        assert r[i] == k[i];
        if i == |kept| {
          assert k[|kept|] == leaves[0];
        } else {
          assert r[i - 1] == k[i - 1];
          var j := i - 1;
          assert r[j] in nodes && "parent" in nodes[r[j]] && nodes[r[j]]["parent"] == Str(r[i]);
        }
      } else if r[i] !in leaves[1..] {
        var j :| |k| <= j < i && r[j] in nodes && "parent" in nodes[r[j]] && nodes[r[j]]["parent"] == Str(r[i]);
      } else {
        assert r[i] in leaves;
      }
    }
  }

  /** The nodes of a tree being built by prune, once the first i kept nodes
      are processed: every node is kept; the processed ones carry their
      attributes from the source table, the others (edge targets added
      ahead of their turn) an empty dictionary. */
  ghost predicate Copied(nodes: map<Id, Attrs>, tnodes: map<Id, Attrs>, kept: seq<Id>, i: nat)
    requires i <= |kept|
  {
    && (forall j | 0 <= j < i :: kept[j] in tnodes && kept[j] in nodes)
    && (forall x | x in tnodes :: x in kept)
    && (forall x | x in tnodes && x in kept[..i] :: x in nodes && tnodes[x] == nodes[x])
    && (forall x | x in tnodes && x !in kept[..i] :: tnodes[x] == map[])
  }

  /** The edges of a tree being built by prune: each is an edge of the
      source between kept nodes, with an empty dictionary, and every edge
      of the source from one of the first i kept nodes to a kept node is
      there. */
  ghost predicate Linked(edges: map<Id, seq<Id>>, attrs: map<(Id, Id), Attrs>, tattrs: map<(Id, Id), Attrs>,
                         kept: seq<Id>, i: nat)
    requires i <= |kept|
  {
    && (forall a, b | (a, b) in tattrs :: (a, b) in attrs && a in kept && b in kept && tattrs[(a, b)] == map[])
    && (forall j, c | 0 <= j < i && kept[j] in edges && c in edges[kept[j]] && c in kept :: (kept[j], c) in tattrs)
  }

  /** Linked, part way through the targets of the i-th kept node. */
  ghost predicate LinkedUpTo(edges: map<Id, seq<Id>>, attrs: map<(Id, Id), Attrs>, tattrs: map<(Id, Id), Attrs>,
                             kept: seq<Id>, i: nat, j: nat)
    requires i < |kept|
  {
    && Linked(edges, attrs, tattrs, kept, i)
    && (kept[i] in edges ==>
          forall k | 0 <= k < j && k < |edges[kept[i]]| && edges[kept[i]][k] in kept :: (kept[i], edges[kept[i]][k]) in tattrs)
  }

  lemma CopiedStep(nodes: map<Id, Attrs>, tnodes: map<Id, Attrs>, tnodes': map<Id, Attrs>, kept: seq<Id>, i: nat)
    requires i < |kept| && kept[i] in nodes && Copied(nodes, tnodes, kept, i)
    requires tnodes' == WithNode(tnodes, kept[i], None)[kept[i] := nodes[kept[i]]]
    ensures Copied(nodes, tnodes', kept, i + 1)
  {
    assert kept[..i + 1] == kept[..i] + [kept[i]];
  }

  lemma LinkStep(nodes: map<Id, Attrs>, edges: map<Id, seq<Id>>, attrs: map<(Id, Id), Attrs>, kept: seq<Id>, i: nat, j: nat,
                 tnodes: map<Id, Attrs>, tattrs: map<(Id, Id), Attrs>,
                 tnodes': map<Id, Attrs>, tattrs': map<(Id, Id), Attrs>, directed: bool)
    requires i < |kept| && kept[i] in edges && j < |edges[kept[i]]| && edges[kept[i]][j] in kept
    requires forall a, b | (a, b) in attrs :: (b, a) in attrs || directed
    requires forall n, c | n in edges && c in edges[n] :: (n, c) in attrs
    requires Copied(nodes, tnodes, kept, i + 1) && LinkedUpTo(edges, attrs, tattrs, kept, i, j)
    requires var n, c := kept[i], edges[kept[i]][j];
      && tnodes' == WithNode(WithNode(tnodes, n, None), c, None)
      && ((n, c) in tattrs ==> tattrs' == tattrs)
      && ((n, c) !in tattrs ==> tattrs' == Stored(tattrs, n, c, map[], directed))
    ensures Copied(nodes, tnodes', kept, i + 1) && LinkedUpTo(edges, attrs, tattrs', kept, i, j + 1)
  {
  }

  lemma LinkedNext(edges: map<Id, seq<Id>>, attrs: map<(Id, Id), Attrs>, tattrs: map<(Id, Id), Attrs>, kept: seq<Id>, i: nat)
    requires i < |kept| && kept[i] in edges && LinkedUpTo(edges, attrs, tattrs, kept, i, |edges[kept[i]]|)
    ensures Linked(edges, attrs, tattrs, kept, i + 1)
  {
    forall j, c | 0 <= j < i + 1 && kept[j] in edges && c in edges[kept[j]] && c in kept
      ensures (kept[j], c) in tattrs
    {
      if j == i {
        var k :| 0 <= k < |edges[kept[i]]| && edges[kept[i]][k] == c;
      }
    }
  }

  lemma BuildDone(nodes: map<Id, Attrs>, edges: map<Id, seq<Id>>, attrs: map<(Id, Id), Attrs>,
                  tnodes: map<Id, Attrs>, tattrs: map<(Id, Id), Attrs>, kept: seq<Id>)
    requires forall a, b | (a, b) in attrs :: a in edges && b in edges[a]
    requires Copied(nodes, tnodes, kept, |kept|) && Linked(edges, attrs, tattrs, kept, |kept|)
    ensures tnodes.Keys == Elems(kept)
    ensures forall x | x in kept :: tnodes[x] == nodes[x]
    ensures forall a, b :: (a, b) in tattrs <==> (a, b) in attrs && a in kept && b in kept
    ensures forall a, b | (a, b) in tattrs :: tattrs[(a, b)] == map[]
  {
    assert kept[..|kept|] == kept;
    forall a, b | (a, b) in attrs && a in kept && b in kept ensures (a, b) in tattrs {
      var j :| 0 <= j < |kept| && kept[j] == a;
    }
  }

  /** The elements of s that are in keep, in the order of s. */
  function Filter(s: seq<Id>, keep: seq<Id>): (r: seq<Id>)
    ensures forall x :: x in r <==> x in s && x in keep
  {
    if s == [] then []
    else
      assert s == s[..|s| - 1] + [s[|s| - 1]];
      Filter(s[..|s| - 1], keep) + (if s[|s| - 1] in keep then [s[|s| - 1]] else [])
  }

  /** The target lists of a directed tree being built by prune, once the
      first i kept nodes are processed: a processed node lists its kept
      source targets in their source order, any other node lists none. */
  ghost predicate Listed(edges: map<Id, seq<Id>>, tedges: map<Id, seq<Id>>, kept: seq<Id>, i: nat)
    requires i <= |kept|
  {
    forall x | x in tedges :: tedges[x] == if x in kept[..i] && x in edges then Filter(edges[x], kept) else []
  }

  /** Listed, part way through the targets of the i-th kept node. */
  ghost predicate ListedUpTo(edges: map<Id, seq<Id>>, tedges: map<Id, seq<Id>>, kept: seq<Id>, i: nat, j: nat)
    requires i < |kept|
  {
    && kept[i] in edges && j <= |edges[kept[i]]| && kept[i] in tedges
    && tedges[kept[i]] == Filter(edges[kept[i]][..j], kept)
    && (forall x | x in tedges && x != kept[i] ::
          tedges[x] == if x in kept[..i] && x in edges then Filter(edges[x], kept) else [])
  }

  lemma ListedStart(edges: map<Id, seq<Id>>, tedges: map<Id, seq<Id>>, tedges': map<Id, seq<Id>>, kept: seq<Id>, i: nat)
    requires i < |kept| && kept[i] in edges && NoDup(kept) && Listed(edges, tedges, kept, i)
    requires tedges' == WithEmpty(tedges, kept[i])
    ensures ListedUpTo(edges, tedges', kept, i, 0)
  {
    assert kept[i] !in kept[..i];
    assert edges[kept[i]][..0] == [];
  }

  lemma ListedLink(edges: map<Id, seq<Id>>, tnodes: map<Id, Attrs>, tedges: map<Id, seq<Id>>, tattrs: map<(Id, Id), Attrs>,
                   tedges': map<Id, seq<Id>>, kept: seq<Id>, i: nat, j: nat)
    requires i < |kept| && kept[i] in edges && j < |edges[kept[i]]| && NoDup(edges[kept[i]])
    requires ListedUpTo(edges, tedges, kept, i, j)
    requires forall x | x in kept[..i + 1] :: x in tnodes
    requires tnodes.Keys == tedges.Keys
    requires forall n, c | n in tedges :: c in tedges[n] <==> (n, c) in tattrs
    requires var n, c := kept[i], edges[kept[i]][j];
      && (c !in kept ==> tedges' == tedges)
      && (c in kept && (n, c) in tattrs ==> tedges' == tedges)
      && (c in kept && (n, c) !in tattrs ==> tedges' == Appended(WithEmpty(WithEmpty(tedges, n), c), n, c, true))
    ensures ListedUpTo(edges, tedges', kept, i, j + 1)
  {
    var n, cs := kept[i], edges[kept[i]];
    assert cs[..j + 1] == cs[..j] + [cs[j]];
    assert cs[..j + 1][..j] == cs[..j];
    if cs[j] in kept {
      assert cs[j] !in cs[..j];
      assert (n, cs[j]) !in tattrs;
      if cs[j] !in tedges {
        assert cs[j] !in kept[..i + 1];
      }
    }
  }

  lemma ListedNext(edges: map<Id, seq<Id>>, tedges: map<Id, seq<Id>>, kept: seq<Id>, i: nat)
    requires i < |kept| && kept[i] in edges && ListedUpTo(edges, tedges, kept, i, |edges[kept[i]]|)
    ensures Listed(edges, tedges, kept, i + 1)
  {
    assert kept[..i + 1] == kept[..i] + [kept[i]];
    assert edges[kept[i]][..|edges[kept[i]]|] == edges[kept[i]];
  }

  lemma ListedDone(edges: map<Id, seq<Id>>, tnodes: map<Id, Attrs>, tedges: map<Id, seq<Id>>, kept: seq<Id>)
    requires Listed(edges, tedges, kept, |kept|)
    requires tnodes.Keys == tedges.Keys && (forall x | x in tnodes :: x in kept) && (forall x | x in kept :: x in edges)
    ensures forall a | a in tedges :: a in edges && tedges[a] == Filter(edges[a], kept)
  {
    assert kept[..|kept|] == kept;
  }

  /** A ranking of the nodes below the ranked ones: each child of a ranked
      node is ranked strictly below it. as_newick recurses from its start
      node into the children, so it ends when the start node is ranked;
      the nodes it can reach then hold no cycle, and a start node that
      reaches a cycle has no ranking (Python runs out of stack there).
      Nodes the walk never reaches, cyclic or not, need no rank. */
  ghost predicate Ranked(edges: map<Id, seq<Id>>, rank: map<Id, nat>) {
    forall a | a in edges && a in rank :: forall b | b in edges[a] :: b in rank && rank[b] < rank[a]
  }

  /** The label as_newick writes for a node: str() of its label attribute;
      KeyError when the node or the attribute is missing. */
  function Label(nodes: map<Id, Attrs>, node: Id, labelAttr: string): (r: Result<string, Error>)
    ensures r.Ok? <==> node in nodes && labelAttr in nodes[node]
    ensures r.Ok? ==> r.value == Render(nodes[node][labelAttr])
    ensures r.Err? ==> r.error == KeyError
  {
    if node in nodes && labelAttr in nodes[node] then Ok(Render(nodes[node][labelAttr])) else Err(KeyError)
  }

  /** The branch length as_newick appends when a length attribute is
      named: ":0.0" under a None parent, otherwise ":" and str() of that
      attribute on the edge from the parent. KeyError when the parent, the
      edge or the attribute is missing (a number is never a node id);
      TypeError when the parent is a list, which cannot be a key. */
  function Length(nodes: map<Id, Attrs>, edges: map<Id, seq<Id>>, attrs: map<(Id, Id), Attrs>,
                  node: Id, length: Option<string>): (r: Result<string, Error>)
    ensures length.None? ==> r == Ok("")
    ensures r.Ok? && length.Some? ==> |r.value| > 0 && r.value[0] == ':'
  {
    if length.None? then Ok("")
    else if node !in nodes || "parent" !in nodes[node] then Err(KeyError)
    else
      match nodes[node]["parent"]
      case Nil => Ok(":0.0")
      case Str(p) =>
        if p !in edges || (p, node) !in attrs || length.value !in attrs[(p, node)] then Err(KeyError)
        else Ok(":" + Render(attrs[(p, node)][length.value]))
      case Int(_) => Err(KeyError)
      case Strs(_) => Err(TypeError)
  }

  /** as_newick(t, node, length, label) over a snapshot of the tables: the
      children's strings, comma-separated inside parentheses (nothing for a
      leaf), then the label, the branch length when asked for, and ";"
      when node is the root. The first error met, in Python's order: a
      node without an edge entry (TypeError from is_leaf), a child's
      error, the label, the length. */
  function Newick(nodes: map<Id, Attrs>, edges: map<Id, seq<Id>>, attrs: map<(Id, Id), Attrs>, root: Option<Id>,
                  ghost rank: map<Id, nat>, node: Id, length: Option<string>, labelAttr: string): (r: Result<string, Error>)
    requires Ranked(edges, rank) && node in rank
    decreases rank[node], 1, 0
  {
    if node !in edges then Err(TypeError)
    else
      Assemble(if edges[node] == [] then Ok("") else Wrap(NewickList(nodes, edges, attrs, root, rank, node, edges[node], length, labelAttr)),
               Label(nodes, node, labelAttr),
               Length(nodes, edges, attrs, node, length),
               if root == Some(node) then ";" else "")
  }

  /** The children's part of a Newick string: their strings, comma
      separated, in parentheses. */
  function Wrap(parts: Result<seq<string>, Error>): (r: Result<string, Error>)
    ensures r.Err? <==> parts.Err?
    ensures r.Ok? ==> |r.value| >= 2 && r.value[0] == '(' && r.value[|r.value| - 1] == ')'
  {
    match parts
    case Err(e) => Err(e)
    case Ok(ps) => Ok("(" + Join(ps, ',') + ")")
  }

  /** The pieces of a Newick string put together, or the first error among
      them. */
  function Assemble(inner: Result<string, Error>, lab: Result<string, Error>, suffix: Result<string, Error>, mark: string)
    : (r: Result<string, Error>)
    ensures r.Ok? <==> inner.Ok? && lab.Ok? && suffix.Ok?
  {
    if inner.Err? then inner
    else if lab.Err? then lab
    else if suffix.Err? then suffix
    else Ok(inner.value + lab.value + suffix.value + mark)
  }

  /** The strings of the children cs of parent, in order, or the first
      error among them. */
  function NewickList(nodes: map<Id, Attrs>, edges: map<Id, seq<Id>>, attrs: map<(Id, Id), Attrs>, root: Option<Id>,
                      ghost rank: map<Id, nat>, parent: Id, cs: seq<Id>, length: Option<string>, labelAttr: string)
    : (r: Result<seq<string>, Error>)
    requires Ranked(edges, rank) && parent in rank
    requires forall c | c in cs :: c in rank && rank[c] < rank[parent]
    decreases rank[parent], 0, |cs|
  {
    if cs == [] then Ok([])
    else
      match Newick(nodes, edges, attrs, root, rank, cs[0], length, labelAttr)
      case Err(e) => Err(e)
      case Ok(first) =>
        match NewickList(nodes, edges, attrs, root, rank, parent, cs[1..], length, labelAttr)
        case Err(e) => Err(e)
        case Ok(rest) => Ok([first] + rest)
  }

  /** NewickList gives each child's string, in order, or the error of the
      first child that fails. */
  lemma {:induction false} NewickListEach(nodes: map<Id, Attrs>, edges: map<Id, seq<Id>>, attrs: map<(Id, Id), Attrs>,
                                          root: Option<Id>, rank: map<Id, nat>, parent: Id, cs: seq<Id>,
                                          length: Option<string>, labelAttr: string)
    requires Ranked(edges, rank) && parent in rank
    requires forall c | c in cs :: c in rank && rank[c] < rank[parent]
    ensures var r := NewickList(nodes, edges, attrs, root, rank, parent, cs, length, labelAttr);
      && (r.Ok? ==> (|r.value| == |cs|
            && forall i | 0 <= i < |cs| :: Newick(nodes, edges, attrs, root, rank, cs[i], length, labelAttr) == Ok(r.value[i])))
      && (r.Err? ==> exists i | 0 <= i < |cs| ::
            && Newick(nodes, edges, attrs, root, rank, cs[i], length, labelAttr) == Err(r.error)
            && forall j | 0 <= j < i :: Newick(nodes, edges, attrs, root, rank, cs[j], length, labelAttr).Ok?)
    decreases |cs|
  {
    if cs != [] {
      var r := NewickList(nodes, edges, attrs, root, rank, parent, cs, length, labelAttr);
      var first := Newick(nodes, edges, attrs, root, rank, cs[0], length, labelAttr);
      NewickListEach(nodes, edges, attrs, root, rank, parent, cs[1..], length, labelAttr);
      var rest := NewickList(nodes, edges, attrs, root, rank, parent, cs[1..], length, labelAttr);
      if first.Ok? && rest.Err? {
        var i :| 0 <= i < |cs[1..]|
          && Newick(nodes, edges, attrs, root, rank, cs[1..][i], length, labelAttr) == Err(rest.error)
          && forall j | 0 <= j < i :: Newick(nodes, edges, attrs, root, rank, cs[1..][j], length, labelAttr).Ok?;
        assert Newick(nodes, edges, attrs, root, rank, cs[i + 1], length, labelAttr) == Err(r.error);
        forall j | 0 <= j < i + 1 ensures Newick(nodes, edges, attrs, root, rank, cs[j], length, labelAttr).Ok? {
          if j > 0 {
            assert cs[j] == cs[1..][j - 1];
          }
        }
      } else if first.Ok? && rest.Ok? {
        forall i | 0 <= i < |cs| ensures Newick(nodes, edges, attrs, root, rank, cs[i], length, labelAttr) == Ok(r.value[i]) {
          if i > 0 {
            assert cs[i] == cs[1..][i - 1];
          }
        }
      }
    }
  }

  /** The shape of as_newick's string: a leaf gives its label, an inner
      node its children's strings, in order, comma-separated inside
      parentheses and followed by its label; then the branch length when
      one is asked for, and ";" only at the root. */
  lemma NewickShape(nodes: map<Id, Attrs>, edges: map<Id, seq<Id>>, attrs: map<(Id, Id), Attrs>, root: Option<Id>,
                    rank: map<Id, nat>, node: Id, length: Option<string>, labelAttr: string)
    requires Ranked(edges, rank) && node in rank
    ensures var r := Newick(nodes, edges, attrs, root, rank, node, length, labelAttr);
      r.Ok? ==>
        var lab, len := Label(nodes, node, labelAttr), Length(nodes, edges, attrs, node, length);
        var mark := if root == Some(node) then ";" else "";
        && node in edges && lab.Ok? && len.Ok?
        && (edges[node] == [] ==> r.value == lab.value + len.value + mark)
        && (edges[node] != [] ==> exists parts: seq<string> ::
              && |parts| == |edges[node]|
              && (forall i | 0 <= i < |parts| :: Newick(nodes, edges, attrs, root, rank, edges[node][i], length, labelAttr) == Ok(parts[i]))
              && r.value == "(" + Join(parts, ',') + ")" + lab.value + len.value + mark)
  {
    var r := Newick(nodes, edges, attrs, root, rank, node, length, labelAttr);
    if r.Ok? && edges[node] != [] {
      var cs := edges[node];
      var w := NewickList(nodes, edges, attrs, root, rank, node, cs, length, labelAttr);
      NewickListEach(nodes, edges, attrs, root, rank, node, cs, length, labelAttr);
      assert w.Ok?;
      var lab, len := Label(nodes, node, labelAttr), Length(nodes, edges, attrs, node, length);
      var mark := if root == Some(node) then ";" else "";
      assert r.value == "(" + Join(w.value, ',') + ")" + lab.value + len.value + mark;
    }
  }

  /** Number of occurrences of c in s. */
  function Count(s: string, c: char): nat
    decreases |s|
  {
    if s == [] then 0 else Count(s[..|s| - 1], c) + (if s[|s| - 1] == c then 1 else 0)
  }

  /** s opens as many parentheses as it closes, and no prefix closes more
      than it has opened. */
  ghost predicate Balanced(s: string) {
    && Count(s, '(') == Count(s, ')')
    && forall k | 0 <= k <= |s| :: Count(s[..k], ')') <= Count(s[..k], '(')
  }

  /** No parenthesis occurs in s. */
  predicate Plain(s: string) {
    '(' !in s && ')' !in s
  }

  lemma {:induction false} CountConcat(a: string, b: string, c: char)
    ensures Count(a + b, c) == Count(a, c) + Count(b, c)
    decreases |b|
  {
    if b == [] {
      assert a + b == a;
    } else {
      assert (a + b)[..|a + b| - 1] == a + b[..|b| - 1];
      CountConcat(a, b[..|b| - 1], c);
    }
  }

  lemma {:induction false} CountAbsent(s: string, c: char)
    requires c !in s
    ensures Count(s, c) == 0
    decreases |s|
  {
    if s != [] {
      assert forall x | x in s[..|s| - 1] :: x in s;
      CountAbsent(s[..|s| - 1], c);
    }
  }

  lemma PlainBalanced(s: string)
    requires Plain(s)
    ensures Balanced(s)
  {
    CountAbsent(s, '(');
    CountAbsent(s, ')');
    forall k | 0 <= k <= |s| ensures Count(s[..k], ')') <= Count(s[..k], '(') {
      assert forall x | x in s[..k] :: x in s;
      CountAbsent(s[..k], ')');
    }
  }

  lemma BalancedConcat(a: string, b: string)
    requires Balanced(a) && Balanced(b)
    ensures Balanced(a + b)
  {
    CountConcat(a, b, '(');
    CountConcat(a, b, ')');
    forall k | 0 <= k <= |a + b| ensures Count((a + b)[..k], ')') <= Count((a + b)[..k], '(') {
      if k <= |a| {
        assert (a + b)[..k] == a[..k];
      } else {
        assert (a + b)[..k] == a + b[..k - |a|];
        CountConcat(a, b[..k - |a|], '(');
        CountConcat(a, b[..k - |a|], ')');
        assert a[..|a|] == a;
      }
    }
  }

  lemma BalancedWrap(a: string)
    requires Balanced(a)
    ensures Balanced("(" + a + ")")
  {
    var s := "(" + a + ")";
    CountConcat("(" + a, ")", '(');
    CountConcat("(" + a, ")", ')');
    CountConcat("(", a, '(');
    CountConcat("(", a, ')');
    forall k | 0 <= k <= |s| ensures Count(s[..k], ')') <= Count(s[..k], '(') {
      if k == 0 {
      } else if k <= |a| + 1 {
        assert s[..k] == "(" + a[..k - 1];
        CountConcat("(", a[..k - 1], '(');
        CountConcat("(", a[..k - 1], ')');
      } else {
        assert s[..k] == s;
      }
    }
  }

  lemma {:induction false} JoinBalanced(parts: seq<string>)
    requires forall i | 0 <= i < |parts| :: Balanced(parts[i])
    ensures Balanced(Join(parts, ','))
    decreases |parts|
  {
    if parts == [] {
      PlainBalanced("");
    } else if |parts| > 1 {
      JoinBalanced(parts[1..]);
      PlainBalanced([',']);
      BalancedConcat(parts[0], [',']);
      BalancedConcat(parts[0] + [','], Join(parts[1..], ','));
    }
  }

  /** Labels and branch lengths that render without parentheses. */
  ghost predicate PlainLabels(nodes: map<Id, Attrs>, attrs: map<(Id, Id), Attrs>, length: Option<string>, labelAttr: string) {
    && (forall x | x in nodes && labelAttr in nodes[x] :: Plain(Render(nodes[x][labelAttr])))
    && (length.Some? ==> forall a, b | (a, b) in attrs && length.value in attrs[(a, b)] :: Plain(Render(attrs[(a, b)][length.value])))
  }

  /** With plain labels and lengths, as_newick's parentheses are balanced. */
  lemma {:induction false} NewickBalanced(nodes: map<Id, Attrs>, edges: map<Id, seq<Id>>, attrs: map<(Id, Id), Attrs>,
                                          root: Option<Id>, rank: map<Id, nat>, node: Id, length: Option<string>, labelAttr: string)
    requires Ranked(edges, rank) && node in rank && PlainLabels(nodes, attrs, length, labelAttr)
    ensures var r := Newick(nodes, edges, attrs, root, rank, node, length, labelAttr);
      r.Ok? ==> Balanced(r.value)
    decreases rank[node], 1
  {
    var r := Newick(nodes, edges, attrs, root, rank, node, length, labelAttr);
    if r.Ok? {
      var inner := "";
      if edges[node] != [] {
        NewickListBalanced(nodes, edges, attrs, root, rank, node, edges[node], length, labelAttr);
        var list := NewickList(nodes, edges, attrs, root, rank, node, edges[node], length, labelAttr);
        assert list.Ok?;
        var parts := list.value;
        assert forall i | 0 <= i < |parts| :: Balanced(parts[i]);
        JoinBalanced(parts);
        BalancedWrap(Join(parts, ','));
        inner := "(" + Join(parts, ',') + ")";
      } else {
        PlainBalanced(inner);
      }
      var lab := Label(nodes, node, labelAttr).value;
      var suffix := Length(nodes, edges, attrs, node, length).value;
      LengthPlain(nodes, edges, attrs, node, length, labelAttr);
      PiecesBalanced(inner, lab, suffix, if root == Some(node) then ";" else "");
    }
  }

  lemma LengthPlain(nodes: map<Id, Attrs>, edges: map<Id, seq<Id>>, attrs: map<(Id, Id), Attrs>,
                    node: Id, length: Option<string>, labelAttr: string)
    requires PlainLabels(nodes, attrs, length, labelAttr)
    ensures var r := Length(nodes, edges, attrs, node, length); r.Ok? ==> Plain(r.value)
  {
  }

  lemma PiecesBalanced(inner: string, lab: string, suffix: string, mark: string)
    requires Balanced(inner) && Plain(lab) && Plain(suffix) && Plain(mark)
    ensures Balanced(inner + lab + suffix + mark)
  {
    PlainBalanced(lab);
    PlainBalanced(suffix);
    PlainBalanced(mark);
    BalancedConcat(inner, lab);
    BalancedConcat(inner + lab, suffix);
    BalancedConcat(inner + lab + suffix, mark);
  }

  lemma {:induction false} NewickListBalanced(nodes: map<Id, Attrs>, edges: map<Id, seq<Id>>, attrs: map<(Id, Id), Attrs>,
                                              root: Option<Id>, rank: map<Id, nat>, parent: Id, cs: seq<Id>,
                                              length: Option<string>, labelAttr: string)
    requires Ranked(edges, rank) && parent in rank && PlainLabels(nodes, attrs, length, labelAttr)
    requires forall c | c in cs :: c in rank && rank[c] < rank[parent]
    ensures var r := NewickList(nodes, edges, attrs, root, rank, parent, cs, length, labelAttr);
      r.Ok? ==> forall i | 0 <= i < |r.value| :: Balanced(r.value[i])
    decreases rank[parent], 0, |cs|
  {
    var r := NewickList(nodes, edges, attrs, root, rank, parent, cs, length, labelAttr);
    if cs != [] && r.Ok? {
      NewickBalanced(nodes, edges, attrs, root, rank, cs[0], length, labelAttr);
      NewickListBalanced(nodes, edges, attrs, root, rank, parent, cs[1..], length, labelAttr);
      var first := Newick(nodes, edges, attrs, root, rank, cs[0], length, labelAttr);
      var rest := NewickList(nodes, edges, attrs, root, rank, parent, cs[1..], length, labelAttr);
      assert first.Ok? && rest.Ok? && r.value == [first.value] + rest.value;
      assert Balanced(first.value);
      assert forall k | 0 <= k < |rest.value| :: Balanced(rest.value[k]);
      forall i | 0 <= i < |r.value| ensures Balanced(r.value[i]) {
        if i == 0 {
          assert r.value[i] == first.value;
        } else {
          assert r.value[i] == rest.value[i - 1];
        }
      }
    }
  }

  /** Labels and branch lengths that render without a ";". */
  ghost predicate Unmarked(nodes: map<Id, Attrs>, attrs: map<(Id, Id), Attrs>, length: Option<string>, labelAttr: string) {
    && (forall x | x in nodes && labelAttr in nodes[x] :: ';' !in Render(nodes[x][labelAttr]))
    && (length.Some? ==> forall a, b | (a, b) in attrs && length.value in attrs[(a, b)] :: ';' !in Render(attrs[(a, b)][length.value]))
  }

  /** When no label or length renders with a ";", as_newick's string ends
      with ";" exactly when it was asked for the root. */
  lemma NewickRootMark(nodes: map<Id, Attrs>, edges: map<Id, seq<Id>>, attrs: map<(Id, Id), Attrs>,
                       root: Option<Id>, rank: map<Id, nat>, node: Id, length: Option<string>, labelAttr: string)
    requires Ranked(edges, rank) && node in rank && Unmarked(nodes, attrs, length, labelAttr)
    ensures var r := Newick(nodes, edges, attrs, root, rank, node, length, labelAttr);
      r.Ok? ==> (|r.value| > 0 && r.value[|r.value| - 1] == ';' <==> root == Some(node))
  {
    if node in edges {
      UnmarkedPieces(nodes, edges, attrs, node, length, labelAttr);
      AssembleMark(if edges[node] == [] then Ok("")
                   else Wrap(NewickList(nodes, edges, attrs, root, rank, node, edges[node], length, labelAttr)),
                   Label(nodes, node, labelAttr), Length(nodes, edges, attrs, node, length),
                   if root == Some(node) then ";" else "");
    }
  }

  /** Under Unmarked, neither a label nor a branch length holds a ";". */
  lemma UnmarkedPieces(nodes: map<Id, Attrs>, edges: map<Id, seq<Id>>, attrs: map<(Id, Id), Attrs>,
                       node: Id, length: Option<string>, labelAttr: string)
    requires Unmarked(nodes, attrs, length, labelAttr)
    ensures Label(nodes, node, labelAttr).Ok? ==> ';' !in Label(nodes, node, labelAttr).value
    ensures Length(nodes, edges, attrs, node, length).Ok? ==> ';' !in Length(nodes, edges, attrs, node, length).value
  {
  }

  /** Pieces without a ";" after a part that is empty or ends with ")"
      assemble into a string that ends with ";" exactly when the mark is
      ";". */
  lemma AssembleMark(inner: Result<string, Error>, lab: Result<string, Error>, suffix: Result<string, Error>, mark: string)
    requires inner.Ok? ==> inner.value == [] || inner.value[|inner.value| - 1] == ')'
    requires lab.Ok? ==> ';' !in lab.value
    requires suffix.Ok? ==> ';' !in suffix.value
    requires mark == "" || mark == ";"
    ensures var r := Assemble(inner, lab, suffix, mark);
      r.Ok? ==> (|r.value| > 0 && r.value[|r.value| - 1] == ';' <==> mark == ";")
  {
    if inner.Ok? && lab.Ok? && suffix.Ok? {
      var tail := lab.value + suffix.value;
      assert ';' !in tail;
      assert inner.value + lab.value + suffix.value + mark == inner.value + tail + mark;
      UnmarkedEnd(inner.value, tail, mark);
    }
  }

  /** A string of children's strings followed by a label and a length that
      hold no ";" ends with ";" exactly when a mark is appended. */
  lemma UnmarkedEnd(inner: string, tail: string, mark: string)
    requires inner == [] || inner[|inner| - 1] == ')'
    requires ';' !in tail && (mark == "" || mark == ";")
    ensures var s := inner + tail + mark; |s| > 0 && s[|s| - 1] == ';' <==> mark == ";"
  {
    var s := inner + tail + mark;
    if mark == "" && tail != [] {
      assert s[|s| - 1] == tail[|tail| - 1];
    } else if mark == "" && inner != [] {
      assert s[|s| - 1] == inner[|inner| - 1];
    }
  }

  /** The node table while as_newick runs: some nodes have had their
      "newick" attribute set to str() of their label, nothing else. */
  ghost predicate Stamped(nodes0: map<Id, Attrs>, nodes: map<Id, Attrs>, labelAttr: string) {
    && nodes.Keys == nodes0.Keys
    && forall x | x in nodes0 ::
         || nodes[x] == nodes0[x]
         || (labelAttr in nodes0[x] && nodes[x] == nodes0[x]["newick" := Str(Render(nodes0[x][labelAttr]))])
  }

  /** Stamping a node again changes nothing more. */
  lemma StampStep(nodes0: map<Id, Attrs>, nodes: map<Id, Attrs>, labelAttr: string, x: Id)
    requires Stamped(nodes0, nodes, labelAttr) && x in nodes && labelAttr in nodes[x]
    ensures Stamped(nodes0, nodes[x := nodes[x]["newick" := Str(Render(nodes[x][labelAttr]))]], labelAttr)
  {
    var v := nodes0[x][labelAttr];
    assert Render(Str(Render(v))) == Render(v);
    if labelAttr == "newick" {
      assert nodes[x][labelAttr] == v || nodes[x][labelAttr] == Str(Render(v));
    }
  }

  lemma StampTrans(nodes0: map<Id, Attrs>, nodes1: map<Id, Attrs>, nodes2: map<Id, Attrs>, labelAttr: string)
    requires Stamped(nodes0, nodes1, labelAttr) && Stamped(nodes1, nodes2, labelAttr)
    ensures Stamped(nodes0, nodes2, labelAttr)
  {
    forall x | x in nodes0
      ensures || nodes2[x] == nodes0[x]
              || (labelAttr in nodes0[x] && nodes2[x] == nodes0[x]["newick" := Str(Render(nodes0[x][labelAttr]))])
    {
      if labelAttr in nodes0[x] {
        var v := nodes0[x][labelAttr];
        assert Render(Str(Render(v))) == Render(v);
      }
    }
  }

  /** Labels and lengths read the same through stamped nodes: a stamped
      label renders as it did, and no parent attribute changes. */
  lemma {:induction false} StampedNewick(nodes0: map<Id, Attrs>, nodes: map<Id, Attrs>, edges: map<Id, seq<Id>>,
                                         attrs: map<(Id, Id), Attrs>, root: Option<Id>, rank: map<Id, nat>,
                                         node: Id, length: Option<string>, labelAttr: string)
    requires Ranked(edges, rank) && node in rank && Stamped(nodes0, nodes, labelAttr)
    ensures Newick(nodes, edges, attrs, root, rank, node, length, labelAttr)
         == Newick(nodes0, edges, attrs, root, rank, node, length, labelAttr)
    decreases rank[node], 1
  {
    if node in edges {
      if edges[node] != [] {
        StampedNewickList(nodes0, nodes, edges, attrs, root, rank, node, edges[node], length, labelAttr);
      }
      NodeLabel(nodes0, nodes, labelAttr, node, length, edges, attrs);
    }
  }

  lemma {:induction false} StampedNewickList(nodes0: map<Id, Attrs>, nodes: map<Id, Attrs>, edges: map<Id, seq<Id>>,
                                             attrs: map<(Id, Id), Attrs>, root: Option<Id>, rank: map<Id, nat>,
                                             parent: Id, cs: seq<Id>, length: Option<string>, labelAttr: string)
    requires Ranked(edges, rank) && parent in rank && Stamped(nodes0, nodes, labelAttr)
    requires forall c | c in cs :: c in rank && rank[c] < rank[parent]
    ensures NewickList(nodes, edges, attrs, root, rank, parent, cs, length, labelAttr)
         == NewickList(nodes0, edges, attrs, root, rank, parent, cs, length, labelAttr)
    decreases rank[parent], 0, |cs|
  {
    if cs != [] {
      StampedNewick(nodes0, nodes, edges, attrs, root, rank, cs[0], length, labelAttr);
      StampedNewickList(nodes0, nodes, edges, attrs, root, rank, parent, cs[1..], length, labelAttr);
    }
  }

  /** The result of a list whose first strings are known to be parts. */
  function Prepend(parts: seq<string>, rest: Result<seq<string>, Error>): Result<seq<string>, Error> {
    match rest
    case Err(e) => Err(e)
    case Ok(more) => Ok(parts + more)
  }

  /** Through stamped nodes, a node's label and length read as they did. */
  lemma NodeLabel(nodes0: map<Id, Attrs>, nodes: map<Id, Attrs>, labelAttr: string, node: Id, length: Option<string>,
                  edges: map<Id, seq<Id>>, attrs: map<(Id, Id), Attrs>)
    requires Stamped(nodes0, nodes, labelAttr)
    ensures Label(nodes, node, labelAttr) == Label(nodes0, node, labelAttr)
    ensures Length(nodes, edges, attrs, node, length) == Length(nodes0, edges, attrs, node, length)
  {
    if node in nodes0 && labelAttr in nodes0[node] {
      var v := nodes0[node][labelAttr];
      assert Render(Str(Render(v))) == Render(v);
    }
    if node in nodes0 {
      assert ("parent" in nodes[node]) == ("parent" in nodes0[node]);
      assert "parent" in nodes0[node] ==> nodes[node]["parent"] == nodes0[node]["parent"];
    }
  }

  /** One turn of as_newick's loop over the children: a child's error is
      the list's error, and a child's string joins the known parts. */
  lemma ListStep(nodes: map<Id, Attrs>, edges: map<Id, seq<Id>>, attrs: map<(Id, Id), Attrs>, root: Option<Id>,
                 rank: map<Id, nat>, parent: Id, cs: seq<Id>, i: nat, parts: seq<string>, sub: Result<string, Error>,
                 length: Option<string>, labelAttr: string)
    requires Ranked(edges, rank) && parent in rank && i < |cs|
    requires forall c | c in cs :: c in rank && rank[c] < rank[parent]
    requires sub == Newick(nodes, edges, attrs, root, rank, cs[i], length, labelAttr)
    requires NewickList(nodes, edges, attrs, root, rank, parent, cs, length, labelAttr)
          == Prepend(parts, NewickList(nodes, edges, attrs, root, rank, parent, cs[i..], length, labelAttr))
    ensures sub.Err? ==> NewickList(nodes, edges, attrs, root, rank, parent, cs, length, labelAttr) == Err(sub.error)
    ensures sub.Ok? ==>
              NewickList(nodes, edges, attrs, root, rank, parent, cs, length, labelAttr)
              == Prepend(parts + [sub.value], NewickList(nodes, edges, attrs, root, rank, parent, cs[i + 1..], length, labelAttr))
  {
    assert cs[i..][0] == cs[i] && cs[i..][1..] == cs[i + 1..];
    var rest := NewickList(nodes, edges, attrs, root, rank, parent, cs[i + 1..], length, labelAttr);
    if sub.Ok? && rest.Ok? {
      assert parts + ([sub.value] + rest.value) == (parts + [sub.value]) + rest.value;
    }
  }
}
