/** The graph store of Graph.py: a node table, an outgoing-edge table and an
    edge counter, in directed or undirected mode.

    Python keeps the attribute dictionary of edge n1 -> n2 at
    g['edges'][n1][n2]; an undirected graph stores one dictionary object
    under both (n1, n2) and (n2, n1). Here `edgeAttrs` maps each ordered pair
    to its dictionary; the sharing is the invariant that in undirected mode
    both directions always hold the same dictionary, and every write through
    one direction is made through the other as well.

    Python dictionaries remember insertion order, which the tree code
    observes (the root scan, the order of children). `order` lists the node
    ids in insertion order and `edges[n]` the targets of n in insertion
    order; the ghost maps `rank` and `pos` give each node and each edge its
    position in those lists. */
module GraphStore {

  import opened Values
  import opened Text

  type Id = string

  predicate NoDup<T(==)>(s: seq<T>) {
    forall i, j :: 0 <= i < j < |s| ==> s[i] != s[j]
  }

  /** The node table after add_node(g, n, a): n is present afterwards,
      existing entries keep their attributes (the first write wins), and a
      new n gets a, or an empty dictionary when a is None. */
  function WithNode(m: map<Id, Attrs>, n: Id, a: Option<Attrs>): (r: map<Id, Attrs>)
    ensures r.Keys == m.Keys + {n}
    ensures forall k | k in m :: r[k] == m[k]
    ensures n !in m ==> r[n] == a.GetOr(map[])
  {
    if n in m then m else m[n := a.GetOr(map[])]
  }

  /** The edge table after add_node(g, n): a new n starts with no targets. */
  function WithEmpty(e: map<Id, seq<Id>>, n: Id): (r: map<Id, seq<Id>>)
    ensures r.Keys == e.Keys + {n}
    ensures forall k | k in e :: r[k] == e[k]
    ensures n !in e ==> r[n] == []
  {
    if n in e then e else e[n := []]
  }

  /** The insertion order after add_node(g, n): a new n comes last. */
  function WithOrder(order: seq<Id>, m: map<Id, Attrs>, n: Id): (r: seq<Id>)
    ensures n in m ==> r == order
    ensures n !in m ==> |r| == |order| + 1 && r[..|order|] == order && r[|order|] == n
  {
    if n in m then order else order + [n]
  }

  /** The edge table once n1 -> n2 is inserted: n2 becomes the last target
      of n1, and, when undirected and not a self-loop, n1 the last target of
      n2; nothing else changes. */
  function Appended(e: map<Id, seq<Id>>, n1: Id, n2: Id, directed: bool): map<Id, seq<Id>>
    requires n1 in e && n2 in e
  {
    var e1 := e[n1 := e[n1] + [n2]];
    if directed || n1 == n2 then e1 else e1[n2 := e1[n2] + [n1]]
  }

  /** The attribute table once the new pair n1 -> n2 gets a: in undirected
      mode the reverse pair gets the same dictionary; no other pair changes. */
  function Stored(m: map<(Id, Id), Attrs>, n1: Id, n2: Id, a: Attrs, directed: bool): map<(Id, Id), Attrs> {
    if directed then m[(n1, n2) := a] else m[(n1, n2) := a][(n2, n1) := a]
  }

  /** The positions once n1 -> n2 (and n2 -> n1 when undirected) is appended. */
  ghost function Placed(pos: map<(Id, Id), nat>, e: map<Id, seq<Id>>, n1: Id, n2: Id, directed: bool): map<(Id, Id), nat>
    requires n1 in e && n2 in e
  {
    var p1 := pos[(n1, n2) := |e[n1]|];
    if directed || n1 == n2 then p1 else p1[(n2, n1) := |e[n2]|]
  }

  /** The edge table and the insertion order list the same ids, each once:
      rank[n] is where n sits in order. */
  ghost predicate NodesOrdered(order: seq<Id>, rank: map<Id, nat>, edges: map<Id, seq<Id>>) {
    && (forall n | n in edges :: n in rank && rank[n] < |order| && order[rank[n]] == n)
    && (forall i | 0 <= i < |order| :: order[i] in edges && order[i] in rank && rank[order[i]] == i)
  }

  /** Every listed target n -> edges[n][i] has position i, and every pair
      with a position is listed there and joins two nodes. */
  ghost predicate EdgesIndexed(edges: map<Id, seq<Id>>, pos: map<(Id, Id), nat>) {
    && (forall n, i | n in edges && 0 <= i < |edges[n]| :: (n, edges[n][i]) in pos && pos[(n, edges[n][i])] == i)
    && (forall a, b | (a, b) in pos :: a in edges && pos[(a, b)] < |edges[a]| && edges[a][pos[(a, b)]] == b && b in edges)
  }

  /** In undirected mode both directions of an edge hold one dictionary. */
  ghost predicate Shared(directed: bool, edgeAttrs: map<(Id, Id), Attrs>) {
    !directed ==> forall a, b | (a, b) in edgeAttrs :: (b, a) in edgeAttrs && edgeAttrs[(b, a)] == edgeAttrs[(a, b)]
  }

  /** `inserted` holds each edge once, as the ordered pair add_edge was
      called with, and the counter is its size: in directed mode every pair
      is an edge, in undirected mode exactly one of (a, b) and (b, a) is
      listed. */
  ghost predicate Counted(directed: bool, pos: map<(Id, Id), nat>, inserted: set<(Id, Id)>, nbEdges: nat) {
    && nbEdges == |inserted|
    && (forall a, b | (a, b) in inserted :: (a, b) in pos)
    && (forall a, b | (a, b) in pos :: (a, b) in inserted || (!directed && (b, a) in inserted))
    && (!directed ==> forall a, b | (a, b) in inserted && (b, a) in inserted :: a == b)
  }

  /** The invariant of the store, on the values of its tables: node and
      edge tables have the same keys, every edge target is a node, an
      undirected edge is stored in both directions with one dictionary, and
      the counter is the number of edges (each undirected edge once). */
  ghost predicate Tables(directed: bool, order: seq<Id>, rank: map<Id, nat>, nodes: map<Id, Attrs>,
                         edges: map<Id, seq<Id>>, edgeAttrs: map<(Id, Id), Attrs>, pos: map<(Id, Id), nat>,
                         inserted: set<(Id, Id)>, nbEdges: nat) {
    && nodes.Keys == edges.Keys
    && edgeAttrs.Keys == pos.Keys
    && NodesOrdered(order, rank, edges)
    && EdgesIndexed(edges, pos)
    && Shared(directed, edgeAttrs)
    && Counted(directed, pos, inserted, nbEdges)
  }

  lemma AddNodeKeeps(directed: bool, order: seq<Id>, rank: map<Id, nat>, nodes: map<Id, Attrs>,
                     edges: map<Id, seq<Id>>, edgeAttrs: map<(Id, Id), Attrs>, pos: map<(Id, Id), nat>,
                     inserted: set<(Id, Id)>, nbEdges: nat, n: Id, a: Attrs)
    requires Tables(directed, order, rank, nodes, edges, edgeAttrs, pos, inserted, nbEdges) && n !in nodes
    ensures Tables(directed, order + [n], rank[n := |order|], nodes[n := a], edges[n := []], edgeAttrs, pos, inserted, nbEdges)
  {
  }

  lemma AddEdgeIndexed(directed: bool, edges: map<Id, seq<Id>>, pos: map<(Id, Id), nat>, n1: Id, n2: Id)
    requires EdgesIndexed(edges, pos) && n1 in edges && n2 in edges && (n1, n2) !in pos
    requires !directed ==> (n2, n1) !in pos
    ensures EdgesIndexed(Appended(edges, n1, n2, directed), Placed(pos, edges, n1, n2, directed))
  {
    var edges' := Appended(edges, n1, n2, directed);
    var pos' := Placed(pos, edges, n1, n2, directed);
    forall n, i | n in edges' && 0 <= i < |edges'[n]| ensures (n, edges'[n][i]) in pos' && pos'[(n, edges'[n][i])] == i {
      if i < |edges[n]| {
        assert edges'[n][i] == edges[n][i];
      }
    }
  }

  lemma AddEdgeCounted(directed: bool, pos: map<(Id, Id), nat>, inserted: set<(Id, Id)>, nbEdges: nat,
                       n1: Id, n2: Id, k1: nat, k2: nat)
    requires Counted(directed, pos, inserted, nbEdges) && (n1, n2) !in pos
    requires !directed ==> (n2, n1) !in pos
    ensures Counted(directed, if directed then pos[(n1, n2) := k1] else pos[(n1, n2) := k1][(n2, n1) := k2],
                    inserted + {(n1, n2)}, nbEdges + 1)
  {
  }

  lemma AddEdgeShared(directed: bool, edgeAttrs: map<(Id, Id), Attrs>, n1: Id, n2: Id, a: Attrs)
    requires Shared(directed, edgeAttrs)
    ensures Shared(directed, Stored(edgeAttrs, n1, n2, a, directed))
  {
  }

  lemma AddEdgeKeeps(directed: bool, order: seq<Id>, rank: map<Id, nat>, nodes: map<Id, Attrs>,
                     edges: map<Id, seq<Id>>, edgeAttrs: map<(Id, Id), Attrs>, pos: map<(Id, Id), nat>,
                     inserted: set<(Id, Id)>, nbEdges: nat, n1: Id, n2: Id, a: Attrs)
    requires Tables(directed, order, rank, nodes, edges, edgeAttrs, pos, inserted, nbEdges)
    requires n1 in nodes && n2 in nodes && (n1, n2) !in edgeAttrs
    ensures Tables(directed, order, rank, nodes, Appended(edges, n1, n2, directed), Stored(edgeAttrs, n1, n2, a, directed),
                   Placed(pos, edges, n1, n2, directed), inserted + {(n1, n2)}, nbEdges + 1)
  {
    assert (n1, n2) !in pos && (!directed ==> (n2, n1) !in pos);
    AddEdgeIndexed(directed, edges, pos, n1, n2);
    AddEdgeCounted(directed, pos, inserted, nbEdges, n1, n2, |edges[n1]|, |edges[n2]|);
    AddEdgeShared(directed, edgeAttrs, n1, n2, a);
    assert Stored(edgeAttrs, n1, n2, a, directed).Keys == Placed(pos, edges, n1, n2, directed).Keys;
  }

  lemma SetEdgeKeeps(directed: bool, order: seq<Id>, rank: map<Id, nat>, nodes: map<Id, Attrs>,
                     edges: map<Id, seq<Id>>, edgeAttrs: map<(Id, Id), Attrs>, pos: map<(Id, Id), nat>,
                     inserted: set<(Id, Id)>, nbEdges: nat, n1: Id, n2: Id, d: Attrs)
    requires Tables(directed, order, rank, nodes, edges, edgeAttrs, pos, inserted, nbEdges) && (n1, n2) in edgeAttrs
    ensures var attrs' := if directed then edgeAttrs[(n1, n2) := d] else edgeAttrs[(n1, n2) := d][(n2, n1) := d];
      Tables(directed, order, rank, nodes, edges, attrs', pos, inserted, nbEdges)
  {
    var attrs' := if directed then edgeAttrs[(n1, n2) := d] else edgeAttrs[(n1, n2) := d][(n2, n1) := d];
    assert attrs'.Keys == edgeAttrs.Keys;
  }

  class Graph {
    const directed: bool
    const weighted: bool
    const weightAttribute: Option<string>
    /** Node ids in insertion order (the iteration order of g['nodes']). */
    var order: seq<Id>
    /** g['nodes']: the attribute dictionary of each node. */
    var nodes: map<Id, Attrs>
    /** The keys of g['edges'][n]: the targets of n in insertion order. */
    var edges: map<Id, seq<Id>>
    /** g['edges'][n][m]: the attribute dictionary of edge n -> m. */
    var edgeAttrs: map<(Id, Id), Attrs>
    /** g['nb_edges']. */
    var nbEdges: nat
    /** Where each node sits in order. */
    ghost var rank: map<Id, nat>
    /** Where each edge n -> m sits in edges[n]. */
    ghost var pos: map<(Id, Id), nat>
    /** The pairs add_edge inserted, one per edge. */
    ghost var inserted: set<(Id, Id)>

    /** The invariant the store keeps: node and edge tables have the same
        keys, every edge target is a node, an undirected edge is stored in
        both directions with one dictionary, and the counter is the number of
        edges (each undirected edge once). */
    ghost predicate Valid()
      reads this
    {
      Tables(directed, order, rank, nodes, edges, edgeAttrs, pos, inserted, nbEdges)
    }

    /** create_graph(directed, weighted). */
    constructor (directed: bool, weighted: bool)
      ensures Valid()
      ensures order == [] && nodes == map[] && edges == map[] && edgeAttrs == map[] && nbEdges == 0
      ensures this.directed == directed && this.weighted == weighted && weightAttribute == None
    {
      this.directed := directed;
      this.weighted := weighted;
      weightAttribute := None;
      order, nodes, edges, edgeAttrs, nbEdges := [], map[], map[], map[], 0;
      rank, pos, inserted := map[], map[], {};
    }

    /** add_node(g, n, attributes): inserts n with the given (or empty)
        attributes and no outgoing edges unless n exists; returns n's
        attributes. */
    method AddNode(n: Id, attributes: Option<Attrs>) returns (a: Attrs)
      requires Valid()
      modifies this
      ensures Valid()
      ensures n in nodes && a == nodes[n]
      ensures nodes == WithNode(old(nodes), n, attributes)
      ensures edges == WithEmpty(old(edges), n)
      ensures order == WithOrder(old(order), old(nodes), n)
      ensures edgeAttrs == old(edgeAttrs) && nbEdges == old(nbEdges)
    {
      if n !in nodes {
        var attrs := attributes.GetOr(map[]);
        AddNodeKeeps(directed, order, rank, nodes, edges, edgeAttrs, pos, inserted, nbEdges, n, attrs);
        rank := rank[n := |order|];
        nodes, edges, order := nodes[n := attrs], edges[n := []], order + [n];
      }
      a := nodes[n];
    }

    /** add_edge(g, n1, n2, attributes, n1_attributes, n2_attributes):
        creates the missing endpoints as add_node does, inserts the edge
        unless the pair exists, and returns the pair's attribute dictionary. */
    method AddEdge(n1: Id, n2: Id, attributes: Option<Attrs>, n1Attributes: Option<Attrs>, n2Attributes: Option<Attrs>)
      returns (e: Attrs)
      requires Valid()
      modifies this
      ensures Valid()
      // both endpoints exist; attribute hints only reach endpoints that were absent
      ensures nodes == WithNode(WithNode(old(nodes), n1, n1Attributes), n2, n2Attributes)
      ensures order == WithOrder(WithOrder(old(order), old(nodes), n1), WithNode(old(nodes), n1, n1Attributes), n2)
      ensures n1 in old(nodes) && n2 in old(nodes) ==> nodes == old(nodes) && order == old(order)
      ensures (n1, n2) in edgeAttrs && e == edgeAttrs[(n1, n2)]
      // an existing pair is left alone: first write wins
      ensures (n1, n2) in old(edgeAttrs) ==>
        && e == old(edgeAttrs)[(n1, n2)]
        && edges == old(edges) && edgeAttrs == old(edgeAttrs) && nbEdges == old(nbEdges)
      // a new pair gets the given dictionary, in both directions when undirected
      ensures (n1, n2) !in old(edgeAttrs) ==>
        && e == attributes.GetOr(map[])
        && nbEdges == old(nbEdges) + 1
        && edgeAttrs == Stored(old(edgeAttrs), n1, n2, e, directed)
        && edges == Appended(WithEmpty(WithEmpty(old(edges), n1), n2), n1, n2, directed)
    {
      // add_node leaves an existing node alone, so its guard can be folded in
      var _ := AddNode(n1, n1Attributes);
      var _ := AddNode(n2, n2Attributes);
      if (n1, n2) !in edgeAttrs {
        InsertEdge(n1, n2, attributes.GetOr(map[]));
      }
      e := edgeAttrs[(n1, n2)];
    }

    /** The insertion step of add_edge, for a new pair between existing
        nodes: the pair gets attrs (the reverse pair too when undirected),
        is appended to the target lists and counted once. */
    method InsertEdge(n1: Id, n2: Id, attrs: Attrs)
      requires Valid() && n1 in nodes && n2 in nodes && (n1, n2) !in edgeAttrs
      modifies this
      ensures Valid()
      ensures nodes == old(nodes) && order == old(order)
      ensures edgeAttrs == Stored(old(edgeAttrs), n1, n2, attrs, directed)
      ensures n1 in old(edges) && n2 in old(edges) && edges == Appended(old(edges), n1, n2, directed)
      ensures nbEdges == old(nbEdges) + 1
    {
      AddEdgeKeeps(directed, order, rank, nodes, edges, edgeAttrs, pos, inserted, nbEdges, n1, n2, attrs);
      pos := Placed(pos, edges, n1, n2, directed);
      edges := Appended(edges, n1, n2, directed);
      edgeAttrs := Stored(edgeAttrs, n1, n2, attrs, directed);
      nbEdges, inserted := nbEdges + 1, inserted + {(n1, n2)};
    }

    /** node[key] = v on the attribute dictionary of node n. */
    method SetNodeAttr(n: Id, key: string, v: Value)
      requires Valid() && n in nodes
      modifies this
      ensures Valid()
      ensures nodes == old(nodes)[n := old(nodes)[n][key := v]]
      ensures order == old(order) && edges == old(edges) && edgeAttrs == old(edgeAttrs) && nbEdges == old(nbEdges)
    {
      nodes := nodes[n := nodes[n][key := v]];
    }

    /** g['nodes'][n] = a: replaces the whole attribute dictionary of n. */
    method SetNodeAttrs(n: Id, a: Attrs)
      requires Valid() && n in nodes
      modifies this
      ensures Valid()
      ensures nodes == old(nodes)[n := a]
      ensures order == old(order) && edges == old(edges) && edgeAttrs == old(edgeAttrs) && nbEdges == old(nbEdges)
    {
      nodes := nodes[n := a];
    }

    /** e[key] = v on the attribute dictionary of edge n1 -> n2. In an
        undirected graph the write is seen through n2 -> n1 too, since both
        directions share the dictionary, and through no other edge. */
    method SetEdgeAttr(n1: Id, n2: Id, key: string, v: Value)
      requires Valid() && (n1, n2) in edgeAttrs
      modifies this
      ensures Valid()
      ensures var d := old(edgeAttrs)[(n1, n2)][key := v];
        edgeAttrs == if directed then old(edgeAttrs)[(n1, n2) := d] else old(edgeAttrs)[(n1, n2) := d][(n2, n1) := d]
      ensures order == old(order) && nodes == old(nodes) && edges == old(edges) && nbEdges == old(nbEdges)
    {
      var d := edgeAttrs[(n1, n2)][key := v];
      SetEdgeKeeps(directed, order, rank, nodes, edges, edgeAttrs, pos, inserted, nbEdges, n1, n2, d);
      edgeAttrs := edgeAttrs[(n1, n2) := d];
      if !directed {
        edgeAttrs := edgeAttrs[(n2, n1) := d];
      }
    }
  }

  /** The edge dictionary a SIF row gives each of its edges. */
  function SifType(rel: string): Attrs {
    map["type" := Str(rel)]
  }

  /** What the first i fields of a SIF row (i >= 2) have done to a graph
      whose edge attribute table was attrs0: each target so far is linked
      from vals[0], every new pair is one of those links (or its reverse
      when undirected) typed vals[1], and the old pairs are untouched. */
  ghost predicate SifEdgesSoFar(directed: bool, attrs0: map<(Id, Id), Attrs>, attrs: map<(Id, Id), Attrs>,
                                vals: seq<string>, i: nat)
    requires 2 <= i <= |vals|
  {
    && (forall j | 2 <= j < i :: (vals[0], vals[j]) in attrs)
    && (forall x, y | (x, y) in attrs && (x, y) !in attrs0 ::
          attrs[(x, y)] == SifType(vals[1])
          && ((x == vals[0] && y in vals[2..i]) || (!directed && y == vals[0] && x in vals[2..i])))
    && (forall x, y | (x, y) in attrs0 :: (x, y) in attrs && attrs[(x, y)] == attrs0[(x, y)])
  }

  /** The node side of the same: the new nodes are vals[0] and the targets
      so far (none before the first edge), with empty attributes, and the
      old nodes are untouched. */
  ghost predicate SifNodesSoFar(nodes0: map<Id, Attrs>, nodes: map<Id, Attrs>, vals: seq<string>, i: nat)
    requires 2 <= i <= |vals|
  {
    && (forall n :: n in nodes <==> n in nodes0 || (i > 2 && (n == vals[0] || n in vals[2..i])))
    && (forall n | n in nodes && n !in nodes0 :: nodes[n] == map[])
    && (forall n | n in nodes0 :: nodes[n] == nodes0[n])
  }

  lemma SifEdgesStep(directed: bool, attrs0: map<(Id, Id), Attrs>, attrs: map<(Id, Id), Attrs>,
                     vals: seq<string>, i: nat, attrs': map<(Id, Id), Attrs>)
    requires 2 <= i < |vals| && SifEdgesSoFar(directed, attrs0, attrs, vals, i)
    requires Shared(directed, attrs)
    requires (vals[0], vals[i]) in attrs ==> attrs' == attrs
    requires (vals[0], vals[i]) !in attrs ==> attrs' == Stored(attrs, vals[0], vals[i], SifType(vals[1]), directed)
    ensures SifEdgesSoFar(directed, attrs0, attrs', vals, i + 1)
  {
    assert vals[2..i + 1] == vals[2..i] + [vals[i]];
  }

  lemma SifNodesStep(nodes0: map<Id, Attrs>, nodes: map<Id, Attrs>, vals: seq<string>, i: nat,
                     nodes': map<Id, Attrs>)
    requires 2 <= i < |vals| && SifNodesSoFar(nodes0, nodes, vals, i)
    requires nodes' == WithNode(WithNode(nodes, vals[0], None), vals[i], None)
    ensures SifNodesSoFar(nodes0, nodes', vals, i + 1)
  {
    assert vals[2..i + 1] == vals[2..i] + [vals[i]];
  }

  /** The loop body of load_SIF for one row (already right-stripped): the
      row is split on tabs into `a rel b1 ... bk`, and add_edge(g, a, bi,
      {'type': rel}) runs for each bi in turn. A row with fewer than three
      fields changes nothing, not even node a. */
  method AddSifRow(g: Graph, row: string)
    requires g.Valid()
    modifies g
    ensures g.Valid()
    ensures var vals := Split(row, '\t');
      |vals| < 3 ==> (g.order == old(g.order) && g.nodes == old(g.nodes) && g.edges == old(g.edges)
                      && g.edgeAttrs == old(g.edgeAttrs) && g.nbEdges == old(g.nbEdges))
    ensures var vals := Split(row, '\t');
      |vals| >= 3 ==> SifEdgesSoFar(g.directed, old(g.edgeAttrs), g.edgeAttrs, vals, |vals|)
                      && SifNodesSoFar(old(g.nodes), g.nodes, vals, |vals|)
  {
    var vals := Split(row, '\t');
    if |vals| >= 3 {
      var i := 2;
      while i < |vals|
        invariant 2 <= i <= |vals|
        invariant g.Valid()
        invariant SifEdgesSoFar(g.directed, old(g.edgeAttrs), g.edgeAttrs, vals, i)
        invariant SifNodesSoFar(old(g.nodes), g.nodes, vals, i)
      {
        ghost var nodes, attrs := g.nodes, g.edgeAttrs;
        var _ := g.AddEdge(vals[0], vals[i], Some(SifType(vals[1])), None, None);
        SifEdgesStep(g.directed, old(g.edgeAttrs), attrs, vals, i, g.edgeAttrs);
        SifNodesStep(old(g.nodes), nodes, vals, i, g.nodes);
        i := i + 1;
      }
    }
  }

  /** What the tables promise their readers: the insertion order lists each
      node once, the node and edge tables have the same keys, each target
      list names each target once, n -> c is listed exactly when the pair
      has attributes, and then both ends are nodes. */
  lemma TablesFacts(g: Graph)
    requires g.Valid()
    ensures NoDup(g.order) && (forall n :: n in g.order <==> n in g.nodes)
    ensures g.nodes.Keys == g.edges.Keys
    ensures forall n | n in g.edges :: NoDup(g.edges[n])
    ensures forall n, c | n in g.edges :: c in g.edges[n] <==> (n, c) in g.edgeAttrs
    ensures forall n, c | (n, c) in g.edgeAttrs :: n in g.nodes && c in g.nodes
  {
    forall n | n in g.order ensures n in g.nodes {
      var i :| 0 <= i < |g.order| && g.order[i] == n;
    }
    forall n | n in g.edges ensures NoDup(g.edges[n]) {
      forall i, j | 0 <= i < j < |g.edges[n]| ensures g.edges[n][i] != g.edges[n][j] {
        assert g.pos[(n, g.edges[n][i])] == i;
      }
    }
    forall n, c | n in g.edges && c in g.edges[n] ensures (n, c) in g.edgeAttrs {
      var i :| 0 <= i < |g.edges[n]| && g.edges[n][i] == c;
    }
  }

  /** The counter never exceeds the number of stored pairs, and in directed
      mode it is exactly that number. */
  lemma EdgeCount(g: Graph)
    requires g.Valid()
    ensures g.nbEdges <= |g.edgeAttrs|
    ensures g.directed ==> g.nbEdges == |g.edgeAttrs|
    ensures !g.directed ==> 2 * g.nbEdges == |g.edgeAttrs| + |Loops(g.edgeAttrs)|
  {
    assert g.inserted <= g.pos.Keys by {
      forall p | p in g.inserted ensures p in g.pos.Keys {
        assert (p.0, p.1) in g.inserted;
      }
    }
    SubsetCard(g.inserted, g.pos.Keys);
    if g.directed {
      assert g.inserted == g.pos.Keys by {
        forall p | p in g.pos.Keys ensures p in g.inserted {
          assert (p.0, p.1) in g.pos;
        }
      }
    }
    assert |g.edgeAttrs| == |g.edgeAttrs.Keys| == |g.pos.Keys|;
    if !g.directed {
      var ins, rev := g.inserted, Swapped(g.inserted);
      assert g.pos.Keys == ins + rev by {
        forall p | p in ins + rev ensures p in g.pos.Keys {
          if p in rev {
            var q :| q in ins && p == (q.1, q.0);
            assert (q.0, q.1) in g.inserted;
          } else {
            assert (p.0, p.1) in g.inserted;
          }
        }
        forall p | p in g.pos.Keys ensures p in ins + rev {
          assert (p.0, p.1) in g.pos;
          if p !in ins {
            assert (p.1, p.0) in ins;
          }
        }
      }
      assert ins * rev == Loops(g.edgeAttrs) by {
        forall p | p in ins * rev ensures p.0 == p.1 {
          var q :| q in ins && p == (q.1, q.0);
          assert (p.0, p.1) in g.inserted && (p.1, p.0) in g.inserted;
        }
        forall p | p in Loops(g.edgeAttrs) ensures p in ins * rev {
          assert (p.0, p.1) in g.pos;
          assert p == (p.1, p.0);
        }
      }
      SwappedCard(ins);
    }
  }

  /** The self-loops among the stored pairs. */
  function Loops(m: map<(Id, Id), Attrs>): set<(Id, Id)> {
    set e | e in m && e.0 == e.1
  }

  /** Each pair of s with its ends exchanged. */
  function Swapped(s: set<(Id, Id)>): set<(Id, Id)> {
    set p | p in s :: (p.1, p.0)
  }

  lemma {:induction false} SwappedCard(s: set<(Id, Id)>)
    ensures |Swapped(s)| == |s|
    decreases |s|
  {
    if s != {} {
      var x :| x in s;
      assert Swapped(s) == Swapped(s - {x}) + {(x.1, x.0)};
      assert (x.1, x.0) !in Swapped(s - {x});
      SwappedCard(s - {x});
    }
  }

  lemma {:induction false} SubsetCard<T>(a: set<T>, b: set<T>)
    requires a <= b
    ensures |a| <= |b|
    decreases |a|
  {
    if a != {} {
      var x :| x in a;
      SubsetCard(a - {x}, b - {x});
    }
  }
}
