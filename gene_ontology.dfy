/** The in-memory parts of the Gene Ontology loaders: parseTerm, which
    turns one buffered OBO stanza into a term node, its is_a and part_of
    edges and alternate-id entries, and the per-record body of load_GOA,
    which attaches a gene product to a term and records the evidence code
    of the annotation. Both write into a directed graph store. */
module GeneOntology {

  import opened Values
  import opened Text
  import opened GraphStore

  /** What one line of a stanza (after the [Term] and id lines) asks for:
      a node attribute, an alternate id, an edge of some kind, or nothing. */
  datatype Clause = Attr(key: string, text: string) | Alt(alt: string) | Edge(target: Id, kind: string) | Skip

  /** The tables parseTerm and the GOA step read and write: the node and
      edge-attribute tables of the graph, g['alt_id'] and go['names']. */
  datatype State = State(nodes: map<Id, Attrs>, attrs: map<(Id, Id), Attrs>, altId: map<string, Id>, names: map<string, Id>)

  /** A state and how the step ended: Pass, or the exception Python raises,
      with the writes made before it. */
  datatype Step = Step(st: State, out: Outcome)

  // ---------------------------------------------------------------------
  // Reading a stanza line

  /** The branch parseTerm takes for one line, tried in parseTerm's order
      (GeneOntology.py:40-53). An is_a line names the text from character 6 up to the first "!",
      right-stripped; a part_of line names the text from the first "GO:" to
      the next space. A missing "!", "GO:" or space is Python's ValueError
      from str.index. */
  function Classify(line: string): (r: Result<Clause, Error>)
    ensures r.Err? ==> r.error == ValueError
    ensures Writes(r)
  {
    if StartsWith(line, "name: ") then Ok(Attr("name", Drop(line, 6)))
    else if StartsWith(line, "namespace: ") then Ok(Attr("namespace", Drop(line, 11)))
    else if StartsWith(line, "def: ") then Ok(Attr("def", Drop(line, 5)))
    else if StartsWith(line, "alt_id: ") then Ok(Alt(Drop(line, 8)))
    else if StartsWith(line, "is_a:") then IsA(line)
    else if StartsWith(line, "relationship: part_of ") then PartOf(line)
    else Ok(Skip)
  }

  /** An is_a line: the parent runs from character 6 to the first "!",
      right-stripped. */
  function IsA(line: string): (r: Result<Clause, Error>)
    ensures r.Err? ==> r.error == ValueError
  {
    match Find(line, "!")
    case None => Err(ValueError)
    case Some(k) => Ok(Edge(RStrip(Slice(line, 6, k)), "is_a"))
  }

  /** A part_of line: the target runs from the first "GO:" to the next
      space. */
  function PartOf(line: string): (r: Result<Clause, Error>)
    ensures r.Err? ==> r.error == ValueError
  {
    match Find(line, "GO:")
    case None => Err(ValueError)
    case Some(k) =>
      var rest := Drop(line, k);
      match Find(rest, " ")
      case None => Err(ValueError)
      case Some(j) => Ok(Edge(rest[..j], "part_of"))
  }

  /** The clause of each line, in order. */
  function Classified(lines: seq<string>): (r: seq<Result<Clause, Error>>)
    ensures |r| == |lines| && forall i | 0 <= i < |lines| :: r[i] == Classify(lines[i])
  {
    seq(|lines|, i requires 0 <= i < |lines| => Classify(lines[i]))
  }

  /** The edge a line asks for, if any: its target and its type. */
  function Target(c: Result<Clause, Error>): Option<(Id, string)> {
    match c
    case Ok(Edge(t, kind)) => Some((t, kind))
    case _ => None
  }

  /** A first occurrence is found where it is, when nothing before it can
      start one. */
  lemma FindAt(a: string, sub: string, b: string)
    requires |sub| > 0 && sub[0] !in a
    ensures Find(a + sub + b, sub) == Some(|a|)
  {
    var s := a + sub + b;
    assert s[|a|..|a| + |sub|] == sub;
    assert OccursAt(s, sub, |a|);
  }

  /** Right-stripping a word followed by blanks gives the word back. */
  lemma RStripBlank(p: string, n: nat)
    requires p == [] || !IsSpace(p[|p| - 1])
    ensures RStrip(p + seq(n, _ => ' ')) == p
    decreases n
  {
    if n > 0 {
      var s := p + seq(n, _ => ' ');
      assert s[..|s| - 1] == p + seq(n - 1, _ => ' ');
      RStripBlank(p, n - 1);
    } else {
      assert p + seq(n, _ => ' ') == p;
    }
  }

  /** A line that starts with p does not start with a prefix whose first
      character differs. */
  lemma Lead(line: string, p: string, q: string)
    requires |p| > 0 && |q| > 0 && StartsWith(line, p) && p[0] != q[0]
    ensures !StartsWith(line, q)
  {
    assert line[0] == line[..|p|][0];
  }

  /** A line starting "is_a:" takes the is_a branch. */
  lemma ClassifyIsA(line: string)
    requires StartsWith(line, "is_a:")
    ensures Classify(line) == IsA(line)
  {
    Lead(line, "is_a:", "name: ");
    Lead(line, "is_a:", "namespace: ");
    Lead(line, "is_a:", "def: ");
    Lead(line, "is_a:", "alt_id: ");
  }

  /** A line starting "relationship: part_of " takes the part_of branch. */
  lemma ClassifyPartOf(line: string)
    requires StartsWith(line, "relationship: part_of ")
    ensures Classify(line) == PartOf(line)
  {
    var head := "relationship: part_of ";
    Lead(line, head, "name: ");
    Lead(line, head, "namespace: ");
    Lead(line, head, "def: ");
    Lead(line, head, "alt_id: ");
    Lead(line, head, "is_a:");
  }

  lemma IsAOf(parent: string, comment: string)
    requires '!' !in parent && (parent == [] || !IsSpace(parent[|parent| - 1]))
    ensures IsA("is_a: " + parent + " ! " + comment) == Ok(Edge(parent, "is_a"))
  {
    var line := "is_a: " + parent + " ! " + comment;
    assert line == ("is_a: " + parent + " ") + "!" + (" " + comment);
    FindAt("is_a: " + parent + " ", "!", " " + comment);
    assert Slice(line, 6, |parent| + 7) == parent + seq(1, _ => ' ');
    RStripBlank(parent, 1);
  }

  /** An is_a line as OBO writes it, "is_a: <parent> ! <name>", gives the
      parent back. */
  lemma IsALine(parent: string, comment: string)
    requires '!' !in parent && (parent == [] || !IsSpace(parent[|parent| - 1]))
    ensures Classify("is_a: " + parent + " ! " + comment) == Ok(Edge(parent, "is_a"))
  {
    var line := "is_a: " + parent + " ! " + comment;
    assert line[..5] == "is_a:";
    ClassifyIsA(line);
    IsAOf(parent, comment);
  }

  lemma PartOfOf(digits: string, rest: string)
    requires ' ' !in digits
    ensures PartOf("relationship: part_of " + ("GO:" + digits) + " " + rest) == Ok(Edge("GO:" + digits, "part_of"))
  {
    var head, id := "relationship: part_of ", "GO:" + digits;
    var line := head + id + " " + rest;
    assert line == head + "GO:" + (digits + " " + rest);
    FindAt(head, "GO:", digits + " " + rest);
    assert Drop(line, |head|) == id + " " + rest;
    FindAt(id, " ", rest);
    assert (id + " " + rest)[..|id|] == id;
  }

  /** A part_of line as OBO writes it, "relationship: part_of GO:<digits>
      <rest>", gives the term id back, whatever follows the space. */
  lemma PartOfLine(digits: string, rest: string)
    requires ' ' !in digits
    ensures Classify("relationship: part_of " + ("GO:" + digits) + " " + rest) == Ok(Edge("GO:" + digits, "part_of"))
  {
    var line := "relationship: part_of " + ("GO:" + digits) + " " + rest;
    assert line[..22] == "relationship: part_of ";
    ClassifyPartOf(line);
    PartOfOf(digits, rest);
  }

  // ---------------------------------------------------------------------
  // parseTerm, on values

  /** A stanza is obsolete when one of its lines starts with
      "is_obsolete: true". */
  predicate Obsolete(lines: seq<string>) {
    exists i | 0 <= i < |lines| :: StartsWith(lines[i], "is_obsolete: true")
  }

  /** The term id: the second line from character 4, right-stripped. */
  function TermId(lines: seq<string>): Id
    requires |lines| >= 2
  {
    RStrip(Drop(lines[1], 4))
  }

  /** node[key] = v on node n. */
  function SetNode(st: State, n: Id, key: string, v: Value): (r: State)
    requires n in st.nodes
    ensures r.nodes.Keys == st.nodes.Keys && r.attrs == st.attrs && r.altId == st.altId && r.names == st.names
  {
    st.(nodes := st.nodes[n := st.nodes[n][key := v]])
  }

  /** add_edge(g, a, b) in a directed graph: both ends become nodes (new
      ones with empty attributes), and a new pair gets an empty dictionary. */
  function Link(st: State, a: Id, b: Id): (r: State)
    ensures r.nodes == WithNode(WithNode(st.nodes, a, None), b, None)
    ensures (a, b) in r.attrs && r.attrs.Keys == st.attrs.Keys + {(a, b)}
    ensures forall p | p in st.attrs :: r.attrs[p] == st.attrs[p]
    ensures r.altId == st.altId && r.names == st.names
  {
    st.(nodes := WithNode(WithNode(st.nodes, a, None), b, None),
        attrs := if (a, b) in st.attrs then st.attrs else st.attrs[(a, b) := map[]])
  }

  /** e[key] = v on the dictionary of edge a -> b. */
  function SetEdge(st: State, a: Id, b: Id, key: string, v: Value): (r: State)
    requires (a, b) in st.attrs
    ensures r.nodes == st.nodes && r.attrs.Keys == st.attrs.Keys && r.altId == st.altId && r.names == st.names
  {
    st.(attrs := st.attrs[(a, b) := st.attrs[(a, b)][key := v]])
  }

  /** The effect of one clause on the tables, for the term id. */
  function Apply(st: State, id: Id, c: Clause): (r: State)
    requires id in st.nodes
    ensures st.nodes.Keys <= r.nodes.Keys
  {
    match c
    case Attr(k, v) => SetNode(st, id, k, Str(v))
    case Alt(a) => st.(altId := st.altId[a := id])
    case Edge(t, kind) => SetEdge(Link(st, id, t), id, t, "type", Str(kind))
    case Skip => st
  }

  /** parseTerm's loop over the lines after the id line, given the clause
      of each line: each clause in turn, stopping at the first ValueError. */
  function Clauses(st: State, id: Id, cs: seq<Result<Clause, Error>>): Step
    requires id in st.nodes
    decreases |cs|
  {
    if cs == [] then Step(st, Pass)
    else
      match cs[0]
      case Err(e) => Step(st, Fail(e))
      case Ok(c) => Clauses(Apply(st, id, c), id, cs[1..])
  }

  /** A second write to a key replaces the first. */
  lemma Overwrite(m: map<Id, Attrs>, k: Id, a: Attrs, b: Attrs)
    ensures m[k := a][k := b] == m[k := b]
  {
  }

  /** The term node parseTerm creates (or finds) and tags. */
  function NewTerm(st: State, id: Id): (r: State)
    ensures id in r.nodes
  {
    var n := WithNode(st.nodes, id, None);
    st.(nodes := n[id := n[id]["id" := Str(id)]["type" := Str("GOTerm")]])
  }

  /** parseTerm(lines) on the tables: an obsolete stanza does nothing; a
      stanza of fewer than two lines raises IndexError from list.pop; any
      other creates the term and applies the clauses of its other lines. */
  function Stanza(st: State, lines: seq<string>): Step {
    if Obsolete(lines) then Step(st, Pass)
    else if |lines| < 2 then Step(st, Fail(IndexError))
    else
      var id := TermId(lines);
      Clauses(NewTerm(st, id), id, Classified(lines[2..]))
  }

  // ---------------------------------------------------------------------
  // What a stanza does

  /** The node attributes a stanza's clauses may write on its term. */
  predicate TermWrites(key: string) {
    key == "name" || key == "namespace" || key == "def"
  }

  /** A clause that sets an attribute sets one of those. */
  predicate Writes(c: Result<Clause, Error>) {
    c.Ok? && c.value.Attr? ==> TermWrites(c.value.key)
  }

  /** From a to b nodes are only added, an added node has no attributes,
      and only the term's name, namespace and def change. */
  ghost predicate NodesKept(a: State, b: State, id: Id) {
    && a.nodes.Keys <= b.nodes.Keys
    && (forall n | n in a.nodes && n != id :: b.nodes[n] == a.nodes[n])
    && (forall n | n in b.nodes && n !in a.nodes :: b.nodes[n] == map[])
    && (id in a.nodes ==> forall k | k in a.nodes[id] && !TermWrites(k) :: k in b.nodes[id] && b.nodes[id][k] == a.nodes[id][k])
  }

  lemma NodesKeptTrans(a: State, b: State, c: State, id: Id)
    requires id in a.nodes && NodesKept(a, b, id) && NodesKept(b, c, id)
    ensures NodesKept(a, c, id)
  {
  }

  /** One clause keeps the nodes as NodesKept says. */
  lemma ApplyNodes(st: State, id: Id, c: Clause)
    requires id in st.nodes && Writes(Ok(c))
    ensures NodesKept(st, Apply(st, id, c), id)
  {
    if c.Edge? {
      var r := Apply(st, id, c);
      assert r.nodes == WithNode(WithNode(st.nodes, id, None), c.target, None);
    }
  }

  /** Clauses write only name, namespace and def on the term, leave every
      other node as it was, and create edge targets with empty attributes. */
  lemma {:induction false} ClausesNodes(st: State, id: Id, cs: seq<Result<Clause, Error>>)
    requires id in st.nodes && forall i | 0 <= i < |cs| :: Writes(cs[i])
    ensures NodesKept(st, Clauses(st, id, cs).st, id)
    decreases |cs|
  {
    if cs != [] && cs[0].Ok? {
      var s := Apply(st, id, cs[0].value);
      ApplyNodes(st, id, cs[0].value);
      ClausesNodes(s, id, cs[1..]);
      NodesKeptTrans(st, s, Clauses(s, id, cs[1..]).st, id);
    }
  }

  /** The stanza's clauses write only what TermWrites allows. */
  lemma ClassifiedWrites(lines: seq<string>)
    ensures forall i | 0 <= i < |lines| :: Writes(Classified(lines)[i])
  {
    forall i | 0 <= i < |lines| ensures Writes(Classified(lines)[i]) {
      assert Classified(lines)[i] == Classify(lines[i]);
    }
  }

  /** An obsolete stanza changes nothing; any other stanza of at least two
      lines leaves a node for its id tagged id and type GOTerm, whatever
      its clauses do, and no node but the term changes its attributes. */
  lemma StanzaTerm(st: State, lines: seq<string>)
    ensures Obsolete(lines) ==> Stanza(st, lines) == Step(st, Pass)
    ensures !Obsolete(lines) && |lines| >= 2 ==>
      var id := TermId(lines);
      var r := Stanza(st, lines).st;
      && id in r.nodes
      && "id" in r.nodes[id] && r.nodes[id]["id"] == Str(id)
      && "type" in r.nodes[id] && r.nodes[id]["type"] == Str("GOTerm")
      && (forall n | n in st.nodes && n != id :: n in r.nodes && r.nodes[n] == st.nodes[n])
  {
    if !Obsolete(lines) && |lines| >= 2 {
      var id := TermId(lines);
      var t := NewTerm(st, id);
      NewTermTags(st, id);
      ClassifiedWrites(lines[2..]);
      ClausesNodes(t, id, Classified(lines[2..]));
      assert Stanza(st, lines).st == Clauses(t, id, Classified(lines[2..])).st;
    }
  }

  /** The new term carries its tags, which no clause writes, and no other
      node changes. */
  lemma NewTermTags(st: State, id: Id)
    ensures var t := NewTerm(st, id).nodes;
      && "id" in t[id] && t[id]["id"] == Str(id) && "type" in t[id] && t[id]["type"] == Str("GOTerm")
      && (forall n | n in st.nodes && n != id :: n in t && t[n] == st.nodes[n])
    ensures !TermWrites("id") && !TermWrites("type")
  {
    assert "type"[0] != "name"[0];
  }

  /** Clause i names a as an alternate id. */
  predicate AltAt(cs: seq<Result<Clause, Error>>, i: int, a: string) {
    0 <= i < |cs| && cs[i] == Ok(Alt(a))
  }

  /** Some clause names a as an alternate id. */
  predicate AltNamed(cs: seq<Result<Clause, Error>>, a: string) {
    exists i | 0 <= i < |cs| :: AltAt(cs, i, a)
  }

  lemma AltNamedCons(cs: seq<Result<Clause, Error>>, a: string)
    requires cs != []
    ensures AltNamed(cs, a) <==> cs[0] == Ok(Alt(a)) || AltNamed(cs[1..], a)
  {
    if AltNamed(cs[1..], a) {
      var i :| 0 <= i < |cs[1..]| && AltAt(cs[1..], i, a);
      assert AltAt(cs, i + 1, a);
    }
    if AltNamed(cs, a) && cs[0] != Ok(Alt(a)) {
      var i :| 0 <= i < |cs| && AltAt(cs, i, a);
      assert AltAt(cs[1..], i - 1, a);
    }
    if cs[0] == Ok(Alt(a)) {
      assert AltAt(cs, 0, a);
    }
  }

  /** From a to b, the alternate ids the clauses do not name keep their
      entries, and every entry is old or named. */
  ghost predicate AltsKept(a: State, b: State, cs: seq<Result<Clause, Error>>) {
    && (forall x | x in a.altId && !AltNamed(cs, x) :: x in b.altId && b.altId[x] == a.altId[x])
    && (forall x | x in b.altId :: x in a.altId || AltNamed(cs, x))
  }

  lemma {:induction false} ClausesAltKept(st: State, id: Id, cs: seq<Result<Clause, Error>>)
    requires id in st.nodes
    ensures AltsKept(st, Clauses(st, id, cs).st, cs)
    decreases |cs|
  {
    if cs != [] && cs[0].Ok? {
      var s := Apply(st, id, cs[0].value);
      ClausesAltKept(s, id, cs[1..]);
      forall x ensures AltNamed(cs, x) <==> cs[0] == Ok(Alt(x)) || AltNamed(cs[1..], x) {
        AltNamedCons(cs, x);
      }
    }
  }

  /** In a stanza's clauses that all apply, every alt_id clause maps its
      alternate id to the term. */
  lemma {:induction false} ClausesAltSet(st: State, id: Id, cs: seq<Result<Clause, Error>>)
    requires id in st.nodes
    ensures var r := Clauses(st, id, cs);
      r.out == Pass ==> forall i, a | AltAt(cs, i, a) :: a in r.st.altId && r.st.altId[a] == id
    decreases |cs|
  {
    if cs != [] && cs[0].Ok? {
      var s := Apply(st, id, cs[0].value);
      var r := Clauses(s, id, cs[1..]);
      ClausesAltSet(s, id, cs[1..]);
      ClausesAltKept(s, id, cs[1..]);
      if r.out == Pass {
        forall i, a | AltAt(cs, i, a) ensures a in r.st.altId && r.st.altId[a] == id {
          if i > 0 {
            assert AltAt(cs[1..], i - 1, a);
          } else if AltNamed(cs[1..], a) {
            var j :| 0 <= j < |cs[1..]| && AltAt(cs[1..], j, a);
          }
        }
      }
    }
  }

  /** Every alt_id line of a stanza that loads without error maps its
      alternate id to the term id; no other entry of the table changes. */
  lemma StanzaAltIds(st: State, lines: seq<string>)
    requires !Obsolete(lines) && |lines| >= 2
    ensures var id := TermId(lines);
      var cs := Classified(lines[2..]);
      var r := Stanza(st, lines);
      && AltsKept(st, r.st, cs)
      && (r.out == Pass ==> forall i, a | AltAt(cs, i, a) :: a in r.st.altId && r.st.altId[a] == id)
  {
    var id := TermId(lines);
    var t := NewTerm(st, id);
    ClausesAltKept(t, id, Classified(lines[2..]));
    ClausesAltSet(t, id, Classified(lines[2..]));
  }

  /** Clause j asks for an edge to t. */
  predicate TargetAt(cs: seq<Result<Clause, Error>>, j: int, t: Id) {
    0 <= j < |cs| && Target(cs[j]).Some? && Target(cs[j]).value.0 == t
  }

  /** Some clause asks for an edge to t. */
  predicate Targeted(cs: seq<Result<Clause, Error>>, t: Id) {
    exists j | 0 <= j < |cs| :: TargetAt(cs, j, t)
  }

  /** Clause i asks for an edge to t and no later clause does. */
  predicate LastTo(cs: seq<Result<Clause, Error>>, i: int, t: Id) {
    TargetAt(cs, i, t) && !Targeted(cs[i + 1..], t)
  }

  lemma TargetedCons(cs: seq<Result<Clause, Error>>, t: Id)
    requires cs != []
    ensures Targeted(cs, t) <==> TargetAt(cs, 0, t) || Targeted(cs[1..], t)
  {
    if Targeted(cs[1..], t) {
      var j :| 0 <= j < |cs[1..]| && TargetAt(cs[1..], j, t);
      assert TargetAt(cs, j + 1, t);
    }
    if Targeted(cs, t) && !TargetAt(cs, 0, t) {
      var j :| 0 <= j < |cs| && TargetAt(cs, j, t);
      assert TargetAt(cs[1..], j - 1, t);
    }
  }

  /** From a to b, the edges the clauses do not name keep their
      dictionaries, and every edge is old or one from the term to a named
      target. */
  ghost predicate EdgesKept(a: State, b: State, id: Id, cs: seq<Result<Clause, Error>>) {
    && (forall x, y | (x, y) in a.attrs && !(x == id && Targeted(cs, y)) :: (x, y) in b.attrs && b.attrs[(x, y)] == a.attrs[(x, y)])
    && (forall x, y | (x, y) in b.attrs :: (x, y) in a.attrs || (x == id && Targeted(cs, y)))
  }

  /** What one clause does to the edge dictionaries. */
  lemma ApplyAttrs(st: State, id: Id, c: Clause)
    requires id in st.nodes
    ensures var r := Apply(st, id, c);
      && (c.Edge? ==> (id, c.target) in r.attrs && "type" in r.attrs[(id, c.target)] && r.attrs[(id, c.target)]["type"] == Str(c.kind))
      && (c.Edge? ==> forall p | p != (id, c.target) :: (p in r.attrs <==> p in st.attrs) && (p in r.attrs ==> r.attrs[p] == st.attrs[p]))
      && (!c.Edge? ==> r.attrs == st.attrs)
  {
  }

  lemma {:induction false} ClausesEdgesKept(st: State, id: Id, cs: seq<Result<Clause, Error>>)
    requires id in st.nodes
    ensures EdgesKept(st, Clauses(st, id, cs).st, id, cs)
    decreases |cs|
  {
    if cs != [] && cs[0].Ok? {
      var c := cs[0].value;
      var s := Apply(st, id, c);
      ClausesEdgesKept(s, id, cs[1..]);
      ApplyAttrs(st, id, c);
      forall y ensures Targeted(cs, y) <==> TargetAt(cs, 0, y) || Targeted(cs[1..], y) {
        TargetedCons(cs, y);
      }
    }
  }

  /** In clauses that all apply, every edge clause has its edge from the
      term, typed by the last clause that names the same target. */
  lemma {:induction false} ClausesEdgesTyped(st: State, id: Id, cs: seq<Result<Clause, Error>>)
    requires id in st.nodes
    ensures var r := Clauses(st, id, cs).st;
      Clauses(st, id, cs).out == Pass ==>
        && (forall j | 0 <= j < |cs| && Target(cs[j]).Some? :: (id, Target(cs[j]).value.0) in r.attrs)
        && (forall i, t | LastTo(cs, i, t) ::
              (id, t) in r.attrs && "type" in r.attrs[(id, t)] && r.attrs[(id, t)]["type"] == Str(Target(cs[i]).value.1))
    decreases |cs|
  {
    if cs != [] && cs[0].Ok? {
      var c := cs[0].value;
      var s := Apply(st, id, c);
      var r := Clauses(s, id, cs[1..]);
      ClausesEdgesTyped(s, id, cs[1..]);
      ClausesEdgesKept(s, id, cs[1..]);
      ApplyAttrs(st, id, c);
      if r.out == Pass {
        forall j | 0 <= j < |cs| && Target(cs[j]).Some? ensures (id, Target(cs[j]).value.0) in r.st.attrs {
          if j > 0 {
            assert cs[1..][j - 1] == cs[j];
          }
        }
        forall i, t | LastTo(cs, i, t)
          ensures (id, t) in r.st.attrs && "type" in r.st.attrs[(id, t)] && r.st.attrs[(id, t)]["type"] == Str(Target(cs[i]).value.1)
        {
          if i > 0 {
            assert cs[1..][i - 1] == cs[i] && cs[1..][i..] == cs[i + 1..];
            assert LastTo(cs[1..], i - 1, t);
          }
        }
      }
    }
  }

  /** The edges of a stanza: every is_a and part_of line of a stanza that
      loads without error has its edge from the term, typed by the last line
      that names the same target (a part_of line retypes an is_a edge to the
      same term); no edge that no line names changes, and no other edge
      appears. */
  lemma StanzaEdges(st: State, lines: seq<string>)
    requires !Obsolete(lines) && |lines| >= 2
    ensures var id := TermId(lines);
      var cs := Classified(lines[2..]);
      var r := Stanza(st, lines);
      && EdgesKept(st, r.st, id, cs)
      && (r.out == Pass ==> forall j | 0 <= j < |cs| && Target(cs[j]).Some? :: (id, Target(cs[j]).value.0) in r.st.attrs)
      && (r.out == Pass ==> forall i, t | LastTo(cs, i, t) ::
            (id, t) in r.st.attrs && "type" in r.st.attrs[(id, t)] && r.st.attrs[(id, t)]["type"] == Str(Target(cs[i]).value.1))
  {
    var id := TermId(lines);
    var t := NewTerm(st, id);
    ClausesEdgesKept(t, id, Classified(lines[2..]));
    ClausesEdgesTyped(t, id, Classified(lines[2..]));
  }
  /** The id line "id: <term>" of a stanza gives the term back. */
  lemma TermIdLine(term: string, rest: seq<string>)
    requires term == [] || !IsSpace(term[|term| - 1])
    ensures TermId(["[Term]", "id: " + term] + rest) == term
  {
    var lines := ["[Term]", "id: " + term] + rest;
    assert Drop(lines[1], 4) == term;
    RStripBlank(term, 0);
    assert term + seq(0, _ => ' ') == term;
  }

  // ---------------------------------------------------------------------
  // The per-record body of load_GOA, on values

  /** The columns of a GOA record: the line right-stripped and split on
      tabs. */
  function Columns(line: string): seq<string> {
    Split(RStrip(line), '\t')
  }

  /** The term a record names: its own id when that is a node, else the
      canonical id its alternate id maps to, else the id unchanged. */
  function Resolve(st: State, goId: Id): Id {
    if goId !in st.nodes && goId in st.altId then st.altId[goId] else goId
  }

  /** The gene product node, created with id, type GeneProduct and a names
      entry only when it is new. */
  function Product(st: State, cols: seq<string>): (r: State)
    requires |cols| >= 5
    ensures cols[1] in r.nodes && r.attrs == st.attrs && r.altId == st.altId
    ensures r.nodes.Keys == st.nodes.Keys + {cols[1]}
    ensures forall n | n in st.nodes :: r.nodes[n] == st.nodes[n]
    ensures cols[1] in st.nodes ==> r.names == st.names
  {
    var id := cols[1];
    if id in st.nodes then st
    else st.(nodes := st.nodes[id := map["id" := Str(id), "type" := Str("GeneProduct")]], names := st.names[cols[2] := id])
  }

  /** The evidence codes of an edge dictionary after one more code: the list
      is created empty when absent and the code appended; a value that is
      not a list has no append (AttributeError). */
  function Evidence(e: Attrs, code: string): Result<Attrs, Error> {
    var e1 := if "evidence-codes" in e then e else e["evidence-codes" := Strs([])];
    match e1["evidence-codes"]
    case Strs(items) => Ok(e1["evidence-codes" := Strs(items + [code])])
    case _ => Err(AttributeError)
  }

  /** Adding a code writes only the evidence list. */
  lemma EvidenceKeeps(e: Attrs, code: string)
    ensures Evidence(e, code).Ok? ==> forall k | k in e && k != "evidence-codes" :: k in Evidence(e, code).value && Evidence(e, code).value[k] == e[k]
  {
  }

  /** The gene product attributes a record writes: name, then desc
      (cols[9]) and aliases (cols[10]), each read raising IndexError when the
      column is missing. */
  function Describe(st: State, cols: seq<string>): Step
    requires |cols| >= 5 && cols[1] in st.nodes
  {
    var id := cols[1];
    var s1 := SetNode(st, id, "name", Str(cols[2]));
    if |cols| < 10 then Step(s1, Fail(IndexError))
    else
      var s2 := SetNode(s1, id, "desc", Str(cols[9]));
      if |cols| < 11 then Step(s2, Fail(IndexError))
      else Step(SetNode(s2, id, "aliases", Str(cols[10])), Pass)
  }

  /** The annotation edge g -> t: created when new, typed annotation, and
      given one more evidence code. */
  function Annotation(st: State, g: Id, t: Id, code: string): Step {
    var s := SetEdge(Link(st, g, t), g, t, "type", Str("annotation"));
    match Evidence(s.attrs[(g, t)], code)
    case Err(e) => Step(s, Fail(e))
    case Ok(d) => Step(s.(attrs := s.attrs[(g, t) := d]), Pass)
  }

  /** A record's columns on the tables: fewer than five columns raise
      IndexError; a term that resolves to no node is reported and skipped;
      otherwise the gene product is created or found, described, and
      attached by its annotation edge. */
  function Record(st: State, cols: seq<string>): Step {
    if |cols| < 5 then Step(st, Fail(IndexError))
    else
      var term := Resolve(st, cols[4]);
      if term !in st.nodes then Step(st, Pass)
      else
        var d := Describe(Product(st, cols), cols);
        if d.out.Fail? then d
        else Annotation(d.st, cols[1], term, cols[6])
  }

  /** One GOA line on the tables: a comment ("!") is skipped, any other
      line is a record. */
  function Annotate(st: State, line: string): Step {
    if StartsWith(line, "!") then Step(st, Pass) else Record(st, Columns(line))
  }

  /** The gene product -> term pair a record attaches, if it attaches one. */
  function Pair(st: State, cols: seq<string>): Option<(Id, Id)> {
    if |cols| < 5 || Resolve(st, cols[4]) !in st.nodes then None
    else Some((cols[1], Resolve(st, cols[4])))
  }

  // ---------------------------------------------------------------------
  // What a record does

  /** A record whose term does not resolve, or one too short to name it,
      changes nothing. */
  lemma RecordSkips(st: State, cols: seq<string>)
    requires Pair(st, cols).None?
    ensures Record(st, cols).st == st
    ensures Record(st, cols).out == if |cols| < 5 then Fail(IndexError) else Pass
  {
  }

  /** The evidence codes of a pair, as a list: an absent entry reads as an
      empty list. */
  function CodesOf(attrs: map<(Id, Id), Attrs>, p: (Id, Id)): Value {
    if p in attrs && "evidence-codes" in attrs[p] then attrs[p]["evidence-codes"] else Strs([])
  }

  /** Describing the gene product writes its name, desc and aliases and
      nothing else, and fails with IndexError exactly when a column is
      missing. */
  lemma DescribeWrites(st: State, cols: seq<string>)
    requires |cols| >= 5 && cols[1] in st.nodes
    ensures var d := Describe(st, cols);
      var g := cols[1];
      && d.out == (if |cols| >= 11 then Pass else Fail(IndexError))
      && d.st.nodes.Keys == st.nodes.Keys && d.st.attrs == st.attrs && d.st.altId == st.altId && d.st.names == st.names
      && (forall n | n in st.nodes && n != g :: d.st.nodes[n] == st.nodes[n])
      && (d.out == Pass ==> d.st.nodes[g] == st.nodes[g]["name" := Str(cols[2])]["desc" := Str(cols[9])]["aliases" := Str(cols[10])])
  {
  }

  /** The annotation edge between two existing nodes: only the pair's
      dictionary changes (created when new), and it is typed annotation. */
  lemma AnnotationFrame(st: State, g: Id, t: Id, code: string)
    requires g in st.nodes && t in st.nodes
    ensures var a := Annotation(st, g, t, code).st;
      && a.nodes == st.nodes && a.altId == st.altId && a.names == st.names
      && a.attrs.Keys == st.attrs.Keys + {(g, t)}
      && (forall p | p in st.attrs && p != (g, t) :: a.attrs[p] == st.attrs[p])
      && "type" in a.attrs[(g, t)] && a.attrs[(g, t)]["type"] == Str("annotation")
  {
    var s := SetEdge(Link(st, g, t), g, t, "type", Str("annotation"));
    assert s.nodes == st.nodes;
    EvidenceKeeps(s.attrs[(g, t)], code);
  }

  /** The annotation step passes exactly when the pair's evidence list is
      a list, which then gains the code at its end; every other pair keeps
      its list. */
  lemma AnnotationCodes(st: State, g: Id, t: Id, code: string, p: (Id, Id))
    requires g in st.nodes && t in st.nodes
    ensures var a := Annotation(st, g, t, code);
      && (a.out == Pass <==> CodesOf(st.attrs, (g, t)).Strs?)
      && (a.out == Pass && p == (g, t) ==> CodesOf(a.st.attrs, p) == Strs(CodesOf(st.attrs, p).items + [code]))
      && (p != (g, t) ==> CodesOf(a.st.attrs, p) == CodesOf(st.attrs, p))
  {
    var s := SetEdge(Link(st, g, t), g, t, "type", Str("annotation"));
    assert CodesOf(s.attrs, (g, t)) == CodesOf(st.attrs, (g, t));
  }

  /** A new gene product node is tagged with its id and type GeneProduct. */
  lemma ProductNew(st: State, cols: seq<string>)
    requires |cols| >= 5 && cols[1] !in st.nodes
    ensures var n := Product(st, cols).nodes[cols[1]];
      "id" in n && n["id"] == Str(cols[1]) && "type" in n && n["type"] == Str("GeneProduct")
  {
  }

  /** The attribute names a record writes are distinct. */
  lemma KeysDistinct()
    ensures "type" !in {"name", "desc", "aliases"} && "id" !in {"name", "desc", "aliases"}
    ensures "name" !in {"desc", "aliases"} && "desc" != "aliases"
  {
    assert "type"[0] != "name"[0] && "type"[0] != "desc"[0] && "name"[0] != "desc"[0];
  }

  /** Writing name, desc and aliases keeps every other attribute. */
  lemma Described(a: Attrs, name: Value, desc: Value, aliases: Value)
    ensures var b := a["name" := name]["desc" := desc]["aliases" := aliases];
      && "name" in b && b["name"] == name && "desc" in b && b["desc"] == desc && "aliases" in b && b["aliases"] == aliases
      && forall k | k in a && k !in {"name", "desc", "aliases"} :: k in b && b[k] == a[k]
  {
    KeysDistinct();
  }

  /** How a record that attaches a pair is computed: the gene product is
      found or created, described, then annotated. */
  lemma RecordStages(st: State, cols: seq<string>)
    requires Pair(st, cols).Some? && Record(st, cols).out == Pass
    ensures |cols| >= 11 && Pair(st, cols).value.0 == cols[1] && Pair(st, cols).value.1 in st.nodes
    ensures var s := Product(st, cols);
      var d := Describe(s, cols);
      && d.out == Pass && d.st.attrs == st.attrs
      && Record(st, cols) == Annotation(d.st, cols[1], Pair(st, cols).value.1, cols[6])
  {
    DescribeWrites(Product(st, cols), cols);
  }

  /** A record that attaches gene product g writes its name, desc and
      aliases. */
  lemma RecordDescribes(st: State, cols: seq<string>)
    requires Pair(st, cols).Some? && Record(st, cols).out == Pass
    ensures var g := cols[1];
      var r := Record(st, cols).st;
      && |cols| >= 11 && g in r.nodes
      && "name" in r.nodes[g] && r.nodes[g]["name"] == Str(cols[2])
      && "desc" in r.nodes[g] && r.nodes[g]["desc"] == Str(cols[9])
      && "aliases" in r.nodes[g] && r.nodes[g]["aliases"] == Str(cols[10])
  {
    RecordStages(st, cols);
    var g, t := cols[1], Pair(st, cols).value.1;
    var s := Product(st, cols);
    DescribeWrites(s, cols);
    var d := Describe(s, cols);
    AnnotationFrame(d.st, g, t, cols[6]);
    var r := Record(st, cols).st;
    assert r.nodes == d.st.nodes;
    assert r.nodes[g] == s.nodes[g]["name" := Str(cols[2])]["desc" := Str(cols[9])]["aliases" := Str(cols[10])];
    Described(s.nodes[g], Str(cols[2]), Str(cols[9]), Str(cols[10]));
  }

  /** The rest of g's attributes and the names table: an existing gene
      product keeps its other attributes and the table; a new one is tagged
      with its id and type GeneProduct and its name enters the table. */
  lemma RecordProduct(st: State, cols: seq<string>)
    requires Pair(st, cols).Some? && Record(st, cols).out == Pass
    ensures var g := cols[1];
      var r := Record(st, cols).st;
      && g in r.nodes
      && (g in st.nodes ==> r.names == st.names && (forall k | k in st.nodes[g] && k !in {"name", "desc", "aliases"} ::
            k in r.nodes[g] && r.nodes[g][k] == st.nodes[g][k]))
      && (g !in st.nodes ==> (r.names == st.names[cols[2] := g]
            && "type" in r.nodes[g] && r.nodes[g]["type"] == Str("GeneProduct") && "id" in r.nodes[g] && r.nodes[g]["id"] == Str(g)))
  {
    RecordStages(st, cols);
    var g, t := cols[1], Pair(st, cols).value.1;
    var s := Product(st, cols);
    DescribeWrites(s, cols);
    var d := Describe(s, cols);
    AnnotationFrame(d.st, g, t, cols[6]);
    var r := Record(st, cols).st;
    assert r.nodes == d.st.nodes && r.names == s.names;
    assert r.nodes[g] == s.nodes[g]["name" := Str(cols[2])]["desc" := Str(cols[9])]["aliases" := Str(cols[10])];
    KeysDistinct();
    Described(s.nodes[g], Str(cols[2]), Str(cols[9]), Str(cols[10]));
    if g !in st.nodes {
      ProductNew(st, cols);
    } else {
      assert s.nodes[g] == st.nodes[g];
    }
  }

  /** A record adds at most its gene product as a node, changes no other
      node and keeps the alternate ids. */
  lemma RecordNodes(st: State, cols: seq<string>)
    requires Pair(st, cols).Some? && Record(st, cols).out == Pass
    ensures var g := cols[1];
      var r := Record(st, cols).st;
      && r.nodes.Keys == st.nodes.Keys + {g}
      && (forall n | n in st.nodes && n != g :: r.nodes[n] == st.nodes[n])
      && r.altId == st.altId
  {
    RecordStages(st, cols);
    var g, t := cols[1], Pair(st, cols).value.1;
    var s := Product(st, cols);
    DescribeWrites(s, cols);
    AnnotationFrame(Describe(s, cols).st, g, t, cols[6]);
  }

  /** A record that attaches gene product g to term t creates or finds the
      edge g -> t, typed annotation, and changes no other edge. */
  lemma RecordEdges(st: State, cols: seq<string>)
    requires Pair(st, cols).Some? && Record(st, cols).out == Pass
    ensures var g := cols[1];
      var t := Pair(st, cols).value.1;
      var r := Record(st, cols).st;
      && t in st.nodes
      && (g, t) in r.attrs && "type" in r.attrs[(g, t)] && r.attrs[(g, t)]["type"] == Str("annotation")
      && r.attrs.Keys == st.attrs.Keys + {(g, t)}
      && (forall p | p in st.attrs && p != (g, t) :: r.attrs[p] == st.attrs[p])
  {
    var g, t := cols[1], Pair(st, cols).value.1;
    var s := Product(st, cols);
    DescribeWrites(s, cols);
    var d := Describe(s, cols);
    AnnotationFrame(d.st, g, t, cols[6]);
    assert Record(st, cols) == Annotation(d.st, g, t, cols[6]);
  }

  /** The code a record adds to pair p: column 6 when it attaches p. */
  function CodeFor(st: State, cols: seq<string>, p: (Id, Id)): seq<string> {
    if Pair(st, cols) == Some(p) && |cols| > 6 then [cols[6]] else []
  }

  /** One record appends its code (column 6) to the list of the pair it
      attaches, and to no other list. */
  lemma RecordCodes(st: State, cols: seq<string>, p: (Id, Id))
    requires Record(st, cols).out == Pass && CodesOf(st.attrs, p).Strs?
    ensures CodesOf(Record(st, cols).st.attrs, p) == Strs(CodesOf(st.attrs, p).items + CodeFor(st, cols, p))
  {
    var before := CodesOf(st.attrs, p).items;
    assert before + [] == before;
    if Pair(st, cols).Some? {
      RecordStages(st, cols);
      var g, t := cols[1], Pair(st, cols).value.1;
      AnnotationCodes(Describe(Product(st, cols), cols).st, g, t, cols[6], p);
    } else {
      RecordSkips(st, cols);
    }
  }

  /** load_GOA's loop over the lines of a file, on the tables: one line
      after another, stopping at the first exception. */
  function AnnotateAll(st: State, lines: seq<string>): Step
    decreases |lines|
  {
    if lines == [] then Step(st, Pass)
    else
      var s := Annotate(st, lines[0]);
      if s.out.Fail? then s else AnnotateAll(s.st, lines[1..])
  }

  /** The codes of the records that attach pair p, in file order, each
      resolved against the tables as they stand when it is read. */
  function CodesFor(st: State, lines: seq<string>, p: (Id, Id)): seq<string>
    decreases |lines|
  {
    if lines == [] then []
    else LineCode(st, lines[0], p) + CodesFor(Annotate(st, lines[0]).st, lines[1..], p)
  }

  /** The code one line adds to pair p: none for a comment. */
  function LineCode(st: State, line: string, p: (Id, Id)): seq<string> {
    if StartsWith(line, "!") then [] else CodeFor(st, Columns(line), p)
  }

  /** One line appends its code to the list of the pair it attaches. */
  lemma AnnotateCodes(st: State, line: string, p: (Id, Id))
    requires Annotate(st, line).out == Pass && CodesOf(st.attrs, p).Strs?
    ensures CodesOf(Annotate(st, line).st.attrs, p) == Strs(CodesOf(st.attrs, p).items + LineCode(st, line, p))
  {
    if StartsWith(line, "!") {
      assert CodesOf(st.attrs, p).items + [] == CodesOf(st.attrs, p).items;
    } else {
      RecordCodes(st, Columns(line), p);
    }
  }

  /** Evidence codes accumulate: after lines that load without error, the
      list of a pair is its earlier list followed by the code of every
      record that attached that pair, in file order, duplicates kept. */
  lemma {:induction false} EvidenceAccumulates(st: State, lines: seq<string>, p: (Id, Id))
    requires AnnotateAll(st, lines).out == Pass && CodesOf(st.attrs, p).Strs?
    ensures CodesOf(AnnotateAll(st, lines).st.attrs, p) == Strs(CodesOf(st.attrs, p).items + CodesFor(st, lines, p))
    decreases |lines|
  {
    var before := CodesOf(st.attrs, p).items;
    if lines == [] {
      assert before + [] == before;
    } else {
      AccumulateStep(st, lines, p);
      var s := Annotate(st, lines[0]).st;
      EvidenceAccumulates(s, lines[1..], p);
      Regroup(before, LineCode(st, lines[0], p), CodesFor(s, lines[1..], p));
    }
  }

  /** The first line of a run that loads without error. */
  lemma AccumulateStep(st: State, lines: seq<string>, p: (Id, Id))
    requires lines != [] && AnnotateAll(st, lines).out == Pass && CodesOf(st.attrs, p).Strs?
    ensures var s := Annotate(st, lines[0]).st;
      && AnnotateAll(st, lines) == AnnotateAll(s, lines[1..])
      && CodesFor(st, lines, p) == LineCode(st, lines[0], p) + CodesFor(s, lines[1..], p)
      && CodesOf(s.attrs, p) == Strs(CodesOf(st.attrs, p).items + LineCode(st, lines[0], p))
  {
    AnnotateCodes(st, lines[0], p);
  }

  lemma Regroup(a: seq<string>, b: seq<string>, c: seq<string>)
    ensures a + b + c == a + (b + c)
  {
  }

  // ---------------------------------------------------------------------
  // The ontology graph

  class Ontology {
    /** The directed graph load_OBO creates. */
    const graph: Graph
    /** g['alt_id']: alternate GO id -> canonical id. */
    var altId: map<string, Id>
    /** go['names']: gene (product) name -> gene product id. */
    var names: map<string, Id>

    ghost predicate Valid()
      reads this, graph
    {
      graph.Valid() && graph.directed
    }

    /** The tables as values. */
    ghost function Snap(): State
      reads this, graph
    {
      State(graph.nodes, graph.edgeAttrs, altId, names)
    }

    /** load_OBO's setup: create_graph(directed=True, weighted=False) and an
        empty alternate-id table. */
    constructor ()
      ensures Valid() && fresh(graph)
      ensures graph.nodes == map[] && graph.edgeAttrs == map[] && graph.nbEdges == 0 && !graph.weighted
      ensures altId == map[] && names == map[]
    {
      graph := new Graph(true, false);
      altId, names := map[], map[];
    }

    /** load_GOA's setup: go['names'] = {}. */
    method BeginAnnotations()
      requires Valid()
      modifies this
      ensures Valid() && names == map[] && altId == old(altId)
    {
      names := map[];
    }

    /** parseTerm(lines). */
    method ParseTerm(lines: seq<string>) returns (r: Outcome)
      requires Valid()
      modifies this, graph
      ensures Valid()
      ensures var s := Stanza(old(Snap()), lines); r == s.out && Snap() == s.st
      ensures Obsolete(lines) || |lines| < 2 ==>
        graph.order == old(graph.order) && graph.edges == old(graph.edges) && graph.nbEdges == old(graph.nbEdges)
    {
      var obsolete := IsObsolete(lines);
      if obsolete {
        return Pass;
      }
      if |lines| < 2 {
        return Fail(IndexError);
      }
      var id := RStrip(Drop(lines[1], 4));
      AddTerm(id);
      r := ApplyLines(id, lines[2..]);
    }

    /** The scan for an "is_obsolete: true" line. */
    static method IsObsolete(lines: seq<string>) returns (b: bool)
      ensures b == Obsolete(lines)
    {
      var i := 0;
      while i < |lines|
        invariant 0 <= i <= |lines|
        invariant forall j | 0 <= j < i :: !StartsWith(lines[j], "is_obsolete: true")
      {
        if StartsWith(lines[i], "is_obsolete: true") {
          return true;
        }
        i := i + 1;
      }
      return false;
    }

    /** add_node(g, id), then the node's id and type GOTerm. */
    method AddTerm(id: Id)
      requires Valid()
      modifies graph
      ensures Valid() && Snap() == NewTerm(old(Snap()), id)
    {
      ghost var n := WithNode(graph.nodes, id, None);
      var _ := graph.AddNode(id, None);
      assert graph.nodes == n;
      graph.SetNodeAttr(id, "id", Str(id));
      ghost var m := n[id := n[id]["id" := Str(id)]];
      assert graph.nodes == m;
      graph.SetNodeAttr(id, "type", Str("GOTerm"));
      assert graph.nodes == m[id := m[id]["type" := Str("GOTerm")]];
      Overwrite(n, id, n[id]["id" := Str(id)], n[id]["id" := Str(id)]["type" := Str("GOTerm")]);
    }

    /** parseTerm's loop over the lines after the id line. */
    method ApplyLines(id: Id, body: seq<string>) returns (r: Outcome)
      requires Valid() && id in graph.nodes
      modifies this, graph
      ensures Valid()
      ensures var s := Clauses(old(Snap()), id, Classified(body)); r == s.out && Snap() == s.st
    {
      ghost var cs := Classified(body);
      ghost var whole := Clauses(Snap(), id, cs);
      var k := 0;
      while k < |body|
        invariant 0 <= k <= |body| && Valid() && id in graph.nodes
        invariant Clauses(Snap(), id, cs[k..]) == whole
      {
        assert cs[k..][0] == Classify(body[k]) && cs[k..][1..] == cs[k + 1..];
        var out := ApplyLine(id, body[k]);
        if out.Fail? {
          return out;
        }
        k := k + 1;
      }
      assert cs[k..] == [];
      r := Pass;
    }

    /** One pass of parseTerm's loop: the branch the line's prefix selects. */
    method ApplyLine(id: Id, line: string) returns (r: Outcome)
      requires Valid() && id in graph.nodes
      modifies this, graph
      ensures Valid() && id in graph.nodes
      ensures Classify(line).Err? ==> r == Fail(Classify(line).error) && Snap() == old(Snap())
      ensures Classify(line).Ok? ==> r == Pass && Snap() == Apply(old(Snap()), id, Classify(line).value)
    {
      r := Pass;
      if StartsWith(line, "name: ") {
        graph.SetNodeAttr(id, "name", Str(Drop(line, 6)));
      } else if StartsWith(line, "namespace: ") {
        graph.SetNodeAttr(id, "namespace", Str(Drop(line, 11)));
      } else if StartsWith(line, "def: ") {
        graph.SetNodeAttr(id, "def", Str(Drop(line, 5)));
      } else if StartsWith(line, "alt_id: ") {
        altId := altId[Drop(line, 8) := id];
      } else if StartsWith(line, "is_a:") {
        r := AddIsA(id, line);
      } else if StartsWith(line, "relationship: part_of ") {
        r := AddPartOf(id, line);
      }
    }

    /** The is_a branch: the edge to the parent, typed is_a. */
    method AddIsA(id: Id, line: string) returns (r: Outcome)
      requires Valid() && id in graph.nodes
      modifies graph
      ensures Valid() && id in graph.nodes
      ensures IsA(line).Err? ==> r == Fail(IsA(line).error) && Snap() == old(Snap())
      ensures IsA(line).Ok? ==> r == Pass && Snap() == Apply(old(Snap()), id, IsA(line).value)
    {
      var bang := Find(line, "!");
      if bang.None? {
        return Fail(ValueError);
      }
      var parent := RStrip(Slice(line, 6, bang.value));
      r := AddTyped(id, parent, "is_a");
    }

    /** The part_of branch: the edge to the named term, typed part_of. */
    method AddPartOf(id: Id, line: string) returns (r: Outcome)
      requires Valid() && id in graph.nodes
      modifies graph
      ensures Valid() && id in graph.nodes
      ensures PartOf(line).Err? ==> r == Fail(PartOf(line).error) && Snap() == old(Snap())
      ensures PartOf(line).Ok? ==> r == Pass && Snap() == Apply(old(Snap()), id, PartOf(line).value)
    {
      var go := Find(line, "GO:");
      if go.None? {
        return Fail(ValueError);
      }
      var rest := Drop(line, go.value);
      var space := Find(rest, " ");
      if space.None? {
        return Fail(ValueError);
      }
      r := AddTyped(id, rest[..space.value], "part_of");
    }

    /** e = add_edge(g, id, target); e['type'] = kind. */
    method AddTyped(id: Id, target: Id, kind: string) returns (r: Outcome)
      requires Valid() && id in graph.nodes
      modifies graph
      ensures Valid() && id in graph.nodes
      ensures r == Pass && Snap() == Apply(old(Snap()), id, Edge(target, kind))
    {
      var _ := graph.AddEdge(id, target, None, None, None);
      graph.SetEdgeAttr(id, target, "type", Str(kind));
      r := Pass;
    }

    /** The body of load_GOA's loop for one line of the file. */
    method AddAnnotation(line: string) returns (r: Outcome)
      requires Valid()
      modifies this, graph
      ensures Valid()
      ensures var s := Annotate(old(Snap()), line); r == s.out && Snap() == s.st
      ensures graph.nbEdges == |graph.edgeAttrs|
    {
      r := Pass;
      if !StartsWith(line, "!") {
        var cols := Split(RStrip(line), '\t');
        r := AddRecord(cols);
      }
      EdgeCount(graph);
    }

    /** A record's columns: resolve the term, then attach the gene product. */
    method AddRecord(cols: seq<string>) returns (r: Outcome)
      requires Valid()
      modifies this, graph
      ensures Valid()
      ensures var s := Record(old(Snap()), cols); r == s.out && Snap() == s.st
    {
      if |cols| < 5 {
        return Fail(IndexError);
      }
      var goId := cols[4];
      if goId !in graph.nodes && goId in altId {
        goId := altId[goId];
      }
      if goId !in graph.nodes {
        return Pass;
      }
      assert goId == Resolve(old(Snap()), cols[4]);
      FindProduct(cols);
      r := DescribeProduct(cols);
      if r.Fail? {
        return;
      }
      r := AddEvidence(cols[1], goId, cols[6]);
    }

    /** The gene product node, created and tagged when new. */
    method FindProduct(cols: seq<string>)
      requires Valid() && |cols| >= 5
      modifies this, graph
      ensures Valid() && Snap() == Product(old(Snap()), cols)
    {
      var id := cols[1];
      if id !in graph.nodes {
        ghost var n := graph.nodes;
        var _ := graph.AddNode(id, None);
        assert graph.nodes == n[id := map[]];
        graph.SetNodeAttr(id, "id", Str(id));
        assert graph.nodes == n[id := map[]][id := map["id" := Str(id)]];
        Overwrite(n, id, map[], map["id" := Str(id)]);
        graph.SetNodeAttr(id, "type", Str("GeneProduct"));
        Overwrite(n, id, map["id" := Str(id)], map["id" := Str(id), "type" := Str("GeneProduct")]);
        names := names[cols[2] := id];
      }
    }

    /** The gene product's name, desc and aliases, each column read in
        turn. */
    method DescribeProduct(cols: seq<string>) returns (r: Outcome)
      requires Valid() && |cols| >= 5 && cols[1] in graph.nodes
      modifies graph
      ensures Valid() && cols[1] in graph.nodes
      ensures var s := Describe(old(Snap()), cols); r == s.out && Snap() == s.st
    {
      var id := cols[1];
      graph.SetNodeAttr(id, "name", Str(cols[2]));
      if |cols| < 10 {
        return Fail(IndexError);
      }
      graph.SetNodeAttr(id, "desc", Str(cols[9]));
      if |cols| < 11 {
        return Fail(IndexError);
      }
      graph.SetNodeAttr(id, "aliases", Str(cols[10]));
      r := Pass;
    }

    /** e = add_edge(go, id, go_id); e['type'] = 'annotation'; then the
        evidence code. */
    method AddEvidence(id: Id, goId: Id, code: string) returns (r: Outcome)
      requires Valid() && id in graph.nodes && goId in graph.nodes
      modifies graph
      ensures Valid()
      ensures var s := Annotation(old(Snap()), id, goId, code); r == s.out && Snap() == s.st
    {
      var _ := AddTyped(id, goId, "annotation");
      r := AppendEvidence(id, goId, code);
    }

    /** The evidence list created when absent, then the code appended. */
    method AppendEvidence(id: Id, goId: Id, code: string) returns (r: Outcome)
      requires Valid() && (id, goId) in graph.edgeAttrs
      modifies graph
      ensures Valid() && graph.nodes == old(graph.nodes)
      ensures var e := Evidence(old(graph.edgeAttrs)[(id, goId)], code);
        && (e.Err? ==> r == Fail(e.error) && graph.edgeAttrs == old(graph.edgeAttrs))
        && (e.Ok? ==> r == Pass && graph.edgeAttrs == old(graph.edgeAttrs)[(id, goId) := e.value])
    {
      var e := graph.edgeAttrs[(id, goId)];
      var codes := if "evidence-codes" in e then e["evidence-codes"] else Strs([]);
      if !codes.Strs? {
        return Fail(AttributeError);
      }
      if "evidence-codes" !in e {
        graph.SetEdgeAttr(id, goId, "evidence-codes", Strs([]));
      }
      graph.SetEdgeAttr(id, goId, "evidence-codes", Strs(codes.items + [code]));
      r := Pass;
    }
  }
}
