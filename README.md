# Graph, tree and Gene Ontology loaders — a Dafny model

This project models the in-memory core of a small bioinformatics graph
library written in Python:

- **The graph store** (`Graph.py`). A graph is a dictionary holding a node
  table, an outgoing-edge table, an edge counter and the `directed` /
  `weighted` flags. `add_node` and `add_edge` are idempotent, so the first
  write wins. `add_edge` creates missing endpoints. In undirected mode the
  reverse entry holds the same attribute dictionary as the forward one.
  The model is the class `GraphStore.Graph`:
  - `order` is the dictionary's insertion order;
  - `edges` lists each node's targets in insertion order;
  - `edgeAttrs` maps an ordered pair to its attribute dictionary.
  
  The invariant `Valid` ties these together with the edge counter. It says
  that node keys equal edge-table keys, that every target is a node, and
  that, when undirected, both directions hold the same dictionary. It also
  says that `nb_edges` counts the pairs inserted. `AddSifRow` is one row of
  the SIF loader.
- **The tree utilities** (`Tree.py`), which are graphs with a `root` and a
  `rooted` flag. The module `Trees` (class `Tree`) has:
  - the accessors `parent`, `children` and `is_leaf`;
  - the root scan `update_root`;
  - one row of the CSV loader;
  - `prune`, which walks from each leaf up to the first node already kept and
    then builds a new tree;
  - `as_newick`, the recursive Newick writer, which also stamps a `newick`
    attribute on each node it labels.
  
  `as_newick` is specified by a function `Newick` over the tables as they
  were before the call.
- **The Gene Ontology record handling** (`GeneOntology.py`), in the class
  `GeneOntology.Ontology`, over a directed graph store plus the `alt_id`
  and `names` tables:
  - `parseTerm` turns one buffered OBO stanza into a term node, its `is_a`
    and `part_of` edges and its alternate-id entries;
  - the per-record body of `load_GOA` resolves a term id through `alt_id`,
    creates or updates the gene-product node, and adds the annotation edge,
    appending the record's evidence code to it.
  
  Each method is proved against a function on a value snapshot (`State`):
  `Stanza`, `Record` and `Annotate`. The promised properties are proved
  about these functions as lemmas.

Python exceptions become values of `Values.Error`: `KeyError`,
`IndexError`, `ValueError`, `TypeError` and `AttributeError`. An operation
that Python would abort part-way returns the error together with the writes
made before it, so the error paths are modelled rather than excluded.
Attribute values are `None`, strings, integers or lists of strings.

## Model

| member | source | states |
|---|---|---|
| Values.Render | Tree.py:163-171 | the definition of Python's `str()` on the modelled values: `None`, the string itself, the decimal digits of an integer, and a list of strings in brackets with quoted, comma-separated items |
| Text.StartsWith | GeneOntology.py:40-49 | the definition of `str.startswith`: the prefix is no longer than the string and equals its first characters |
| Text.IsSpace | GeneOntology.py:34 | the definition of the characters `str.rstrip()` removes: Python's whitespace set, ASCII and Unicode |
| Text.Join | Tree.py:158 | the definition of `sep.join(parts)` for a one-character separator: the parts in order with the separator between consecutive ones |
| Text.Slice | GeneOntology.py:46 | Python slicing with clamped bounds: the plain slice when the bounds are in range, the empty string when they cross or start past the end |
| Text.Drop | GeneOntology.py:40-43 | `s[i:]`: the suffix from i, or empty past the end |
| Text.Find | GeneOntology.py:46 | `str.index`: the first position where the substring occurs (none earlier), or no result (ValueError) exactly when it never occurs |
| Text.RStrip | GeneOntology.py:34 | `str.rstrip()`: the longest prefix that does not end in whitespace; everything removed is whitespace |
| Text.Split | Graph.py:55 | `str.split(sep)`: at least one piece, no piece holds the separator, and joining the pieces with the separator gives the string back |
| Text.SplitJoin | Graph.py:55 | splitting a join of separator-free pieces gives the pieces back (the other half of the round trip) |
| Text.FindFirstSeparator | Graph.py:55 | the first separator after a separator-free head is found at the head's length |
| GraphStore.WithNode | Graph.py:24-27 | add_node's node table: the id is present, existing entries keep their attributes, a new id gets the given dictionary or an empty one |
| GraphStore.WithEmpty | Graph.py:28 | a new node starts with no outgoing edges; existing entries are unchanged |
| GraphStore.WithOrder | Graph.py:24-28 | a new node is appended to the insertion order; an existing one leaves it unchanged |
| GraphStore.Stored | Graph.py:39-41 | the definition of the attribute table after a new pair: the pair gets the dictionary, and so does the reverse pair when undirected; no other pair changes |
| GraphStore.Appended | Graph.py:39-41 | the definition of the target lists after a new pair: the target is appended to the source's list, and in undirected mode the source to the target's list unless it is a self-loop |
| GraphStore.Graph.constructor | Graph.py:11-16 | create_graph: no nodes, no edges, edge count 0, the given directed and weighted flags, no weight attribute |
| GraphStore.Graph.AddNode | Graph.py:18-29 | add_node: returns the stored attributes; an existing id changes nothing, and a new id gets the given or empty attributes plus an empty edge entry; the table invariant is kept |
| GraphStore.Graph.AddEdge | Graph.py:31-43 | add_edge: both endpoints exist afterwards, with attribute hints used only for endpoints that were absent; an existing pair changes no edge, count or dictionary and returns the stored one (first write wins); a new pair gets the given or empty dictionary, in both directions when undirected, and the count rises by exactly one |
| GraphStore.Graph.InsertEdge | Graph.py:36-42 | inserting a new pair appends the target (and the reverse target when undirected), stores one dictionary under both directions and adds one to the count |
| GraphStore.Graph.SetNodeAttr | Tree.py:45 | a write into a node's attribute dictionary changes that one key of that one node and nothing else |
| GraphStore.Graph.SetNodeAttrs | Tree.py:140 | replacing a node's dictionary changes that node only |
| GraphStore.Graph.SetEdgeAttr | Graph.py:40-41 | a write into an edge's dictionary shows through both directions of an undirected edge, since they share one object, and changes nothing else |
| GraphStore.AddNodeKeeps | Graph.py:24-28 | adding a new node keeps the table invariant (node keys equal edge-table keys) |
| GraphStore.AddEdgeIndexed | Graph.py:39-41 | appending a new pair keeps each stored pair at its recorded place in its source's target list |
| GraphStore.AddEdgeCounted | Graph.py:36-42 | a new pair raises the edge count by exactly one and keeps the count equal to the number of pairs inserted |
| GraphStore.AddEdgeShared | Graph.py:40-41 | storing a new pair keeps both directions of every undirected edge on the same dictionary |
| GraphStore.AddEdgeKeeps | Graph.py:36-42 | inserting a new pair between existing nodes keeps the whole table invariant |
| GraphStore.SetEdgeKeeps | Graph.py:40-41 | writing an edge's dictionary through both directions keeps the table invariant |
| GraphStore.TablesFacts | Graph.py:24-43 | under the invariant, the insertion order lists each node once, node keys equal edge-table keys, target lists have no duplicates, a target is listed exactly when the pair has a dictionary, and both ends of every pair are nodes |
| GraphStore.EdgeCount | Graph.py:36-42 | the edge count never exceeds the number of stored pairs; it equals that number on a directed graph, and on an undirected one twice the count is the number of stored pairs plus the number of self-loops, since every other edge is stored in both directions |
| GraphStore.SifEdgesStep | Graph.py:56-58 | one field of a SIF row keeps the description of the edges added so far |
| GraphStore.SifNodesStep | Graph.py:56-58 | one field of a SIF row keeps the description of the nodes added so far |
| GraphStore.SifType | Graph.py:57 | the definition of a SIF edge's dictionary: a single `type` key holding the relationship field |
| GraphStore.AddSifRow | Graph.py:55-58 | a row with fewer than three fields changes nothing, not even the first node; otherwise every field after the second becomes a target of the first, with a new pair typed by the second field, an existing pair left as it was, and nodes created only for the ends |
| Trees.Column | Tree.py:36-38 | `cs[i]` with Python's negative indices: a value exactly when the index is in range, counted from the end when negative |
| Trees.RowNode | Tree.py:41 | the definition of a node created from its own row: `id` is the node and `parent` the row's parent |
| Trees.StubNode | Tree.py:47 | the definition of a parent created before its own row: `id` is the parent and `parent` is None |
| Trees.RowNodes | Tree.py:40-47 | after a row naming n and parent p, exactly n and p are added to the node set, and no node other than n changes |
| Trees.RowOrder | Tree.py:40-47 | after a row naming n and parent p, the old insertion order is a prefix of the new one; the ids added are exactly those of n and p that were not nodes, with n first when it is new |
| Trees.Tree.constructor | Tree.py:11-18 | create_tree: an empty graph with the given flags, no root, not rooted |
| Trees.Tree.Parent | Tree.py:58-62 | parent: the node's "parent" attribute, and KeyError exactly when the node or that attribute is missing |
| Trees.Tree.Children | Tree.py:64-71 | children: a list exactly when the node has an edge entry |
| Trees.Tree.IsLeaf | Tree.py:73-74 | is_leaf: TypeError (len(None)) exactly when children gives None |
| Trees.ChildrenAreEdges | Tree.py:64-74 | children lists c exactly when the edge n -> c is stored, each child once, and a node is a leaf exactly when no edge leaves it |
| Trees.IsRoot | Tree.py:82 | the definition of update_root's test: the node's parent is None or the node itself |
| Trees.LastRoot | Tree.py:80-85 | the definition of the root update_root ends with after scanning a list of nodes: the last node of the list that passes the test, or the old root when none passes |
| Trees.LastRootIsLast | Tree.py:80-85 | the root scan ends on the last node of the order whose parent is None or itself, and keeps the old root only when there is none |
| Trees.LastRootFound | Tree.py:80-85 | once the scan finds a root, the result does not depend on the old root |
| Trees.Tree.UpdateRoot | Tree.py:76-86 | update_root: root becomes the last qualifying node (or stays), rooted becomes root is not None; a node without a parent attribute raises KeyError with the root found so far and rooted unchanged |
| Trees.Tree.RecordParent | Tree.py:40-47 | the node part of a CSV row: the node table becomes RowNodes, the insertion order becomes RowOrder, n and p get empty target lists when new, and no edge is written |
| Trees.Tree.SetChild | Tree.py:40-45 | the row's node gets the row's parent, as a new node with RowNode appended to the order or by overwriting `parent` on an existing node; no edge changes |
| Trees.Tree.AddStub | Tree.py:46-47 | a parent that is not yet a node is created with StubNode and appended to the order; an existing one changes nothing |
| Trees.Tree.LoadRow | Tree.py:35-53 | one CSV row: the outcome is success, IndexError or KeyError and nothing else; IndexError exactly when a column is out of range, KeyError exactly when an existing node lacks a parent attribute, both with no writes; otherwise the nodes become RowNodes and the insertion order RowOrder; when node equals parent no edge is added; otherwise the edge parent -> node exists, and a new one gets an empty dictionary, is counted and is appended to the parent's target list (and to the node's when undirected), while an existing one leaves every edge table as it was |
| Trees.Climb | Tree.py:130-132 | the definition of one walk of prune: from a node up through the `parent` attributes, appending each node until a None parent or a node already kept; KeyError for a missing node or `parent`, and a numeric or list parent fails as Python's `parent` and `in` would |
| Trees.ClimbAll | Tree.py:129-132 | the definition of prune's loop over the leaves: one walk per leaf, in order, stopping at the first error |
| Trees.Tree.Kept | Tree.py:124-132 | prune's walk loop yields the kept list of ClimbAll, starting from the root |
| Trees.ClimbGrows | Tree.py:130-132 | one walk only appends, ends with its start kept, adds only its start and parents of added nodes, stops at a None parent or a kept node, and adds no duplicates |
| Trees.ClimbAllGrows | Tree.py:129-132 | all the walks together keep every leaf and add only leaves and their ancestors, without duplicates |
| Trees.GrownTrans | Tree.py:129-132 | two walks in a row grow the kept list as one walk does |
| Trees.SourcedStep | Tree.py:129-132 | the first leaf's walk followed by the others' adds only leaves and ancestors |
| Trees.Tree.Prune | Tree.py:119-144 | prune: the walk's error first, then KeyError when there is no root or it is not a node; otherwise a fresh tree whose nodes are exactly the kept ones, each with its source attributes, whose edges are exactly the source edges between kept nodes with empty dictionaries, and whose root is the given root (or the tree's), rooted; in a directed tree each node's target list is its source list filtered to the kept nodes, in source order |
| Trees.Tree.Build | Tree.py:135-144 | the new tree holds exactly the listed nodes with their source attributes and exactly the source edges between them, with empty dictionaries; when directed, each target list is the source's filtered to the listed nodes, in order |
| Trees.Tree.Fill | Tree.py:138-143 | the loop over the kept nodes leaves every one copied and linked, and, when directed, every target list filtered in order |
| Trees.Filter | Tree.py:141-142 | the elements of a list that are kept, in the list's order: an element is in the result exactly when it is in the list and kept |
| Trees.Tree.AddKept | Tree.py:138-143 | one kept node: it is copied with its attributes and its edges to kept nodes are added |
| Trees.Tree.LinkTargets | Tree.py:141-143 | the inner loop adds every source edge from the kept node to a kept node, and when directed the node's target list ends as its source list filtered to the kept nodes |
| Trees.Tree.LinkTarget | Tree.py:141-143 | one source target: a kept one is linked and, when directed, appended to the node's target list; another changes nothing |
| Trees.CopiedStep | Tree.py:139-140 | copying the next kept node's attributes extends the copied prefix |
| Trees.LinkStep | Tree.py:141-143 | adding one edge to a kept target extends the linked prefix |
| Trees.LinkedNext | Tree.py:141-143 | finishing a node's targets links it completely |
| Trees.ListedStart | Tree.py:139 | adding the next kept node gives it an empty target list, the start of its filtered list |
| Trees.ListedLink | Tree.py:141-143 | in a directed tree, one more source target extends the node's target list by that target exactly when it is kept, since the source list has no duplicates |
| Trees.ListedNext | Tree.py:141-143 | finishing a node's targets leaves its target list filtered in full |
| Trees.ListedDone | Tree.py:138-143 | once every kept node is processed, each target list is its source list filtered to the kept nodes |
| Trees.BuildDone | Tree.py:138-143 | once every kept node is processed, nodes and edges are exactly as prune promises |
| Trees.Newick | Tree.py:146-174 | the definition of as_newick at a node on fixed tables: the children's part when it has children, the label, the branch length, and ";" at the root; TypeError when the node has no edge entry, and the first error of the pieces otherwise |
| Trees.NewickList | Tree.py:155-157 | the definition of the children's strings: Newick at each child, in order, or the first child's error |
| Trees.Label | Tree.py:161-165 | the label is str() of the label attribute, with KeyError exactly when the node or the attribute is missing |
| Trees.Length | Tree.py:166-171 | the definition of the branch length: nothing when no length attribute is named; ":0.0" when the node's parent is None; otherwise ":" followed by str() of the named attribute of the edge from the parent. A missing node, `parent`, edge or attribute raises KeyError, as does a numeric parent; a list parent raises TypeError. Its contract states that no length gives nothing and that a branch length starts with ":" |
| Trees.Wrap | Tree.py:158 | the children's part is parenthesised and fails exactly when a child fails |
| Trees.Assemble | Tree.py:155-174 | the pieces give a string exactly when none of them failed |
| Trees.NewickListEach | Tree.py:156-157 | the children's strings are each child's own string, in order, or the error of the first child that fails |
| Trees.NewickShape | Tree.py:153-174 | a leaf gives its label, an inner node its children's strings comma-joined in parentheses followed by its label; then the branch length, and ";" only at the root |
| Trees.NewickBalanced | Tree.py:153-174 | with labels and lengths free of parentheses, the parentheses of the result are balanced |
| Trees.NewickListBalanced | Tree.py:156-158 | each child's string is balanced under the same condition |
| Trees.NewickRootMark | Tree.py:172-173 | with labels and lengths free of ";", the result ends with ";" exactly when the node is the root |
| Trees.StampedNewick | Tree.py:163-164 | the "newick" attributes as_newick writes do not change what it reads, so the result equals Newick on the tables before the call |
| Trees.StampedNewickList | Tree.py:163-164 | the same for the list of children's strings |
| Trees.StampStep | Tree.py:163-164 | stamping one more node keeps the stamped relation |
| Trees.StampTrans | Tree.py:163-164 | stamping is transitive |
| Trees.NodeLabel | Tree.py:161-171 | through stamped nodes, label and branch length read as before |
| Trees.ListStep | Tree.py:156-157 | one turn of the children loop: a child's error is the list's, and otherwise its string joins the known parts |
| Trees.Tree.AsNewick | Tree.py:146-174 | as_newick: the result is Newick on the tables before the call, at the given node or the root, and TypeError when there is neither; only "newick" attributes are written, and no edge |
| Trees.Tree.NewickAt | Tree.py:151-174 | the recursive call: the result is Newick at the node, and on success the node's "newick" attribute is str() of its label |
| Trees.Tree.NewickChildren | Tree.py:155-158 | the children loop gives the list of children's strings, or the first error |
| Trees.Tree.ChildStep | Tree.py:156-157 | one child's call, which either ends the list with its error or adds its string |
| GeneOntology.Obsolete | GeneOntology.py:30-31 | the definition of an obsolete stanza: one of its lines starts with "is_obsolete: true" |
| GeneOntology.TermId | GeneOntology.py:34 | the definition of the term id: the second line from character 4, right-stripped |
| GeneOntology.Clauses | GeneOntology.py:38-53 | the definition of parseTerm's loop on the tables: each line's clause applied in turn, stopping at the first ValueError |
| GeneOntology.Stanza | GeneOntology.py:28-53 | the definition of parseTerm on the tables: an obsolete stanza does nothing, fewer than two lines raise IndexError, and otherwise the term is created and tagged and the clauses of the remaining lines applied |
| GeneOntology.Classify | GeneOntology.py:39-53 | the branch taken for a stanza line: ValueError only from a missing "!", "GO:" or space, and attribute writes only to name, namespace or def |
| GeneOntology.IsA | GeneOntology.py:45-46 | an is_a line fails only with ValueError |
| GeneOntology.PartOf | GeneOntology.py:49-51 | a part_of line fails only with ValueError |
| GeneOntology.Classified | GeneOntology.py:38-53 | each line of the stanza body is classified on its own, in order |
| GeneOntology.FindAt | GeneOntology.py:46 | a separator-led substring is found right after a head that lacks its first character |
| GeneOntology.RStripBlank | GeneOntology.py:34 | right-stripping removes exactly the trailing blanks |
| GeneOntology.Lead | GeneOntology.py:40-49 | a line that starts with one prefix cannot start with a prefix whose first character differs |
| GeneOntology.ClassifyIsA | GeneOntology.py:45 | an "is_a:" line takes the is_a branch |
| GeneOntology.ClassifyPartOf | GeneOntology.py:49 | a "relationship: part_of " line takes the part_of branch |
| GeneOntology.IsAOf | GeneOntology.py:46 | `is_a: P ! comment` names parent P |
| GeneOntology.IsALine | GeneOntology.py:45-48 | such a line classifies as an is_a edge to P |
| GeneOntology.PartOfOf | GeneOntology.py:50-51 | `relationship: part_of GO:D rest` names target GO:D |
| GeneOntology.PartOfLine | GeneOntology.py:49-53 | such a line classifies as a part_of edge to GO:D |
| GeneOntology.TermIdLine | GeneOntology.py:34 | the term id of `[Term]`, `id: T` is T |
| GeneOntology.SetNode | GeneOntology.py:36-37 | setting a node attribute changes no node key and no other table |
| GeneOntology.Link | GeneOntology.py:47 | add_edge creates both ends and the pair, leaving the dictionaries of other pairs alone |
| GeneOntology.SetEdge | GeneOntology.py:48 | setting an edge attribute changes no node, no edge key and no other table |
| GeneOntology.Apply | GeneOntology.py:40-53 | a line's write only adds nodes |
| GeneOntology.NewTerm | GeneOntology.py:35-37 | the term is a node afterwards |
| GeneOntology.NewTermTags | GeneOntology.py:35-37 | the new term has id set to its id and type "GOTerm", and no other node changes |
| GeneOntology.StanzaTerm | GeneOntology.py:30-37 | an obsolete stanza writes nothing; otherwise the term has id and type "GOTerm" and every other node is unchanged |
| GeneOntology.ApplyNodes | GeneOntology.py:38-53 | a line only adds nodes, each with no attributes, and changes at most the term's name, namespace or def |
| GeneOntology.ClausesNodes | GeneOntology.py:38-53 | the same holds for the whole stanza body |
| GeneOntology.ClassifiedWrites | GeneOntology.py:40-53 | every classified line writes only name, namespace or def |
| GeneOntology.ClausesAltKept | GeneOntology.py:43 | alternate-id entries not named in the stanza keep their value, and every entry is old or named |
| GeneOntology.ClausesAltSet | GeneOntology.py:43 | when the body completes, every alt_id line maps its alternate id to the term |
| GeneOntology.StanzaAltIds | GeneOntology.py:43 | for a stanza: alt ids not named are kept, and every named one maps to the term |
| GeneOntology.ApplyAttrs | GeneOntology.py:45-53 | an edge line sets its pair's type and touches no other pair; other lines touch no edge |
| GeneOntology.ClausesEdgesKept | GeneOntology.py:45-53 | edges other than the term's edges to named targets keep their dictionaries, and every new edge runs from the term to a named target |
| GeneOntology.ClausesEdgesTyped | GeneOntology.py:45-53 | when the body completes, each named target has an edge from the term, typed by the last line naming it (a later part_of overwrites an is_a) |
| GeneOntology.StanzaEdges | GeneOntology.py:45-53 | the same for a whole stanza |
| GeneOntology.Columns | GeneOntology.py:97 | the definition of a record's columns: the line right-stripped and split on tabs |
| GeneOntology.Resolve | GeneOntology.py:100-102 | the definition of the term a record names: its id when that is a node, else the id its alternate id maps to, else the id unchanged |
| GeneOntology.Describe | GeneOntology.py:113-116 | the definition of the description writes: name, then desc and aliases, with IndexError at the first missing column |
| GeneOntology.Evidence | GeneOntology.py:121-122 | the definition of one more evidence code: the list is created when absent and the code appended; a value that is not a list raises AttributeError |
| GeneOntology.Annotation | GeneOntology.py:118-122 | the definition of the annotation edge: added when new, typed "annotation", and given one more evidence code |
| GeneOntology.Record | GeneOntology.py:97-124 | the definition of one record: IndexError under five columns, no write when the term does not resolve, and otherwise the product step, the description and the annotation edge, stopping at the first error |
| GeneOntology.Annotate | GeneOntology.py:95-97 | the definition of one GOA line: a line starting with "!" is skipped, any other is a record |
| GeneOntology.Product | GeneOntology.py:107-111 | the gene product is a node afterwards; old nodes and edges are unchanged, and names changes only for a new product |
| GeneOntology.ProductNew | GeneOntology.py:107-111 | a new gene product gets its id and type "GeneProduct" |
| GeneOntology.EvidenceKeeps | GeneOntology.py:121-122 | appending a code changes no other key of the edge dictionary |
| GeneOntology.DescribeWrites | GeneOntology.py:113-116 | name, desc and aliases are overwritten by every record, with IndexError when the record has fewer than 11 fields; nothing else changes |
| GeneOntology.AnnotationFrame | GeneOntology.py:118-120 | the annotation edge exists afterwards, typed "annotation"; no node and no other edge changes |
| GeneOntology.AnnotationCodes | GeneOntology.py:119-122 | the code is appended to this pair's evidence list, exactly when that is a list; other pairs' lists are unchanged |
| GeneOntology.RecordSkips | GeneOntology.py:96-105 | a record whose term does not resolve writes nothing (IndexError when it has fewer than five fields) |
| GeneOntology.RecordStages | GeneOntology.py:96-122 | a completed record has all eleven fields and a resolved term that is a node; its effect is the product step, then the description, then the annotation edge, in that order |
| GeneOntology.RecordDescribes | GeneOntology.py:113-116 | after a completed record the product carries that record's name, desc and aliases |
| GeneOntology.RecordProduct | GeneOntology.py:107-111 | type and the names entry are set only when the product is first created; an existing product keeps its other attributes and names is unchanged |
| GeneOntology.RecordNodes | GeneOntology.py:105-116 | a completed record adds only the product node and changes no other node and no alt_id entry |
| GeneOntology.RecordEdges | GeneOntology.py:118-120 | a completed record adds only the product-to-term pair, typed "annotation"; other pairs are unchanged |
| GeneOntology.RecordCodes | GeneOntology.py:119-122 | a record appends its evidence code to its own pair's list, and to no other list |
| GeneOntology.AnnotateCodes | GeneOntology.py:95-124 | the same for a raw line, comment lines appending nothing |
| GeneOntology.AnnotateAll | GeneOntology.py:94-125 | the definition of load_GOA's loop over in-memory lines: each line in turn, stopping at the first exception with the writes made so far |
| GeneOntology.EvidenceAccumulates | GeneOntology.py:94-125 | over a run of records, each pair's evidence list grows by the codes of its records, in record order, duplicates kept |
| GeneOntology.AccumulateStep | GeneOntology.py:94-125 | one record of the run: its code, then the rest |
| GeneOntology.Ontology.constructor | GeneOntology.py:55-56 | the directed, unweighted empty graph with an empty alt_id table |
| GeneOntology.Ontology.BeginAnnotations | GeneOntology.py:91-92 | load_GOA starts with an empty names table |
| GeneOntology.Ontology.ParseTerm | GeneOntology.py:28-53 | parseTerm does to the tables exactly what Stanza describes, including the IndexError of a stanza with fewer than two lines; an obsolete stanza writes nothing |
| GeneOntology.Ontology.IsObsolete | GeneOntology.py:30-31 | the obsolete scan is true exactly when a line starts with "is_obsolete: true" |
| GeneOntology.Ontology.AddTerm | GeneOntology.py:35-37 | the term node is created or found and tagged with id and type |
| GeneOntology.Ontology.ApplyLines | GeneOntology.py:38-53 | the loop over the body does what Clauses describes, stopping at the first ValueError |
| GeneOntology.Ontology.ApplyLine | GeneOntology.py:39-53 | one body line: a ValueError writes nothing, otherwise the line's write is made |
| GeneOntology.Ontology.AddIsA | GeneOntology.py:45-48 | an is_a line adds and types its edge, or fails with no write |
| GeneOntology.Ontology.AddPartOf | GeneOntology.py:49-53 | a part_of line adds and types its edge, or fails with no write |
| GeneOntology.Ontology.AddTyped | GeneOntology.py:47-48 | add_edge followed by setting the edge's type |
| GeneOntology.Ontology.AddAnnotation | GeneOntology.py:96-124 | one GOA line does exactly what Annotate describes, and the edge count stays the number of stored pairs, so a pair annotated again is counted once |
| GeneOntology.Ontology.AddRecord | GeneOntology.py:97-122 | one record does exactly what Record describes |
| GeneOntology.Ontology.FindProduct | GeneOntology.py:107-111 | the product is created and tagged, or found, as Product describes |
| GeneOntology.Ontology.DescribeProduct | GeneOntology.py:113-116 | name, desc and aliases are written as Describe describes |
| GeneOntology.Ontology.AddEvidence | GeneOntology.py:119-122 | the annotation edge is added, typed and given the code, as Annotation describes |
| GeneOntology.Ontology.AppendEvidence | GeneOntology.py:121-122 | the code is appended to the edge's evidence list, which is created when missing; AttributeError with no write when the entry is not a list |

## Left out

- File handling is not modelled. This covers `open`/`readline`, the header skip, the blank-line buffering and the `f.tell()` loop of `load_OBO`. It also covers the readline loops of `load_GOA`, `load_SIF` and `load_tree_csv`. `load_OBO`, `load_SIF` and `load_tree_csv` are modelled one stanza or row at a time. `load_GOA` is modelled one record at a time and, through `AnnotateAll`, over a sequence of in-memory lines.
- `load_ncbi_node_names` is not modelled. It is regex-driven file parsing with memory instrumentation.
- The `__main__` block of `Tree.py`, `Analysis.py` and `Execution_time.py` are not modelled. They read files, print, and time with floating point.
- BFS, DFS, `topological_sort`, `Bellman_Ford`, `is_acyclic`, `load_TAB`, `add_all_descendants`, `max_depth`, `GeneProducts`, `GOTerms`, `motif`, `height` and `nb_leaves` are not modelled. They are called but not defined in the files modelled here.
- Printed warnings are no-ops: the replaced-parent and double-parent messages, the missing-label message, and the GOA warnings.
- Python object identity is modelled as an invariant, not as aliasing. Undirected sharing is the invariant that both directions hold equal dictionaries, with every write to one written to both. A dictionary returned by `add_node` or `add_edge` is modelled by writing through the table (`SetNodeAttr`, `SetEdgeAttr`).
- `deepcopy` in `prune` is a value copy. Values are immutable in the model, so the copy cannot be shared.
- The `weighted` flag is only copied by `prune`, and `weight_attribute` is only stored. No behaviour depends on either.
- Node ids are strings only. `add_node` also accepts integers, but every modelled loader makes its ids by splitting or slicing strings.
- Attribute values are `None`, strings, integers and lists of strings only. `str()` of a list is written for items that need no escaping. Floats and other Python objects are not modelled.
- Trees.Tree.AsNewick: requires a ranking of the nodes reachable from the start node, in which every child is strictly below its parent. Nodes the walk never reaches need no rank. A start node that reaches a cycle has no ranking; Python recurses there until it raises `RecursionError`, and that case is not modelled.
- Trees.Tree.LoadRow: takes a one-character separator. Python's `sep` is a string, and a multi-character separator is not modelled.
- Trees.Tree.Prune: the insertion order of the new tree's nodes is not stated. An edge to a kept node not yet processed adds that node ahead of its turn. In an undirected tree the order of the target lists is not stated either, since each edge is appended at both ends. `update_root` reads the node order and `as_newick` the target-list order, but the program never calls `update_root` on a pruned tree. It calls `as_newick` only on a pruned tree built from a directed one (Tree.py:209-212), whose target lists `Prune` states exactly.
- GraphStore.AddSifRow: the insertion order of the nodes and of the target lists is not stated; the contract gives the node and pair sets. Nothing in the SIF loader reads either order.
- GeneOntology.Ontology.ParseTerm: the `State` snapshot holds no insertion order or target lists, so neither order is stated. The same holds for `AddAnnotation` and the other Ontology methods. Nothing in `load_OBO` or `load_GOA` reads either order.
- Trees.Tree.Prune: the node ids and the parents read during the walk are strings. A numeric parent ends the walk with `KeyError` and a list parent with `TypeError`, as Python would; other Python types are not modelled.
- GeneOntology.Ontology.ParseTerm: models `g['alt_id']` as always present. `load_OBO` creates it before the first stanza.
- GeneOntology.Record: `cols[1]` and `cols[4]` are read one after the other in Python. A record with fewer than five fields raises `IndexError` before any write in both readings, so the model tests the two at once.
