/**
 * The export of an OBO header: one `Header` node, then one node per subset
 * definition, synonym-type definition and idspace, each linked from the
 * header node by an edge of its own label. A definition that does not parse
 * stops the export before its node is added.
 */
module HeaderExport {
  import opened Wrappers
  import opened OboGraph
  import opened OboText
  import opened HeaderDefinitions
  import opened MapSums

  /** The three repeated header clauses that become nodes. */
  datatype DefKind = SubsetDef | SynonymTypeDef | IdspaceDef

  const HEADER_LABEL := "Header"

  /** The label of the node a definition becomes. */
  function DefLabel(k: DefKind): string {
    match k
    case SubsetDef => "Subset"
    case SynonymTypeDef => "SynonymType"
    case IdspaceDef => "Idspace"
  }

  /** The label of the edge from the header node to a definition node. */
  function DefRelation(k: DefKind): string {
    match k
    case SubsetDef => "HAS_SUBSET"
    case SynonymTypeDef => "HAS_SYNONYM_TYPE"
    case IdspaceDef => "HAS_IDSPACE"
  }

  function ParseDef(k: DefKind, s: string): Option<Props> {
    match k
    case SubsetDef => ParseSubsetDef(s)
    case SynonymTypeDef => ParseSynonymTypeDef(s)
    case IdspaceDef => ParseIdspace(s)
  }

  /** Every parsed property becomes a text property of the node. */
  function TextProps(p: Props): map<string, Value> {
    map key | key in p :: Text(p[key])
  }

  /** The node a definition text becomes, or `None` when the text does not parse. */
  function DefNode(k: DefKind, s: string): Option<Node> {
    var p := ParseDef(k, s);
    if p.None? then None else Some(Node(DefLabel(k), TextProps(p.value)))
  }

  /** Every definition node carries the id its text starts with, so records can reference it by that id. */
  lemma DefNodeId(k: DefKind, s: string)
    requires DefNode(k, s).Some?
    ensures DefNode(k, s).value.nodeLabel == DefLabel(k)
    ensures "id" in ParseDef(k, s).value && IdOf(DefNode(k, s).value) == Some(ParseDef(k, s).value["id"])
  {
  }

  /** A parsed definition becomes a node with its label and the parsed properties as text. */
  lemma DefNodeOf(k: DefKind, s: string, p: Props)
    requires ParseDef(k, s) == Some(p)
    ensures DefNode(k, s) == Some(Node(DefLabel(k), TextProps(p)))
  {
  }

  lemma TextProps2(a: string, b: string, x: string, y: string)
    ensures TextProps(map[a := x, b := y]) == map[a := Text(x), b := Text(y)]
  {
  }

  lemma TextProps3(a: string, b: string, c: string, x: string, y: string, z: string)
    ensures TextProps(map[a := x, b := y, c := z]) == map[a := Text(x), b := Text(y), c := Text(z)]
  {
  }

  /** A subset definition written as `id "name"` becomes a `Subset` node with that id and name. */
  lemma SubsetDefNode(id: string, name: string)
    requires IsToken(id) && Unquoted(name)
    ensures DefNode(SubsetDef, SubsetDefText(id, name)) == Some(Node("Subset", map["id" := Text(id), "name" := Text(name)]))
  {
    SubsetDefRoundTrip(id, name);
    DefNodeOf(SubsetDef, SubsetDefText(id, name), map["id" := id, "name" := name]);
    TextProps2("id", "name", id, name);
  }

  /** A synonym-type definition with a scope becomes a `SynonymType` node with its id, name and scope. */
  lemma ScopedSynonymTypeDefNode(id: string, name: string, scope: string)
    requires IsToken(id) && Unquoted(name) && scope in SCOPES
    ensures DefNode(SynonymTypeDef, SynonymTypeDefText(id, name, Some(scope))) ==
      Some(Node("SynonymType", map["id" := Text(id), "name" := Text(name), "scope" := Text(scope)]))
  {
    var p := map["id" := id, "name" := name, "scope" := scope];
    SynonymTypeDefRoundTrip(id, name, Some(scope));
    assert SynonymTypeProps(id, name, Some(scope)) == p;
    DefNodeOf(SynonymTypeDef, SynonymTypeDefText(id, name, Some(scope)), p);
    TextProps3("id", "name", "scope", id, name, scope);
  }

  /** A synonym-type definition without a scope becomes a `SynonymType` node with its id and name. */
  lemma UnscopedSynonymTypeDefNode(id: string, name: string)
    requires IsToken(id) && Unquoted(name)
    ensures DefNode(SynonymTypeDef, SynonymTypeDefText(id, name, None)) ==
      Some(Node("SynonymType", map["id" := Text(id), "name" := Text(name)]))
  {
    var p := map["id" := id, "name" := name];
    SynonymTypeDefRoundTrip(id, name, None);
    assert SynonymTypeProps(id, name, None) == p;
    DefNodeOf(SynonymTypeDef, SynonymTypeDefText(id, name, None), p);
    TextProps2("id", "name", id, name);
  }

  /** An idspace with a name becomes an `Idspace` node with its id, iri and name. */
  lemma NamedIdspaceDefNode(id: string, iri: string, name: string)
    requires IsToken(id) && IsToken(iri) && Unquoted(name)
    ensures DefNode(IdspaceDef, IdspaceText(id, iri, Some(name))) ==
      Some(Node("Idspace", map["id" := Text(id), "iri" := Text(iri), "name" := Text(name)]))
  {
    var p := map["id" := id, "iri" := iri, "name" := name];
    IdspaceRoundTrip(id, iri, Some(name));
    DefNodeOf(IdspaceDef, IdspaceText(id, iri, Some(name)), p);
    TextProps3("id", "iri", "name", id, iri, name);
  }

  /** An idspace without a name becomes an `Idspace` node with its id and iri. */
  lemma UnnamedIdspaceDefNode(id: string, iri: string)
    requires IsToken(id) && IsToken(iri)
    ensures DefNode(IdspaceDef, IdspaceText(id, iri, None)) ==
      Some(Node("Idspace", map["id" := Text(id), "iri" := Text(iri)]))
  {
    var p := map["id" := id, "iri" := iri];
    IdspaceRoundTrip(id, iri, None);
    DefNodeOf(IdspaceDef, IdspaceText(id, iri, None), p);
    TextProps2("id", "iri", id, iri);
  }

  /** An absent definition array is handled as an empty one. */
  function ArrayDefs(defs: Option<seq<string>>): seq<string> {
    if defs.None? then [] else defs.value
  }

  predicate AllParse(k: DefKind, defs: seq<string>) {
    forall i :: 0 <= i < |defs| ==> DefNode(k, defs[i]).Some?
  }

  function DefNodes(k: DefKind, defs: seq<string>): (r: seq<Node>)
    requires AllParse(k, defs)
    ensures |r| == |defs|
  {
    seq(|defs|, i requires 0 <= i < |defs| => DefNode(k, defs[i]).value)
  }

  /** The edges from the header node to `n` definition nodes placed from position `base` on. */
  function DefEdges(header: nat, base: nat, k: DefKind, n: nat): (r: seq<Edge>)
    ensures |r| == n
  {
    seq(n, i requires 0 <= i < n => Edge(header, base + i, DefRelation(k), None))
  }

  lemma DefNodesSnoc(k: DefKind, defs: seq<string>, d: string)
    requires AllParse(k, defs) && DefNode(k, d).Some?
    ensures AllParse(k, defs + [d])
    ensures DefNodes(k, defs + [d]) == DefNodes(k, defs) + [DefNode(k, d).value]
  {
    var all := defs + [d];
    assert forall i :: 0 <= i < |defs| ==> all[i] == defs[i];
    assert all[|defs|] == d;
  }

  lemma DefEdgesSnoc(header: nat, base: nat, k: DefKind, n: nat)
    ensures DefEdges(header, base, k, n + 1) == DefEdges(header, base, k, n) + [Edge(header, base + n, DefRelation(k), None)]
  {
  }

  /** One definition: its node is added and linked from the header node; a text that does not parse changes nothing. */
  method ExportDefinition(graph: Graph, headerNode: nat, k: DefKind, def: string) returns (ok: bool)
    modifies graph
    ensures ok <==> DefNode(k, def).Some?
    ensures !ok ==> graph.nodes == old(graph.nodes) && graph.edges == old(graph.edges)
    ensures ok ==> graph.nodes == old(graph.nodes) + [DefNode(k, def).value]
    ensures ok ==> graph.edges == old(graph.edges) + [Edge(headerNode, |old(graph.nodes)|, DefRelation(k), None)]
  {
    var p := ParseDef(k, def);
    if p.None? {
      return false;
    }
    var node := graph.AddNode(DefLabel(k), TextProps(p.value));
    graph.AddEdge(headerNode, node, DefRelation(k), None);
    return true;
  }

  /**
   * The definitions of one kind, in order: an absent array adds nothing, and
   * the export stops at the first text that does not parse.
   */
  method ExportDefinitions(graph: Graph, headerNode: nat, k: DefKind, defs: Option<seq<string>>) returns (ok: bool)
    modifies graph
    ensures ok <==> AllParse(k, ArrayDefs(defs))
    ensures ok ==> graph.nodes == old(graph.nodes) + DefNodes(k, ArrayDefs(defs))
    ensures ok ==> graph.edges == old(graph.edges) + DefEdges(headerNode, |old(graph.nodes)|, k, |ArrayDefs(defs)|)
  {
    var texts := ArrayDefs(defs);
    for i := 0 to |texts|
      invariant DefsExported(headerNode, k, texts, i, old(graph.nodes), old(graph.edges), graph.nodes, graph.edges)
    {
      ghost var nodes, edges := graph.nodes, graph.edges;
      ok := ExportDefinition(graph, headerNode, k, texts[i]);
      if !ok {
        return;
      }
      DefsExportedStep(headerNode, k, texts, i, old(graph.nodes), old(graph.edges), nodes, edges);
    }
    assert texts[..|texts|] == texts;
    ok := true;
  }

  /** The first `i` texts parsed and their nodes and edges follow the graph's state before the export. */
  ghost predicate DefsExported(headerNode: nat, k: DefKind, texts: seq<string>, i: nat,
                               nodes0: seq<Node>, edges0: seq<Edge>, nodes: seq<Node>, edges: seq<Edge>)
    requires i <= |texts|
  {
    AllParse(k, texts[..i]) && nodes == nodes0 + DefNodes(k, texts[..i]) &&
    edges == edges0 + DefEdges(headerNode, |nodes0|, k, i)
  }

  lemma DefsExportedStep(headerNode: nat, k: DefKind, texts: seq<string>, i: nat,
                         nodes0: seq<Node>, edges0: seq<Edge>, nodes: seq<Node>, edges: seq<Edge>)
    requires i < |texts| && DefNode(k, texts[i]).Some?
    requires DefsExported(headerNode, k, texts, i, nodes0, edges0, nodes, edges)
    ensures |nodes| == |nodes0| + i
    ensures DefsExported(headerNode, k, texts, i + 1, nodes0, edges0, nodes + [DefNode(k, texts[i]).value],
                         edges + [Edge(headerNode, |nodes|, DefRelation(k), None)])
  {
    var prefix, d := texts[..i], texts[i];
    assert texts[..i + 1] == prefix + [d];
    DefNodesSnoc(k, prefix, d);
    DefEdgesSnoc(headerNode, |nodes0|, k, i);
    AppendAssoc(nodes0, DefNodes(k, prefix), [DefNode(k, d).value]);
    AppendAssoc(edges0, DefEdges(headerNode, |nodes0|, k, i), [Edge(headerNode, |nodes|, DefRelation(k), None)]);
  }

  /**
   * A header as the reader delivers it: its scalar properties, already
   * collected, and its three possibly absent definition arrays.
   */
  datatype Header = Header(properties: map<string, Value>, subsetDefs: Option<seq<string>>,
                           synonymTypeDefs: Option<seq<string>>, idspaces: Option<seq<string>>)

  predicate HeaderOk(h: Header) {
    AllParse(SubsetDef, ArrayDefs(h.subsetDefs)) && AllParse(SynonymTypeDef, ArrayDefs(h.synonymTypeDefs)) &&
    AllParse(IdspaceDef, ArrayDefs(h.idspaces))
  }

  /** The header node followed by the subset, synonym-type and idspace nodes. */
  function HeaderNodes(h: Header): seq<Node>
    requires HeaderOk(h)
  {
    [Node(HEADER_LABEL, h.properties)] + DefNodes(SubsetDef, ArrayDefs(h.subsetDefs)) +
    DefNodes(SynonymTypeDef, ArrayDefs(h.synonymTypeDefs)) + DefNodes(IdspaceDef, ArrayDefs(h.idspaces))
  }

  /** The edges from the header node, placed at `base`, to each definition node after it. */
  function HeaderEdges(h: Header, base: nat): seq<Edge> {
    var n1 := |ArrayDefs(h.subsetDefs)|;
    var n2 := |ArrayDefs(h.synonymTypeDefs)|;
    DefEdges(base, base + 1, SubsetDef, n1) + DefEdges(base, base + 1 + n1, SynonymTypeDef, n2) +
    DefEdges(base, base + 1 + n1 + n2, IdspaceDef, |ArrayDefs(h.idspaces)|)
  }

  /** Whether an edge label belongs to a node label as the header export pairs them. */
  predicate DefLink(relation: string, nodeLabel: string) {
    (relation == DefRelation(SubsetDef) && nodeLabel == DefLabel(SubsetDef)) ||
    (relation == DefRelation(SynonymTypeDef) && nodeLabel == DefLabel(SynonymTypeDef)) ||
    (relation == DefRelation(IdspaceDef) && nodeLabel == DefLabel(IdspaceDef))
  }

  /**
   * The header's edges form a star: edge `i` goes from the header node to
   * the `i`-th definition node after it, under the label that belongs to
   * that node's label, and every definition node has exactly one.
   */
  lemma {:induction false} HeaderStar(h: Header, base: nat)
    requires HeaderOk(h)
    ensures |HeaderEdges(h, base)| + 1 == |HeaderNodes(h)|
    ensures HeaderNodes(h)[0] == Node(HEADER_LABEL, h.properties)
    ensures forall i :: 0 <= i < |HeaderEdges(h, base)| ==>
      HeaderEdges(h, base)[i].source == base && HeaderEdges(h, base)[i].target == base + i + 1 &&
      HeaderEdges(h, base)[i].prop.None? && DefLink(HeaderEdges(h, base)[i].relation, HeaderNodes(h)[i + 1].nodeLabel)
  {
    forall i | 0 <= i < |HeaderEdges(h, base)|
      ensures HeaderEdges(h, base)[i].source == base && HeaderEdges(h, base)[i].target == base + i + 1
      ensures HeaderEdges(h, base)[i].prop.None? && DefLink(HeaderEdges(h, base)[i].relation, HeaderNodes(h)[i + 1].nodeLabel)
    {
      HeaderStarAt(h, base, i);
    }
  }

  /** The `i`-th edge of the header and the node it points to. */
  lemma HeaderStarAt(h: Header, base: nat, i: nat)
    requires HeaderOk(h) && i < |HeaderEdges(h, base)|
    ensures |HeaderEdges(h, base)| + 1 == |HeaderNodes(h)|
    ensures HeaderEdges(h, base)[i].source == base && HeaderEdges(h, base)[i].target == base + i + 1
    ensures HeaderEdges(h, base)[i].prop.None? && DefLink(HeaderEdges(h, base)[i].relation, HeaderNodes(h)[i + 1].nodeLabel)
  {
    var s1 := DefNodes(SubsetDef, ArrayDefs(h.subsetDefs));
    var s2 := DefNodes(SynonymTypeDef, ArrayDefs(h.synonymTypeDefs));
    var s3 := DefNodes(IdspaceDef, ArrayDefs(h.idspaces));
    var n1, n2 := |s1|, |s2|;
    var nodes := HeaderNodes(h);
    assert nodes == [Node(HEADER_LABEL, h.properties)] + s1 + s2 + s3;
    if i < n1 {
      assert nodes[i + 1] == s1[i];
      DefNodeId(SubsetDef, ArrayDefs(h.subsetDefs)[i]);
    } else if i < n1 + n2 {
      assert nodes[i + 1] == s2[i - n1];
      DefNodeId(SynonymTypeDef, ArrayDefs(h.synonymTypeDefs)[i - n1]);
    } else {
      assert nodes[i + 1] == s3[i - n1 - n2];
      DefNodeId(IdspaceDef, ArrayDefs(h.idspaces)[i - n1 - n2]);
    }
  }

  /**
   * `exportHeader`: the header node, then the subset definitions, the
   * synonym-type definitions and the idspaces, in that order, each linked
   * from the header node. It fails when one definition does not parse.
   */
  method ExportHeader(graph: Graph, h: Header) returns (ok: bool)
    modifies graph
    ensures ok <==> HeaderOk(h)
    ensures ok ==> graph.nodes == old(graph.nodes) + HeaderNodes(h)
    ensures ok ==> graph.edges == old(graph.edges) + HeaderEdges(h, |old(graph.nodes)|)
  {
    var node := graph.AddNode(HEADER_LABEL, h.properties);
    ghost var nodes0 := graph.nodes;
    ok := ExportDefinitions(graph, node, SubsetDef, h.subsetDefs);
    if !ok {
      return;
    }
    ghost var nodes1, edges1 := graph.nodes, graph.edges;
    ok := ExportDefinitions(graph, node, SynonymTypeDef, h.synonymTypeDefs);
    if !ok {
      return;
    }
    ghost var nodes2, edges2 := graph.nodes, graph.edges;
    ok := ExportDefinitions(graph, node, IdspaceDef, h.idspaces);
    if ok {
      HeaderLayout(h, old(graph.nodes), old(graph.edges), nodes0, nodes1, edges1, nodes2, edges2, graph.nodes, graph.edges);
    }
  }

  /** The three runs of definitions, one after the other, lay out the header's nodes and edges. */
  lemma HeaderLayout(h: Header, nodes: seq<Node>, edges: seq<Edge>, nodes0: seq<Node>,
                     nodes1: seq<Node>, edges1: seq<Edge>, nodes2: seq<Node>, edges2: seq<Edge>,
                     nodes3: seq<Node>, edges3: seq<Edge>)
    requires HeaderOk(h)
    requires nodes0 == nodes + [Node(HEADER_LABEL, h.properties)]
    requires nodes1 == nodes0 + DefNodes(SubsetDef, ArrayDefs(h.subsetDefs))
    requires edges1 == edges + DefEdges(|nodes|, |nodes0|, SubsetDef, |ArrayDefs(h.subsetDefs)|)
    requires nodes2 == nodes1 + DefNodes(SynonymTypeDef, ArrayDefs(h.synonymTypeDefs))
    requires edges2 == edges1 + DefEdges(|nodes|, |nodes1|, SynonymTypeDef, |ArrayDefs(h.synonymTypeDefs)|)
    requires nodes3 == nodes2 + DefNodes(IdspaceDef, ArrayDefs(h.idspaces))
    requires edges3 == edges2 + DefEdges(|nodes|, |nodes2|, IdspaceDef, |ArrayDefs(h.idspaces)|)
    ensures nodes3 == nodes + HeaderNodes(h)
    ensures edges3 == edges + HeaderEdges(h, |nodes|)
  {
    var d1 := DefNodes(SubsetDef, ArrayDefs(h.subsetDefs));
    var d2 := DefNodes(SynonymTypeDef, ArrayDefs(h.synonymTypeDefs));
    var d3 := DefNodes(IdspaceDef, ArrayDefs(h.idspaces));
    var e1 := DefEdges(|nodes|, |nodes0|, SubsetDef, |ArrayDefs(h.subsetDefs)|);
    var e2 := DefEdges(|nodes|, |nodes1|, SynonymTypeDef, |ArrayDefs(h.synonymTypeDefs)|);
    var e3 := DefEdges(|nodes|, |nodes2|, IdspaceDef, |ArrayDefs(h.idspaces)|);
    var a1 := [Node(HEADER_LABEL, h.properties)] + d1;
    AppendAssoc(nodes, [Node(HEADER_LABEL, h.properties)], d1);
    AppendAssoc(nodes, a1, d2);
    AppendAssoc(nodes, a1 + d2, d3);
    AppendAssoc(edges, e1, e2);
    AppendAssoc(edges, e1 + e2, e3);
    assert |nodes0| == |nodes| + 1;
    assert |nodes1| == |nodes| + 1 + |ArrayDefs(h.subsetDefs)|;
    assert |nodes2| == |nodes| + 1 + |ArrayDefs(h.subsetDefs)| + |ArrayDefs(h.synonymTypeDefs)|;
  }
}
