/**
 * The graph store the ontology exporter writes into, reduced to what the
 * exporter uses: nodes with a label and properties, appended edges, and the
 * lookup of a node by its `id` property. A node's graph id is its position.
 */
module OboGraph {
  import opened Wrappers

  /** A property value: text, or a possibly absent flag. */
  datatype Value = Text(text: string) | Flag(flag: Option<bool>)

  datatype Node = Node(nodeLabel: string, props: map<string, Value>)

  /** An edge between two node positions, with at most one property. */
  datatype Edge = Edge(source: nat, target: nat, relation: string, prop: Option<(string, string)>)

  /** The node's `id` property, when it has a textual one. */
  function IdOf(n: Node): Option<string> {
    if "id" in n.props && n.props["id"].Text? then Some(n.props["id"].text) else None
  }

  /** The first node whose `id` property is `id`. */
  function FirstWithId(nodes: seq<Node>, id: string): (r: Option<nat>)
    ensures r.Some? ==> r.value < |nodes| && IdOf(nodes[r.value]) == Some(id)
    ensures r.Some? ==> forall k :: 0 <= k < r.value ==> IdOf(nodes[k]) != Some(id)
    ensures r.None? <==> forall k :: 0 <= k < |nodes| ==> IdOf(nodes[k]) != Some(id)
  {
    if nodes == [] then None
    else if IdOf(nodes[0]) == Some(id) then Some(0)
    else
      var r := FirstWithId(nodes[1..], id);
      assert forall k :: 1 <= k < |nodes| ==> nodes[k] == nodes[1..][k - 1];
      if r.Some? then Some(r.value + 1) else None
  }

  /** Some node carries the id. */
  predicate Present(nodes: seq<Node>, id: string) {
    FirstWithId(nodes, id).Some?
  }

  /** Appending a node leaves every earlier lookup as it was; an id found only in the new node is found there. */
  lemma FirstWithIdAppend(nodes: seq<Node>, n: Node, id: string)
    ensures FirstWithId(nodes + [n], id) ==
      if Present(nodes, id) then FirstWithId(nodes, id)
      else if IdOf(n) == Some(id) then Some(|nodes|)
      else None
  {
    var all := nodes + [n];
    assert forall k :: 0 <= k < |nodes| ==> all[k] == nodes[k];
    assert all[|nodes|] == n;
  }

  class Graph {
    var nodes: seq<Node>
    var edges: seq<Edge>

    /** `findNode("id", id)`: scans the nodes for the first one with that id. */
    method FindNode(id: string) returns (r: Option<nat>)
      ensures r == FirstWithId(nodes, id)
    {
      var i := 0;
      while i < |nodes|
        invariant i <= |nodes|
        invariant forall k :: 0 <= k < i ==> IdOf(nodes[k]) != Some(id)
      {
        if IdOf(nodes[i]) == Some(id) {
          return Some(i);
        }
        i := i + 1;
      }
      return None;
    }

    method AddNode(nodeLabel: string, props: map<string, Value>) returns (n: nat)
      modifies this
      ensures n == |old(nodes)| && nodes == old(nodes) + [Node(nodeLabel, props)]
      ensures edges == old(edges)
    {
      n := |nodes|;
      nodes := nodes + [Node(nodeLabel, props)];
    }

    method AddEdge(source: nat, target: nat, relation: string, prop: Option<(string, string)>)
      modifies this
      ensures edges == old(edges) + [Edge(source, target, relation, prop)]
      ensures nodes == old(nodes)
    {
      edges := edges + [Edge(source, target, relation, prop)];
    }
  }
}
