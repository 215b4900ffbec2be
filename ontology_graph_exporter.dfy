/**
 * The ontology exporter: each record of an OBO file becomes a node, and its
 * references become edges, either at once (the target already exists) or
 * through the relation cache once the target's record arrives. The header's
 * subset, synonym-type and idspace definitions become nodes linked from the
 * header node.
 *
 * The main result (`ReferencesResolveOnce`, applied in `ExportGraph`): after
 * all records, every reference whose target exists yields exactly one edge,
 * wherever the target appeared, and every other reference is still cached.
 */
module OntologyGraphExporter {
  import opened Wrappers
  import opened OboText
  import opened OboGraph
  import opened RelationCaching
  import opened OboReferences
  import opened RelationResolution
  import opened HeaderDefinitions
  import opened MapSums
  import opened HeaderExport

  /** The three kinds of OBO stanza. */
  datatype Kind = Term | Typedef | Instance

  /** The clauses whose references become edges, besides the typed relationships. */
  datatype Category =
    | IsA | EquivalentTo | DisjointFrom | UnionOf | Consider | ReplacedBy
    | IntersectionOf | HoldsOverChain | EquivalentToChain | Domain | Range
    | InverseOf | TransitiveOver | DisjointOver | InstanceOf

  /** The edge label of a category; the instance-of label is spelt as the exporter spells it. */
  function Relation(c: Category): (r: string)
    ensures r != [] && r != RELATIONSHIP_LABEL
  {
    match c
    case IsA => "IS_A"
    case EquivalentTo => "EQUIVALENT_TO"
    case DisjointFrom => "DISJOINT_FROM"
    case UnionOf => "UNION_OF"
    case Consider => "CONSIDER"
    case ReplacedBy => "REPLACED_BY"
    case IntersectionOf => "INTERSECTION_OF"
    case HoldsOverChain => "HOLDS_OVER_CHAIN"
    case EquivalentToChain => "EQUIVALENT_TO_CHAIN"
    case Domain => "HAS_DOMAIN"
    case Range => "HAS_RANGE"
    case InverseOf => "INVERSE_OF"
    case TransitiveOver => "TRANSITIVE_OVER"
    case DisjointOver => "DISJOINT_OVER"
    case InstanceOf => "INSTANCE_IF"
  }

  /** The clauses that hold one value rather than a list; the exporter wraps the value in a one-element array. */
  predicate Single(c: Category) {
    c == Domain || c == Range || c == InstanceOf
  }

  /** The categories each kind of record resolves after its typed relationships, in the order the exporter handles them. */
  function Categories(kind: Kind): seq<Category> {
    match kind
    case Term => [IsA, EquivalentTo, DisjointFrom, UnionOf, Consider, ReplacedBy]
    case Typedef => [IntersectionOf, HoldsOverChain, EquivalentToChain, IsA, EquivalentTo, DisjointFrom, UnionOf,
                     Domain, Range, Consider, InverseOf, TransitiveOver, DisjointOver, ReplacedBy]
    case Instance => [Consider, InstanceOf, ReplacedBy]
  }

  /**
   * Each kind handles a category at most once and ends with the replaced-by
   * references; only typedefs have a domain and a range, only instances an
   * instance-of reference, and every kind but instances has is-a references.
   */
  lemma CategoriesShape(kind: Kind)
    ensures var cs := Categories(kind);
      && (forall i, j :: 0 <= i < j < |cs| ==> cs[i] != cs[j])
      && |cs| > 0 && cs[|cs| - 1] == ReplacedBy && Consider in cs
      && (IsA in cs <==> kind != Instance)
      && (Domain in cs <==> kind == Typedef) && (Range in cs <==> kind == Typedef)
      && (InstanceOf in cs <==> kind == Instance)
  {
    var cs := Categories(kind);
    match kind {
      case Term =>
        assert forall k :: 0 <= k < |cs| ==> cs[k] !in {InstanceOf, Domain, Range};
      case Typedef =>
        assert forall k :: 0 <= k < |cs| ==> cs[k] != InstanceOf;
      case Instance =>
        assert forall k :: 0 <= k < |cs| ==> cs[k] !in {IsA, Domain, Range};
    }
  }

  /**
   * A record as the reader delivers it: its kind and type label, its id, the
   * possibly absent obsolete and anonymous flags, its typed relationships,
   * its list clauses (a missing tag is an absent array) and its single-valued
   * clauses (a missing tag is an absent value).
   */
  datatype Entry = Entry(kind: Kind, typeLabel: string, id: string, obsolete: Option<bool>, anonymous: Option<bool>,
                         relationships: Option<seq<Option<string>>>,
                         clauses: map<Category, seq<Option<string>>>,
                         values: map<Category, string>)

  /** The reference array handled for a category: a single value is wrapped in a one-element array, which may hold an absent value. */
  function RefsFor(e: Entry, c: Category): (r: Option<seq<Option<string>>>)
    ensures Single(c) ==> r.Some? && |r.value| == 1 && (r.value[0].Some? <==> c in e.values)
    ensures Single(c) && c in e.values ==> r.value[0].value == e.values[c]
    ensures !Single(c) ==> (r.Some? <==> c in e.clauses)
    ensures !Single(c) && r.Some? ==> r.value == e.clauses[c]
  {
    if Single(c) then Some([if c in e.values then Some(e.values[c]) else None])
    else if c in e.clauses then Some(e.clauses[c])
    else None
  }

  /** The properties every record node has: its id, and its obsolete and anonymous flags even when absent. */
  function EntryProps(e: Entry): (p: map<string, Value>)
    ensures p.Keys == {"id", "obsolete", "anonymous"}
    ensures IdOf(Node(e.typeLabel, p)) == Some(e.id)
  {
    map["id" := Text(e.id), "obsolete" := Flag(e.obsolete), "anonymous" := Flag(e.anonymous)]
  }

  function EntryNode(e: Entry): Node {
    Node(e.typeLabel, EntryProps(e))
  }

  /** One handler call of a record: the edge label, the form of its references, and its array. */
  datatype Group = Group(relation: string, typed: bool, refs: Option<seq<Option<string>>>)

  predicate GroupOk(g: Group) {
    ArrayLinks(g.refs, g.typed).Some?
  }

  /** The handler calls of a record in order: its typed relationships first, then its categories. */
  function Groups(e: Entry): seq<Group> {
    [Group(RELATIONSHIP_LABEL, true, e.relationships)] + CategoryGroups(e, Categories(e.kind))
  }

  /** The handler calls for a list of categories, one per category. */
  function CategoryGroups(e: Entry, cats: seq<Category>): seq<Group> {
    seq(|cats|, k requires 0 <= k < |cats| => Group(Relation(cats[k]), false, RefsFor(e, cats[k])))
  }

  /** No two categories share an edge label. */
  lemma RelationsDistinct(c: Category, d: Category)
    ensures Relation(c) == Relation(d) ==> c == d
  {
    if c != d {
      assert Relation(c)[..3] != Relation(d)[..3] || Relation(c)[3..] != Relation(d)[3..];
    }
  }

  /** The handler calls line up with the categories: the typed relationships come first, category `k` at position `k + 1`. */
  lemma GroupsShape(e: Entry)
    ensures |Groups(e)| == |Categories(e.kind)| + 1
    ensures Groups(e)[0] == Group(RELATIONSHIP_LABEL, true, e.relationships)
    ensures forall k :: 0 <= k < |Categories(e.kind)| ==>
      Groups(e)[k + 1] == Group(Relation(Categories(e.kind)[k]), false, RefsFor(e, Categories(e.kind)[k]))
  {
    var cats := Categories(e.kind);
    var tail := CategoryGroups(e, cats);
    assert Groups(e) == [Group(RELATIONSHIP_LABEL, true, e.relationships)] + tail;
    forall k | 0 <= k < |cats| ensures Groups(e)[k + 1] == Group(Relation(cats[k]), false, RefsFor(e, cats[k])) {
      assert Groups(e)[k + 1] == tail[k];
    }
  }

  /** The requests of a run of handler calls from node `source`, or `None` when one of them fails. */
  function GroupsReqs(gs: seq<Group>, source: nat): Option<seq<Req>> {
    if gs == [] then Some([])
    else
      var init := GroupsReqs(gs[..|gs| - 1], source);
      var g := gs[|gs| - 1];
      var ls := ArrayLinks(g.refs, g.typed);
      if init.None? || ls.None? then None
      else Some(init.value + LinkReqs(source, g.relation, ls.value))
  }

  /** A record is exported without failure when every reference it holds parses. */
  predicate EntryOk(e: Entry) {
    forall k :: 0 <= k < |Groups(e)| ==> GroupOk(Groups(e)[k])
  }

  /** The requests a record makes from its node `source`. */
  function EntryReqs(e: Entry, source: nat): seq<Req> {
    var r := GroupsReqs(Groups(e), source);
    if r.Some? then r.value else []
  }

  /** A run of handler calls succeeds exactly when each of them does. */
  lemma {:induction false} GroupsReqsOk(gs: seq<Group>, source: nat)
    ensures GroupsReqs(gs, source).Some? <==> forall k :: 0 <= k < |gs| ==> GroupOk(gs[k])
  {
    if gs != [] {
      var init := gs[..|gs| - 1];
      GroupsReqsOk(init, source);
      assert forall k :: 0 <= k < |gs| - 1 ==> init[k] == gs[k];
    }
  }

  lemma GroupsReqsSnoc(gs: seq<Group>, k: nat, source: nat)
    requires k < |gs|
    ensures GroupsReqs(gs[..k + 1], source) ==
      if GroupsReqs(gs[..k], source).None? || !GroupOk(gs[k]) then None
      else Some(GroupsReqs(gs[..k], source).value + LinkReqs(source, gs[k].relation, ArrayLinks(gs[k].refs, gs[k].typed).value))
  {
    assert gs[..k + 1][..k] == gs[..k];
  }

  /**
   * `exportTerm`, `exportTypedef` and `exportInstance`: the record's node is
   * added, its typed relationships are handled, then each category of its
   * kind in order. Every handler call ends with the flush of the node's id,
   * so afterwards the cache holds no id that the graph holds. The record
   * fails on the first reference that does not parse.
   */
  method ExportRecord(graph: Graph, cache: RelationCache, e: Entry) returns (ok: bool, node: nat, ghost added: seq<Edge>)
    requires Resolved(graph.nodes, cache.buckets)
    modifies graph, cache
    ensures node == |old(graph.nodes)| && graph.nodes == old(graph.nodes) + [EntryNode(e)]
    ensures graph.edges == old(graph.edges) + added
    ensures ok <==> EntryOk(e)
    ensures ok ==> Resolved(graph.nodes, cache.buckets)
    ensures ok ==> Accounts(graph.nodes, added, old(cache.buckets), cache.buckets, EntryReqs(e, node))
  {
    node := graph.AddNode(e.typeLabel, EntryProps(e));
    ResolvedAfterAdd(old(graph.nodes), EntryNode(e), cache.buckets, e.id);
    ghost var gs := Groups(e);
    GroupsShape(e);
    ok, added := HandleRelationshipsWithRelId(graph, e.relationships, node, cache);
    if !ok {
      assert !GroupOk(gs[0]);
      return;
    }
    GroupsReqsSnoc(gs, 0, node);
    assert gs[..0] == [];
    var categories := Categories(e.kind);
    for k := 0 to |categories|
      invariant graph.nodes == old(graph.nodes) + [EntryNode(e)]
      invariant graph.edges == old(graph.edges) + added
      invariant GroupsReqs(gs[..k + 1], node).Some?
      invariant Resolved(graph.nodes, cache.buckets)
      invariant Accounts(graph.nodes, added, old(cache.buckets), cache.buckets, GroupsReqs(gs[..k + 1], node).value)
    {
      var category := categories[k];
      ghost var c1 := cache.buckets;
      ghost var more;
      ok, more := HandleRelationships(graph, RefsFor(e, category), Relation(category), node, cache);
      AppendAssoc(old(graph.edges), added, more);
      if !ok {
        assert !GroupOk(gs[k + 1]);
        return ok, node, added + more;
      }
      GroupsReqsSnoc(gs, k + 1, node);
      AccountsCompose(graph.nodes, added, more, old(cache.buckets), c1, cache.buckets,
                      GroupsReqs(gs[..k + 1], node).value, LinkReqs(node, Relation(category), ArrayLinks(RefsFor(e, category), false).value));
      added := added + more;
    }
    assert gs[..|categories| + 1] == gs;
    GroupsReqsOk(gs, node);
  }

  /** `ignoreObsolete && Boolean.TRUE.equals(entry.isObsolete())`. */
  predicate Skipped(ignoreObsolete: bool, e: Entry) {
    ignoreObsolete && e.obsolete == Some(true)
  }

  /** The records that are exported, in order. */
  function Kept(ignoreObsolete: bool, es: seq<Entry>): (r: seq<Entry>)
    ensures |r| <= |es|
    ensures forall j :: 0 <= j < |r| ==> r[j] in es && !Skipped(ignoreObsolete, r[j])
    ensures (forall i :: 0 <= i < |es| ==> !Skipped(ignoreObsolete, es[i])) ==> r == es
  {
    if es == [] then []
    else
      var init := Kept(ignoreObsolete, es[..|es| - 1]);
      var last := es[|es| - 1];
      assert forall i :: 0 <= i < |es| - 1 ==> es[..|es| - 1][i] == es[i];
      assert es == es[..|es| - 1] + [last];
      if Skipped(ignoreObsolete, last) then init else init + [last]
  }

  function EntryNodes(es: seq<Entry>): (r: seq<Node>)
    ensures |r| == |es| && forall j :: 0 <= j < |es| ==> r[j] == EntryNode(es[j])
  {
    seq(|es|, j requires 0 <= j < |es| => EntryNode(es[j]))
  }

  /** The requests of exported records whose nodes start at position `base`. */
  function StreamReqs(kept: seq<Entry>, base: nat): seq<Req> {
    if kept == [] then []
    else StreamReqs(kept[..|kept| - 1], base) + EntryReqs(kept[|kept| - 1], base + |kept| - 1)
  }

  /** Every record that is not skipped is exported, as often as it occurs. */
  lemma {:induction false} KeptCounts(ignoreObsolete: bool, es: seq<Entry>, x: Entry)
    ensures multiset(Kept(ignoreObsolete, es))[x] == if Skipped(ignoreObsolete, x) then 0 else multiset(es)[x]
    decreases |es|
  {
    if es != [] {
      var init := es[..|es| - 1];
      var last := es[|es| - 1];
      KeptCounts(ignoreObsolete, init, x);
      assert es == init + [last];
      assert multiset(es) == multiset(init) + multiset{last};
      if !Skipped(ignoreObsolete, last) {
        assert multiset(Kept(ignoreObsolete, es)) == multiset(Kept(ignoreObsolete, init)) + multiset{last};
      }
    }
  }

  /** Filtering keeps the order: the kept records of two runs of records, one after the other. */
  lemma {:induction false} KeptAppend(ignoreObsolete: bool, a: seq<Entry>, b: seq<Entry>)
    ensures Kept(ignoreObsolete, a + b) == Kept(ignoreObsolete, a) + Kept(ignoreObsolete, b)
    decreases |b|
  {
    if b == [] {
      assert a + b == a;
    } else {
      var b' := b[..|b| - 1];
      var last := b[|b| - 1];
      KeptAppend(ignoreObsolete, a, b');
      var ab := a + b;
      assert ab[..|ab| - 1] == a + b' && ab[|ab| - 1] == last;
      KeptLast(ignoreObsolete, ab);
      KeptLast(ignoreObsolete, b);
      if !Skipped(ignoreObsolete, last) {
        AppendAssocEntries(Kept(ignoreObsolete, a), Kept(ignoreObsolete, b'), [last]);
      }
    }
  }

  lemma KeptLast(ignoreObsolete: bool, es: seq<Entry>)
    requires es != []
    ensures Kept(ignoreObsolete, es) ==
      if Skipped(ignoreObsolete, es[|es| - 1]) then Kept(ignoreObsolete, es[..|es| - 1])
      else Kept(ignoreObsolete, es[..|es| - 1]) + [es[|es| - 1]]
  {
  }

  lemma AppendAssocEntries(x: seq<Entry>, y: seq<Entry>, z: seq<Entry>)
    ensures (x + y) + z == x + (y + z)
  {
  }

  lemma KeptSnoc(ignoreObsolete: bool, es: seq<Entry>, i: nat)
    requires i < |es|
    ensures Kept(ignoreObsolete, es[..i + 1]) ==
      if Skipped(ignoreObsolete, es[i]) then Kept(ignoreObsolete, es[..i]) else Kept(ignoreObsolete, es[..i]) + [es[i]]
  {
    assert es[..i + 1][..i] == es[..i];
  }

  lemma {:induction false} StreamReqsSnoc(kept: seq<Entry>, e: Entry, base: nat, source: nat)
    requires source == base + |kept|
    ensures StreamReqs(kept + [e], base) == StreamReqs(kept, base) + EntryReqs(e, source)
  {
    var all := kept + [e];
    assert all[..|all| - 1] == kept;
    assert all[|all| - 1] == e;
    StreamReqsLast(all, base, kept, e, source);
  }

  lemma StreamReqsLast(all: seq<Entry>, base: nat, init: seq<Entry>, last: Entry, source: nat)
    requires all != [] && init == all[..|all| - 1] && last == all[|all| - 1] && source == base + |all| - 1
    ensures StreamReqs(all, base) == StreamReqs(init, base) + EntryReqs(last, source)
  {
  }

  lemma EntryNodesSnoc(kept: seq<Entry>, e: Entry)
    ensures EntryNodes(kept + [e]) == EntryNodes(kept) + [EntryNode(e)]
  {
  }

  /**
   * Every reference is resolved exactly once: when the bookkeeping holds
   * and no cached id is in the graph, a request whose target is present is
   * matched by as many edges as it was made, and one whose target is absent
   * by as many cache entries.
   */
  lemma ReferencesResolveOnce(nodes: seq<Node>, added: seq<Edge>, pending: Cache, reqs: seq<Req>)
    requires Accounts(nodes, added, map[], pending, reqs) && Resolved(nodes, pending)
    ensures forall r :: multiset(EdgeReqs(nodes, added))[r] == if Present(nodes, r.target) then multiset(reqs)[r] else 0
    ensures forall r :: CacheReqs(pending)[r] == if Present(nodes, r.target) then 0 else multiset(reqs)[r]
  {
    var edges := multiset(EdgeReqs(nodes, added));
    assert CacheReqs(map[]) == multiset{};
    forall r ensures edges[r] == (if Present(nodes, r.target) then multiset(reqs)[r] else 0)
                 && CacheReqs(pending)[r] == (if Present(nodes, r.target) then 0 else multiset(reqs)[r])
    {
      assert (edges + CacheReqs(pending))[r] == multiset(reqs)[r];
      if Present(nodes, r.target) {
        if r in CacheReqs(pending) {
          CacheReqTarget(pending, r);
        }
      } else {
        if r in edges {
          EdgeReqPresent(nodes, added, r);
        }
      }
    }
  }

  /**
   * The state after exporting the records `kept` into a graph that held
   * `nodes0` and `edges0`: one node per record, the new edges `added`, no
   * cached id in the graph, and every request of those records either an
   * edge or a cache entry.
   */
  ghost predicate Exported(nodes0: seq<Node>, edges0: seq<Edge>, kept: seq<Entry>,
                           nodes: seq<Node>, edges: seq<Edge>, added: seq<Edge>, c: Cache) {
    nodes == nodes0 + EntryNodes(kept) && edges == edges0 + added &&
    Resolved(nodes, c) && Accounts(nodes, added, map[], c, StreamReqs(kept, |nodes0|))
  }

  /** One exported record of `exportEntries`: its node follows those of the records before it. */
  method ExportNext(graph: Graph, cache: RelationCache, entry: Entry,
                    ghost nodes0: seq<Node>, ghost edges0: seq<Edge>, ghost kept: seq<Entry>, ghost added: seq<Edge>)
    returns (ok: bool, ghost more: seq<Edge>)
    requires Exported(nodes0, edges0, kept, graph.nodes, graph.edges, added, cache.buckets)
    modifies graph, cache
    ensures graph.edges == edges0 + (added + more)
    ensures ok <==> EntryOk(entry)
    ensures ok ==> Exported(nodes0, edges0, kept + [entry], graph.nodes, graph.edges, added + more, cache.buckets)
  {
    ghost var base := |nodes0|;
    ghost var c1 := cache.buckets;
    AccountsGrow(graph.nodes, [EntryNode(entry)], added, map[], c1, StreamReqs(kept, base));
    var node: nat;
    ok, node, more := ExportRecord(graph, cache, entry);
    AppendAssoc(edges0, added, more);
    if ok {
      AccountsCompose(graph.nodes, added, more, map[], c1, cache.buckets, StreamReqs(kept, base), EntryReqs(entry, node));
      StreamReqsSnoc(kept, entry, base, node);
      EntryNodesSnoc(kept, entry);
      AppendAssoc(nodes0, EntryNodes(kept), [EntryNode(entry)]);
    }
  }

  /**
   * `exportEntries`: the records are exported in order with one relation
   * cache, skipping obsolete ones when asked to. It fails on the first
   * exported record that fails. Otherwise the graph holds one node per
   * exported record, and each reference of theirs has become one edge when
   * its target was exported before or after it, and is left in the cache
   * (`unresolved`) when it never was.
   */
  method ExportEntries(ignoreObsolete: bool, graph: Graph, entries: seq<Entry>)
    returns (ok: bool, ghost added: seq<Edge>, ghost unresolved: Cache)
    modifies graph
    ensures graph.edges == old(graph.edges) + added
    ensures ok <==> forall i :: 0 <= i < |entries| && !Skipped(ignoreObsolete, entries[i]) ==> EntryOk(entries[i])
    ensures ok ==> graph.nodes == old(graph.nodes) + EntryNodes(Kept(ignoreObsolete, entries))
    ensures ok ==> Resolved(graph.nodes, unresolved)
    ensures ok ==> Accounts(graph.nodes, added, map[], unresolved,
                           StreamReqs(Kept(ignoreObsolete, entries), |old(graph.nodes)|))
  {
    var relationCache := new RelationCache();
    ghost var kept: seq<Entry> := [];
    assert Resolved(graph.nodes, relationCache.buckets);
    added := [];
    for i := 0 to |entries|
      invariant kept == Kept(ignoreObsolete, entries[..i])
      invariant Exported(old(graph.nodes), old(graph.edges), kept, graph.nodes, graph.edges, added, relationCache.buckets)
      invariant AllOkUpTo(ignoreObsolete, entries, i)
    {
      var entry := entries[i];
      KeptSnoc(ignoreObsolete, entries, i);
      if ignoreObsolete && entry.obsolete == Some(true) {
        AllOkStep(ignoreObsolete, entries, i);
        continue;
      }
      var entryOk: bool;
      ghost var more: seq<Edge>;
      entryOk, more := ExportNext(graph, relationCache, entry, old(graph.nodes), old(graph.edges), kept, added);
      if !entryOk {
        return false, added + more, relationCache.buckets;
      }
      AllOkStep(ignoreObsolete, entries, i);
      added := added + more;
      kept := kept + [entry];
    }
    assert entries[..|entries|] == entries;
    ok, unresolved := true, relationCache.buckets;
  }

  /** Every record before position `i` that is not skipped exports without failure. */
  predicate AllOkUpTo(ignoreObsolete: bool, entries: seq<Entry>, i: nat)
    requires i <= |entries|
  {
    forall j :: 0 <= j < i && !Skipped(ignoreObsolete, entries[j]) ==> EntryOk(entries[j])
  }

  lemma AllOkStep(ignoreObsolete: bool, entries: seq<Entry>, i: nat)
    requires i < |entries| && AllOkUpTo(ignoreObsolete, entries, i)
    requires Skipped(ignoreObsolete, entries[i]) || EntryOk(entries[i])
    ensures AllOkUpTo(ignoreObsolete, entries, i + 1)
  {
  }

  /** `ignoreObsolete`: the data source property equals `true`, ignoring case; a missing property reads as false. */
  function IgnoreObsolete(properties: map<string, string>): (r: bool)
    ensures r <==> ("ignoreObsolete" in properties && |properties["ignoreObsolete"]| == 4 &&
                    properties["ignoreObsolete"][0] in "tT" && properties["ignoreObsolete"][1] in "rR" &&
                    properties["ignoreObsolete"][2] in "uU" && properties["ignoreObsolete"][3] in "eE")
  {
    if "ignoreObsolete" in properties then
      EqualsTrueIgnoringCase(properties["ignoreObsolete"]);
      EqualsIgnoreCase(properties["ignoreObsolete"], "true")
    else false
  }

  /**
   * `exportGraph`: the header first, then the records, skipping obsolete
   * records when the data source's `ignoreObsolete` property says so. The
   * records' node positions follow the header's nodes, and the definition
   * nodes of the header can be the targets of the records' references.
   */
  method ExportGraph(properties: map<string, string>, graph: Graph, header: Header, entries: seq<Entry>)
    returns (ok: bool, ghost base: nat, ghost added: seq<Edge>, ghost unresolved: Cache)
    modifies graph
    ensures ok <==> HeaderOk(header) &&
                    forall i :: 0 <= i < |entries| && !Skipped(IgnoreObsolete(properties), entries[i]) ==> EntryOk(entries[i])
    ensures ok ==> base == |old(graph.nodes)| + |HeaderNodes(header)|
    ensures ok ==> graph.nodes == old(graph.nodes) + HeaderNodes(header) + EntryNodes(Kept(IgnoreObsolete(properties), entries))
    ensures ok ==> graph.edges == old(graph.edges) + HeaderEdges(header, |old(graph.nodes)|) + added
    ensures ok ==> Resolved(graph.nodes, unresolved)
    ensures ok ==> Accounts(graph.nodes, added, map[], unresolved, StreamReqs(Kept(IgnoreObsolete(properties), entries), base))
    ensures ok ==> forall r :: multiset(EdgeReqs(graph.nodes, added))[r] ==
                     if Present(graph.nodes, r.target) then multiset(StreamReqs(Kept(IgnoreObsolete(properties), entries), base))[r] else 0
    ensures ok ==> forall r :: CacheReqs(unresolved)[r] ==
                     if Present(graph.nodes, r.target) then 0 else multiset(StreamReqs(Kept(IgnoreObsolete(properties), entries), base))[r]
  {
    var ignoreObsolete := IgnoreObsolete(properties);
    ok := ExportHeader(graph, header);
    if !ok {
      return false, 0, [], map[];
    }
    base := |graph.nodes|;
    ok, added, unresolved := ExportEntries(ignoreObsolete, graph, entries);
    if ok {
      ReferencesResolveOnce(graph.nodes, added, unresolved, StreamReqs(Kept(ignoreObsolete, entries), base));
    }
  }
}
