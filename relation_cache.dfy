/**
 * The relation cache of the ontology exporter: references to targets that do
 * not exist yet, kept as `target id -> relation name -> entries` until the
 * node with that id is created. A cached entry and an edge in the graph are
 * both counted as the request (`Req`) they fulfil, which is how the exporter's
 * bookkeeping is stated.
 */
module RelationCaching {
  import opened Wrappers
  import opened MapSums
  import opened OboGraph

  /** A deferred edge: its source node and its optional property. */
  datatype CacheEntry = CacheEntry(source: nat, key: Option<string>, value: Option<string>)

  type Cache = map<string, map<string, seq<CacheEntry>>>

  /** An edge carries a property only when both its key and its value are present. */
  function PropOf(key: Option<string>, value: Option<string>): Option<(string, string)> {
    if key.Some? && value.Some? then Some((key.value, value.value)) else None
  }

  /** The entries cached for one target and relation; missing levels read as empty. */
  function Bucket(c: Cache, target: string, relation: string): seq<CacheEntry> {
    if target in c && relation in c[target] then c[target][relation] else []
  }

  /** `addRelationshipToCache`: creates the missing levels and appends one entry to the bucket. */
  function CacheAdd(c: Cache, target: string, relation: string, e: CacheEntry): (r: Cache)
    ensures Bucket(r, target, relation) == Bucket(c, target, relation) + [e]
    ensures forall t, l :: (t, l) != (target, relation) ==> Bucket(r, t, l) == Bucket(c, t, l)
    ensures r.Keys == c.Keys + {target}
    ensures forall t :: t in c && t != target ==> r[t] == c[t]
    ensures r[target].Keys == (if target in c then c[target].Keys else {}) + {relation}
  {
    var rels := if target in c then c[target] else map[];
    var list := if relation in rels then rels[relation] else [];
    c[target := rels[relation := list + [e]]]
  }

  class RelationCache {
    var buckets: Cache

    constructor()
      ensures buckets == map[]
    {
      buckets := map[];
    }
  }

  /** A request for an edge from `source` to the node whose id is `target`. */
  datatype Req = Req(source: nat, target: string, relation: string, prop: Option<(string, string)>)

  function CachedReq(target: string, relation: string, e: CacheEntry): Req {
    Req(e.source, target, relation, PropOf(e.key, e.value))
  }

  function CachedReqs(target: string, relation: string, es: seq<CacheEntry>): (r: seq<Req>)
    ensures |r| == |es| && forall i :: 0 <= i < |es| ==> r[i] == CachedReq(target, relation, es[i])
  {
    seq(|es|, i requires 0 <= i < |es| => CachedReq(target, relation, es[i]))
  }

  ghost function BucketReqs(target: string): (string, seq<CacheEntry>) -> multiset<Req> {
    (relation, es) => multiset(CachedReqs(target, relation, es))
  }

  /** The requests cached under one target. */
  ghost function TargetReqs(target: string, rels: map<string, seq<CacheEntry>>): multiset<Req> {
    Sum(rels, BucketReqs(target))
  }

  ghost function TargetReqsFn(): (string, map<string, seq<CacheEntry>>) -> multiset<Req> {
    (target, rels) => TargetReqs(target, rels)
  }

  /** Every request held in the cache, whatever the order of its maps. */
  ghost function CacheReqs(c: Cache): multiset<Req> {
    Sum(c, TargetReqsFn())
  }

  /** Adding an entry to the cache adds exactly its request. */
  lemma CacheAddReqs(c: Cache, target: string, relation: string, e: CacheEntry)
    ensures CacheReqs(CacheAdd(c, target, relation, e)) == CacheReqs(c) + multiset{CachedReq(target, relation, e)}
  {
    var rels := if target in c then c[target] else map[];
    var rels' := RelationsAdd(rels, relation, e);
    assert CacheAdd(c, target, relation, e) == c[target := rels'];
    SumUpdate(c, TargetReqsFn(), target, rels');
    assert TargetReqsFn()(target, rels') == TargetReqs(target, rels');
    TargetReqsAdd(target, rels, relation, e);
    if target in c {
      SumPick(c, TargetReqsFn(), target);
      assert TargetReqsFn()(target, rels) == TargetReqs(target, rels);
    } else {
      assert c - {target} == c;
      assert TargetReqs(target, rels) == multiset{};
    }
  }

  /** One target's relations after appending `e` to the bucket of `relation`. */
  function RelationsAdd(rels: map<string, seq<CacheEntry>>, relation: string, e: CacheEntry): map<string, seq<CacheEntry>> {
    rels[relation := (if relation in rels then rels[relation] else []) + [e]]
  }

  lemma TargetReqsAdd(target: string, rels: map<string, seq<CacheEntry>>, relation: string, e: CacheEntry)
    ensures TargetReqs(target, RelationsAdd(rels, relation, e)) == TargetReqs(target, rels) + multiset{CachedReq(target, relation, e)}
  {
    var list := if relation in rels then rels[relation] else [];
    var f := BucketReqs(target);
    BucketReqsAppend(target, relation, list, e);
    SumUpdate(rels, f, relation, list + [e]);
    if relation in rels {
      SumPick(rels, f, relation);
    } else {
      assert rels - {relation} == rels;
    }
  }

  lemma BucketReqsAppend(target: string, relation: string, list: seq<CacheEntry>, e: CacheEntry)
    ensures BucketReqs(target)(relation, list + [e]) == BucketReqs(target)(relation, list) + multiset{CachedReq(target, relation, e)}
  {
    assert CachedReqs(target, relation, list + [e]) == CachedReqs(target, relation, list) + [CachedReq(target, relation, e)];
  }

  /** The cached requests for a target are those under its key: taking the key out removes exactly them. */
  lemma CacheRemoveReqs(c: Cache, target: string)
    requires target in c
    ensures CacheReqs(c) == TargetReqs(target, c[target]) + CacheReqs(c - {target})
  {
    SumPick(c, TargetReqsFn(), target);
  }

  /** A cached request's target is a key of the cache. */
  lemma CacheReqTarget(c: Cache, x: Req)
    requires x in CacheReqs(c)
    ensures x.target in c
  {
    SumMember(c, TargetReqsFn(), x);
    var t :| t in c && x in TargetReqsFn()(t, c[t]);
    SumMember(c[t], BucketReqs(t), x);
    var l :| l in c[t] && x in BucketReqs(t)(l, c[t][l]);
    var rs := CachedReqs(t, l, c[t][l]);
    var i :| 0 <= i < |rs| && rs[i] == x;
  }

  /** The edge a cached entry becomes once its target node exists. */
  function FlushEdge(node: nat, relation: string, e: CacheEntry): Edge {
    Edge(e.source, node, relation, PropOf(e.key, e.value))
  }

  /**
   * `flushRelationCache` for one bucket: one edge per cached entry, in order,
   * from the entry's source to the new node, labelled with the bucket's
   * relation, carrying the entry's key and value only when both are present.
   */
  function FlushEdges(node: nat, relation: string, es: seq<CacheEntry>): (r: seq<Edge>)
    ensures |r| == |es|
    ensures forall i :: 0 <= i < |es| ==>
      r[i].source == es[i].source && r[i].target == node && r[i].relation == relation
    ensures forall i :: 0 <= i < |es| ==>
      (r[i].prop.Some? <==> es[i].key.Some? && es[i].value.Some?) &&
      (r[i].prop.Some? ==> r[i].prop.value == (es[i].key.value, es[i].value.value))
  {
    seq(|es|, i requires 0 <= i < |es| => FlushEdge(node, relation, es[i]))
  }

  ghost function FlushFn(node: nat): (string, seq<CacheEntry>) -> multiset<Edge> {
    (relation, es) => multiset(FlushEdges(node, relation, es))
  }

  /** The edges a flush of `rels` into `node` creates, in any order. */
  ghost function Flushed(node: nat, rels: map<string, seq<CacheEntry>>): multiset<Edge> {
    Sum(rels, FlushFn(node))
  }

  /** The id of the node at position `k`, or the empty text when it has none. */
  function IdText(nodes: seq<Node>, k: nat): string {
    if k < |nodes| && IdOf(nodes[k]).Some? then IdOf(nodes[k]).value else ""
  }

  /** The request an edge fulfils. */
  function EdgeReq(nodes: seq<Node>, e: Edge): Req {
    Req(e.source, IdText(nodes, e.target), e.relation, e.prop)
  }

  function EdgeReqs(nodes: seq<Node>, es: seq<Edge>): (r: seq<Req>)
    ensures |r| == |es| && forall i :: 0 <= i < |es| ==> r[i] == EdgeReq(nodes, es[i])
  {
    seq(|es|, i requires 0 <= i < |es| => EdgeReq(nodes, es[i]))
  }

  /** Every edge ends at an existing node that has an id. */
  predicate TargetsIdentified(nodes: seq<Node>, es: seq<Edge>) {
    forall i :: 0 <= i < |es| ==> es[i].target < |nodes| && IdOf(nodes[es[i].target]).Some?
  }

  lemma EdgeReqsAppend(nodes: seq<Node>, a: seq<Edge>, b: seq<Edge>)
    ensures EdgeReqs(nodes, a + b) == EdgeReqs(nodes, a) + EdgeReqs(nodes, b)
  {
  }

  /** Adding nodes changes no request of edges between existing nodes. */
  lemma EdgeReqsGrow(nodes: seq<Node>, more: seq<Node>, es: seq<Edge>)
    requires TargetsIdentified(nodes, es)
    ensures EdgeReqs(nodes + more, es) == EdgeReqs(nodes, es)
    ensures TargetsIdentified(nodes + more, es)
  {
    forall i | 0 <= i < |es| ensures (nodes + more)[es[i].target] == nodes[es[i].target] {
    }
  }

  /** The target of a request an edge fulfils is present in the graph. */
  lemma EdgeReqPresent(nodes: seq<Node>, es: seq<Edge>, x: Req)
    requires TargetsIdentified(nodes, es) && x in multiset(EdgeReqs(nodes, es))
    ensures Present(nodes, x.target)
  {
    var rs := EdgeReqs(nodes, es);
    var i :| 0 <= i < |rs| && rs[i] == x;
    assert IdOf(nodes[es[i].target]) == Some(x.target);
  }

  /** Flushed edges fulfil exactly the cached requests of their bucket. */
  lemma FlushEdgesReqs(nodes: seq<Node>, node: nat, target: string, relation: string, es: seq<CacheEntry>)
    requires node < |nodes| && IdOf(nodes[node]) == Some(target)
    ensures EdgeReqs(nodes, FlushEdges(node, relation, es)) == CachedReqs(target, relation, es)
    ensures TargetsIdentified(nodes, FlushEdges(node, relation, es))
  {
  }
}
