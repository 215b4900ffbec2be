/**
 * How the ontology exporter resolves the references of one record: each
 * reference either becomes an edge to the node that already carries the
 * target id, or is cached under that id; once a record's node exists, the
 * entries cached for its id become edges and the id leaves the cache.
 *
 * The bookkeeping is stated with requests (`Req`): the edges added plus the
 * requests in the cache always equal the requests the cache started with
 * plus the references handled, and a cached id is never one the graph
 * already holds.
 */
module RelationResolution {
  import opened Wrappers
  import opened MapSums
  import opened OboGraph
  import opened RelationCaching
  import opened OboReferences

  /** Every cached target id is missing from the graph. */
  predicate Resolved(nodes: seq<Node>, c: Cache) {
    forall t :: t in c ==> !Present(nodes, t)
  }

  /** Every cached target id but possibly `own` is missing from the graph. */
  predicate ResolvedExcept(nodes: seq<Node>, c: Cache, own: string) {
    forall t :: t in c && t != own ==> !Present(nodes, t)
  }

  /**
   * The edges `added` point at identified nodes, and they and the cache `c`
   * together hold the requests of the starting cache `c0` and of `reqs`.
   */
  ghost predicate Accounts(nodes: seq<Node>, added: seq<Edge>, c0: Cache, c: Cache, reqs: seq<Req>) {
    TargetsIdentified(nodes, added) &&
    multiset(EdgeReqs(nodes, added)) + CacheReqs(c) == CacheReqs(c0) + multiset(reqs)
  }

  /** Two accounted stretches in a row account for both sets of requests. */
  lemma AccountsCompose(nodes: seq<Node>, a: seq<Edge>, b: seq<Edge>, c0: Cache, c1: Cache, c2: Cache,
                        r1: seq<Req>, r2: seq<Req>)
    requires Accounts(nodes, a, c0, c1, r1) && Accounts(nodes, b, c1, c2, r2)
    ensures Accounts(nodes, a + b, c0, c2, r1 + r2)
  {
    EdgeReqsAppend(nodes, a, b);
    TargetsIdentifiedAppend(nodes, a, b);
    var ea := multiset(EdgeReqs(nodes, a));
    var eb := multiset(EdgeReqs(nodes, b));
    forall y ensures (ea + eb + CacheReqs(c2))[y] == (CacheReqs(c0) + multiset(r1 + r2))[y] {
      assert (ea + CacheReqs(c1))[y] == (CacheReqs(c0) + multiset(r1))[y];
      assert (eb + CacheReqs(c2))[y] == (CacheReqs(c1) + multiset(r2))[y];
    }
  }

  /** Adding nodes keeps the accounting: the edges keep their targets and requests. */
  lemma AccountsGrow(nodes: seq<Node>, more: seq<Node>, added: seq<Edge>, c0: Cache, c: Cache, reqs: seq<Req>)
    requires Accounts(nodes, added, c0, c, reqs)
    ensures Accounts(nodes + more, added, c0, c, reqs)
  {
    EdgeReqsGrow(nodes, more, added);
  }

  /** Adding the node with id `id` to a resolved graph leaves only `id` possibly cached and present. */
  lemma ResolvedAfterAdd(nodes: seq<Node>, n: Node, c: Cache, id: string)
    requires Resolved(nodes, c) && IdOf(n) == Some(id)
    ensures ResolvedExcept(nodes + [n], c, id)
  {
    forall t | t in c && t != id ensures !Present(nodes + [n], t) {
      FirstWithIdAppend(nodes, n, t);
    }
  }

  /** The relation name of typed relationships. */
  const RELATIONSHIP_LABEL := "HAS_RELATIONSHIP"

  /** `addRelationshipToCache`: creates the target's map and the relation's list when missing, then appends one entry. */
  method AddRelationshipToCache(cache: RelationCache, sourceNodeId: nat, targetId: string, relationName: string,
                                propertyKey: Option<string>, propertyValue: Option<string>)
    modifies cache
    ensures cache.buckets == CacheAdd(old(cache.buckets), targetId, relationName, CacheEntry(sourceNodeId, propertyKey, propertyValue))
  {
    ghost var relations0 := if targetId in cache.buckets then cache.buckets[targetId] else map[];
    ghost var list0 := if relationName in relations0 then relations0[relationName] else [];
    if targetId !in cache.buckets {
      cache.buckets := cache.buckets[targetId := map[]];
    }
    if relationName !in cache.buckets[targetId] {
      cache.buckets := cache.buckets[targetId := cache.buckets[targetId][relationName := []]];
    }
    assert cache.buckets[targetId] == relations0[relationName := list0];
    var cacheEntry := CacheEntry(sourceNodeId, propertyKey, propertyValue);
    var relations := cache.buckets[targetId];
    cache.buckets := cache.buckets[targetId := relations[relationName := relations[relationName] + [cacheEntry]]];
    assert relations[relationName := list0 + [cacheEntry]] == relations0[relationName := list0 + [cacheEntry]];
    assert cache.buckets == old(cache.buckets)[targetId := relations0[relationName := list0 + [cacheEntry]]];
  }

  /** The inner loop of the flush: one edge into `node` per cached entry of one relation, in list order. */
  method FlushRelation(graph: Graph, node: nat, relation: string, entries: seq<CacheEntry>)
    modifies graph
    ensures graph.edges == old(graph.edges) + FlushEdges(node, relation, entries)
    ensures graph.nodes == old(graph.nodes)
  {
    for j := 0 to |entries|
      invariant graph.edges == old(graph.edges) + FlushEdges(node, relation, entries[..j])
      invariant graph.nodes == old(graph.nodes)
    {
      var cacheEntry := entries[j];
      if cacheEntry.key.Some? && cacheEntry.value.Some? {
        graph.AddEdge(cacheEntry.source, node, relation, Some((cacheEntry.key.value, cacheEntry.value.value)));
      } else {
        graph.AddEdge(cacheEntry.source, node, relation, None);
      }
      assert FlushEdges(node, relation, entries[..j + 1]) == FlushEdges(node, relation, entries[..j]) + [FlushEdge(node, relation, cacheEntry)];
    }
    assert entries[..|entries|] == entries;
  }

  /**
   * `handleCachedRelationshipsForNode`: when the node's id is cached, every
   * entry under it becomes an edge into the node (relations in any order)
   * and the id is removed; otherwise nothing changes.
   */
  method HandleCachedRelationshipsForNode(graph: Graph, node: nat, cache: RelationCache) returns (ghost flushed: seq<Edge>)
    requires node < |graph.nodes|
    modifies graph, cache
    ensures graph.nodes == old(graph.nodes)
    ensures graph.edges == old(graph.edges) + flushed
    ensures var id := IdOf(graph.nodes[node]);
      id.None? || id.value !in old(cache.buckets) ==> cache.buckets == old(cache.buckets) && flushed == []
    ensures var id := IdOf(graph.nodes[node]);
      id.Some? ==> cache.buckets == old(cache.buckets) - {id.value}
    ensures var id := IdOf(graph.nodes[node]);
      id.Some? && id.value in old(cache.buckets) ==>
        cache.buckets == old(cache.buckets) - {id.value} &&
        multiset(flushed) == Flushed(node, old(cache.buckets)[id.value]) &&
        TargetsIdentified(graph.nodes, flushed) &&
        multiset(EdgeReqs(graph.nodes, flushed)) == TargetReqs(id.value, old(cache.buckets)[id.value])
  {
    flushed := [];
    var targetId := IdOf(graph.nodes[node]);
    if targetId.Some? && targetId.value in cache.buckets {
      var t := targetId.value;
      flushed := FlushTarget(graph, node, t, cache.buckets[t]);
      cache.buckets := cache.buckets - {t};
    } else if targetId.Some? {
      assert cache.buckets - {targetId.value} == cache.buckets;
    }
  }

  /** Every relation cached for target `t` becomes edges into `node`, the node whose id is `t`. */
  method FlushTarget(graph: Graph, node: nat, t: string, relations: map<string, seq<CacheEntry>>)
    returns (ghost flushed: seq<Edge>)
    requires node < |graph.nodes| && IdOf(graph.nodes[node]) == Some(t)
    modifies graph
    ensures graph.nodes == old(graph.nodes)
    ensures graph.edges == old(graph.edges) + flushed
    ensures multiset(flushed) == Flushed(node, relations)
    ensures TargetsIdentified(graph.nodes, flushed)
    ensures multiset(EdgeReqs(graph.nodes, flushed)) == TargetReqs(t, relations)
  {
    flushed := [];
    var keys := relations.Keys;
    ghost var done: map<string, seq<CacheEntry>> := map[];
    while keys != {}
      invariant keys <= relations.Keys && done.Keys == relations.Keys - keys
      invariant forall k :: k in done ==> k in relations && done[k] == relations[k]
      invariant graph.nodes == old(graph.nodes)
      invariant graph.edges == old(graph.edges) + flushed
      invariant multiset(flushed) == Flushed(node, done)
      invariant TargetsIdentified(graph.nodes, flushed)
      invariant multiset(EdgeReqs(graph.nodes, flushed)) == TargetReqs(t, done)
      decreases |keys|
    {
      assert (forall k :: k !in keys) ==> keys == {};
      var key :| key in keys;
      var list := relations[key];
      FlushRelation(graph, node, key, list);
      ghost var more := FlushEdges(node, key, list);
      FlushStep(graph.nodes, node, t, flushed, done, key, list);
      AppendAssoc(old(graph.edges), flushed, more);
      flushed := flushed + more;
      done := done[key := list];
      keys := keys - {key};
    }
    assert done == relations;
  }

  /** Flushing one more relation of a target adds its edges and their requests to the running totals. */
  lemma FlushStep(nodes: seq<Node>, node: nat, t: string, flushed: seq<Edge>, done: map<string, seq<CacheEntry>>,
                  key: string, list: seq<CacheEntry>)
    requires node < |nodes| && IdOf(nodes[node]) == Some(t) && key !in done
    requires multiset(flushed) == Flushed(node, done)
    requires TargetsIdentified(nodes, flushed)
    requires multiset(EdgeReqs(nodes, flushed)) == TargetReqs(t, done)
    ensures multiset(flushed + FlushEdges(node, key, list)) == Flushed(node, done[key := list])
    ensures TargetsIdentified(nodes, flushed + FlushEdges(node, key, list))
    ensures multiset(EdgeReqs(nodes, flushed + FlushEdges(node, key, list))) == TargetReqs(t, done[key := list])
  {
    var more := FlushEdges(node, key, list);
    FlushEdgesReqs(nodes, node, t, key, list);
    EdgeReqsAppend(nodes, flushed, more);
    assert done - {key} == done;
    SumUpdate(done, FlushFn(node), key, list);
    SumUpdate(done, BucketReqs(t), key, list);
    TargetsIdentifiedAppend(nodes, flushed, more);
  }

  lemma TargetsIdentifiedAppend(nodes: seq<Node>, a: seq<Edge>, b: seq<Edge>)
    requires TargetsIdentified(nodes, a) && TargetsIdentified(nodes, b)
    ensures TargetsIdentified(nodes, a + b)
  {
    forall i | 0 <= i < |a + b| ensures (a + b)[i].target < |nodes| && IdOf(nodes[(a + b)[i].target]).Some? {
      if i >= |a| {
        assert (a + b)[i] == b[i - |a|];
      }
    }
  }

  /**
   * The lookup both reference loops of the exporter share: an edge to the
   * first node with the target id when there is one, a cache entry otherwise.
   */
  method ResolveLink(graph: Graph, cache: RelationCache, entryNode: nat, relationName: string, l: Link)
    returns (ghost step: seq<Edge>)
    modifies graph, cache
    ensures graph.nodes == old(graph.nodes)
    ensures graph.edges == old(graph.edges) + step
    ensures var found := FirstWithId(old(graph.nodes), l.target);
      if found.Some? then
        step == [Edge(entryNode, found.value, relationName, PropOf(l.key, l.value))] &&
        cache.buckets == old(cache.buckets)
      else
        step == [] &&
        cache.buckets == CacheAdd(old(cache.buckets), l.target, relationName, CacheEntry(entryNode, l.key, l.value))
  {
    var targetNode := graph.FindNode(l.target);
    if targetNode.None? {
      AddRelationshipToCache(cache, entryNode, l.target, relationName, l.key, l.value);
      step := [];
    } else if l.key.Some? && l.value.Some? {
      graph.AddEdge(entryNode, targetNode.value, relationName, Some((l.key.value, l.value.value)));
      step := [Edge(entryNode, targetNode.value, relationName, PropOf(l.key, l.value))];
    } else {
      graph.AddEdge(entryNode, targetNode.value, relationName, None);
      step := [Edge(entryNode, targetNode.value, relationName, PropOf(l.key, l.value))];
    }
  }

  /** Resolving one link, either way, accounts for its request and caches only ids missing from the graph. */
  lemma LinkAccounted(nodes: seq<Node>, added: seq<Edge>, c0: Cache, c: Cache, reqs: seq<Req>,
                      own: string, entryNode: nat, relation: string, l: Link, step: seq<Edge>, c': Cache)
    requires Accounts(nodes, added, c0, c, reqs) && ResolvedExcept(nodes, c, own)
    requires var found := FirstWithId(nodes, l.target);
      if found.Some? then step == [Edge(entryNode, found.value, relation, PropOf(l.key, l.value))] && c' == c
      else step == [] && c' == CacheAdd(c, l.target, relation, CacheEntry(entryNode, l.key, l.value))
    ensures Accounts(nodes, added + step, c0, c', reqs + [LinkReq(entryNode, relation, l)])
    ensures ResolvedExcept(nodes, c', own)
  {
    var found := FirstWithId(nodes, l.target);
    if found.Some? {
      EdgeLinkAccounted(nodes, added, c0, c, reqs, entryNode, relation, l, found.value);
    } else {
      assert added + step == added;
      CachedLinkAccounted(nodes, added, c0, c, reqs, own, entryNode, relation, l);
    }
  }

  /** Resolving a link to an existing node accounts for its request with the new edge. */
  lemma EdgeLinkAccounted(nodes: seq<Node>, added: seq<Edge>, c0: Cache, c: Cache, reqs: seq<Req>,
                          entryNode: nat, relation: string, l: Link, target: nat)
    requires Accounts(nodes, added, c0, c, reqs)
    requires target < |nodes| && IdOf(nodes[target]) == Some(l.target)
    ensures Accounts(nodes, added + [Edge(entryNode, target, relation, PropOf(l.key, l.value))], c0, c,
                     reqs + [LinkReq(entryNode, relation, l)])
  {
    var e := Edge(entryNode, target, relation, PropOf(l.key, l.value));
    var r := LinkReq(entryNode, relation, l);
    EdgeReqsAppend(nodes, added, [e]);
    assert EdgeReqs(nodes, [e]) == [r];
    TargetsIdentifiedAppend(nodes, added, [e]);
    assert multiset(EdgeReqs(nodes, added + [e])) == multiset(EdgeReqs(nodes, added)) + multiset{r};
    assert multiset(reqs + [r]) == multiset(reqs) + multiset{r};
    MultisetShift(multiset(EdgeReqs(nodes, added)), CacheReqs(c), CacheReqs(c0), multiset(reqs), multiset{r});
  }

  /** Caching a link whose target is missing accounts for its request with the new cache entry. */
  lemma CachedLinkAccounted(nodes: seq<Node>, added: seq<Edge>, c0: Cache, c: Cache, reqs: seq<Req>,
                            own: string, entryNode: nat, relation: string, l: Link)
    requires Accounts(nodes, added, c0, c, reqs) && ResolvedExcept(nodes, c, own)
    requires !Present(nodes, l.target)
    ensures var c' := CacheAdd(c, l.target, relation, CacheEntry(entryNode, l.key, l.value));
      Accounts(nodes, added, c0, c', reqs + [LinkReq(entryNode, relation, l)]) && ResolvedExcept(nodes, c', own)
  {
    var r := LinkReq(entryNode, relation, l);
    CacheAddReqs(c, l.target, relation, CacheEntry(entryNode, l.key, l.value));
    CachedLinkReq(entryNode, relation, l);
    assert multiset(reqs + [r]) == multiset(reqs) + multiset{r};
    MultisetShift(CacheReqs(c), multiset(EdgeReqs(nodes, added)), CacheReqs(c0), multiset(reqs), multiset{r});
  }

  /** After the flush of the node with id `own`, the accounting still holds and the cache is fully resolved. */
  lemma FlushAccounted(nodes: seq<Node>, added: seq<Edge>, flushed: seq<Edge>, c0: Cache, c: Cache, reqs: seq<Req>,
                       own: string)
    requires Accounts(nodes, added, c0, c, reqs) && ResolvedExcept(nodes, c, own)
    requires own in c ==> TargetsIdentified(nodes, flushed) && multiset(EdgeReqs(nodes, flushed)) == TargetReqs(own, c[own])
    requires own !in c ==> flushed == []
    ensures Accounts(nodes, added + flushed, c0, c - {own}, reqs)
    ensures Resolved(nodes, c - {own})
  {
    if own in c {
      FlushAccountedPresent(nodes, added, flushed, c0, c, reqs, own);
    } else {
      assert c - {own} == c;
      assert added + flushed == added;
    }
  }

  lemma FlushAccountedPresent(nodes: seq<Node>, added: seq<Edge>, flushed: seq<Edge>, c0: Cache, c: Cache,
                              reqs: seq<Req>, own: string)
    requires Accounts(nodes, added, c0, c, reqs) && own in c
    requires TargetsIdentified(nodes, flushed) && multiset(EdgeReqs(nodes, flushed)) == TargetReqs(own, c[own])
    ensures Accounts(nodes, added + flushed, c0, c - {own}, reqs)
  {
    EdgeReqsAppend(nodes, added, flushed);
    TargetsIdentifiedAppend(nodes, added, flushed);
    CacheRemoveReqs(c, own);
    var a, f := multiset(EdgeReqs(nodes, added)), multiset(EdgeReqs(nodes, flushed));
    assert multiset(EdgeReqs(nodes, added + flushed)) == a + f;
  }

  /**
   * The loop over the typed relationships and over each category's
   * references of a record: every present reference is
   * parsed (as a typed relationship or as a generic reference) and resolved
   * in array order; the first one that does not parse stops the loop with a
   * failure, which in the source is an exception.
   */
  method ResolveReferences(graph: Graph, cache: RelationCache, entryNode: nat, relationName: string,
                           refs: seq<Option<string>>, typed: bool) returns (ok: bool, ghost added: seq<Edge>)
    requires entryNode < |graph.nodes| && IdOf(graph.nodes[entryNode]).Some?
    requires ResolvedExcept(graph.nodes, cache.buckets, IdOf(graph.nodes[entryNode]).value)
    modifies graph, cache
    ensures graph.nodes == old(graph.nodes)
    ensures graph.edges == old(graph.edges) + added
    ensures ok <==> Links(refs, typed).Some?
    ensures ok ==> ResolvedExcept(graph.nodes, cache.buckets, IdOf(graph.nodes[entryNode]).value)
    ensures ok ==> Accounts(graph.nodes, added, old(cache.buckets), cache.buckets,
                           LinkReqs(entryNode, relationName, Links(refs, typed).value))
  {
    ghost var own := IdOf(graph.nodes[entryNode]).value;
    ghost var links: seq<Link> := [];
    added := [];
    for i := 0 to |refs|
      invariant graph.nodes == old(graph.nodes)
      invariant graph.edges == old(graph.edges) + added
      invariant Links(refs[..i], typed) == Some(links)
      invariant ResolvedExcept(graph.nodes, cache.buckets, own)
      invariant Accounts(graph.nodes, added, old(cache.buckets), cache.buckets, LinkReqs(entryNode, relationName, links))
    {
      LinksSnoc(refs[..i], refs[i], typed);
      assert refs[..i + 1] == refs[..i] + [refs[i]];
      var reference := refs[i];
      if reference.Some? {
        var link := if typed then TypedLink(reference.value) else GenericLink(reference.value);
        if link.None? {
          assert ParseLink(refs[i].value, typed).None?;
          return false, added;
        }
        ghost var c := cache.buckets;
        ghost var step := ResolveLink(graph, cache, entryNode, relationName, link.value);
        LinkAccounted(graph.nodes, added, old(cache.buckets), c, LinkReqs(entryNode, relationName, links),
                      own, entryNode, relationName, link.value, step, cache.buckets);
        LinkReqsSnoc(entryNode, relationName, links, link.value);
        AppendAssoc(old(graph.edges), added, step);
        added := added + step;
        links := links + [link.value];
      }
    }
    assert refs[..|refs|] == refs;
    ok := true;
  }

  /**
   * `handleRelationships`: every present generic reference of the array is
   * resolved in order under `relationName`, then the entry node's cached
   * references are flushed. It fails when a reference does not parse.
   */
  method HandleRelationships(graph: Graph, targetIds: Option<seq<Option<string>>>, relationName: string,
                             entryNode: nat, cache: RelationCache) returns (ok: bool, ghost added: seq<Edge>)
    requires entryNode < |graph.nodes| && IdOf(graph.nodes[entryNode]).Some?
    requires ResolvedExcept(graph.nodes, cache.buckets, IdOf(graph.nodes[entryNode]).value)
    modifies graph, cache
    ensures graph.nodes == old(graph.nodes)
    ensures graph.edges == old(graph.edges) + added
    ensures ok <==> ArrayLinks(targetIds, false).Some?
    ensures ok ==> Resolved(graph.nodes, cache.buckets)
    ensures ok ==> Accounts(graph.nodes, added, old(cache.buckets), cache.buckets,
                           LinkReqs(entryNode, relationName, ArrayLinks(targetIds, false).value))
  {
    ok, added := ResolveThenFlush(graph, cache, entryNode, relationName, targetIds, false);
  }

  /**
   * `handleRelationshipsWithRelId`: every present typed relationship
   * `relId target` is resolved in order under `HAS_RELATIONSHIP` with the
   * `rel_id` property, then the entry node's cached references are flushed.
   * It fails when a relationship has fewer than two tokens.
   */
  method HandleRelationshipsWithRelId(graph: Graph, relationships: Option<seq<Option<string>>>,
                                      entryNode: nat, cache: RelationCache) returns (ok: bool, ghost added: seq<Edge>)
    requires entryNode < |graph.nodes| && IdOf(graph.nodes[entryNode]).Some?
    requires ResolvedExcept(graph.nodes, cache.buckets, IdOf(graph.nodes[entryNode]).value)
    modifies graph, cache
    ensures graph.nodes == old(graph.nodes)
    ensures graph.edges == old(graph.edges) + added
    ensures ok <==> ArrayLinks(relationships, true).Some?
    ensures ok ==> Resolved(graph.nodes, cache.buckets)
    ensures ok ==> Accounts(graph.nodes, added, old(cache.buckets), cache.buckets,
                           LinkReqs(entryNode, RELATIONSHIP_LABEL, ArrayLinks(relationships, true).value))
  {
    ok, added := ResolveThenFlush(graph, cache, entryNode, RELATIONSHIP_LABEL, relationships, true);
  }

  /**
   * The shape both handlers share: resolve the references of the (possibly
   * absent) array, then flush the references cached for the entry node.
   */
  method ResolveThenFlush(graph: Graph, cache: RelationCache, entryNode: nat, relationName: string,
                          refs: Option<seq<Option<string>>>, typed: bool) returns (ok: bool, ghost added: seq<Edge>)
    requires entryNode < |graph.nodes| && IdOf(graph.nodes[entryNode]).Some?
    requires ResolvedExcept(graph.nodes, cache.buckets, IdOf(graph.nodes[entryNode]).value)
    modifies graph, cache
    ensures graph.nodes == old(graph.nodes)
    ensures graph.edges == old(graph.edges) + added
    ensures ok <==> ArrayLinks(refs, typed).Some?
    ensures ok ==> Resolved(graph.nodes, cache.buckets)
    ensures ok ==> Accounts(graph.nodes, added, old(cache.buckets), cache.buckets,
                           LinkReqs(entryNode, relationName, ArrayLinks(refs, typed).value))
  {
    ghost var c0 := cache.buckets;
    added := [];
    if refs.Some? {
      ok, added := ResolveReferences(graph, cache, entryNode, relationName, refs.value, typed);
      if !ok {
        return;
      }
    } else {
      NothingAccounted(graph.nodes, c0, LinkReqs(entryNode, relationName, []));
    }
    ghost var reqs := LinkReqs(entryNode, relationName, ArrayLinks(refs, typed).value);
    ghost var flushed := FlushOwnTarget(graph, cache, entryNode, added, c0, reqs);
    AppendAssoc(old(graph.edges), added, flushed);
    added := added + flushed;
    ok := true;
  }

  lemma NothingAccounted(nodes: seq<Node>, c: Cache, reqs: seq<Req>)
    requires reqs == []
    ensures Accounts(nodes, [], c, c, reqs)
  {
    assert EdgeReqs(nodes, []) == [];
  }

  /** `handleCachedRelationshipsForNode` at the end of a handler: it keeps the accounting and resolves the cache. */
  method FlushOwnTarget(graph: Graph, cache: RelationCache, entryNode: nat, ghost added: seq<Edge>, ghost c0: Cache,
                        ghost reqs: seq<Req>) returns (ghost flushed: seq<Edge>)
    requires entryNode < |graph.nodes| && IdOf(graph.nodes[entryNode]).Some?
    requires ResolvedExcept(graph.nodes, cache.buckets, IdOf(graph.nodes[entryNode]).value)
    requires Accounts(graph.nodes, added, c0, cache.buckets, reqs)
    modifies graph, cache
    ensures graph.nodes == old(graph.nodes)
    ensures graph.edges == old(graph.edges) + flushed
    ensures Resolved(graph.nodes, cache.buckets)
    ensures Accounts(graph.nodes, added + flushed, c0, cache.buckets, reqs)
  {
    ghost var own := IdOf(graph.nodes[entryNode]).value;
    ghost var before := cache.buckets;
    flushed := HandleCachedRelationshipsForNode(graph, entryNode, cache);
    FlushAccounted(graph.nodes, added, flushed, c0, before, reqs, own);
  }
}
