/**
 * `sortKeyPages` and `sortAllPages` as functions on the index state: the ids of a
 * key are sorted and rewritten, `PAGE_SIZE` at a time, into the key's pages taken
 * in ascending page-index order; page indices left over are dropped from the
 * key's list (but not from the page and metadata tables).
 */
module PagedIndexSorting {
  import opened Wrappers
  import opened PagedIndexModel
  import opened SortedChunks

  /** The listed pages' contents, one after another. */
  function PagesConcat(list: seq<int>, pages: map<int, seq<int>>): (r: seq<int>)
    requires ListedIn(list, pages)
    ensures forall x :: x in r <==> x in PagesUnion(list, pages)
  {
    if list == [] then []
    else
      var rest := PagesConcat(list[1..], pages);
      assert PagesUnion(list, pages) == (set x | x in pages[list[0]]) + PagesUnion(list[1..], pages);
      pages[list[0]] + rest
  }

  /** The ids of a key in ascending order, as `sortKeyPages` collects them. */
  function SortedIds<K>(s: Store<K>, k: K): (r: seq<int>)
    requires Valid(s)
  {
    if k in s.keys then SortedOf(PagesConcat(s.keys[k], s.pages)) else []
  }

  /** Metadata `sortKeyPages` writes for a rewritten page: first id, last id, length. */
  function ChunkMeta(page: seq<int>): Meta
    requires |page| > 0
  {
    Meta(Some(page[0]), Some(page[|page| - 1]), |page|)
  }

  predicate NonEmptyChunks(c: seq<seq<int>>) {
    forall j :: 0 <= j < |c| ==> |c[j]| > 0
  }

  /** Stores `page` under page index `p` with fresh metadata. */
  function WritePage<K>(s: Store<K>, p: int, page: seq<int>): Store<K>
    requires |page| > 0
  {
    s.(pages := s.pages[p := page], meta := s.meta[p := ChunkMeta(page)])
  }

  /** Writes chunk `j` into page `idx[j]`, for every chunk (and stops should the page indices run out). */
  function Pack<K>(s: Store<K>, idx: seq<int>, chunks: seq<seq<int>>): Store<K>
    requires NonEmptyChunks(chunks)
    decreases |chunks|
  {
    if chunks == [] || idx == [] then s
    else Pack(WritePage(s, idx[0], chunks[0]), idx[1..], chunks[1..])
  }

  /** Packing rewrites pages only: the key lists and the next page index stay. */
  lemma {:induction false} PackKeepsKeys<K>(s: Store<K>, idx: seq<int>, chunks: seq<seq<int>>)
    requires NonEmptyChunks(chunks)
    ensures Pack(s, idx, chunks).keys == s.keys && Pack(s, idx, chunks).next == s.next
    decreases |chunks|
  {
    if chunks != [] && idx != [] {
      PackKeepsKeys(WritePage(s, idx[0], chunks[0]), idx[1..], chunks[1..]);
    }
  }

  /** Packing a first chunk and then the rest is packing them all. */
  lemma PackCons<K>(s: Store<K>, idx: seq<int>, first: seq<int>, rest: seq<seq<int>>)
    requires idx != [] && |first| > 0 && NonEmptyChunks(rest)
    ensures NonEmptyChunks([first] + rest)
    ensures Pack(s, idx, [first] + rest) == Pack(WritePage(s, idx[0], first), idx[1..], rest)
  {
    assert ([first] + rest)[1..] == rest;
  }

  /** Page `p` is among the first `n` page indices of `idx`. */
  predicate Written(p: int, idx: seq<int>, n: nat) {
    exists j :: 0 <= j < n && j < |idx| && idx[j] == p
  }

  /** The sizes `sortKeyPages` works with: as many sorted page indices as listed pages, as many sorted ids as found ids. */
  lemma {:induction false} SortCounts<K>(s: Store<K>, k: K)
    requires Valid(s) && k in s.keys
    ensures |SortedOf(s.keys[k])| == |s.keys[k]|
    ensures |SortedIds(s, k)| == |Find(s, k)|
    ensures forall x :: x in SortedIds(s, k) <==> x in Find(s, k)
  {
    var list := s.keys[k];
    assert KeyOk(list, s.pages);
    AscendingCard(SortedOf(list));
    DistinctCard(list);
    assert (set x | x in SortedOf(list)) == (set x | x in list);
    var ids := SortedIds(s, k);
    AscendingCard(ids);
    assert (set x | x in ids) == Find(s, k);
  }

  /** The condition under which `sortKeyPages` finds a page index for every chunk; otherwise the source reads past the end of its page-index array. */
  predicate SortReadyKey<K>(s: Store<K>, k: K)
    requires Valid(s)
  {
    k in s.keys ==> NeededPages(|Find(s, k)|) <= |s.keys[k]|
  }

  predicate SortReady<K>(s: Store<K>)
    requires Valid(s)
  {
    forall k :: k in s.keys ==> SortReadyKey(s, k)
  }

  /** `sortKeyPages(key)`. */
  function SortKey<K>(s: Store<K>, k: K): (r: Store<K>)
    requires Valid(s) && SortReadyKey(s, k)
    ensures k !in s.keys || s.keys[k] == [] ==> r == s
    ensures r.keys.Keys == s.keys.Keys && r.next == s.next
    ensures forall k' :: k' in s.keys && k' != k ==> r.keys[k'] == s.keys[k']
  {
    if k !in s.keys || s.keys[k] == [] then s
    else
      var idx := SortedOf(s.keys[k]);
      var c := Chunks(SortedIds(s, k));
      var r := Pack(s, idx, c);
      PackKeepsKeys(s, idx, c);
      if |c| < |idx| then r.(keys := r.keys[k := idx[..|c|]]) else r
  }

  /** `sortAllPages`, visiting the keys in the order the key map yields them. */
  function SortAll<K>(s: Store<K>, order: seq<K>): (r: Store<K>)
    requires Valid(s) && SortReady(s)
    ensures Valid(r) && SortReady(r)
    ensures r.keys.Keys == s.keys.Keys
    ensures forall k :: k in s.keys ==> Find(r, k) == Find(s, k)
    decreases |order|
  {
    if order == [] then s
    else
      SortKeyStep(s, order[0]);
      SortAll(SortKey(s, order[0]), order[1..])
  }

  /**
   * The layout `sortKeyPages` leaves behind for key `k`: exactly as many listed
   * pages as the ids need, and the listed pages, in ascending page-index order,
   * hold the ascending ids `PAGE_SIZE` at a time with first/last/length metadata.
   */
  predicate Packed<K>(s: Store<K>, k: K)
    requires Valid(s)
  {
    k in s.keys ==> PackedAs(s, SortedOf(s.keys[k]), Chunks(SortedIds(s, k)))
  }

  /** Page `idx[j]` holds chunk `c[j]` with its metadata, for every chunk, and there are as many pages as chunks. */
  predicate PackedAs<K>(s: Store<K>, idx: seq<int>, c: seq<seq<int>>)
    requires NonEmptyChunks(c)
  {
    && |idx| == |c|
    && forall j :: 0 <= j < |c| ==> idx[j] in s.pages && idx[j] in s.meta && s.pages[idx[j]] == c[j] && s.meta[idx[j]] == ChunkMeta(c[j])
  }

  lemma {:induction false} PackResult<K>(s: Store<K>, idx: seq<int>, chunks: seq<seq<int>>)
    requires |chunks| <= |idx| && NonEmptyChunks(chunks) && NoDup(idx)
    requires forall j :: 0 <= j < |chunks| ==> idx[j] in s.pages && idx[j] in s.meta
    ensures var r := Pack(s, idx, chunks);
      && r.keys == s.keys && r.next == s.next
      && r.pages.Keys == s.pages.Keys && r.meta.Keys == s.meta.Keys
      && (forall j :: 0 <= j < |chunks| ==> r.pages[idx[j]] == chunks[j] && r.meta[idx[j]] == ChunkMeta(chunks[j]))
      && (forall p :: p in s.pages && !Written(p, idx, |chunks|) ==> r.pages[p] == s.pages[p])
      && (forall p :: p in s.meta && !Written(p, idx, |chunks|) ==> r.meta[p] == s.meta[p])
    decreases |chunks|
  {
    if chunks != [] {
      var w := WritePage(s, idx[0], chunks[0]);
      var idx1 := idx[1..];
      assert NoDup(idx1) by {
        forall i, j | 0 <= i < j < |idx1| ensures idx1[i] != idx1[j] {
          assert idx1[i] == idx[i + 1] && idx1[j] == idx[j + 1];
        }
      }
      forall j | 0 <= j < |chunks[1..]| ensures idx1[j] in w.pages && idx1[j] in w.meta {
        assert idx1[j] == idx[j + 1];
      }
      PackResult(w, idx1, chunks[1..]);
      var r := Pack(s, idx, chunks);
      assert !Written(idx[0], idx1, |chunks| - 1) by {
        forall i | 0 <= i < |chunks| - 1 ensures idx1[i] != idx[0] {
          assert idx1[i] == idx[i + 1];
        }
      }
      forall j | 0 <= j < |chunks| ensures r.pages[idx[j]] == chunks[j] && r.meta[idx[j]] == ChunkMeta(chunks[j]) {
        if j > 0 {
          assert idx[j] == idx1[j - 1] && chunks[j] == chunks[1..][j - 1];
        }
      }
      forall p | !Written(p, idx, |chunks|) ensures !Written(p, idx1, |chunks| - 1) && p != idx[0] {
        forall i | 0 <= i < |chunks| - 1 ensures idx1[i] != p {
          assert idx1[i] == idx[i + 1];
        }
      }
    }
  }

  /** A page list's union depends only on which pages it lists. */
  lemma {:induction false} UnionBySet(l1: seq<int>, l2: seq<int>, pages: map<int, seq<int>>)
    requires ListedIn(l1, pages) && ListedIn(l2, pages)
    requires forall p :: p in l1 <==> p in l2
    ensures PagesUnion(l1, pages) == PagesUnion(l2, pages)
  {
    UnionSubset(l1, l2, pages);
    UnionSubset(l2, l1, pages);
  }

  lemma UnionSubset(l1: seq<int>, l2: seq<int>, pages: map<int, seq<int>>)
    requires ListedIn(l1, pages) && ListedIn(l2, pages)
    requires forall p :: p in l1 ==> p in l2
    ensures PagesUnion(l1, pages) <= PagesUnion(l2, pages)
  {
    forall x | x in PagesUnion(l1, pages) ensures x in PagesUnion(l2, pages) {
      var j :| 0 <= j < |l1| && x in pages[l1[j]];
      assert l1[j] in l1;
      var i :| 0 <= i < |l2| && l2[i] == l1[j];
      assert x in pages[l2[i]];
    }
  }

  /**
   * What sorting key `k` of `s` produces in `r`: the first `|c|` of the key's
   * pages in ascending page-index order receive the chunks of its sorted ids;
   * nothing else changes but the key's own list, which is cut to those pages
   * when some are left over.
   */
  predicate Rewritten<K>(s: Store<K>, k: K, r: Store<K>)
    requires Valid(s) && k in s.keys
  {
    var idx := SortedOf(s.keys[k]);
    var c := Chunks(SortedIds(s, k));
    && |c| <= |idx| == |s.keys[k]|
    && (forall j :: 0 <= j < |idx| ==> idx[j] in s.keys[k] && idx[j] in s.pages)
    && r.next == s.next && r.keys.Keys == s.keys.Keys
    && r.pages.Keys == s.pages.Keys && r.meta.Keys == s.meta.Keys
    && (forall o :: o in s.keys && o != k ==> r.keys[o] == s.keys[o])
    && r.keys[k] == (if |c| < |idx| then idx[..|c|] else s.keys[k])
    && (forall j :: 0 <= j < |c| ==> r.pages[idx[j]] == c[j] && r.meta[idx[j]] == ChunkMeta(c[j]))
    && (forall p :: p in s.pages && !Written(p, idx, |c|) ==> r.pages[p] == s.pages[p] && r.meta[p] == s.meta[p])
  }

  lemma {:induction false} SortKeyEffect<K>(s: Store<K>, k: K)
    requires Valid(s) && SortReadyKey(s, k) && k in s.keys
    ensures Rewritten(s, k, SortKey(s, k))
  {
    var list := s.keys[k];
    var idx := SortedOf(list);
    var c := Chunks(SortedIds(s, k));
    SortCounts(s, k);
    assert KeyOk(list, s.pages);
    forall j | 0 <= j < |idx| ensures idx[j] in list && idx[j] in s.pages && idx[j] in s.meta {
      assert idx[j] in idx;
    }
    if list != [] {
      PackResult(s, idx, c);
    }
  }

  /** After sorting, the key lists exactly the pages that received a chunk. */
  lemma {:induction false} RewrittenListed<K>(s: Store<K>, k: K, r: Store<K>)
    requires Valid(s) && k in s.keys && Rewritten(s, k, r)
    ensures forall p :: p in r.keys[k] <==> Written(p, SortedOf(s.keys[k]), |Chunks(SortedIds(s, k))|)
  {
    var idx := SortedOf(s.keys[k]);
    ListedAfterCut(idx, |Chunks(SortedIds(s, k))|, s.keys[k], r.keys[k]);
  }

  /** The pages listed after the cut: the first `n` sorted page indices, or all of them when none is left over. */
  lemma ListedAfterCut(idx: seq<int>, n: nat, list: seq<int>, cut: seq<int>)
    requires n <= |idx| && (forall p :: p in idx <==> p in list)
    requires cut == (if n < |idx| then idx[..n] else list)
    ensures forall p :: p in cut <==> Written(p, idx, n)
  {
    forall p ensures p in cut <==> Written(p, idx, n) {
      if p in cut {
        var j :| 0 <= j < |cut| && cut[j] == p;
        if n < |idx| {
          assert idx[j] == p;
        } else {
          assert p in idx;
        }
      }
      if Written(p, idx, n) {
        var j :| 0 <= j < n && j < |idx| && idx[j] == p;
        if n < |idx| {
          assert cut[j] == p;
        } else {
          assert p in idx;
        }
      }
    }
  }


  lemma {:induction false} RewrittenMetaOk<K>(s: Store<K>, k: K, r: Store<K>)
    requires Valid(s) && k in s.keys && Rewritten(s, k, r)
    ensures forall p :: p in r.meta ==> p in r.pages && MetaOk(r.meta[p], r.pages[p])
    ensures SlotsExact(s) ==> SlotsExact(r)
  {
    var idx := SortedOf(s.keys[k]);
    var c := Chunks(SortedIds(s, k));
    forall p | p in r.meta
      ensures p in r.pages && MetaOk(r.meta[p], r.pages[p])
      ensures SlotsExact(s) ==> r.meta[p].slotsUsed == |r.pages[p]|
    {
      if Written(p, idx, |c|) {
        var j :| 0 <= j < |c| && j < |idx| && idx[j] == p;
      } else {
        assert MetaOk(s.meta[p], s.pages[p]);
      }
    }
  }

  lemma {:induction false} RewrittenListsOk<K>(s: Store<K>, k: K, r: Store<K>)
    requires Valid(s) && k in s.keys && Rewritten(s, k, r)
    ensures forall o :: o in r.keys ==> KeyOk(r.keys[o], r.pages)
    ensures forall p :: p in r.keys[k] ==> p in s.keys[k]
  {
    var list := s.keys[k];
    var idx := SortedOf(list);
    var c := Chunks(SortedIds(s, k));
    RewrittenListed(s, k, r);
    WrittenAreListed(idx, |c|, list, s.pages);
    assert NoDup(r.keys[k]) by {
      if |c| < |idx| {
        PrefixNoDup(idx, |c|);
      } else {
        assert KeyOk(list, s.pages);
      }
    }
    assert ListedIn(r.keys[k], r.pages) by {
      forall j | 0 <= j < |r.keys[k]| ensures r.keys[k][j] in r.pages {
        assert r.keys[k][j] in r.keys[k];
      }
    }
    forall o | o in r.keys && o != k ensures KeyOk(r.keys[o], r.pages) {
      assert KeyOk(s.keys[o], s.pages);
    }
  }

  lemma WrittenAreListed(idx: seq<int>, n: nat, list: seq<int>, pages: map<int, seq<int>>)
    requires forall j :: 0 <= j < |idx| ==> idx[j] in list && idx[j] in pages
    ensures forall p :: Written(p, idx, n) ==> p in list && p in pages
  {
    forall p | Written(p, idx, n) ensures p in list && p in pages {
      var j :| 0 <= j < n && j < |idx| && idx[j] == p;
    }
  }

  lemma PrefixNoDup(idx: seq<int>, n: nat)
    requires Ascending(idx) && n <= |idx|
    ensures NoDup(idx[..n])
  {
    var l := idx[..n];
    forall i, j | 0 <= i < j < |l| ensures l[i] != l[j] {
      assert l[i] == idx[i] && l[j] == idx[j];
    }
  }


  lemma {:induction false} RewrittenValid<K>(s: Store<K>, k: K, r: Store<K>)
    requires Valid(s) && k in s.keys && Rewritten(s, k, r)
    ensures Valid(r)
    ensures SlotsExact(s) ==> SlotsExact(r)
  {
    RewrittenMetaOk(s, k, r);
    RewrittenListsOk(s, k, r);
    assert Disjoint(r) by {
      forall k1, k2, p | k1 in r.keys && k2 in r.keys && k1 != k2 && p in r.keys[k1] ensures p !in r.keys[k2] {
        assert p in s.keys[k1];
      }
    }
  }

  /** Sorting keeps the index invariant and exact slot counts. */
  lemma {:induction false} SortKeyKeepsValid<K>(s: Store<K>, k: K)
    requires Valid(s) && SortReadyKey(s, k)
    ensures Valid(SortKey(s, k))
    ensures SlotsExact(s) ==> SlotsExact(SortKey(s, k))
  {
    if k in s.keys && s.keys[k] != [] {
      SortKeyEffect(s, k);
      RewrittenValid(s, k, SortKey(s, k));
    }
  }

  /** Union over a list of pages whose contents agree in two page tables. */
  lemma UnionFrame(list: seq<int>, p1: map<int, seq<int>>, p2: map<int, seq<int>>)
    requires ListedIn(list, p1) && ListedIn(list, p2)
    requires forall j :: 0 <= j < |list| ==> p1[list[j]] == p2[list[j]]
    ensures PagesUnion(list, p1) == PagesUnion(list, p2)
  {
  }

  /** Pages of other keys are not written when key `k` is sorted. */
  lemma {:induction false} RewrittenFrame<K>(s: Store<K>, k: K, r: Store<K>, o: K)
    requires Valid(s) && k in s.keys && Rewritten(s, k, r) && o in s.keys && o != k
    ensures o in r.keys && r.keys[o] == s.keys[o]
    ensures forall j :: 0 <= j < |s.keys[o]| ==>
      && s.keys[o][j] in r.pages && r.pages[s.keys[o][j]] == s.pages[s.keys[o][j]]
      && s.keys[o][j] in r.meta && r.meta[s.keys[o][j]] == s.meta[s.keys[o][j]]
  {
    var idx := SortedOf(s.keys[k]);
    var c := Chunks(SortedIds(s, k));
    var l := s.keys[o];
    assert KeyOk(l, s.pages);
    forall j | 0 <= j < |l| ensures !Written(l[j], idx, |c|) {
      assert l[j] !in s.keys[k];
    }
  }

  /** The sorted key's ids are those it had: exactly the ids of the chunks. */
  lemma {:induction false} RewrittenFind<K>(s: Store<K>, k: K, r: Store<K>)
    requires Valid(s) && k in s.keys && Rewritten(s, k, r)
    ensures Valid(r) && Find(r, k) == Find(s, k)
  {
    RewrittenValid(s, k, r);
    var idx := SortedOf(s.keys[k]);
    var ids := SortedIds(s, k);
    var c := Chunks(ids);
    RewrittenListed(s, k, r);
    ChunkUnion(r.keys[k], r.pages, idx, c);
    SortCounts(s, k);
    forall x ensures x in Find(r, k) <==> x in Find(s, k) {
      InChunks(ids, x);
    }
  }

  /** A list of exactly the pages holding the chunks has the chunks' ids as its union. */
  lemma ChunkUnion(list: seq<int>, pages: map<int, seq<int>>, idx: seq<int>, c: seq<seq<int>>)
    requires ListedIn(list, pages) && |c| <= |idx|
    requires forall p :: p in list <==> Written(p, idx, |c|)
    requires forall j :: 0 <= j < |c| ==> idx[j] in pages && pages[idx[j]] == c[j]
    ensures forall x :: x in PagesUnion(list, pages) <==> exists j :: 0 <= j < |c| && x in c[j]
  {
    forall x ensures x in PagesUnion(list, pages) <==> exists j :: 0 <= j < |c| && x in c[j] {
      if x in PagesUnion(list, pages) {
        var i :| 0 <= i < |list| && x in pages[list[i]];
        assert list[i] in list;
        var j :| 0 <= j < |c| && j < |idx| && idx[j] == list[i];
      }
      if exists j :: 0 <= j < |c| && x in c[j] {
        var j :| 0 <= j < |c| && x in c[j];
        assert Written(idx[j], idx, |c|);
        var i :| 0 <= i < |list| && list[i] == idx[j];
      }
    }
  }


  /** Sorting one key changes what no key finds. */
  lemma {:induction false} SortKeyKeepsFind<K>(s: Store<K>, k: K, o: K)
    requires Valid(s) && SortReadyKey(s, k)
    ensures Valid(SortKey(s, k)) && Find(SortKey(s, k), o) == Find(s, o)
  {
    SortKeyKeepsValid(s, k);
    if k in s.keys && s.keys[k] != [] {
      var r := SortKey(s, k);
      SortKeyEffect(s, k);
      if o == k {
        RewrittenFind(s, k, r);
      } else if o in s.keys {
        RewrittenFrame(s, k, r, o);
        UnionFrame(s.keys[o], r.pages, s.pages);
      }
    }
  }

  /** Sorting one key leaves every key ready to be sorted. */
  lemma {:induction false} SortKeyKeepsReady<K>(s: Store<K>, k: K)
    requires Valid(s) && SortReady(s)
    ensures Valid(SortKey(s, k)) && SortReady(SortKey(s, k))
  {
    SortKeyKeepsValid(s, k);
    var r := SortKey(s, k);
    forall o | o in r.keys ensures SortReadyKey(r, o) {
      SortKeyKeepsReadyAt(s, k, o);
    }
  }

  lemma {:induction false} SortKeyKeepsReadyAt<K>(s: Store<K>, k: K, o: K)
    requires Valid(s) && SortReady(s)
    ensures Valid(SortKey(s, k)) && SortReadyKey(SortKey(s, k), o)
  {
    SortKeyKeepsValid(s, k);
    SortKeyKeepsFind(s, k, o);
    var r := SortKey(s, k);
    if k in s.keys && s.keys[k] != [] && o in r.keys {
      SortKeyEffect(s, k);
      assert o in s.keys && SortReadyKey(s, o);
      if o == k {
        SortCounts(s, k);
        assert |r.keys[k]| >= |Chunks(SortedIds(s, k))|;
      } else {
        assert r.keys[o] == s.keys[o];
      }
    }
  }

  /** One step of `sortAllPages`: invariant, readiness and every key's ids are kept. */
  lemma {:induction false} SortKeyStep<K>(s: Store<K>, k: K)
    requires Valid(s) && SortReady(s)
    ensures Valid(SortKey(s, k)) && SortReady(SortKey(s, k))
    ensures SortKey(s, k).keys.Keys == s.keys.Keys
    ensures forall o :: Find(SortKey(s, k), o) == Find(s, o)
  {
    SortKeyKeepsReady(s, k);
    if k in s.keys {
      SortKeyEffect(s, k);
    }
    forall o ensures Find(SortKey(s, k), o) == Find(s, o) {
      SortKeyKeepsFind(s, k, o);
    }
  }

  /** Contents of pages that agree on the listed pages concatenate alike. */
  lemma {:induction false} ConcatFrame(list: seq<int>, p1: map<int, seq<int>>, p2: map<int, seq<int>>)
    requires ListedIn(list, p1) && ListedIn(list, p2)
    requires forall j :: 0 <= j < |list| ==> p1[list[j]] == p2[list[j]]
    ensures PagesConcat(list, p1) == PagesConcat(list, p2)
  {
    if list != [] {
      ConcatFrame(list[1..], p1, p2);
    }
  }

  /** The sorted ids of a key that contains exactly the ids `ids` ascending. */
  lemma SortedIdsAre<K>(s: Store<K>, k: K, ids: seq<int>)
    requires Valid(s) && k in s.keys
    requires Ascending(ids) && forall x :: x in ids <==> x in Find(s, k)
    ensures SortedIds(s, k) == ids
  {
    SortCounts(s, k);
    AscendingUnique(SortedIds(s, k), ids);
  }

  lemma {:induction false} RewrittenPacked<K>(s: Store<K>, k: K, r: Store<K>)
    requires Valid(s) && k in s.keys && Rewritten(s, k, r)
    ensures Valid(r) && Packed(r, k)
  {
    RewrittenFind(s, k, r);
    var idx := SortedOf(s.keys[k]);
    var c := Chunks(SortedIds(s, k));
    SortCounts(s, k);
    SortedIdsAre(r, k, SortedIds(s, k));
    RewrittenListed(s, k, r);
    PrefixIsSorted(idx, |c|, r.keys[k]);
    RewrittenPackedAs(s, k, r);
    PackedFrom(r, k, idx[..|c|], c);
  }

  lemma RewrittenPackedAs<K>(s: Store<K>, k: K, r: Store<K>)
    requires Valid(s) && k in s.keys && Rewritten(s, k, r)
    ensures var idx := SortedOf(s.keys[k]);
      var c := Chunks(SortedIds(s, k));
      PackedAs(r, idx[..|c|], c)
  {
    var idx := SortedOf(s.keys[k]);
    var c := Chunks(SortedIds(s, k));
    forall j | 0 <= j < |c| ensures idx[..|c|][j] == idx[j] {
    }
  }

  lemma PackedFrom<K>(r: Store<K>, k: K, idx: seq<int>, c: seq<seq<int>>)
    requires Valid(r) && k in r.keys
    requires SortedOf(r.keys[k]) == idx && Chunks(SortedIds(r, k)) == c && PackedAs(r, idx, c)
    ensures Packed(r, k)
  {
  }

  /** The first `n` of an ascending sequence are the sorted form of any list with exactly those elements. */
  lemma PrefixIsSorted(idx: seq<int>, n: nat, list: seq<int>)
    requires Ascending(idx) && n <= |idx|
    requires forall p :: p in list <==> Written(p, idx, n)
    ensures SortedOf(list) == idx[..n]
  {
    var prefix := idx[..n];
    assert Ascending(prefix) by {
      forall i, j | 0 <= i < j < |prefix| ensures prefix[i] < prefix[j] {
        assert prefix[i] == idx[i] && prefix[j] == idx[j];
      }
    }
    forall p ensures p in prefix <==> p in list {
      if p in prefix {
        var j :| 0 <= j < |prefix| && prefix[j] == p;
        assert idx[j] == p;
      }
      if p in list {
        var j :| 0 <= j < n && j < |idx| && idx[j] == p;
        assert prefix[j] == p;
      }
    }
    AscendingUnique(SortedOf(list), prefix);
  }

  /** After `sortKeyPages(k)` the key's pages have the packed layout. */
  lemma {:induction false} SortKeyPacks<K>(s: Store<K>, k: K)
    requires Valid(s) && SortReadyKey(s, k)
    ensures Valid(SortKey(s, k)) && Packed(SortKey(s, k), k)
  {
    SortKeyKeepsValid(s, k);
    if k in s.keys {
      SortKeyEffect(s, k);
      RewrittenPacked(s, k, SortKey(s, k));
    }
  }

  /** Sorting one key leaves another key's list, pages and ids alone, hence its layout. */
  lemma {:induction false} RewrittenKeepsPacked<K>(s: Store<K>, k: K, r: Store<K>, o: K)
    requires Valid(s) && k in s.keys && Rewritten(s, k, r) && o in s.keys && o != k
    requires Packed(s, o)
    ensures Valid(r) && Packed(r, o)
  {
    RewrittenValid(s, k, r);
    RewrittenFrame(s, k, r, o);
    assert KeyOk(s.keys[o], s.pages);
    ConcatFrame(s.keys[o], r.pages, s.pages);
    var idx := SortedOf(s.keys[o]);
    var c := Chunks(SortedIds(s, o));
    assert SortedIds(r, o) == SortedIds(s, o);
    forall j | 0 <= j < |idx| ensures idx[j] in s.keys[o] {
      assert idx[j] in idx;
    }
    assert PackedAs(r, idx, c);
  }

  /** Sorting any key keeps the packed layout of every key that had it. */
  lemma {:induction false} SortKeyKeepsPacked<K>(s: Store<K>, k: K, o: K)
    requires Valid(s) && SortReadyKey(s, k) && Packed(s, o)
    ensures Valid(SortKey(s, k)) && Packed(SortKey(s, k), o)
  {
    SortKeyKeepsValid(s, k);
    if o == k {
      SortKeyPacks(s, k);
    } else if k in s.keys {
      SortKeyEffect(s, k);
      if o in s.keys {
        RewrittenKeepsPacked(s, k, SortKey(s, k), o);
      }
    }
  }

  /** Rewriting a key that is already packed reproduces the same state. */
  lemma {:induction false} RewrittenPackedIsSame<K>(s: Store<K>, k: K, r: Store<K>)
    requires Valid(s) && k in s.keys && Rewritten(s, k, r)
    requires PackedAs(s, SortedOf(s.keys[k]), Chunks(SortedIds(s, k)))
    ensures r == s
  {
    var idx := SortedOf(s.keys[k]);
    var c := Chunks(SortedIds(s, k));
    assert r.keys == s.keys;
    SameWhereWritten(s.pages, r.pages, idx, |c|);
    SameWhereWritten(s.meta, r.meta, idx, |c|);
  }

  /** A table that is rewritten only at the first `n` page indices, each with its old value, is unchanged. */
  lemma SameWhereWritten<V>(before: map<int, V>, after: map<int, V>, idx: seq<int>, n: nat)
    requires after.Keys == before.Keys
    requires forall j :: 0 <= j < n && j < |idx| ==> idx[j] in before && after[idx[j]] == before[idx[j]]
    requires forall p :: p in before && !Written(p, idx, n) ==> after[p] == before[p]
    ensures after == before
  {
    forall p | p in before ensures after[p] == before[p] {
      if Written(p, idx, n) {
        var j :| 0 <= j < n && j < |idx| && idx[j] == p;
      }
    }
  }


  /** `sortKeyPages` on an already packed key changes nothing. */
  lemma {:induction false} SortKeyIdempotent<K>(s: Store<K>, k: K)
    requires Valid(s) && SortReadyKey(s, k) && Packed(s, k)
    ensures SortKey(s, k) == s
  {
    if k in s.keys && s.keys[k] != [] {
      SortKeyEffect(s, k);
      RewrittenPackedIsSame(s, k, SortKey(s, k));
    }
  }

  /** `sortAllPages` leaves every visited key packed. */
  lemma {:induction false} SortAllPacks<K>(s: Store<K>, order: seq<K>)
    requires Valid(s) && SortReady(s)
    ensures forall k :: k in order ==> Packed(SortAll(s, order), k)
    decreases |order|
  {
    if order != [] {
      var s1 := SortKey(s, order[0]);
      SortKeyStep(s, order[0]);
      SortKeyPacks(s, order[0]);
      SortAllPacks(s1, order[1..]);
      SortAllKeepsPacked(s1, order[1..], order[0]);
      assert SortAll(s, order) == SortAll(s1, order[1..]);
      forall k | k in order ensures Packed(SortAll(s, order), k) {
        if k != order[0] {
          assert k in order[1..];
        }
      }
    }
  }

  lemma {:induction false} SortAllKeepsPacked<K>(s: Store<K>, order: seq<K>, k: K)
    requires Valid(s) && SortReady(s) && Packed(s, k)
    ensures Packed(SortAll(s, order), k)
    decreases |order|
  {
    if order != [] {
      SortKeyStep(s, order[0]);
      SortKeyKeepsPacked(s, order[0], k);
      SortAllKeepsPacked(SortKey(s, order[0]), order[1..], k);
    }
  }

  /** Sorting never allocates a page: the next page index stays where it was. */
  lemma {:induction false} SortAllKeepsNext<K>(s: Store<K>, order: seq<K>)
    requires Valid(s) && SortReady(s)
    ensures SortAll(s, order).next == s.next
    decreases |order|
  {
    if order != [] {
      var k := order[0];
      SortKeyStep(s, k);
      if k in s.keys {
        SortKeyEffect(s, k);
      }
      SortAllKeepsNext(SortKey(s, k), order[1..]);
    }
  }

  /** Slot counts stay exact through `sortAllPages`. */
  lemma {:induction false} SortAllKeepsSlotsExact<K>(s: Store<K>, order: seq<K>)
    requires Valid(s) && SortReady(s) && SlotsExact(s)
    ensures SlotsExact(SortAll(s, order))
    decreases |order|
  {
    if order != [] {
      SortKeyStep(s, order[0]);
      SortKeyKeepsValid(s, order[0]);
      SortAllKeepsSlotsExact(SortKey(s, order[0]), order[1..]);
    }
  }

  /**
   * What the packed layout means: the key's pages, taken in ascending
   * page-index order, are each ascending and non-empty, all but the last are
   * full, every id of an earlier page is below every id of a later one, and the
   * metadata holds the page's exact minimum, maximum and size.
   */
  lemma {:induction false} PackedLayout<K>(s: Store<K>, k: K)
    requires Valid(s) && k in s.keys && Packed(s, k)
    ensures var idx := SortedOf(s.keys[k]);
      && (forall j :: 0 <= j < |idx| ==> idx[j] in s.pages && Ascending(s.pages[idx[j]]) && 0 < |s.pages[idx[j]]| <= PAGE_SIZE)
      && (forall j :: 0 <= j < |idx| - 1 ==> |s.pages[idx[j]]| == PAGE_SIZE)
      && (forall j1, j2, x, y :: 0 <= j1 < j2 < |idx| && x in s.pages[idx[j1]] && y in s.pages[idx[j2]] ==> x < y)
      && (forall j, x :: 0 <= j < |idx| && x in s.pages[idx[j]] ==> Brackets(s.meta[idx[j]], x))
      && (forall j :: 0 <= j < |idx| ==> s.meta[idx[j]].slotsUsed == |s.pages[idx[j]]|)
  {
    var idx := SortedOf(s.keys[k]);
    var ids := SortedIds(s, k);
    var c := Chunks(ids);
    AscendingChunks(ids);
    forall j, x | 0 <= j < |idx| && x in s.pages[idx[j]] ensures Brackets(s.meta[idx[j]], x) {
      var page := c[j];
      var i :| 0 <= i < |page| && page[i] == x;
      assert page[0] <= page[i] <= page[|page| - 1];
    }
  }

  /** A sequence has at most as many distinct elements as entries. */
  lemma {:induction false} SeqSetCard(page: seq<int>)
    ensures |set x | x in page| <= |page|
  {
    if page != [] {
      SeqSetCard(page[1..]);
      assert (set x | x in page) == {page[0]} + (set x | x in page[1..]) by {
        assert page == [page[0]] + page[1..];
      }
    }
  }

  /** Pages of at most `PAGE_SIZE` ids hold at most `PAGE_SIZE` distinct ids each. */
  lemma {:induction false} UnionCard(list: seq<int>, pages: map<int, seq<int>>)
    requires ListedIn(list, pages)
    requires forall j :: 0 <= j < |list| ==> |pages[list[j]]| <= PAGE_SIZE
    ensures |PagesUnion(list, pages)| <= |list| * PAGE_SIZE
  {
    if list != [] {
      UnionCard(list[1..], pages);
      SeqSetCard(pages[list[0]]);
      var a := set x | x in pages[list[0]];
      var b := PagesUnion(list[1..], pages);
      assert |a + b| <= |a| + |b| by {
        assert |a + b| + |a * b| == |a| + |b|;
      }
    }
  }

  /**
   * The precondition of `sortKeyPages` holds whenever no listed page holds more
   * than `PAGE_SIZE` ids. Insertion can exceed that bound (see `Fits`), which is
   * when the source's page-index array is read past its end.
   */
  lemma ReadyWhenPagesFit<K>(s: Store<K>, k: K)
    requires Valid(s)
    requires k in s.keys ==> forall j :: 0 <= j < |s.keys[k]| ==> |s.pages[s.keys[k][j]]| <= PAGE_SIZE
    ensures SortReadyKey(s, k)
  {
    if k in s.keys {
      assert KeyOk(s.keys[k], s.pages);
      UnionCard(s.keys[k], s.pages);
    }
  }
}
