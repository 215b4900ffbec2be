/**
 * `MVStoreIndex`: a secondary index whose state lives in three tables that its
 * methods update in place. Every method is specified by the function of the
 * same operation on `Store` values (modules PagedIndexModel, PagedIndexSorting
 * and PagedIndexLoading), where the properties of the operation are proved.
 */
module MVStoreIndex {
  import opened Wrappers
  import opened PagedIndexModel
  import opened SortedChunks
  import opened PagedIndexSorting
  import opened PagedIndexLoading
  import opened PagedIndexInsertion
  import opened PagedIndexRemoval
  import opened PagedIndexBatch

  /** Rebuilds one page's metadata by walking its slots: count them, remember the last one, and take the head as the minimum. */
  method LoadPageMeta(page: seq<int>) returns (m: Meta)
    ensures m == LoadedMeta(page)
  {
    var slots: nat := 0;
    var maxId: Option<int> := None;
    for i := 0 to |page|
      invariant slots == i
      invariant i == 0 ==> maxId == None
      invariant i > 0 ==> maxId == Some(page[i - 1])
    {
      slots := slots + 1;
      maxId := Some(page[i]);
    }
    var minId := if slots > 0 then Some(page[0]) else None;
    m := Meta(minId, maxId, slots);
  }

  /** The constructor's metadata rebuild: visits the stored pages in ascending page-index order, rebuilding each page's metadata and setting the next page index past the page just visited. */
  method RebuildMeta(persistedPages: map<int, seq<int>>) returns (loaded: map<int, Meta>, next: int)
    ensures loaded == LoadedMetaMap(persistedPages)
    ensures IsNextIndex(next, persistedPages.Keys)
  {
    loaded := map[];
    next := 0;
    var remaining := persistedPages.Keys;
    while remaining != {}
      invariant RebuildInv(persistedPages, remaining, loaded, next)
      decreases |remaining|
    {
      ghost var least := LeastExists(remaining);
      var p :| p in remaining && forall q :: q in remaining ==> p <= q;
      var m := LoadPageMeta(persistedPages[p]);
      RebuildStep(persistedPages, remaining, loaded, next, p, m);
      next := p + 1;
      loaded := loaded[p := m];
      remaining := remaining - {p};
    }
    RebuildDone(persistedPages, loaded, next);
  }

  /** The rebuild loop's invariant: the visited pages are those not remaining, each has its rebuilt metadata, and `next` is the next page index of the visited pages, at or below every remaining one. */
  ghost predicate RebuildInv(pages: map<int, seq<int>>, remaining: set<int>, loaded: map<int, Meta>, next: int) {
    && remaining <= pages.Keys
    && loaded.Keys == pages.Keys - remaining
    && (forall p :: p in loaded ==> p in pages && loaded[p] == LoadedMeta(pages[p]))
    && IsNextIndex(next, loaded.Keys)
    && (loaded.Keys != {} ==> forall r :: r in remaining ==> next <= r)
  }

  lemma RebuildStep(pages: map<int, seq<int>>, remaining: set<int>, loaded: map<int, Meta>, next: int, p: int, m: Meta)
    requires RebuildInv(pages, remaining, loaded, next)
    requires p in remaining && forall q :: q in remaining ==> p <= q
    requires m == LoadedMeta(pages[p])
    ensures RebuildInv(pages, remaining - {p}, loaded[p := m], p + 1)
  {
    NextAfterLeast(loaded.Keys, remaining, next, p);
    assert loaded[p := m].Keys == loaded.Keys + {p};
  }

  lemma RebuildDone(pages: map<int, seq<int>>, loaded: map<int, Meta>, next: int)
    requires RebuildInv(pages, {}, loaded, next)
    ensures loaded == LoadedMetaMap(pages)
    ensures IsNextIndex(next, pages.Keys)
  {
    assert loaded.Keys == pages.Keys;
    assert forall p :: p in pages ==> loaded[p] == LoadedMetaMap(pages)[p];
  }

  /** Visiting the least unvisited page index `p` makes `p + 1` the next page index of the visited ones, and it stays at or below every page index still unvisited. */
  lemma NextAfterLeast(done: set<int>, remaining: set<int>, next: int, p: int)
    requires done != {} ==> IsNextIndex(next, done) && forall r :: r in remaining ==> next <= r
    requires p in remaining && forall q :: q in remaining ==> p <= q
    ensures IsNextIndex(p + 1, done + {p})
    ensures forall r :: r in remaining - {p} ==> p + 1 <= r
  {
    forall q | q in done + {p} ensures q < p + 1 {
      if q in done {
        assert q < next <= p;
      }
    }
  }

  /** The ids from position `i` on, empty once `i` has passed the end. */
  function From(ids: seq<int>, i: nat): seq<int> {
    if i < |ids| then ids[i..] else []
  }

  class Index<K(==)> {
    /** Index key -> page indices (the key map). */
    var keys: map<K, seq<int>>
    /** Page index -> ids stored in that page (the pages map). */
    var pages: map<int, seq<int>>
    /** Page index -> metadata, kept in memory only. */
    var meta: map<int, Meta>
    var nextPageIndex: int

    function State(): Store<K>
      reads this
    {
      Store(keys, pages, meta, nextPageIndex)
    }

    predicate Valid()
      reads this
    {
      PagedIndexModel.Valid(State())
    }

    /**
     * Opens the index over persisted key and page maps: rebuilds the metadata
     * of every page in ascending page-index order, sets the next page index
     * past the last one, then sorts the pages of every key in `keyOrder`, the
     * order in which the key map yields its keys.
     */
    constructor(persistedKeys: map<K, seq<int>>, persistedPages: map<int, seq<int>>, keyOrder: seq<K>)
      requires PersistedOk(persistedKeys, persistedPages)
      requires forall k :: k in keyOrder <==> k in persistedKeys
      ensures Valid() && SlotsExact(State())
      ensures IsNextIndex(nextPageIndex, persistedPages.Keys)
      ensures State() == SortAll(Loaded(persistedKeys, persistedPages, nextPageIndex), keyOrder)
      ensures forall k :: k in keys ==> Packed(State(), k)
    {
      var loaded, next := RebuildMeta(persistedPages);
      keys := persistedKeys;
      pages := persistedPages;
      meta := loaded;
      nextPageIndex := next;
      new;
      ghost var loadedState := Loaded(persistedKeys, persistedPages, next);
      assert State() == loadedState;
      SortAllPages(keyOrder);
      SortAllKeepsNext(loadedState, keyOrder);
      SortAllPacks(loadedState, keyOrder);
      SortAllKeepsSlotsExact(loadedState, keyOrder);
    }

    /** `update(indexKey, id)`: an absent key is skipped. */
    method Update(key: Option<K>, id: int)
      requires Valid()
      modifies this
      ensures Valid()
      ensures State() == InsertKey(old(State()), key, id)
    {
      if key.Some? {
        InsertToPage(key.value, id);
      }
    }

    /** `update(indexKeys[], id)`: inserts `id` under every present key of the array, in order. */
    method UpdateArray(keyArray: seq<Option<K>>, id: int)
      requires Valid()
      modifies this
      ensures Valid()
      ensures State() == InsertAll(old(State()), keyArray, id)
    {
      for i := 0 to |keyArray|
        invariant Valid()
        invariant InsertAll(State(), keyArray[i..], id) == InsertAll(old(State()), keyArray, id)
      {
        assert keyArray[i..][1..] == keyArray[i + 1..];
        Update(keyArray[i], id);
      }
    }

    /** `remove(indexKey, id)`: an absent key is skipped. */
    method Remove(key: Option<K>, id: int)
      requires Valid()
      modifies this
      ensures Valid()
      ensures State() == RemoveKey(old(State()), key, id)
    {
      if key.Some? {
        RemoveFromPage(key.value, id);
      }
    }

    /** `remove(indexKeys[], id)`: removes `id` under every present key of the array, in order. */
    method RemoveArray(keyArray: seq<Option<K>>, id: int)
      requires Valid()
      modifies this
      ensures Valid()
      ensures State() == RemoveAll(old(State()), keyArray, id)
    {
      for i := 0 to |keyArray|
        invariant Valid()
        invariant RemoveAll(State(), keyArray[i..], id) == RemoveAll(old(State()), keyArray, id)
      {
        assert keyArray[i..][1..] == keyArray[i + 1..];
        Remove(keyArray[i], id);
      }
    }

    /** The page-selection loop of `insertToPage`: the position in `k`'s list of the first page whose minimum is set and at most `id` and that spans `id` or has a free slot. */
    method FirstFit(k: K, id: int) returns (r: Option<nat>)
      requires Valid()
      ensures r == FirstIndex(ListOf(State(), k), meta, m => Fits(m, id))
    {
      var list := if k in keys then keys[k] else [];
      assert KeyOk(list, pages) by {
        if k in keys {
          assert KeyOk(keys[k], pages);
        }
      }
      var i := 0;
      while i < |list|
        invariant 0 <= i <= |list|
        invariant forall j :: 0 <= j < i ==> !Fits(meta[list[j]], id)
      {
        var p := list[i];
        var m := meta[p];
        assert MetaOk(m, pages[p]);
        if m.minId.None? || m.minId.value > id {
          i := i + 1;
          continue;
        }
        if m.maxId.value > id || m.slotsUsed < PAGE_SIZE {
          FirstIndexIs(list, meta, m => Fits(m, id), i);
          return Some(i);
        }
        i := i + 1;
      }
      return None;
    }

    /** `insertToPage`: appends `id` to the first page of `k` that fits it unless that page already holds it, or stores it in a new page. */
    method InsertToPage(k: K, id: int)
      requires Valid()
      modifies this
      ensures Valid()
      ensures State() == Insert(old(State()), k, id)
    {
      ghost var s := State();
      InsertKeepsValid(s, k, id);
      InsertOutcome(s, k, id);
      var list := if k in keys then keys[k] else [];
      var matched := FirstFit(k, id);
      if matched.None? {
        AddPage(k, list, id);
      } else {
        AppendId(list[matched.value], id);
      }
    }

    /** The no-match branch of `insertToPage`: a new page holding just `id` under the next page index, appended to `k`'s list. */
    method AddPage(k: K, list: seq<int>, id: int)
      modifies this
      ensures State() == Store(old(keys)[k := list + [old(nextPageIndex)]], old(pages)[old(nextPageIndex) := [id]],
                               old(meta)[old(nextPageIndex) := SingletonMeta(id)], old(nextPageIndex) + 1)
    {
      keys := keys[k := list + [nextPageIndex]];
      pages := pages[nextPageIndex := [id]];
      meta := meta[nextPageIndex := Meta(Some(id), Some(id), 1)];
      nextPageIndex := nextPageIndex + 1;
    }

    /** The match branch of `insertToPage`: `id` is appended to page `p` unless the page already holds it. */
    method AppendId(p: int, id: int)
      requires p in pages && p in meta
      modifies this
      ensures State() == AppendToPage(old(State()), p, id)
    {
      var page := pages[p];
      if id !in page {
        var m := meta[p];
        var maxId := if m.maxId.Some? && m.maxId.value < id then Some(id) else m.maxId;
        pages := pages[p := page + [id]];
        meta := meta[p := Meta(m.minId, maxId, m.slotsUsed + 1)];
      }
    }

    /** The page-selection loop of `removeFromPage`: the position in `k`'s list of the first page whose recorded range contains `id`. */
    method FirstBracketing(k: K, id: int) returns (r: Option<nat>)
      requires Valid() && k in keys
      ensures r == FirstIndex(keys[k], meta, m => Brackets(m, id))
    {
      var list := keys[k];
      assert KeyOk(list, pages);
      var i := 0;
      while i < |list|
        invariant 0 <= i <= |list|
        invariant forall j :: 0 <= j < i ==> !Brackets(meta[list[j]], id)
      {
        var p := list[i];
        var m := meta[p];
        assert MetaOk(m, pages[p]);
        if m.minId.None? || m.minId.value > id || m.maxId.value < id {
          i := i + 1;
          continue;
        }
        FirstIndexIs(list, meta, m => Brackets(m, id), i);
        return Some(i);
      }
      return None;
    }

    /** `removeFromPage`: removes `id` from the first page of `k` whose range brackets it and decrements the page's slot count, dropping the page once that count reaches zero. */
    method RemoveFromPage(k: K, id: int)
      requires Valid()
      modifies this
      ensures Valid()
      ensures State() == PagedIndexModel.Remove(old(State()), k, id)
    {
      ghost var s := State();
      RemoveKeepsValid(s, k, id);
      if k !in keys {
        return;
      }
      var list := keys[k];
      var found := FirstBracketing(k, id);
      if found.None? {
        return;
      }
      var p := list[found.value];
      var m := meta[p];
      assert MetaOk(m, pages[p]);
      var page := RemoveFirst(pages[p], id);
      var slots := m.slotsUsed - 1;
      if slots == 0 {
        pages := pages - {p};
        keys := keys[k := RemoveFirst(list, p)];
        meta := meta - {p};
      } else {
        var maxId := if m.maxId == Some(id) then Some(Max(page)) else m.maxId;
        var minId := if m.minId == Some(id) then Some(page[0]) else m.minId;
        pages := pages[p := page];
        meta := meta[p := Meta(minId, maxId, slots)];
      }
    }

    /** `find`: the union of the contents of the pages listed under `k`. */
    method Find(k: K) returns (r: set<int>)
      requires Valid()
      ensures r == PagedIndexModel.Find(State(), k)
    {
      ghost var s := State();
      if k !in keys {
        return {};
      }
      var list := keys[k];
      assert KeyOk(list, pages);
      r := {};
      for i := 0 to |list|
        invariant forall x :: x in r <==> exists j :: 0 <= j < i && x in pages[list[j]]
      {
        r := r + set x | x in pages[list[i]];
      }
      assert forall x :: x in r <==> x in PagedIndexModel.Find(s, k);
    }

    /**
     * `sortKeyPages`: collects the ids of `k`'s pages, sorts them, and writes
     * them back `PAGE_SIZE` at a time into the key's pages in ascending
     * page-index order; page indices left over are cut from the key's list.
     */
    method SortKeyPages(k: K)
      requires Valid() && SortReadyKey(State(), k)
      modifies this
      ensures Valid()
      ensures State() == SortKey(old(State()), k)
    {
      ghost var s := State();
      SortKeyKeepsValid(s, k);
      if k !in keys || |keys[k]| == 0 {
        return;
      }
      var pageIndices := SortedOf(keys[k]);
      SortedPagesStored(s, k);
      var collected := CollectIds(pageIndices, pages);
      var sortedIds := SortedOf(collected);
      CollectedAreFound(s, k, pageIndices, collected);
      SortedIdsAre(s, k, sortedIds);
      var n := WriteChunks(pageIndices, sortedIds);
      if n < |pageIndices| {
        keys := keys[k := pageIndices[..n]];
      }
    }

    /** The chunk loop of `sortKeyPages`: chunk after chunk of `sortedIds` goes into the next page of `pageIndices`, with first id, last id and length as its metadata. */
    method WriteChunks(pageIndices: seq<int>, sortedIds: seq<int>) returns (n: nat)
      requires NeededPages(|sortedIds|) <= |pageIndices|
      modifies this
      ensures n == |Chunks(sortedIds)|
      ensures State() == Pack(old(State()), pageIndices, Chunks(sortedIds))
    {
      ghost var target := Pack(State(), pageIndices, Chunks(sortedIds));
      assert From(sortedIds, 0) == sortedIds;
      n := 0;
      var i := 0;
      while i < |sortedIds|
        invariant ChunkLoopInv(State(), pageIndices, sortedIds, n, i, target)
      {
        ChunkLoopStep(State(), pageIndices, sortedIds, n, i, target);
        var p := pageIndices[n];
        var len := if PAGE_SIZE < |sortedIds| - i then PAGE_SIZE else |sortedIds| - i;
        WriteChunk(p, sortedIds[i..i + len]);
        n := n + 1;
        i := i + PAGE_SIZE;
      }
      ChunkLoopDone(State(), pageIndices, sortedIds, n, i, target);
    }

    /** Stores one chunk as page `p`, with its first id, last id and length as the page's metadata. */
    method WriteChunk(p: int, page: seq<int>)
      requires |page| > 0
      modifies this
      ensures State() == WritePage(old(State()), p, page)
    {
      var m := Meta(Some(page[0]), Some(page[|page| - 1]), |page|);
      assert m == ChunkMeta(page);
      pages := pages[p := page];
      meta := meta[p := m];
    }

    /** `sortAllPages`: sorts the pages of every key, in the order given. */
    method SortAllPages(order: seq<K>)
      requires Valid() && SortReady(State())
      modifies this
      ensures Valid()
      ensures State() == SortAll(old(State()), order)
    {
      var i := 0;
      while i < |order|
        invariant 0 <= i <= |order|
        invariant Valid() && SortReady(State())
        invariant SortAll(State(), order[i..]) == SortAll(old(State()), order)
      {
        SortKeyStep(State(), order[i]);
        assert order[i..][1..] == order[i + 1..];
        SortKeyPages(order[i]);
        i := i + 1;
      }
    }
  }

  /** The id-collecting loop of `sortKeyPages`; duplicates are kept here and dropped by the sort, as the source's hash set drops them. */
  method CollectIds(pageIndices: seq<int>, pages: map<int, seq<int>>) returns (collected: seq<int>)
    requires forall j :: 0 <= j < |pageIndices| ==> pageIndices[j] in pages
    ensures forall x :: x in collected <==> exists i :: 0 <= i < |pageIndices| && x in pages[pageIndices[i]]
  {
    collected := [];
    for j := 0 to |pageIndices|
      invariant forall x :: x in collected <==> exists i :: 0 <= i < j && x in pages[pageIndices[i]]
    {
      collected := collected + pages[pageIndices[j]];
    }
  }

  /** The sorted page list of a key names stored pages, and there are enough of them for the key's ids when the key is ready to sort. */
  lemma SortedPagesStored<K>(s: Store<K>, k: K)
    requires Valid(s) && k in s.keys && SortReadyKey(s, k)
    ensures forall j :: 0 <= j < |SortedOf(s.keys[k])| ==> SortedOf(s.keys[k])[j] in s.pages && SortedOf(s.keys[k])[j] in s.meta
    ensures NeededPages(|SortedIds(s, k)|) <= |SortedOf(s.keys[k])|
  {
    var idx := SortedOf(s.keys[k]);
    SortCounts(s, k);
    assert KeyOk(s.keys[k], s.pages);
    forall j | 0 <= j < |idx| ensures idx[j] in s.pages {
      assert idx[j] in idx;
    }
  }

  /** The ids collected from the sorted page list are exactly the ids found under the key. */
  lemma CollectedAreFound<K>(s: Store<K>, k: K, pageIndices: seq<int>, collected: seq<int>)
    requires Valid(s) && k in s.keys && pageIndices == SortedOf(s.keys[k])
    requires forall j :: 0 <= j < |pageIndices| ==> pageIndices[j] in s.pages
    requires forall x :: x in collected <==> exists i :: 0 <= i < |pageIndices| && x in s.pages[pageIndices[i]]
    ensures Ascending(SortedOf(collected)) && forall x :: x in SortedOf(collected) <==> x in Find(s, k)
  {
    assert KeyOk(s.keys[k], s.pages);
    UnionBySet(pageIndices, s.keys[k], s.pages);
  }

  /** The chunks from position `i` on: the slice at `i`, then the chunks a page further on. */
  lemma ChunksStep(ids: seq<int>, i: nat)
    requires i < |ids|
    ensures var len := if PAGE_SIZE < |ids| - i then PAGE_SIZE else |ids| - i;
      Chunks(From(ids, i)) == [ids[i..i + len]] + Chunks(From(ids, i + PAGE_SIZE))
  {
    var len := if PAGE_SIZE < |ids| - i then PAGE_SIZE else |ids| - i;
    ChunksFrom(ids, i);
    assert From(ids, i + PAGE_SIZE) == ids[i + len..];
  }

  /** The chunk loop's invariant: `n` chunks are written, and packing the chunks from position `i` into the pages from `n` on yields the packed state. */
  ghost predicate ChunkLoopInv<K>(st: Store<K>, idx: seq<int>, ids: seq<int>, n: nat, i: nat, target: Store<K>) {
    && n <= |idx|
    && n + |Chunks(From(ids, i))| == |Chunks(ids)|
    && NeededPages(|ids|) <= |idx|
    && Pack(st, idx[n..], Chunks(From(ids, i))) == target
  }

  /** One turn of the chunk loop keeps its invariant. */
  lemma ChunkLoopStep<K>(st: Store<K>, idx: seq<int>, ids: seq<int>, n: nat, i: nat, target: Store<K>)
    requires ChunkLoopInv(st, idx, ids, n, i, target) && i < |ids|
    ensures n < |idx|
    ensures var len := if PAGE_SIZE < |ids| - i then PAGE_SIZE else |ids| - i;
      && len > 0
      && ChunkLoopInv(WritePage(st, idx[n], ids[i..i + len]), idx, ids, n + 1, i + PAGE_SIZE, target)
  {
    PackStep(st, idx, n, ids, i);
  }

  /** Once past the end, the loop has written every chunk. */
  lemma ChunkLoopDone<K>(st: Store<K>, idx: seq<int>, ids: seq<int>, n: nat, i: nat, target: Store<K>)
    requires ChunkLoopInv(st, idx, ids, n, i, target) && i >= |ids|
    ensures n == |Chunks(ids)| && st == target
  {
  }

  /** One turn of the chunk loop: writing chunk `n` into page `idx[n]` is the first step of packing the remaining chunks. */
  lemma PackStep<K>(before: Store<K>, idx: seq<int>, n: nat, ids: seq<int>, i: nat)
    requires n < |idx| && i < |ids|
    ensures var len := if PAGE_SIZE < |ids| - i then PAGE_SIZE else |ids| - i;
      && |Chunks(From(ids, i))| == 1 + |Chunks(From(ids, i + PAGE_SIZE))|
      && Pack(WritePage(before, idx[n], ids[i..i + len]), idx[n + 1..], Chunks(From(ids, i + PAGE_SIZE)))
         == Pack(before, idx[n..], Chunks(From(ids, i)))
  {
    var len := if PAGE_SIZE < |ids| - i then PAGE_SIZE else |ids| - i;
    var rest := Chunks(From(ids, i + PAGE_SIZE));
    ChunksStep(ids, i);
    assert idx[n..][1..] == idx[n + 1..] && idx[n..][0] == idx[n];
    PackCons(before, idx[n..], ids[i..i + len], rest);
  }
}
