/**
 * Opening an index: the page metadata is not persisted, so it is rebuilt from
 * the stored pages, and the next free page index follows the largest stored one.
 */
module PagedIndexLoading {
  import opened Wrappers
  import opened PagedIndexModel
  import opened SortedChunks
  import opened PagedIndexSorting

  /** Metadata rebuilt from a stored page: its length, its first id and its last id. */
  function LoadedMeta(page: seq<int>): (m: Meta)
    ensures MetaOk(m, page) && m.slotsUsed == |page|
    ensures m.minId.None? <==> page == []
    ensures page != [] ==> m.minId.value in page && m.maxId.value in page
  {
    if page == [] then Meta(None, None, 0)
    else Meta(Some(page[0]), Some(page[|page| - 1]), |page|)
  }

  function LoadedMetaMap(pages: map<int, seq<int>>): map<int, Meta> {
    map p | p in pages :: LoadedMeta(pages[p])
  }

  /** `n` is one past the largest used page index, or 0 when none is used. */
  predicate IsNextIndex(n: int, used: set<int>) {
    && (used == {} ==> n == 0)
    && (used != {} ==> n - 1 in used && forall p :: p in used ==> p < n)
  }

  /** What the opening code relies on in the persisted maps: duplicate-free page lists of stored pages, no page shared by two keys, and enough listed pages for every key's ids. */
  predicate PersistedOk<K>(keys: map<K, seq<int>>, pages: map<int, seq<int>>) {
    && (forall k :: k in keys ==> KeyOk(keys[k], pages))
    && (forall k1, k2, p :: k1 in keys && k2 in keys && k1 != k2 && p in keys[k1] ==> p !in keys[k2])
    && (forall k :: k in keys ==> NeededPages(|PagesUnion(keys[k], pages)|) <= |keys[k]|)
  }

  /** The state right after the metadata rebuild, before any sorting. */
  function Loaded<K>(keys: map<K, seq<int>>, pages: map<int, seq<int>>, n: int): (s: Store<K>)
    requires PersistedOk(keys, pages) && IsNextIndex(n, pages.Keys)
    ensures Valid(s) && SlotsExact(s) && SortReady(s)
    ensures s.keys == keys && s.pages == pages && s.next == n
  {
    var s := Store(keys, pages, LoadedMetaMap(pages), n);
    assert forall p :: p in s.meta ==> MetaOk(s.meta[p], s.pages[p]);
    assert Valid(s);
    assert forall k :: k in keys ==> Find(s, k) == PagesUnion(keys[k], pages);
    s
  }

  /** The next page index is determined by the used page indices. */
  lemma NextIndexUnique(n1: int, n2: int, used: set<int>)
    requires IsNextIndex(n1, used) && IsNextIndex(n2, used)
    ensures n1 == n2
  {
    if used != {} {
      assert n1 - 1 < n2 && n2 - 1 < n1;
    }
  }

  /** For a page stored in ascending order the rebuilt bounds are the page's true minimum and maximum. */
  lemma LoadedMetaBrackets(page: seq<int>)
    requires Ascending(page)
    ensures forall x :: x in page ==> Brackets(LoadedMeta(page), x)
    ensures page != [] ==> LoadedMeta(page).minId.value in page && LoadedMeta(page).maxId.value in page
  {
    forall x | x in page ensures Brackets(LoadedMeta(page), x) {
      var i :| 0 <= i < |page| && page[i] == x;
      assert page[0] <= page[i] <= page[|page| - 1];
    }
  }

  /** The rebuilt maximum is the last stored id, which for an unsorted page need not be the largest. */
  lemma LoadedMaxIsLast()
    ensures LoadedMeta([1, 5, 3]).maxId == Some(3) && !Brackets(LoadedMeta([1, 5, 3]), 5)
  {
  }

  /** Every non-empty set of page indices has a least element. */
  lemma LeastExists(used: set<int>) returns (m: int)
    requires used != {}
    ensures m in used && forall p :: p in used ==> m <= p
    decreases |used|
  {
    assert (forall x :: x !in used) ==> used == {};
    var x :| x in used;
    if used == {x} {
      m := x;
    } else {
      var r := LeastExists(used - {x});
      assert forall p :: p in used ==> p == x || p in used - {x};
      m := if x < r then x else r;
    }
  }
}
