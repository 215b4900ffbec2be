/**
 * The paged secondary index as values: an index key maps to an ordered list of
 * page indices, a page index maps to the ids stored in that page, and an
 * in-memory metadata table keeps minimum id, maximum id and slot count per page.
 * The functions here specify the imperative class in MVStoreIndex.
 */
module PagedIndexModel {
  import opened Wrappers

  /** Nominal capacity of one page. */
  const PAGE_SIZE: nat := 1000

  /** Metadata of one page; `minId` and `maxId` are nullable as in the source. */
  datatype Meta = Meta(minId: Option<int>, maxId: Option<int>, slotsUsed: nat)

  /** The whole index state: key -> page list, page -> content, page -> metadata, next page index. */
  datatype Store<K> = Store(keys: map<K, seq<int>>, pages: map<int, seq<int>>, meta: map<int, Meta>, next: int)

  predicate NoDup<T(==)>(s: seq<T>) {
    forall i, j :: 0 <= i < j < |s| ==> s[i] != s[j]
  }

  /** Every page index of a list has stored content. */
  predicate ListedIn(list: seq<int>, pages: map<int, seq<int>>) {
    forall j :: 0 <= j < |list| ==> list[j] in pages
  }

  /** What the code relies on from a page's metadata: both bounds set or both unset, at least one slot when set, and never more slots than stored ids. */
  predicate MetaOk(m: Meta, page: seq<int>) {
    && m.minId.Some? == m.maxId.Some?
    && (m.minId.Some? ==> 1 <= m.slotsUsed)
    && m.slotsUsed <= |page|
  }

  predicate KeyOk(list: seq<int>, pages: map<int, seq<int>>) {
    NoDup(list) && ListedIn(list, pages)
  }

  /** The invariant every operation of the index keeps: metadata exactly for stored pages, all page indices below `next`, duplicate-free page lists of stored pages, and no page shared by two keys. */
  predicate Valid<K>(s: Store<K>) {
    && s.meta.Keys == s.pages.Keys
    && (forall p :: p in s.pages ==> p < s.next)
    && (forall p :: p in s.meta ==> MetaOk(s.meta[p], s.pages[p]))
    && (forall k :: k in s.keys ==> KeyOk(s.keys[k], s.pages))
    && Disjoint(s)
  }

  /** Every page's slot count equals its number of stored ids. */
  predicate SlotsExact<K>(s: Store<K>) {
    forall p :: p in s.meta && p in s.pages ==> s.meta[p].slotsUsed == |s.pages[p]|
  }

  /** No page index is listed under two different keys. */
  predicate Disjoint<K>(s: Store<K>) {
    forall k1, k2, p :: k1 in s.keys && k2 in s.keys && k1 != k2 && p in s.keys[k1] ==> p !in s.keys[k2]
  }

  function ListOf<K>(s: Store<K>, k: K): seq<int> {
    if k in s.keys then s.keys[k] else []
  }

  /** Position of the first listed page whose metadata satisfies `accept`. */
  function FirstIndex(list: seq<int>, meta: map<int, Meta>, accept: Meta -> bool): (r: Option<nat>)
    requires forall j :: 0 <= j < |list| ==> list[j] in meta
    ensures r.Some? ==> r.value < |list| && accept(meta[list[r.value]])
    ensures r.Some? ==> forall j :: 0 <= j < r.value ==> !accept(meta[list[j]])
    ensures r.None? ==> forall j :: 0 <= j < |list| ==> !accept(meta[list[j]])
  {
    if list == [] then None
    else if accept(meta[list[0]]) then Some(0)
    else match FirstIndex(list[1..], meta, accept)
      case None => None
      case Some(j) => Some(j + 1)
  }

  /** The first accepted position is the one `FirstIndex` reports. */
  lemma {:induction false} FirstIndexIs(list: seq<int>, meta: map<int, Meta>, accept: Meta -> bool, j: nat)
    requires forall i :: 0 <= i < |list| ==> list[i] in meta
    requires j < |list| && accept(meta[list[j]])
    requires forall i :: 0 <= i < j ==> !accept(meta[list[i]])
    ensures FirstIndex(list, meta, accept) == Some(j)
  {
    if j > 0 {
      assert !accept(meta[list[0]]);
      FirstIndexIs(list[1..], meta, accept, j - 1);
    }
  }

  /** Insertion accepts a page whose minimum is set and at most `id`, and that either already spans `id` or has a free slot. */
  predicate Fits(m: Meta, id: int): (r: bool)
    ensures m.minId.None? ==> !r
    ensures r && m.slotsUsed >= PAGE_SIZE ==> m.minId.Some? && m.maxId.Some? && m.minId.value <= id < m.maxId.value
    ensures m.minId.Some? && m.minId.value <= id && m.slotsUsed < PAGE_SIZE ==> r
  {
    m.minId.Some? && m.minId.value <= id && ((m.maxId.Some? && m.maxId.value > id) || m.slotsUsed < PAGE_SIZE)
  }

  /** Removal accepts a page whose recorded range `[minId, maxId]` contains `id`. */
  predicate Brackets(m: Meta, id: int) {
    m.minId.Some? && m.maxId.Some? && m.minId.value <= id <= m.maxId.value
  }

  /** Removes the first occurrence of `x`, as a queue's `remove` does. */
  function RemoveFirst<T(==)>(s: seq<T>, x: T): (r: seq<T>)
    ensures x in s ==> |r| == |s| - 1 && multiset(r) == multiset(s) - multiset{x}
    ensures x !in s ==> r == s
  {
    if s == [] then []
    else
      assert s == [s[0]] + s[1..];
      assert multiset(s) == multiset{s[0]} + multiset(s[1..]);
      if s[0] == x then s[1..]
      else
        var t := RemoveFirst(s[1..], x);
        assert x in s ==> x in s[1..];
        assert multiset([s[0]] + t) == multiset{s[0]} + multiset(t);
        [s[0]] + t
  }

  /** Largest element of a non-empty sequence. */
  function Max(s: seq<int>): (r: int)
    requires |s| > 0
    ensures r in s && forall x :: x in s ==> x <= r
  {
    if |s| == 1 then s[0]
    else
      var m := Max(s[1..]);
      assert s == [s[0]] + s[1..];
      if s[0] < m then m else s[0]
  }

  /** The union of the contents of the listed pages. */
  function PagesUnion(list: seq<int>, pages: map<int, seq<int>>): (r: set<int>)
    requires ListedIn(list, pages)
    ensures forall x :: x in r <==> exists j :: 0 <= j < |list| && x in pages[list[j]]
  {
    if list == [] then {}
    else
      var rest := PagesUnion(list[1..], pages);
      assert forall x :: (exists j :: 1 <= j < |list| && x in pages[list[j]]) ==> x in rest by {
        forall x | exists j :: 1 <= j < |list| && x in pages[list[j]] ensures x in rest {
          var j :| 1 <= j < |list| && x in pages[list[j]];
          assert list[1..][j - 1] == list[j];
        }
      }
      (set x | x in pages[list[0]]) + rest
  }

  /** The ids indexed under `k`: empty when `k` has no page list. */
  function Find<K>(s: Store<K>, k: K): (r: set<int>)
    requires Valid(s)
    ensures k !in s.keys ==> r == {}
    ensures k in s.keys ==> forall x :: x in r <==> exists j :: 0 <= j < |s.keys[k]| && x in s.pages[s.keys[k][j]]
  {
    if k !in s.keys then {} else PagesUnion(s.keys[k], s.pages)
  }

  /** Metadata of a freshly allocated page holding just `id`. */
  function SingletonMeta(id: int): Meta {
    Meta(Some(id), Some(id), 1)
  }

  /** `insertToPage`: first-fit page selection, else a new page under `next`. */
  function Insert<K>(s: Store<K>, k: K, id: int): (r: Store<K>)
    requires Valid(s)
    ensures r.keys.Keys == s.keys.Keys + {k}
    ensures forall k' :: k' in s.keys && k' != k ==> r.keys[k'] == s.keys[k']
    ensures r.next == s.next || r.next == s.next + 1
    ensures r.next == s.next + 1 ==> r.keys[k] == ListOf(s, k) + [s.next] && s.next in r.pages && r.pages[s.next] == [id]
  {
    var list := ListOf(s, k);
    match FirstIndex(list, s.meta, m => Fits(m, id))
    case None =>
      Store(s.keys[k := list + [s.next]], s.pages[s.next := [id]], s.meta[s.next := SingletonMeta(id)], s.next + 1)
    case Some(j) =>
      assert k in s.keys && KeyOk(s.keys[k], s.pages);
      AppendToPage(s, list[j], id)
  }

  /** Appends `id` to page `p`, counting the slot and raising `maxId`, unless the page already holds `id`. */
  function AppendToPage<K>(s: Store<K>, p: int, id: int): (r: Store<K>)
    requires p in s.pages && p in s.meta
    ensures r.pages.Keys == s.pages.Keys && r.meta.Keys == s.meta.Keys
    ensures id in r.pages[p]
    ensures id !in s.pages[p] ==> r.pages[p] == s.pages[p] + [id] && r.meta[p].slotsUsed == s.meta[p].slotsUsed + 1
    ensures id in s.pages[p] ==> r == s
    ensures r.keys == s.keys && r.next == s.next
    ensures forall q :: q in s.pages && q != p ==> r.pages[q] == s.pages[q]
    ensures forall q :: q in s.meta && q != p ==> r.meta[q] == s.meta[q]
  {
    var m := s.meta[p];
    if id in s.pages[p] then s
    else
      var maxId := if m.maxId.Some? && m.maxId.value < id then Some(id) else m.maxId;
      s.(pages := s.pages[p := s.pages[p] + [id]], meta := s.meta[p := Meta(m.minId, maxId, m.slotsUsed + 1)])
  }

  /** `removeFromPage`: only the first listed page whose range brackets `id` is touched. */
  function Remove<K>(s: Store<K>, k: K, id: int): (r: Store<K>)
    requires Valid(s)
    ensures k !in s.keys ==> r == s
    ensures r.keys.Keys == s.keys.Keys && r.next == s.next
    ensures forall k' :: k' in s.keys && k' != k ==> r.keys[k'] == s.keys[k']
    ensures r.pages.Keys <= s.pages.Keys
  {
    if k !in s.keys then s
    else
      var list := s.keys[k];
      match FirstIndex(list, s.meta, m => Brackets(m, id))
      case None => s
      case Some(j) =>
        var p := list[j];
        var m := s.meta[p];
        assert MetaOk(m, s.pages[p]);
        var page := RemoveFirst(s.pages[p], id);
        var slots := m.slotsUsed - 1;
        if slots == 0 then
          Store(s.keys[k := RemoveFirst(list, p)], s.pages - {p}, s.meta - {p}, s.next)
        else
          var maxId := if m.maxId == Some(id) then Some(Max(page)) else m.maxId;
          var minId := if m.minId == Some(id) then Some(page[0]) else m.minId;
          s.(pages := s.pages[p := page], meta := s.meta[p := Meta(minId, maxId, slots)])
  }
}
