/** Properties of first-fit insertion (`insertToPage`). */
module PagedIndexInsertion {
  import opened Wrappers
  import opened PagedIndexModel

  lemma NextIsUnused<K>(s: Store<K>, k: K)
    requires Valid(s)
    ensures s.next !in s.pages && s.next !in s.meta && s.next !in ListOf(s, k)
  {
  }

  lemma {:induction false} InsertKeepsValid<K>(s: Store<K>, k: K, id: int)
    requires Valid(s)
    ensures Valid(Insert(s, k, id))
  {
    var list := ListOf(s, k);
    var r := Insert(s, k, id);
    NextIsUnused(s, k);
    match FirstIndex(list, s.meta, m => Fits(m, id))
    case None =>
      var l2 := list + [s.next];
      assert ListedIn(l2, r.pages);
      assert NoDup(l2);
      forall k' | k' in r.keys ensures KeyOk(r.keys[k'], r.pages) {
        if k' != k {
          assert KeyOk(s.keys[k'], s.pages);
          assert ListedIn(s.keys[k'], r.pages);
        }
      }
      forall k1, k2, p | k1 in r.keys && k2 in r.keys && k1 != k2 && p in r.keys[k1]
        ensures p !in r.keys[k2]
      {
        if k1 != k && k2 != k {
        } else if k1 == k {
          if p == s.next {
            NextIsUnused(s, k2);
          }
        } else {
          NextIsUnused(s, k1);
        }
      }
    case Some(j) =>
      var p := list[j];
      if id !in s.pages[p] {
        assert MetaOk(s.meta[p], s.pages[p]);
        forall k' | k' in r.keys ensures KeyOk(r.keys[k'], r.pages) {
          assert KeyOk(s.keys[k'], s.pages);
        }
      }
  }

  /** After an insertion the id is found under its key. */
  lemma InsertThenFind<K>(s: Store<K>, k: K, id: int)
    requires Valid(s)
    ensures Valid(Insert(s, k, id)) && id in Find(Insert(s, k, id), k)
  {
    InsertKeepsValid(s, k, id);
    var list := ListOf(s, k);
    var r := Insert(s, k, id);
    match FirstIndex(list, s.meta, m => Fits(m, id))
    case None =>
      assert r.keys[k][|list|] == s.next && id in r.pages[s.next];
    case Some(j) =>
      assert k in s.keys;
      assert r.keys[k][j] == list[j] && id in r.pages[list[j]];
  }

  /** The first fitting page is the only page that may change: a new id is appended, bumping the slot count and raising `maxId`; an id already there changes nothing. */
  lemma InsertChoosesFirstFit<K>(s: Store<K>, k: K, id: int, j: nat)
    requires Valid(s)
    requires j < |ListOf(s, k)| && Fits(s.meta[ListOf(s, k)[j]], id)
    requires forall i :: 0 <= i < j ==> !Fits(s.meta[ListOf(s, k)[i]], id)
    ensures var r := Insert(s, k, id); var p := ListOf(s, k)[j];
      && r.keys == s.keys && r.next == s.next
      && r.pages.Keys == s.pages.Keys && r.meta.Keys == s.meta.Keys
      && (forall q :: q in s.pages && q != p ==> r.pages[q] == s.pages[q] && r.meta[q] == s.meta[q])
      && (id in s.pages[p] ==> r.pages[p] == s.pages[p] && r.meta[p] == s.meta[p])
      && (id !in s.pages[p] ==>
            && r.pages[p] == s.pages[p] + [id]
            && r.meta[p].slotsUsed == s.meta[p].slotsUsed + 1
            && r.meta[p].minId == s.meta[p].minId
            && r.meta[p].maxId.Some? && s.meta[p].maxId.Some?
            && r.meta[p].maxId.value == if s.meta[p].maxId.value < id then id else s.meta[p].maxId.value)
  {
    var list := ListOf(s, k);
    var p := list[j];
    assert MetaOk(s.meta[p], s.pages[p]);
    FirstIndexIs(list, s.meta, m => Fits(m, id), j);
  }

  /** When no listed page fits, a fresh page holding just the id is stored under the old `next`, appended to the key's list, and `next` grows by one. */
  lemma InsertAllocatesPage<K>(s: Store<K>, k: K, id: int)
    requires Valid(s)
    requires forall i :: 0 <= i < |ListOf(s, k)| ==> !Fits(s.meta[ListOf(s, k)[i]], id)
    ensures var r := Insert(s, k, id);
      && s.next !in s.pages && s.next !in ListOf(s, k)
      && r.keys == s.keys[k := ListOf(s, k) + [s.next]]
      && r.pages == s.pages[s.next := [id]]
      && r.meta == s.meta[s.next := Meta(Some(id), Some(id), 1)]
      && r.next == s.next + 1
  {
    NextIsUnused(s, k);
  }

  lemma InsertKeepsSlotsExact<K>(s: Store<K>, k: K, id: int)
    requires Valid(s) && SlotsExact(s)
    ensures SlotsExact(Insert(s, k, id))
  {
    var list := ListOf(s, k);
    match FirstIndex(list, s.meta, m => Fits(m, id))
    case None =>
    case Some(j) =>
      var p := list[j];
      assert s.meta[p].slotsUsed == |s.pages[p]|;
  }

  /** Page lists being disjoint, inserting under `k` leaves every other key's ids unchanged. */
  lemma InsertKeepsOtherKeys<K>(s: Store<K>, k: K, id: int, other: K)
    requires Valid(s) && other != k
    ensures Valid(Insert(s, k, id)) && Find(Insert(s, k, id), other) == Find(s, other)
  {
    InsertKeepsValid(s, k, id);
    var r := Insert(s, k, id);
    if other in s.keys {
      var ol := s.keys[other];
      assert r.keys[other] == ol;
      forall q | q in ol ensures r.pages[q] == s.pages[q] {
        NextIsUnused(s, other);
        var list := ListOf(s, k);
        match FirstIndex(list, s.meta, m => Fits(m, id))
        case None =>
        case Some(j) =>
          assert list[j] in s.keys[k];
      }
      forall x ensures x in Find(r, other) <==> x in Find(s, other) {
        if x in Find(r, other) {
          var j :| 0 <= j < |ol| && x in r.pages[ol[j]];
          assert ol[j] in ol;
        }
        if x in Find(s, other) {
          var j :| 0 <= j < |ol| && x in s.pages[ol[j]];
          assert ol[j] in ol;
        }
      }
    }
  }

  /** The two outcomes of `Insert`, by what the page selection returned. */
  lemma InsertOutcome<K>(s: Store<K>, k: K, id: int)
    requires Valid(s)
    ensures var list := ListOf(s, k);
      var r := FirstIndex(list, s.meta, m => Fits(m, id));
      && (r.None? ==> Insert(s, k, id) == Store(s.keys[k := list + [s.next]], s.pages[s.next := [id]], s.meta[s.next := SingletonMeta(id)], s.next + 1))
      && (r.Some? ==>
            && r.value < |list| && list[r.value] in s.pages && list[r.value] in s.meta
            && Insert(s, k, id) == AppendToPage(s, list[r.value], id))
  {
    var list := ListOf(s, k);
    assert k in s.keys ==> KeyOk(s.keys[k], s.pages);
  }
}
