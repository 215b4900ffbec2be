/** Properties of removal (`removeFromPage`), including the behaviours the code has as written. */
module PagedIndexRemoval {
  import opened Wrappers
  import opened PagedIndexModel

  lemma {:induction false} RemoveFirstNoDup<T>(s: seq<T>, x: T)
    requires NoDup(s)
    ensures NoDup(RemoveFirst(s, x)) && x !in RemoveFirst(s, x)
    ensures forall y :: y in RemoveFirst(s, x) ==> y in s
  {
    if s != [] && s[0] != x {
      NoDupTail(s);
      RemoveFirstNoDup(s[1..], x);
      var t := RemoveFirst(s[1..], x);
      forall i | 0 <= i < |s[1..]| ensures s[1..][i] != s[0] {
        assert s[1..][i] == s[i + 1];
      }
      assert s[0] !in t;
      forall i, j | 0 <= i < j < |[s[0]] + t| ensures ([s[0]] + t)[i] != ([s[0]] + t)[j] {
        if i == 0 {
          assert ([s[0]] + t)[j] == t[j - 1];
        } else {
          assert ([s[0]] + t)[i] == t[i - 1] && ([s[0]] + t)[j] == t[j - 1];
        }
      }
    } else if s != [] {
      assert s[1..] == RemoveFirst(s, x);
      forall i, j | 0 <= i < j < |s[1..]| ensures s[1..][i] != s[1..][j] {
        assert s[1..][i] == s[i + 1] && s[1..][j] == s[j + 1];
      }
      forall i | 0 <= i < |s[1..]| ensures s[1..][i] != x {
        assert s[1..][i] == s[i + 1];
      }
    }
  }

  lemma {:induction false} RemoveKeepsValid<K>(s: Store<K>, k: K, id: int)
    requires Valid(s)
    ensures Valid(Remove(s, k, id))
  {
    if k in s.keys {
      var list := s.keys[k];
      var r := Remove(s, k, id);
      match FirstIndex(list, s.meta, m => Brackets(m, id))
      case None =>
      case Some(j) =>
        var p := list[j];
        var m := s.meta[p];
        assert MetaOk(m, s.pages[p]);
        if m.slotsUsed == 1 {
          RemoveFirstNoDup(list, p);
          forall k' | k' in r.keys ensures KeyOk(r.keys[k'], r.pages) {
            if k' == k {
              forall i | 0 <= i < |r.keys[k]| ensures r.keys[k][i] in r.pages {
                assert r.keys[k][i] in RemoveFirst(list, p);
              }
            } else {
              assert KeyOk(s.keys[k'], s.pages);
              forall i | 0 <= i < |r.keys[k']| ensures r.keys[k'][i] in r.pages {
                assert p in s.keys[k];
                assert r.keys[k'][i] in s.keys[k'];
              }
            }
          }
          forall k1, k2, q | k1 in r.keys && k2 in r.keys && k1 != k2 && q in r.keys[k1]
            ensures q !in r.keys[k2]
          {
            assert q in s.keys[k1];
            assert forall y :: y in r.keys[k2] ==> y in s.keys[k2];
          }
        } else {
          var page := RemoveFirst(s.pages[p], id);
          assert |page| >= m.slotsUsed - 1;
          forall k' | k' in r.keys ensures KeyOk(r.keys[k'], r.pages) {
            assert KeyOk(s.keys[k'], s.pages);
          }
        }
    }
  }

  /** Position `j` of `k`'s list holds the first page whose recorded range brackets `id`. */
  predicate FirstBracketAt<K>(s: Store<K>, k: K, id: int, j: nat)
    requires Valid(s)
  {
    && k in s.keys && j < |s.keys[k]|
    && Brackets(s.meta[s.keys[k][j]], id)
    && forall i :: 0 <= i < j ==> !Brackets(s.meta[s.keys[k][i]], id)
  }

  /** Removal under a key with no page list, or with no page bracketing the id, changes nothing. */
  lemma RemoveWithoutBracket<K>(s: Store<K>, k: K, id: int)
    requires Valid(s)
    requires k in s.keys ==> forall i :: 0 <= i < |s.keys[k]| ==> !Brackets(s.meta[s.keys[k][i]], id)
    ensures Remove(s, k, id) == s
  {
  }

  /** Removal touches at most the first bracketing page: every other page, its metadata, every other key's list and `next` stay as they were. */
  lemma RemoveLeavesRest<K>(s: Store<K>, k: K, id: int, j: nat)
    requires Valid(s) && FirstBracketAt(s, k, id, j)
    ensures var r := Remove(s, k, id); var p := s.keys[k][j];
      && r.next == s.next
      && (forall q :: q in s.pages && q != p ==> q in r.pages && r.pages[q] == s.pages[q] && r.meta[q] == s.meta[q])
      && r.pages.Keys <= s.pages.Keys
      && (forall k' :: k' != k ==> (k' in r.keys <==> k' in s.keys) && (k' in s.keys ==> r.keys[k'] == s.keys[k']))
  {
    FirstIndexIs(s.keys[k], s.meta, m => Brackets(m, id), j);
  }

  /** A page whose slot count reaches zero vanishes from the page map, the metadata map and the key's list. */
  lemma RemoveEmptiesPage<K>(s: Store<K>, k: K, id: int, j: nat)
    requires Valid(s) && FirstBracketAt(s, k, id, j)
    requires s.meta[s.keys[k][j]].slotsUsed == 1
    ensures var r := Remove(s, k, id); var p := s.keys[k][j];
      && p !in r.pages && p !in r.meta
      && k in r.keys && p !in r.keys[k]
      && r.keys[k] == s.keys[k][..j] + s.keys[k][j + 1..]
  {
    var list := s.keys[k];
    var p := list[j];
    FirstIndexIs(list, s.meta, m => Brackets(m, id), j);
    RemoveFirstNoDup(list, p);
    RemoveFirstAt(list, j);
  }

  /** When no earlier element equals `s[j]`, removing `s[j]` by value removes exactly position `j`. */
  lemma {:induction false} RemoveFirstAt<T>(s: seq<T>, j: nat)
    requires j < |s| && forall i :: 0 <= i < j ==> s[i] != s[j]
    ensures RemoveFirst(s, s[j]) == s[..j] + s[j + 1..]
  {
    if j == 0 {
      assert s[..0] + s[1..] == s[1..];
    } else {
      var x := s[j];
      var t := s[1..];
      forall i | 0 <= i < j - 1 ensures t[i] != t[j - 1] {
        assert t[i] == s[i + 1];
      }
      RemoveFirstAt(t, j - 1);
      assert RemoveFirst(s, x) == [s[0]] + RemoveFirst(t, x);
      ConsSplit(s, j);
    }
  }

  lemma ConsSplit<T>(s: seq<T>, j: nat)
    requires 0 < j < |s|
    ensures [s[0]] + (s[1..][..j - 1] + s[1..][j..]) == s[..j] + s[j + 1..]
  {
    assert s[1..][..j - 1] == s[1..j];
    assert s[1..][j..] == s[j + 1..];
    assert [s[0]] + s[1..j] == s[..j];
  }

  lemma NoDupTail<T>(s: seq<T>)
    requires NoDup(s) && |s| > 0
    ensures NoDup(s[1..])
  {
    forall a, b | 0 <= a < b < |s[1..]| ensures s[1..][a] != s[1..][b] {
      assert s[1..][a] == s[a + 1] && s[1..][b] == s[b + 1];
    }
  }

  /** A page that keeps slots loses one slot and the first copy of `id`; a removed maximum is recomputed as the maximum of what remains; a removed minimum is replaced by the page's head, which need not be its minimum. */
  lemma RemoveShrinksPage<K>(s: Store<K>, k: K, id: int, j: nat)
    requires Valid(s) && FirstBracketAt(s, k, id, j)
    requires s.meta[s.keys[k][j]].slotsUsed > 1
    ensures var r := Remove(s, k, id); var p := s.keys[k][j]; var m := s.meta[p];
      var page := RemoveFirst(s.pages[p], id);
      && r.keys == s.keys && p in r.pages && p in r.meta
      && r.pages[p] == page && |page| > 0
      && r.meta[p].slotsUsed == m.slotsUsed - 1
      && (m.maxId == Some(id) ==>
            r.meta[p].maxId.Some? && r.meta[p].maxId.value in page && forall x :: x in page ==> x <= r.meta[p].maxId.value)
      && (m.maxId != Some(id) ==> r.meta[p].maxId == m.maxId)
      && (m.minId == Some(id) ==> r.meta[p].minId == Some(page[0]))
      && (m.minId != Some(id) ==> r.meta[p].minId == m.minId)
  {
    var p := s.keys[k][j];
    assert MetaOk(s.meta[p], s.pages[p]);
    FirstIndexIs(s.keys[k], s.meta, m => Brackets(m, id), j);
  }

  /** Slot counts stay exact when the removed id is really stored in the bracketing page. */
  lemma RemovePresentKeepsSlotsExact<K>(s: Store<K>, k: K, id: int, j: nat)
    requires Valid(s) && SlotsExact(s) && FirstBracketAt(s, k, id, j)
    requires id in s.pages[s.keys[k][j]]
    ensures SlotsExact(Remove(s, k, id))
  {
    var p := s.keys[k][j];
    FirstIndexIs(s.keys[k], s.meta, m => Brackets(m, id), j);
    assert s.meta[p].slotsUsed == |s.pages[p]|;
  }

  /** When the bracketing page does not hold `id`, its slot count still drops, so it falls one below the number of stored ids. */
  lemma RemoveAbsentUndercounts<K>(s: Store<K>, k: K, id: int, j: nat)
    requires Valid(s) && SlotsExact(s) && FirstBracketAt(s, k, id, j)
    requires id !in s.pages[s.keys[k][j]] && s.meta[s.keys[k][j]].slotsUsed > 1
    ensures var r := Remove(s, k, id); var p := s.keys[k][j];
      p in r.pages && p in r.meta && r.meta[p].slotsUsed == |r.pages[p]| - 1
  {
    var p := s.keys[k][j];
    FirstIndexIs(s.keys[k], s.meta, m => Brackets(m, id), j);
    assert s.meta[p].slotsUsed == |s.pages[p]|;
  }

  /** A page holding ids 1 and 3 with an exact slot count of two. */
  function TwoIdPage<K>(k: K): Store<K> {
    Store(map[k := [0]], map[0 := [1, 3]], map[0 := Meta(Some(1), Some(3), 2)], 1)
  }

  /** Removing an id that is not stored, but lies inside a page's range, still consumes a slot: done twice on a two-id page, the page is dropped with both of its ids. */
  lemma RemovingAbsentIdTwiceLosesPage<K>(k: K)
    ensures Valid(TwoIdPage(k)) && SlotsExact(TwoIdPage(k)) && Find(TwoIdPage(k), k) == {1, 3}
    ensures Valid(Remove(TwoIdPage(k), k, 2)) && Find(Remove(TwoIdPage(k), k, 2), k) == {1, 3}
    ensures var s1 := Remove(TwoIdPage(k), k, 2); Valid(Remove(s1, k, 2)) && Find(Remove(s1, k, 2), k) == {}
  {
    var s0 := TwoIdPage(k);
    assert Valid(s0);
    assert Find(s0, k) == {1, 3} by {
      assert PagesUnion([0], s0.pages) == (set x | x in [1, 3]) + PagesUnion([], s0.pages);
    }
    var s1 := FirstAbsentRemoval(k);
    SecondAbsentRemoval(k, s1);
  }

  lemma FirstAbsentRemoval<K>(k: K) returns (s1: Store<K>)
    ensures Valid(TwoIdPage(k))
    ensures s1 == Remove(TwoIdPage(k), k, 2)
    ensures s1 == Store(map[k := [0]], map[0 := [1, 3]], map[0 := Meta(Some(1), Some(3), 1)], 1)
  {
    var s0 := TwoIdPage(k);
    assert Valid(s0);
    FirstIndexIs([0], s0.meta, m => Brackets(m, 2), 0);
    s1 := Remove(s0, k, 2);
    assert RemoveFirst([1, 3], 2) == [1, 3];
  }

  lemma SecondAbsentRemoval<K>(k: K, s1: Store<K>)
    requires s1 == Store(map[k := [0]], map[0 := [1, 3]], map[0 := Meta(Some(1), Some(3), 1)], 1)
    ensures Valid(s1) && Find(s1, k) == {1, 3}
    ensures Valid(Remove(s1, k, 2)) && Find(Remove(s1, k, 2), k) == {}
  {
    assert Valid(s1);
    assert Find(s1, k) == {1, 3} by {
      assert PagesUnion([0], s1.pages) == (set x | x in [1, 3]) + PagesUnion([], s1.pages);
    }
    FirstIndexIs([0], s1.meta, m => Brackets(m, 2), 0);
    RemoveKeepsValid(s1, k, 2);
    assert Remove(s1, k, 2).keys[k] == [];
  }

  /** A page holding 5, 9 and 7 in that order. */
  function ThreeIdPage<K>(k: K): Store<K> {
    Store(map[k := [0]], map[0 := [5, 9, 7]], map[0 := Meta(Some(5), Some(9), 3)], 1)
  }

  /** Removing a page's minimum makes the page's head, not its new minimum, the recorded minimum. */
  lemma MinIdAfterRemovalIsHead<K>(k: K)
    ensures Valid(ThreeIdPage(k)) && SlotsExact(ThreeIdPage(k))
    ensures Valid(Remove(ThreeIdPage(k), k, 5))
    ensures Remove(ThreeIdPage(k), k, 5).pages[0] == [9, 7]
    ensures Remove(ThreeIdPage(k), k, 5).meta[0] == Meta(Some(9), Some(9), 2)
  {
    var s0 := ThreeIdPage(k);
    assert Valid(s0);
    FirstIndexIs([0], s0.meta, m => Brackets(m, 5), 0);
    RemoveKeepsValid(s0, k, 5);
    assert RemoveFirst([5, 9, 7], 5) == [9, 7];
    assert Max([9, 7]) == 9 by {
      assert 9 in [9, 7];
    }
  }

}
