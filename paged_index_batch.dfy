/**
 * The `update`/`remove` entry points: an absent (null) index key is skipped,
 * and an array-valued key inserts or removes the id under each present key in
 * turn.
 */
module PagedIndexBatch {
  import opened Wrappers
  import opened PagedIndexModel
  import opened PagedIndexInsertion
  import opened PagedIndexRemoval

  /** `update(indexKey, id)`: inserts unless the key is absent. */
  function InsertKey<K>(s: Store<K>, key: Option<K>, id: int): (r: Store<K>)
    requires Valid(s)
    ensures Valid(r)
  {
    match key
    case None => s
    case Some(k) => InsertKeepsValid(s, k, id); Insert(s, k, id)
  }

  /** `remove(indexKey, id)`: removes unless the key is absent. */
  function RemoveKey<K>(s: Store<K>, key: Option<K>, id: int): (r: Store<K>)
    requires Valid(s)
    ensures Valid(r)
  {
    match key
    case None => s
    case Some(k) => RemoveKeepsValid(s, k, id); Remove(s, k, id)
  }

  /** `update(indexKeys[], id)`: every element of the key array in order. */
  function InsertAll<K>(s: Store<K>, keys: seq<Option<K>>, id: int): (r: Store<K>)
    requires Valid(s)
    ensures Valid(r)
    decreases |keys|
  {
    if keys == [] then s else InsertAll(InsertKey(s, keys[0], id), keys[1..], id)
  }

  /** `remove(indexKeys[], id)`: every element of the key array in order. */
  function RemoveAll<K>(s: Store<K>, keys: seq<Option<K>>, id: int): (r: Store<K>)
    requires Valid(s)
    ensures Valid(r)
    decreases |keys|
  {
    if keys == [] then s else RemoveAll(RemoveKey(s, keys[0], id), keys[1..], id)
  }

  /** An array of absent keys inserts nothing. */
  lemma {:induction false} InsertAllAbsent<K>(s: Store<K>, keys: seq<Option<K>>, id: int)
    requires Valid(s) && forall i :: 0 <= i < |keys| ==> keys[i].None?
    ensures InsertAll(s, keys, id) == s
    decreases |keys|
  {
    if keys != [] {
      InsertAllAbsent(s, keys[1..], id);
    }
  }

  /** An array of absent keys removes nothing. */
  lemma {:induction false} RemoveAllAbsent<K>(s: Store<K>, keys: seq<Option<K>>, id: int)
    requires Valid(s) && forall i :: 0 <= i < |keys| ==> keys[i].None?
    ensures RemoveAll(s, keys, id) == s
    decreases |keys|
  {
    if keys != [] {
      RemoveAllAbsent(s, keys[1..], id);
    }
  }

  /** Inserting never loses an id: whatever was found under any key is still found. */
  lemma InsertGrowsFind<K>(s: Store<K>, k: K, id: int, o: K)
    requires Valid(s)
    ensures Valid(Insert(s, k, id)) && Find(s, o) <= Find(Insert(s, k, id), o)
  {
    InsertKeepsValid(s, k, id);
    if o != k {
      InsertKeepsOtherKeys(s, k, id, o);
    } else if k in s.keys {
      var r := Insert(s, k, id);
      var list := s.keys[k];
      InsertOutcome(s, k, id);
      NextIsUnused(s, k);
      forall x | x in Find(s, k) ensures x in Find(r, k) {
        var j :| 0 <= j < |list| && x in s.pages[list[j]];
        assert r.keys[k][j] == list[j];
        assert x in r.pages[list[j]];
      }
    }
  }

  /** After `update(indexKeys[], id)`, the id is found under every present key of the array. */
  lemma {:induction false} InsertAllFinds<K>(s: Store<K>, keys: seq<Option<K>>, id: int)
    requires Valid(s)
    ensures forall i :: 0 <= i < |keys| && keys[i].Some? ==> id in Find(InsertAll(s, keys, id), keys[i].value)
    decreases |keys|
  {
    if keys != [] {
      var s1 := InsertKey(s, keys[0], id);
      InsertAllFinds(s1, keys[1..], id);
      if keys[0].Some? {
        InsertThenFind(s, keys[0].value, id);
        InsertAllKeepsFound(s1, keys[1..], id, keys[0].value);
      }
      forall i | 0 <= i < |keys| && keys[i].Some? ensures id in Find(InsertAll(s, keys, id), keys[i].value) {
        if i > 0 {
          assert keys[1..][i - 1] == keys[i];
        }
      }
    }
  }

  /** Inserting further ids under further keys keeps every id already found. */
  lemma {:induction false} InsertAllKeepsFound<K>(s: Store<K>, keys: seq<Option<K>>, id: int, o: K)
    requires Valid(s)
    ensures Find(s, o) <= Find(InsertAll(s, keys, id), o)
    decreases |keys|
  {
    if keys != [] {
      var s1 := InsertKey(s, keys[0], id);
      if keys[0].Some? {
        InsertGrowsFind(s, keys[0].value, id, o);
      }
      InsertAllKeepsFound(s1, keys[1..], id, o);
    }
  }
}
