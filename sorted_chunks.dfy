/**
 * Sorting a set of ids and cutting the sorted sequence into page-sized chunks,
 * the two steps `sortKeyPages` performs before it rewrites a key's pages.
 */
module SortedChunks {
  import opened PagedIndexModel

  /** Strictly ascending, hence also free of duplicates. */
  predicate Ascending(s: seq<int>) {
    forall i, j :: 0 <= i < j < |s| ==> s[i] < s[j]
  }

  /** Adds `x` to an ascending sequence, keeping it ascending (a no-op when `x` is already there). */
  function InsertSorted(a: seq<int>, x: int): (r: seq<int>)
    requires Ascending(a)
    ensures Ascending(r)
    ensures forall y :: y in r <==> y in a || y == x
  {
    if a == [] then [x]
    else if x < a[0] then [x] + a
    else if x == a[0] then a
    else
      AscendingTail(a);
      var t := InsertSorted(a[1..], x);
      assert forall i :: 0 <= i < |t| ==> a[0] < t[i] by {
        forall i | 0 <= i < |t| ensures a[0] < t[i] {
          assert t[i] in t;
        }
      }
      [a[0]] + t
  }

  /** The distinct elements of `s` in ascending order: what streaming a hash set through `sorted()` yields. */
  function SortedOf(s: seq<int>): (r: seq<int>)
    ensures Ascending(r)
    ensures forall x :: x in r <==> x in s
  {
    if s == [] then []
    else
      assert forall x :: x in s <==> x in s[..|s| - 1] || x == s[|s| - 1] by {
        assert s == s[..|s| - 1] + [s[|s| - 1]];
      }
      InsertSorted(SortedOf(s[..|s| - 1]), s[|s| - 1])
  }

  /** Sorting is determined by the elements alone: an ascending sequence with the same elements is the sorted one. */
  lemma {:induction false} AscendingUnique(a: seq<int>, b: seq<int>)
    requires Ascending(a) && Ascending(b)
    requires forall x :: x in a <==> x in b
    ensures a == b
    decreases |a|
  {
    SameElementsSameLength(a, b);
    if a != [] {
      SameElementsSameHead(a, b);
      AscendingTail(a);
      AscendingTail(b);
      AscendingUnique(a[1..], b[1..]);
      assert a == [a[0]] + a[1..] && b == [b[0]] + b[1..];
    }
  }

  lemma SameElementsSameLength(a: seq<int>, b: seq<int>)
    requires Ascending(a) && Ascending(b)
    requires forall x :: x in a <==> x in b
    ensures |a| == |b|
  {
    AscendingCard(a);
    AscendingCard(b);
    assert (set x | x in a) == (set x | x in b);
  }

  lemma SameElementsSameHead(a: seq<int>, b: seq<int>)
    requires Ascending(a) && Ascending(b) && a != [] && b != []
    requires forall x :: x in a <==> x in b
    ensures a[0] == b[0]
  {
    assert a[0] in a && b[0] in b;
    var i :| 0 <= i < |b| && b[i] == a[0];
    var j :| 0 <= j < |a| && a[j] == b[0];
    assert b[0] <= b[i] && a[0] <= a[j];
  }


  /** An ascending sequence has as many entries as distinct elements. */
  lemma AscendingCard(a: seq<int>)
    requires Ascending(a)
    ensures |set x | x in a| == |a|
  {
    DistinctCard(a);
  }

  /** Dropping the head of an ascending sequence leaves an ascending sequence of exactly the other elements. */
  lemma AscendingTail(a: seq<int>)
    requires Ascending(a) && a != []
    ensures Ascending(a[1..])
    ensures forall x :: x in a[1..] <==> x in a && x != a[0]
  {
    var t := a[1..];
    forall i, j | 0 <= i < j < |t| ensures t[i] < t[j] {
      assert t[i] == a[i + 1] && t[j] == a[j + 1];
    }
    forall x ensures x in t <==> x in a && x != a[0] {
      if x in t {
        var i :| 0 <= i < |t| && t[i] == x;
        assert a[i + 1] == x;
      }
      if x in a && x != a[0] {
        var i :| 0 <= i < |a| && a[i] == x;
        assert t[i - 1] == x;
      }
    }
  }

  /** A duplicate-free sequence has as many distinct elements as entries. */
  lemma {:induction false} DistinctCard(list: seq<int>)
    requires NoDup(list)
    ensures |set x | x in list| == |list|
  {
    if list != [] {
      var t := list[1..];
      assert NoDup(t) by {
        forall i, j | 0 <= i < j < |t| ensures t[i] != t[j] {
          assert t[i] == list[i + 1] && t[j] == list[j + 1];
        }
      }
      DistinctCard(t);
      assert list[0] !in t by {
        forall i | 0 <= i < |t| ensures t[i] != list[0] {
          assert t[i] == list[i + 1];
        }
      }
      assert (set x | x in list) == {list[0]} + (set x | x in t) by {
        assert list == [list[0]] + t;
      }
    }
  }

  /** Number of pages `ids` fill: the ceiling of `n / PAGE_SIZE`. */
  function NeededPages(n: nat): (r: nat)
    ensures n <= r * PAGE_SIZE < n + PAGE_SIZE
  {
    (n + PAGE_SIZE - 1) / PAGE_SIZE
  }

  /** Consecutive slices of `PAGE_SIZE` ids, the last one possibly shorter. */
  function Chunks(ids: seq<int>): (r: seq<seq<int>>)
    ensures |r| == NeededPages(|ids|)
    ensures forall j :: 0 <= j < |r| ==> 0 < |r[j]| <= PAGE_SIZE
    ensures forall j :: 0 <= j < |r| - 1 ==> |r[j]| == PAGE_SIZE
    decreases |ids|
  {
    if ids == [] then []
    else
      var n := if |ids| < PAGE_SIZE then |ids| else PAGE_SIZE;
      [ids[..n]] + Chunks(ids[n..])
  }

  function Flatten(c: seq<seq<int>>): seq<int> {
    if c == [] then [] else c[0] + Flatten(c[1..])
  }

  /** Cutting into chunks loses and reorders nothing. */
  lemma {:induction false} FlattenChunks(ids: seq<int>)
    ensures Flatten(Chunks(ids)) == ids
    decreases |ids|
  {
    if ids != [] {
      var n := if |ids| < PAGE_SIZE then |ids| else PAGE_SIZE;
      FlattenChunks(ids[n..]);
      assert Chunks(ids)[1..] == Chunks(ids[n..]);
      assert ids == ids[..n] + ids[n..];
    }
  }

  /** The chunks of the ids from position `i` on: the slice at `i`, then the chunks after it. */
  lemma ChunksFrom(ids: seq<int>, i: nat)
    requires i < |ids|
    ensures var n := if |ids| - i < PAGE_SIZE then |ids| - i else PAGE_SIZE;
      Chunks(ids[i..]) == [ids[i..i + n]] + Chunks(ids[i + n..])
  {
    var n := if |ids| - i < PAGE_SIZE then |ids| - i else PAGE_SIZE;
    assert ids[i..][..n] == ids[i..i + n];
    assert ids[i..][n..] == ids[i + n..];
  }

  /** 2500 ids fill three pages: two full ones of 1000 ids and a last one of 500. */
  lemma ChunksOf2500(ids: seq<int>)
    requires |ids| == 2500
    ensures Chunks(ids) == [ids[..1000], ids[1000..2000], ids[2000..]]
    ensures |Chunks(ids)[0]| == 1000 && |Chunks(ids)[1]| == 1000 && |Chunks(ids)[2]| == 500
  {
    ChunksFrom(ids, 0);
    ChunksFrom(ids, 1000);
    ChunksFrom(ids, 2000);
    assert ids[0..] == ids && ids[0..1000] == ids[..1000] && ids[2000..2500] == ids[2000..];
    assert Chunks(ids[2500..]) == [];
  }

  /** Every id lies in exactly the chunks it was cut into: `x` is in `ids` iff some chunk holds it. */
  lemma {:induction false} InChunks(ids: seq<int>, x: int)
    ensures x in ids <==> exists j :: 0 <= j < |Chunks(ids)| && x in Chunks(ids)[j]
    decreases |ids|
  {
    if ids != [] {
      var n := if |ids| < PAGE_SIZE then |ids| else PAGE_SIZE;
      var c := Chunks(ids);
      InChunks(ids[n..], x);
      assert ids == ids[..n] + ids[n..];
      if x in ids[..n] {
        assert x in c[0];
      }
      if x in ids[n..] {
        var j :| 0 <= j < |Chunks(ids[n..])| && x in Chunks(ids[n..])[j];
        assert c[j + 1] == Chunks(ids[n..])[j];
      }
      if exists j :: 0 <= j < |c| && x in c[j] {
        var j :| 0 <= j < |c| && x in c[j];
        if j > 0 {
          assert c[j] == Chunks(ids[n..])[j - 1];
        } else {
          assert x in ids[..n];
        }
      }
    }
  }

  /** Chunks of an ascending sequence are ascending, and every id of an earlier chunk is below every id of a later one. */
  lemma {:induction false} AscendingChunks(ids: seq<int>)
    requires Ascending(ids)
    ensures forall j :: 0 <= j < |Chunks(ids)| ==> Ascending(Chunks(ids)[j])
    ensures forall j1, j2, x, y :: 0 <= j1 < j2 < |Chunks(ids)| && x in Chunks(ids)[j1] && y in Chunks(ids)[j2] ==> x < y
    decreases |ids|
  {
    if ids != [] {
      var n := if |ids| < PAGE_SIZE then |ids| else PAGE_SIZE;
      var c := Chunks(ids);
      var rest := ids[n..];
      assert Ascending(rest) by {
        forall i, j | 0 <= i < j < |rest| ensures rest[i] < rest[j] {
          assert rest[i] == ids[i + n] && rest[j] == ids[j + n];
        }
      }
      AscendingChunks(rest);
      assert Ascending(c[0]) by {
        forall i, j | 0 <= i < j < |c[0]| ensures c[0][i] < c[0][j] {
          assert c[0][i] == ids[i] && c[0][j] == ids[j];
        }
      }
      forall j1, j2, x, y | 0 <= j1 < j2 < |c| && x in c[j1] && y in c[j2] ensures x < y {
        assert c[j2] == Chunks(rest)[j2 - 1];
        InChunks(rest, y);
        if j1 > 0 {
          assert c[j1] == Chunks(rest)[j1 - 1];
        } else {
          var a :| 0 <= a < n && ids[a] == x;
          var b :| 0 <= b < |rest| && rest[b] == y;
          assert ids[b + n] == y;
        }
      }
    }
  }
}
