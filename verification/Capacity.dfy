/**
 How many rows share a value of an indexed column. A B+-tree keeps its routing only while no key has
 more than 291 entries (src/index/btree.cpp:247-259), so this decides which statements leave the indexes usable.
 */
module Capacity {
  import opened Bags
  import opened Entries
  import opened Heap
  import opened Agreement
  import TreeShape

  const CAP: nat := TreeShape.LEAF_MAX

  /** The number of rows with key `k`. */
  function CountOf(key: Key, rows: seq<Stored>, k: int): nat {
    if rows == [] then 0 else (if key(rows[0]) == k then 1 else 0) + CountOf(key, rows[1..], k)
  }

  /** No key has more rows than an index can hold of it. */
  ghost predicate CappedBy(key: Key, rows: seq<Stored>) {
    forall k :: CountOf(key, rows, k) <= CAP
  }

  lemma {:induction false} CountAppend(key: Key, a: seq<Stored>, b: seq<Stored>, k: int)
    ensures CountOf(key, a + b, k) == CountOf(key, a, k) + CountOf(key, b, k)
  {
    if a == [] {
      assert a + b == b;
    } else {
      CountAppend(key, a[1..], b, k);
      assert (a + b)[0] == a[0] && (a + b)[1..] == a[1..] + b;
    }
  }

  lemma CountOne(key: Key, x: Stored, k: int)
    ensures CountOf(key, [x], k) == if key(x) == k then 1 else 0
  {
    assert [x][1..] == [];
  }

  lemma {:induction false} CountBounded(key: Key, rows: seq<Stored>, k: int)
    ensures CountOf(key, rows, k) <= |rows|
  {
    if rows != [] {
      CountBounded(key, rows[1..], k);
    }
  }

  /** Rows that all have key `k` all count. */
  lemma {:induction false} CountAll(key: Key, rows: seq<Stored>, k: int)
    requires forall i :: 0 <= i < |rows| ==> key(rows[i]) == k
    ensures CountOf(key, rows, k) == |rows|
  {
    if rows != [] {
      CountAll(key, rows[1..], k);
    }
  }

  lemma {:induction false} CountSame(f: Key, g: Key, a: seq<Stored>, b: seq<Stored>, k: int)
    requires |a| == |b| && forall i :: 0 <= i < |a| ==> f(a[i]) == g(b[i])
    ensures CountOf(f, a, k) == CountOf(g, b, k)
  {
    if a != [] {
      CountSame(f, g, a[1..], b[1..], k);
    }
  }

  lemma CountWithout(key: Key, rows: seq<Stored>, x: Stored, k: int)
    requires DistinctRids(rows) && x in rows
    ensures CountOf(key, rows, k) == CountOf(key, Without(rows, x.rid), k) + if key(x) == k then 1 else 0
  {
    var i :| 0 <= i < |rows| && rows[i] == x;
    WithoutAt(rows, i);
    assert rows == rows[..i] + ([x] + rows[i + 1..]);
    CountAppend(key, rows[..i], [x] + rows[i + 1..], k);
    CountAppend(key, [x], rows[i + 1..], k);
    CountAppend(key, rows[..i], rows[i + 1..], k);
    CountOne(key, x, k);
  }

  // ----- an index that agrees counts the rows

  lemma {:induction false} EntriesCount(key: Key, rows: seq<Stored>, k: int)
    ensures CountKey(Map(EntryFn(key), rows), k) == CountOf(key, rows, k)
  {
    if rows != [] {
      EntriesCount(key, rows[1..], k);
      var es := Map(EntryFn(key), rows);
      assert es[0] == Entry(key(rows[0]), rows[0].rid) && es[1..] == Map(EntryFn(key), rows[1..]);
    }
  }

  lemma AgreedCount(key: Key, index: seq<Entry>, rows: seq<Stored>, k: int)
    requires Agrees(key, index, rows)
    ensures CountKey(index, k) == CountOf(key, rows, k)
  {
    var es := Map(EntryFn(key), rows);
    ProbeOrder(index, es, k);
    SameSize(RidsUnder(index, k), RidsUnder(es, k));
    EntriesCount(key, rows, k);
  }
}
