/**
 When an index agrees with the rows it is built on, what keeps it so, and what a probe
 of it then finds. Rows are taken as given, with any integer key per row.
 */
module Agreement {
  import opened Seqs
  import opened Bags
  import opened Entries
  import opened Heap

  type Key = Stored -> int

  function EntryFn(key: Key): Stored -> Entry {
    (x: Stored) => Entry(key(x), x.rid)
  }

  /** The index is exactly the multiset of (key, address) over the rows. */
  ghost predicate Agrees(key: Key, index: seq<Entry>, rows: seq<Stored>) {
    multiset(index) == multiset(Map(EntryFn(key), rows))
  }

  ghost predicate DistinctRids(rows: seq<Stored>) {
    forall i, j :: 0 <= i < j < |rows| ==> rows[i].rid != rows[j].rid
  }

  lemma OrderedDistinct(rows: seq<Stored>)
    requires Ordered(rows)
    ensures DistinctRids(rows)
  {
  }

  lemma AgreesAfterInsert(key: Key, index: seq<Entry>, rows: seq<Stored>, x: Stored)
    requires Agrees(key, index, rows)
    ensures Agrees(key, InsertSorted(index, Entry(key(x), x.rid)), rows + [x])
  {
    InsertSortedMultiset(index, Entry(key(x), x.rid));
    MapAppend(EntryFn(key), rows, [x]);
    assert Map(EntryFn(key), [x]) == [Entry(key(x), x.rid)];
  }

  lemma WithoutHead(x: Stored, r: seq<Stored>)
    ensures Without([x] + r, x.rid) == Without(r, x.rid)
  {
    assert ([x] + r)[0] == x && ([x] + r)[1..] == r;
  }

  lemma {:induction false} WithoutAt(rows: seq<Stored>, i: nat)
    requires DistinctRids(rows) && i < |rows|
    ensures Without(rows, rows[i].rid) == rows[..i] + rows[i + 1..]
  {
    var l, x, r := rows[..i], rows[i], rows[i + 1..];
    SplitAt(rows, i);
    WithoutAppend(l, [x] + r, x.rid);
    WithoutAbsent(l, x.rid);
    WithoutHead(x, r);
    WithoutAbsent(r, x.rid);
  }

  lemma AgreesAfterDelete(key: Key, index: seq<Entry>, rows: seq<Stored>, x: Stored)
    requires Agrees(key, index, rows) && DistinctRids(rows) && x in rows
    ensures Agrees(key, RemoveFirst(index, Entry(key(x), x.rid)), Without(rows, x.rid))
  {
    var e := Entry(key(x), x.rid);
    RemoveFirstMultiset(index, e);
    var i :| 0 <= i < |rows| && rows[i] == x;
    WithoutAt(rows, i);
    MapWithout(EntryFn(key), rows, i);
  }

  lemma TakeMiddle<T>(a: seq<T>, x: T, b: seq<T>)
    ensures multiset(a + b) == multiset(a + ([x] + b)) - multiset{x}
  {
  }

  lemma MapMiddle<A, B>(f: A -> B, l: seq<A>, x: A, r: seq<A>)
    ensures multiset(Map(f, l + r)) == multiset(Map(f, l + ([x] + r))) - multiset{f(x)}
  {
    MapAppend(f, l, r);
    MapAppend(f, l, [x] + r);
    MapAppend(f, [x], r);
    assert Map(f, [x]) == [f(x)];
    TakeMiddle(Map(f, l), f(x), Map(f, r));
  }

  lemma MapWithout<A, B>(f: A -> B, s: seq<A>, i: nat)
    requires i < |s|
    ensures multiset(Map(f, s[..i] + s[i + 1..])) == multiset(Map(f, s)) - multiset{f(s[i])}
  {
    SplitAt(s, i);
    MapMiddle(f, s[..i], s[i], s[i + 1..]);
  }

  // ----- probing

  function Fetch(h: Pages): RID -> seq<Stored> {
    (rid: RID) => match Got(h, rid) { case Some(b) => [Stored(rid, b)] case None => [] }
  }

  function Keep(key: Key, k: int): Stored -> seq<Stored> {
    (x: Stored) => if key(x) == k then [x] else []
  }

  lemma {:induction false} ProbeRows(key: Key, k: int, fetch: RID -> seq<Stored>, rows: seq<Stored>)
    requires forall i :: 0 <= i < |rows| ==> fetch(rows[i].rid) == [rows[i]]
    ensures FlatMap(fetch, RidsUnder(Map(EntryFn(key), rows), k)) == FlatMap(Keep(key, k), rows)
  {
    if rows != [] {
      ProbeRows(key, k, fetch, rows[1..]);
      var x, es := rows[0], Map(EntryFn(key), rows[1..]);
      assert Map(EntryFn(key), rows) == [Entry(key(x), x.rid)] + es;
      ProbeOne(fetch, x, key(x) == k, RidsUnder(es, k));
    }
  }

  lemma ProbeOne(fetch: RID -> seq<Stored>, x: Stored, hit: bool, rest: seq<RID>)
    requires fetch(x.rid) == [x]
    ensures FlatMap(fetch, (if hit then [x.rid] else []) + rest) == (if hit then [x] else []) + FlatMap(fetch, rest)
  {
    if hit {
      assert ([x.rid] + rest)[0] == x.rid && ([x.rid] + rest)[1..] == rest;
    } else {
      ConcatNil(rest);
      ConcatNil(FlatMap(fetch, rest));
    }
  }

  lemma ProbeOrder(a: seq<Entry>, b: seq<Entry>, k: int)
    requires multiset(a) == multiset(b)
    ensures multiset(RidsUnder(a, k)) == multiset(RidsUnder(b, k))
  {
    forall r: RID ensures multiset(RidsUnder(a, k))[r] == multiset(RidsUnder(b, k))[r] {
      RidsUnderCounts(a, k, r);
      RidsUnderCounts(b, k, r);
    }
  }

  lemma FetchIsExact(h: Pages, i: nat)
    requires i < |Scanned(h)|
    ensures Fetch(h)(Scanned(h)[i].rid) == [Scanned(h)[i]]
  {
    ScannedHas(h, Scanned(h)[i]);
  }

  /** Probing an index that agrees finds, up to order, exactly the rows with that key, each once. */
  lemma ProbeFinds(key: Key, index: seq<Entry>, h: Pages, k: int)
    requires Agrees(key, index, Scanned(h))
    ensures multiset(FlatMap(Fetch(h), RidsUnder(index, k))) == multiset(FlatMap(Keep(key, k), Scanned(h)))
  {
    var entries := Map(EntryFn(key), Scanned(h));
    ProbeOrder(index, entries, k);
    FlatMapPermuted(Fetch(h), RidsUnder(index, k), RidsUnder(entries, k));
    forall i | 0 <= i < |Scanned(h)| ensures Fetch(h)(Scanned(h)[i].rid) == [Scanned(h)[i]] {
      FetchIsExact(h, i);
    }
    ProbeRows(key, k, Fetch(h), Scanned(h));
  }

  /** Every address an agreeing index holds is live, and its row has the entry's key. */
  lemma EntryIsLive(key: Key, index: seq<Entry>, h: Pages, k: int, r: RID)
    requires Agrees(key, index, Scanned(h)) && Entry(k, r) in index
    ensures Got(h, r).Some?
    ensures var x := Stored(r, Got(h, r).value); x in Scanned(h) && key(x) == k
  {
    var entries := Map(EntryFn(key), Scanned(h));
    assert Entry(k, r) in multiset(index);
    var j := Find(entries, Entry(k, r));
    ScannedHas(h, Scanned(h)[j]);
  }

  /** The probe never meets a missing row. */
  lemma ProbeIsLive(key: Key, index: seq<Entry>, h: Pages, k: int, i: nat)
    requires Agrees(key, index, Scanned(h)) && i < |RidsUnder(index, k)|
    ensures Got(h, RidsUnder(index, k)[i]).Some?
    ensures var x := Stored(RidsUnder(index, k)[i], Got(h, RidsUnder(index, k)[i]).value);
            x in Scanned(h) && key(x) == k
  {
    var r := RidsUnder(index, k)[i];
    assert r in multiset(RidsUnder(index, k));
    RidsUnderCounts(index, k, r);
    assert Entry(k, r) in multiset(index);
    EntryIsLive(key, index, h, k, r);
  }

  /** And nothing is missing: a live row with that key is under it. */
  lemma ProbeIsComplete(key: Key, index: seq<Entry>, h: Pages, x: Stored)
    requires Agrees(key, index, Scanned(h)) && x in Scanned(h)
    ensures x.rid in RidsUnder(index, key(x))
  {
    var entries := Map(EntryFn(key), Scanned(h));
    var j :| 0 <= j < |Scanned(h)| && Scanned(h)[j] == x;
    assert entries[j] == Entry(key(x), x.rid);
    assert entries[j] in multiset(entries);
    RidsUnderCounts(index, key(x), x.rid);
    assert x.rid in multiset(RidsUnder(index, key(x)));
  }
}
