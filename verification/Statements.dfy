/**
 What statements promise about rows: when they are accepted, what they leave, and the steps from a plan
 to that (src/sql/executor.cpp:144-425).
 */
module Statements {
  import opened Wrappers
  import opened Bags
  import opened Bytes
  import opened Sql
  import opened Planner
  import opened Relational
  import opened RowCodec
  import opened Entries
  import opened Heap
  import opened Agreement
  import opened Selection
  import opened Joining
  import opened Capacity
  import opened Mutation
  import opened StatementMeaning

  ghost predicate InsertAccepted(c: Catalog, heaps: Heaps, table: Text, v: seq<Literal>) {
    && FindTable(c.tables, table).Some? && table in heaps
    && var t := FindTable(c.tables, table).value;
       && WellTyped(t.columns, v) && |Encoded(t.columns, v)| <= MAX_ROW && KeyIsFree(c, t, Scanned(heaps[table]), v)
  }

  /** No live row has this primary key. */
  ghost predicate KeyIsFree(c: Catalog, t: TableInfo, rows: seq<Stored>, v: seq<Literal>) {
    forall x :: IsKey(c.indexes, t.name, x) ==> KeyIsNew(KeyOf(t, x.column), rows, IntValue(Cell(t, v, x.column)))
  }

  ghost predicate KeyIsNew(key: Key, rows: seq<Stored>, k: int) {
    forall i :: 0 <= i < |rows| ==> key(rows[i]) != k
  }

  lemma SearchIsExact(key: Key, index: seq<Entry>, h: Pages, k: int)
    requires Agrees(key, index, Scanned(h))
    ensures RidsUnder(index, k) == [] <==> KeyIsNew(key, Scanned(h), k)
  {
    if RidsUnder(index, k) != [] {
      ProbeIsLive(key, index, h, k, 0);
    } else {
      forall i | 0 <= i < |Scanned(h)| ensures key(Scanned(h)[i]) != k {
        ProbeIsComplete(key, index, h, Scanned(h)[i]);
      }
    }
  }

  lemma KeyFreeIff(c: Catalog, t: TableInfo, h: Pages, v: seq<Literal>, x: IndexInfo, index: seq<Entry>)
    requires CatalogOk(c) && IsKey(c.indexes, t.name, x) && Agrees(KeyOf(t, x.column), index, Scanned(h))
    ensures RidsUnder(index, IntValue(Cell(t, v, x.column))) == [] <==> KeyIsFree(c, t, Scanned(h), v)
  {
    SearchIsExact(KeyOf(t, x.column), index, h, IntValue(Cell(t, v, x.column)));
  }

  lemma FreeKeyStays(c: Catalog, t: TableInfo, rows: seq<Stored>, v: seq<Literal>, rid: RID)
    requires KeyOk(c, t, rows) && KeyIsFree(c, t, rows, v) && WellTyped(t.columns, v)
    requires |Encoded(t.columns, v)| <= MAX_ROW
    ensures KeyOk(c, t, rows + [Stored(rid, Encoded(t.columns, v))])
  {
    StoredValues(t, v, rid);
    forall x | IsKey(c.indexes, t.name, x)
      ensures DistinctKeys(KeyOf(t, x.column), rows + [Stored(rid, Encoded(t.columns, v))])
    {
      KeysAppend(KeyOf(t, x.column), rows, [Stored(rid, Encoded(t.columns, v))]);
    }
  }

  /** If the plan probes an index, it is one of the table's. */
  ghost predicate OwnIndex(c: Catalog, table: Text, a: Access) {
    a.scan.IndexScan? ==> exists x :: x in c.indexes && x.table == table && x.name == a.scan.index
  }

  lemma PlansOwnIndex(c: Catalog, table: Text, ps: seq<Predicate>, a: Access)
    requires AccessFor(c, table, ps, a)
    ensures OwnIndex(c, table, a)
  {
    if a.scan.IndexScan? {
      var i: nat :| DrivenBy(c, ps, a, i);
      assert FindIndexOnColumn(c, table, ps[i].column.column).value in c.indexes;
    }
  }

  /** The other tables' rows are as they were. */
  ghost predicate Elsewhere(a: Heaps, b: Heaps, table: Text) {
    forall n :: n != table ==> (n in a <==> n in b) && (n in a ==> a[n] == b[n])
  }

  /** One row more, last in the scan, at an address never used before. */
  ghost predicate RowAdded(before: Pages, after: Pages, rid: RID, bytes: seq<byte>) {
    !HasSlot(before, rid) && Scanned(after) == Scanned(before) + [Stored(rid, bytes)]
  }

  lemma RowIsPut(t: TableInfo, before: Pages, after: Pages, v: seq<Literal>)
    requires WellTyped(t.columns, v) && |Encoded(t.columns, v)| <= MAX_ROW
    requires exists rid :: RowAdded(before, after, rid, Encoded(t.columns, v))
    ensures exists x :: RowPut(t, before, after, x, v)
  {
    var rid :| RowAdded(before, after, rid, Encoded(t.columns, v));
    StoredValues(t, v, rid);
    assert RowPut(t, before, after, Stored(rid, Encoded(t.columns, v)), v);
  }

  function EmptyHeaps(tables: seq<TableInfo>): (m: Heaps)
    ensures forall t :: t in tables ==> t.name in m
    ensures forall n :: n in m ==> m[n] == []
  {
    if tables == [] then map[] else EmptyHeaps(tables[1..])[tables[0].name := []]
  }

  lemma EmptyIsConsistent(c: Catalog, heaps: Heaps, indexes: Indexes)
    requires CatalogOk(c) && (forall t :: t in c.tables ==> t.name in heaps && heaps[t.name] == [])
    requires forall x :: x in c.indexes ==> x.name in indexes && indexes[x.name] == []
    ensures Consistent(c, heaps, indexes) && KeysOk(c, heaps)
  {
    assert Scanned([]) == [];
    forall t | t in c.tables ensures TableOk(c, t, heaps, indexes) && KeyOk(c, t, Scanned(heaps[t.name])) {
      forall x | x in c.indexes &&
          x.table == t.name ensures Agrees(KeyOf(t, x.column), indexes[x.name], Scanned(heaps[t.name])) {
        assert Map(EntryFn(KeyOf(t, x.column)), []) == [];
      }
    }
  }

  ghost predicate InnerIndexOk(c: Catalog, i: TableInfo, jp: JoinPlan) {
    jp.innerIndex ==
        match FindIndexOnColumn(c, i.name, jp.innerColumn) { case Some(x) => Some(x.name) case None => None }
  }

  function Rows(heaps: Heaps, table: Text): seq<Stored> {
    if table in heaps then Scanned(heaps[table]) else []
  }

  /** What an accepted SELECT means on these tables. */
  ghost function Meaning(c: Catalog, heaps: Heaps, s: SelectStatement): seq<seq<Literal>>
    requires Accepted(c, s)
  {
    var o := FindTable(c.tables, s.from).value;
    if s.join.None? then SingleMeaning(o, s, Rows(heaps, o.name))
    else
      var i := FindTable(c.tables, s.join.value.table).value;
      JoinMeaning(o, i, s.join.value, s, Rows(heaps, o.name), Rows(heaps, i.name))
  }

  // ----- equality on an indexed column

  /** SELECT from one table, WHERE one indexed column equals a value. */
  ghost predicate ByKey(c: Catalog, s: SelectStatement) {
    && Accepted(c, s) && s.join.None? && |s.where| == 1 && s.where[0].op.Eq?
    && FindIndexOnColumn(c, s.from, s.where[0].column.column).Some?
  }

  ghost function KeyIndex(c: Catalog, s: SelectStatement): IndexInfo
    requires ByKey(c, s)
  {
    FindIndexOnColumn(c, s.from, s.where[0].column.column).value
  }

  lemma ByKeyScans(c: Catalog, s: SelectStatement, a: Access)
    requires ByKey(c, s) && AccessFor(c, s.from, s.where, a)
    ensures a.scan == IndexScan(KeyIndex(c, s).name, IntValue(s.where[0].value))
  {
    assert Drives(c, s.from, s.where[0]);
  }

  lemma KeyRow(t: TableInfo, s: SelectStatement, p: Predicate, x: Stored)
    requires PredicateOk(t, p) && p.op.Eq? && t.columns[ColumnIndex(t, p.column.column)].typ.IntegerType?
    requires s.where == [p]
    ensures |RowFn(t, s)(x)| == if KeyOf(t, p.column.column)(x) == IntValue(p.value) then 1 else 0
  {
    DrivingIsProbing(t, p, x);
    SatisfiesIsMatches(t, Values(t, x), s.where);
    assert MatchesAll(t, Values(t, x), s.where) <==> EvaluatePredicate(t, Values(t, x), s.where[0]);
  }

  lemma {:induction false} OnePerKey<B>(f: Stored -> seq<B>, key: Key, rows: seq<Stored>, k: int)
    requires forall i :: 0 <= i < |rows| ==> |f(rows[i])| == if key(rows[i]) == k then 1 else 0
    ensures |FlatMap(f, rows)| == CountOf(key, rows, k)
  {
    if rows != [] {
      OnePerKey(f, key, rows[1..], k);
    }
  }

  /** What such a SELECT means has one row per row with that key. */
  lemma ByKeyCounts(c: Catalog, s: SelectStatement, t: TableInfo, rows: seq<Stored>)
    requires CatalogOk(c) && ByKey(c, s) && FindTable(c.tables, s.from) == Some(t)
    ensures |SingleMeaning(t, s, rows)| == CountOf(KeyOf(t, s.where[0].column.column), rows, IntValue(s.where[0].value))
  {
    var key, k := KeyOf(t, s.where[0].column.column), IntValue(s.where[0].value);
    IndexColumn(c, t, KeyIndex(c, s));
    forall i | 0 <= i < |rows| ensures |RowFn(t, s)(rows[i])| == if key(rows[i]) == k then 1 else 0 {
      KeyRow(t, s, s.where[0], rows[i]);
    }
    OnePerKey(RowFn(t, s), key, rows, k);
  }

  function FindIndex(indexes: seq<IndexInfo>, name: Text): (r: Option<IndexInfo>)
    ensures r.None? ==> forall x :: x in indexes ==> x.name != name
    ensures r.Some? ==> r.value in indexes && r.value.name == name
  {
    if indexes == [] then None else if indexes[0].name == name then Some(indexes[0]) else FindIndex(indexes[1..], name)
  }

  function WithIndex(c: Catalog, x: IndexInfo): Catalog {
    c.(indexes := c.indexes + [x])
  }

  ghost predicate IndexAccepted(c: Catalog, name: Text, table: Text, column: Text) {
    && FindTable(c.tables, name).None? && FindIndex(c.indexes, name).None?
    && FindTable(c.tables, table).Some?
    && var t := FindTable(c.tables, table).value;
       HasColumn(t, column) && t.columns[ColumnIndex(t, column)].typ.IntegerType?
  }

  lemma CatalogGrows(c: Catalog, t: TableInfo, x: IndexInfo)
    requires CatalogOk(c) && t in c.tables && x.table == t.name && FindIndex(c.indexes, x.name).None?
    requires HasColumn(t, x.column) && t.columns[ColumnIndex(t, x.column)].typ.IntegerType? && !x.isPrimaryKey
    ensures CatalogOk(WithIndex(c, x))
  {
    var d := WithIndex(c, x);
    forall i, j | 0 <= i < j < |d.indexes| ensures d.indexes[i].name != d.indexes[j].name {
      assert c.indexes[i] in c.indexes;
    }
    forall y | y in d.indexes ensures IndexOk(d.tables, y) {
    }
    FewerKeys(c.indexes, d.indexes);
  }

  lemma TableGrows(c: Catalog, heaps: Heaps, indexes: Indexes, t: TableInfo, x: IndexInfo, entries: seq<Entry>,
                   u: TableInfo)
    requires CatalogOk(c) && t in c.tables && u in c.tables && TableOk(c, u, heaps, indexes) && t.name in heaps
    requires x.table == t.name && FindIndex(c.indexes, x.name).None?
    requires Agrees(KeyOf(t, x.column), entries, Scanned(heaps[t.name]))
    ensures TableOk(WithIndex(c, x), u, heaps, indexes[x.name := entries])
  {
    forall y | y in WithIndex(c, x).indexes && y.table == u.name
      ensures y.name in indexes[x.name := entries]
      ensures Agrees(KeyOf(u, y.column), indexes[x.name := entries][y.name], Scanned(heaps[u.name]))
    {
      if y in c.indexes {
        assert y.name != x.name;
      } else {
        assert y == x;
        if u != t { OtherTable(c, t, u); }
      }
    }
  }

  lemma IndexAdded(c: Catalog, heaps: Heaps, indexes: Indexes, t: TableInfo, x: IndexInfo, entries: seq<Entry>)
    requires Consistent(c, heaps, indexes) && KeysOk(c, heaps) && t in c.tables && t.name in heaps
    requires x.table == t.name && !x.isPrimaryKey && FindIndex(c.indexes, x.name).None?
    requires HasColumn(t, x.column) && t.columns[ColumnIndex(t, x.column)].typ.IntegerType?
    requires Agrees(KeyOf(t, x.column), entries, Scanned(heaps[t.name]))
    ensures Consistent(WithIndex(c, x), heaps, indexes[x.name := entries]) && KeysOk(WithIndex(c, x), heaps)
  {
    CatalogGrows(c, t, x);
    forall u | u in c.tables ensures TableOk(WithIndex(c, x), u, heaps, indexes[x.name := entries]) {
      TableGrows(c, heaps, indexes, t, x, entries, u);
    }
    forall u | u in c.tables && u.name in heaps ensures KeyOk(WithIndex(c, x), u, Scanned(heaps[u.name])) {
      assert KeyOk(c, u, Scanned(heaps[u.name]));
      forall y | IsKey(WithIndex(c, x).indexes, u.name, y) ensures IsKey(c.indexes, u.name, y) {
      }
    }
  }

  ghost predicate RowsEncoded(f: Stored -> seq<byte>, batch: seq<Stored>, bytes: seq<seq<byte>>) {
    |bytes| == |batch| && forall i :: 0 <= i < |batch| ==> bytes[i] == f(batch[i])
  }

  lemma EncodedSnoc(f: Stored -> seq<byte>, batch: seq<Stored>, i: nat, bytes: seq<seq<byte>>, row: seq<byte>)
    requires i < |batch| && RowsEncoded(f, batch[..i], bytes) && row == f(batch[i])
    ensures RowsEncoded(f, batch[..i + 1], bytes + [row])
  {
    assert batch[..i + 1] == batch[..i] + [batch[i]];
  }

  lemma SizesIff(f: Stored -> seq<byte>, batch: seq<Stored>, bytes: seq<seq<byte>>)
    requires RowsEncoded(f, batch, bytes)
    ensures (forall i :: 0 <= i < |bytes| ==> |bytes[i]| <= MAX_ROW) <==> AllFit(f, batch)
  {
  }

  ghost predicate AllIn(rids: seq<RID>, s: set<RID>) {
    forall i :: 0 <= i < |rids| ==> rids[i] in s
  }

  lemma AllInIffFree(key: Key, index: seq<Entry>, h: Pages, k: int, moving: set<RID>)
    requires Agrees(key, index, Scanned(h))
    ensures AllIn(RidsUnder(index, k), moving) <==> KeyFreeOutside(key, k, moving, Scanned(h))
  {
    var rids, rows := RidsUnder(index, k), Scanned(h);
    if AllIn(rids, moving) {
      forall j | 0 <= j < |rows| && key(rows[j]) == k ensures rows[j].rid in moving {
        ProbeIsComplete(key, index, h, rows[j]);
      }
    }
    if KeyFreeOutside(key, k, moving, rows) {
      forall i | 0 <= i < |rids| ensures rids[i] in moving {
        ProbeIsLive(key, index, h, k, i);
      }
    }
  }

  ghost predicate Distinct(keys: seq<int>) {
    forall i, j :: 0 <= i < j < |keys| ==> keys[i] != keys[j]
  }

  ghost predicate NoHits(index: seq<Entry>, keys: seq<int>, updating: set<RID>) {
    forall i :: 0 <= i < |keys| ==> AllIn(RidsUnder(index, keys[i]), updating)
  }

  lemma DistinctIff(newKey: Key, batch: seq<Stored>, keys: seq<int>)
    requires |keys| == |batch| && forall i :: 0 <= i < |batch| ==> keys[i] == newKey(batch[i])
    ensures Distinct(keys) <==> DistinctKeys(newKey, batch)
  {
  }

  /** An index hit outside the batch is exactly a live row outside the batch with that key. */
  lemma ClashIff(key: Key, index: seq<Entry>, h: Pages, newKey: Key, batch: seq<Stored>, keys: seq<int>)
    requires Agrees(key, index, Scanned(h))
    requires |keys| == |batch| && forall i :: 0 <= i < |batch| ==> keys[i] == newKey(batch[i])
    ensures NoHits(index, keys, Rids(batch)) <==> NoClash(key, newKey, batch, Scanned(h))
  {
    var moving := Rids(batch);
    if NoHits(index, keys, moving) {
      forall i | 0 <= i < |batch| ensures KeyFreeOutside(key, newKey(batch[i]), moving, Scanned(h)) {
        assert AllIn(RidsUnder(index, keys[i]), moving);
        AllInIffFree(key, index, h, newKey(batch[i]), moving);
      }
    }
    if NoClash(key, newKey, batch, Scanned(h)) {
      forall i | 0 <= i < |keys| ensures AllIn(RidsUnder(index, keys[i]), moving) {
        assert KeyFreeOutside(key, newKey(batch[i]), moving, Scanned(h));
        AllInIffFree(key, index, h, keys[i], moving);
      }
    }
  }

  /** Good names and types, rows that fit, and distinct primary keys afterwards. */
  ghost predicate Updatable(c: Catalog, t: TableInfo, rows: seq<Stored>, asgs: seq<Assignment>, where: seq<Predicate>) {
    && AssignmentsOk(t, asgs) && PredicatesOk(t, where)
    && RowsFit(t, asgs, where, rows) && KeysStay(c, t, asgs, where, rows)
  }

  ghost predicate UpdateAccepted(c: Catalog, heaps: Heaps, table: Text, asgs: seq<Assignment>, where: seq<Predicate>) {
    && FindTable(c.tables, table).Some? && table in heaps
    && Updatable(c, FindTable(c.tables, table).value, Scanned(heaps[table]), asgs, where)
  }

  /** The rows that matched, in some order, each rewritten once; the others first, in their order. */
  ghost predicate UpdatedBy(t: TableInfo, asgs: seq<Assignment>, where: seq<Predicate>, before: Pages, after: Pages,
      batch: seq<Stored>, news: seq<Stored>) {
    && multiset(batch) == multiset(Matched(t, where, Scanned(before)))
    && Rewritten(t, asgs, batch, news)
    && Scanned(after) == Unmatched(t, where, Scanned(before)) + news
    && forall i :: 0 <= i < |news| ==> !HasSlot(before, news[i].rid)
  }

  ghost predicate Updated(t: TableInfo, asgs: seq<Assignment>, where: seq<Predicate>, before: Pages, after: Pages,
      n: nat) {
    n == |Matched(t, where, Scanned(before))| &&
        exists batch, news :: UpdatedBy(t, asgs, where, before, after, batch, news)
  }

  /** What was matched by name and written as bytes is what the conditions and the SET list mean. */
  lemma UpdateMeans(t: TableInfo, asgs: seq<Assignment>, where: seq<Predicate>, before: Pages, after: Pages, n: nat)
    requires DistinctColumns(t.columns) && AssignmentsOk(t, asgs) && PredicatesOk(t, where) && RowsDecode(t, before)
    requires RowsFit(t, asgs, where, Scanned(before)) && Updated(t, asgs, where, before, after, n)
    ensures UpdateDone(t, asgs, where, before, after, n)
  {
    var olds, news :| UpdatedBy(t, asgs, where, before, after, olds, news);
    var rows, p := Scanned(before), Satisfying(t, where);
    FilterMatched(t, where, rows);
    forall i | 0 <= i < |news| ensures Values(t, news[i]) == RowAfter(t, asgs, Values(t, olds[i])) {
      assert olds[i] in multiset(olds);
      FilterHas(p, rows, olds[i]);
      SetRow(t, asgs, where, before, olds[i], news[i]);
    }
    assert UpdateBy(t, asgs, where, before, after, olds, news);
  }

  lemma SetRow(t: TableInfo, asgs: seq<Assignment>, where: seq<Predicate>, before: Pages, x: Stored, y: Stored)
    requires DistinctColumns(t.columns) && AssignmentsOk(t, asgs) && RowsDecode(t, before)
    requires RowsFit(t, asgs, where, Scanned(before)) && x in Scanned(before) && Satisfying(t, where)(x)
    requires y.bytes == NewBytes(t, asgs, x)
    ensures Values(t, y) == RowAfter(t, asgs, Values(t, x))
  {
    var i :| 0 <= i < |Scanned(before)| && Scanned(before)[i] == x;
    AssignedIsRowAfter(t, asgs, Values(t, x));
    AssignedTyped(t, asgs, Values(t, x));
    StoredValues(t, NewRow(t, asgs, x), y.rid);
    assert y == Stored(y.rid, y.bytes);
  }

  /** The batch of an update: the matching rows, each once, in some order. */
  ghost predicate BatchFor(c: Catalog, t: TableInfo, asgs: seq<Assignment>, where: seq<Predicate>, rows: seq<Stored>,
      batch: seq<Stored>) {
    && DistinctRids(batch) && multiset(batch) == multiset(Matched(t, where, rows))
    && (forall x :: x in batch <==> x in rows && MatchesAll(t, Values(t, x), where))
    && (forall i :: 0 <= i < |batch| ==> batch[i] in rows)
    && (BatchOk(c, t, asgs, batch, rows) <==> BatchOk(c, t, asgs, Matched(t, where, rows), rows))
  }

  lemma BatchFacts(c: Catalog, t: TableInfo, h: Pages, indexes: Indexes, asgs: seq<Assignment>, where: seq<Predicate>,
                   a: Access, batch: seq<Stored>)
    requires CatalogOk(c) && t in c.tables && IndexesAgree(c, t, h, indexes) && PredicatesOk(t, where)
    requires AccessFor(c, t.name, where, a)
    requires batch == Matched(t, a.residual, Candidates(a, h, indexes))
    ensures BatchFor(c, t, asgs, where, Scanned(h), batch)
  {
    FoundRows(c, t, h, indexes, where, a);
    forall x ensures x in batch <==> x in Matched(t, where, Scanned(h)) {
      MatchedHas(t, where, Scanned(h), x);
    }
    forall i | 0 <= i < |batch| ensures batch[i] in Scanned(h) {
      assert batch[i] in batch;
    }
    var all := Matched(t, where, Scanned(h));
    ScannedOrdered(h);
    MatchedDistinct(t, where, Scanned(h));
    if BatchOk(c, t, asgs, batch, Scanned(h)) { BatchPermuted(c, t, asgs, batch, all, Scanned(h)); }
    if BatchOk(c, t, asgs, all, Scanned(h)) { BatchPermuted(c, t, asgs, all, batch, Scanned(h)); }
  }

  lemma FinishUpdate(c: Catalog, t: TableInfo, asgs: seq<Assignment>, where: seq<Predicate>, before: Heaps,
                     after: Heaps, batch: seq<Stored>, news: seq<Stored>)
    requires CatalogOk(c) && KeysOk(c, before) && t in c.tables && t.name in before && t.name in after
    requires Elsewhere(before, after, t.name)
    requires RowsDecode(t, before[t.name]) && AssignmentsOk(t, asgs)
    requires BatchFor(c, t, asgs, where, Scanned(before[t.name]), batch)
    requires BatchOk(c, t, asgs, batch, Scanned(before[t.name]))
    requires Rewritten(t, asgs, batch, news) && Rewriting(before[t.name], after[t.name], Rids(batch), news)
    ensures KeysOk(c, after) && Updated(t, asgs, where, before[t.name], after[t.name], |batch|)
  {
    var h0 := before[t.name];
    forall i | 0 <= i < |batch| ensures Decoded(t.columns, batch[i].bytes).Some? {
      assert batch[i] in batch;
    }
    assert KeyOk(c, t, Scanned(h0));
    UpdatedKeys(c, t, asgs, Scanned(h0), batch, news);
    GoneIsUnmatched(t, where, h0, batch);
    KeysElsewhere(c, before, after, t);
    SameSize(batch, Matched(t, where, Scanned(h0)));
    assert UpdatedBy(t, asgs, where, h0, after[t.name], batch, news);
  }

  lemma FinishDelete(c: Catalog, t: TableInfo, where: seq<Predicate>, before: Heaps, after: Heaps, found: seq<Stored>)
    requires CatalogOk(c) && KeysOk(c, before) && t in c.tables && t.name in before && t.name in after
    requires Elsewhere(before, after, t.name) && multiset(found) == multiset(Matched(t, where, Scanned(before[t.name])))
    requires Scanned(after[t.name]) == Dropped(Scanned(before[t.name]), Rids(found))
    ensures KeysOk(c, after) && Scanned(after[t.name]) == Unmatched(t, where, Scanned(before[t.name]))
    ensures |found| == |Matched(t, where, Scanned(before[t.name]))|
  {
    var all := Scanned(before[t.name]);
    SameSize(found, Matched(t, where, all));
    forall x ensures x in found <==> x in all && MatchesAll(t, Values(t, x), where) {
      assert x in found <==> x in multiset(found);
      MatchedHas(t, where, all, x);
    }
    GoneIsUnmatched(t, where, before[t.name], found);
    DeletedKeys(c, t, all, Rids(found));
    KeysElsewhere(c, before, after, t);
  }

  lemma KeysElsewhere(c: Catalog, a: Heaps, b: Heaps, t: TableInfo)
    requires CatalogOk(c) && KeysOk(c, a) && t in c.tables && Elsewhere(a, b, t.name) && t.name in b
    requires KeyOk(c, t, Scanned(b[t.name]))
    ensures KeysOk(c, b)
  {
    forall u | u in c.tables && u.name in b ensures KeyOk(c, u, Scanned(b[u.name])) {
      if u != t { OtherTable(c, t, u); }
    }
  }

  lemma RowTyped(t: TableInfo, asgs: seq<Assignment>, h: Pages, x: Stored)
    requires RowsDecode(t, h) && AssignmentsOk(t, asgs) && x in Scanned(h)
    ensures WellTyped(t.columns, NewRow(t, asgs, x))
  {
    AssignedTyped(t, asgs, Values(t, x));
  }

  lemma NextInBatch(batch: seq<Stored>, i: nat)
    requires DistinctRids(batch) && i < |batch|
    ensures batch[i].rid !in Rids(batch[..i]) && Rids(batch[..i + 1]) == Rids(batch[..i]) + {batch[i].rid}
  {
    assert batch[..i + 1] == batch[..i] + [batch[i]];
  }

  lemma RidsSnoc(rows: seq<Stored>, x: Stored)
    ensures Rids(rows + [x]) == Rids(rows) + {x.rid}
  {
  }

  /** The next matching row is a new one. */
  lemma NextMatched(t: TableInfo, ps: seq<Predicate>, rows: seq<Stored>, i: nat)
    requires i < |rows| && MatchesAll(t, Values(t, rows[i]), ps) && DistinctRids(Matched(t, ps, rows))
    ensures rows[i] in Matched(t, ps, rows) && rows[i].rid !in Rids(Matched(t, ps, rows[..i]))
  {
    MatchedStep(t, ps, rows, i);
    MatchedSplit(t, ps, rows, i + 1);
    LastIsNew(Matched(t, ps, rows[..i]), rows[i], Matched(t, ps, rows[i + 1..]));
  }

  lemma MatchedSplit(t: TableInfo, ps: seq<Predicate>, rows: seq<Stored>, i: nat)
    requires i <= |rows|
    ensures Matched(t, ps, rows) == Matched(t, ps, rows[..i]) + Matched(t, ps, rows[i..])
  {
    assert rows == rows[..i] + rows[i..];
    FlatMapAppend(Where(t, ps, One()), rows[..i], rows[i..]);
  }

  lemma MatchedStep(t: TableInfo, ps: seq<Predicate>, rows: seq<Stored>, i: nat)
    requires i < |rows|
    ensures Matched(t, ps, rows[..i + 1])
         == if MatchesAll(t, Values(t, rows[i]), ps) then Matched(t, ps, rows[..i]) + [rows[i]]
             else Matched(t, ps, rows[..i])
  {
    FlatMapStep(Where(t, ps, One()), rows, i);
  }

  lemma DropNothing(rows: seq<Stored>)
    ensures Dropped(rows, Rids([])) == rows
  {
    DroppedNone(rows);
    assert Rids([]) == {};
  }

  lemma NothingRewritten(t: TableInfo, asgs: seq<Assignment>, batch: seq<Stored>, h: Pages)
    ensures Rewritten(t, asgs, batch[..0], []) && Rewriting(h, h, Rids(batch[..0]), [])
  {
    assert batch[..0] == [];
    DropNothing(Scanned(h));
    assert Scanned(h) + [] == Scanned(h);
  }

  lemma RewrittenStep(t: TableInfo, asgs: seq<Assignment>, batch: seq<Stored>, i: nat, news: seq<Stored>, rid: RID)
    requires i < |batch| && Rewritten(t, asgs, batch[..i], news)
    ensures Rewritten(t, asgs, batch[..i + 1], news + [Stored(rid, NewBytes(t, asgs, batch[i]))])
  {
    RewrittenSnoc(NewBytesFn(t, asgs), batch, i, news, Stored(rid, NewBytes(t, asgs, batch[i])));
  }

  lemma LastIsNew(a: seq<Stored>, x: Stored, b: seq<Stored>)
    requires DistinctRids(a + [x] + b)
    ensures x in a + [x] + b && x.rid !in Rids(a)
  {
    var all := a + [x] + b;
    assert all[|a|] == x;
    forall y | y in a ensures y.rid != x.rid {
      var k :| 0 <= k < |a| && a[k] == y;
      assert all[k] == y;
    }
  }

  lemma DeletedKeys(c: Catalog, t: TableInfo, rows: seq<Stored>, gone: set<RID>)
    requires KeyOk(c, t, rows)
    ensures KeyOk(c, t, Dropped(rows, gone))
  {
    forall x | IsKey(c.indexes, t.name, x) ensures DistinctKeys(KeyOf(t, x.column), Dropped(rows, gone)) {
      DroppedKeys(KeyOf(t, x.column), rows, gone);
    }
  }

  // ----- room in the indexes

  /** Inserting one row overfills an index exactly when the row's value was full. */
  lemma InsertOverfills(key: Key, rows: seq<Stored>, x: Stored)
    requires CountOf(key, rows, key(x)) >= CAP
    ensures !CappedBy(key, rows + [x])
  {
    CountAppend(key, rows, [x], key(x));
    CountOne(key, x, key(x));
    assert CountOf(key, rows + [x], key(x)) > CAP;
  }

  /** The counts an update leaves, from the rows before it. */
  lemma UpdateCounts(t: TableInfo, asgs: seq<Assignment>, column: Text, kept: seq<Stored>, batch: seq<Stored>,
                     news: seq<Stored>)
    requires AssignmentsOk(t, asgs) && Rewritten(t, asgs, batch, news) && AllFit(NewBytesFn(t, asgs), batch)
    requires forall i :: 0 <= i < |batch| ==> Decoded(t.columns, batch[i].bytes).Some?
    ensures CappedBy(KeyOf(t, column), kept + news) <==>
            ColumnFits(KeyOf(t, column), NewKey(t, asgs, column), kept, batch)
  {
    var key, newKey := KeyOf(t, column), NewKey(t, asgs, column);
    forall i | 0 <= i < |batch| ensures key(news[i]) == newKey(batch[i]) {
      assert |NewBytesFn(t, asgs)(batch[i])| <= MAX_ROW;
      NewRowStored(t, asgs, batch[i], news[i], column);
    }
    forall k ensures CountOf(key, kept + news, k) == CountOf(key, kept, k) + CountOf(newKey, batch, k) {
      CountAppend(key, kept, news, k);
      CountSame(key, newKey, news, batch, k);
    }
  }

  /** The rows of the table between the delete and the reinsert of one row. */
  lemma RemovedRows(h0: Pages, h: Pages, gone: set<RID>, news: seq<Stored>, x: Stored)
    requires Rewriting(h0, h, gone, news) && x in Scanned(h0) && x.rid !in gone
    ensures Live(h, x.rid) && Scanned(Removed(h, x.rid)) == Dropped(Scanned(h0), gone + {x.rid}) + news
  {
    var kept := Dropped(Scanned(h0), gone);
    DroppedHas(Scanned(h0), gone, x);
    ScannedHas(h, x);
    ScannedHas(h0, x);
    RemoveScan(h, x.rid);
    WithoutAppend(kept, news, x.rid);
    WithoutAbsent(news, x.rid);
    DroppedWithout(Scanned(h0), gone, x.rid);
  }

  lemma BatchIsSmall(h: Pages, batch: seq<Stored>)
    requires DistinctRids(batch) && forall i :: 0 <= i < |batch| ==> batch[i] in Scanned(h)
    ensures |batch| <= |Scanned(h)|
  {
    ScannedOrdered(h);
    RidsSize(batch);
    RidsSize(Scanned(h));
    forall r | r in Rids(batch) ensures r in Rids(Scanned(h)) {
      var x :| x in batch && x.rid == r;
      var i :| 0 <= i < |batch| && batch[i] == x;
    }
    SubsetSize(Rids(batch), Rids(Scanned(h)));
  }

  lemma {:induction false} SubsetSize<T>(a: set<T>, b: set<T>)
    requires a <= b
    ensures |a| <= |b|
  {
    if a != {} {
      var x :| x in a;
      SubsetSize(a - {x}, b - {x});
    }
  }

  /** An update that leaves too many rows of some value leaves its index without room. */
  lemma NoFitNoRoom(c: Catalog, t: TableInfo, asgs: seq<Assignment>, h0: Pages, batch: seq<Stored>, news: seq<Stored>)
    requires RowsDecode(t, h0) && AssignmentsOk(t, asgs) && AllFit(NewBytesFn(t, asgs), batch)
    requires forall i :: 0 <= i < |batch| ==> batch[i] in Scanned(h0)
    requires Rewritten(t, asgs, batch, news) && !UpdateFits(c, t, asgs, Scanned(h0), batch)
    ensures !HasRoom(c, t, Dropped(Scanned(h0), Rids(batch)) + news)
  {
    var kept := Dropped(Scanned(h0), Rids(batch));
    var x :| x in c.indexes && x.table == t.name &&
        !ColumnFits(KeyOf(t, x.column), NewKey(t, asgs, x.column), kept, batch);
    UpdateCounts(t, asgs, x.column, kept, batch, news);
  }

  /** Some index of the table had no room for the value the row brings. */
  ghost predicate RowsFull(c: Catalog, t: TableInfo, rows: seq<Stored>, v: seq<Literal>, n: Text) {
    exists x :: x in c.indexes && x.table == t.name && x.name == n
                && CountOf(KeyOf(t, x.column), rows, IntValue(Cell(t, v, x.column))) >= CAP
  }

  /** A full value that gets one row more has too many. */
  lemma FullOverfills(c: Catalog, t: TableInfo, rows: seq<Stored>, v: seq<Literal>, x: IndexInfo, rid: RID)
    requires CatalogOk(c) && x in c.indexes && RowsFull(c, t, rows, v, x.name)
    requires WellTyped(t.columns, v) && |Encoded(t.columns, v)| <= MAX_ROW
    ensures !CappedBy(KeyOf(t, x.column), rows + [Stored(rid, Encoded(t.columns, v))])
  {
    StoredValues(t, v, rid);
    InsertOverfills(KeyOf(t, x.column), rows, Stored(rid, Encoded(t.columns, v)));
  }

  /** If the update fits, no index is full when row i of the batch is written again. */
  lemma NoneFull(c: Catalog, t: TableInfo, asgs: seq<Assignment>, h0: Pages, batch: seq<Stored>, i: nat,
                 news: seq<Stored>, n: Text)
    requires RowsDecode(t, h0) && AssignmentsOk(t, asgs) && AllFit(NewBytesFn(t, asgs), batch) && i < |batch|
    requires DistinctRids(batch) && forall j :: 0 <= j < |batch| ==> batch[j] in Scanned(h0)
    requires Rewritten(t, asgs, batch[..i], news)
    requires HasRoom(c, t, Scanned(h0)) && UpdateFits(c, t, asgs, Scanned(h0), batch)
    ensures !RowsFull(c, t, Dropped(Scanned(h0), Rids(batch[..i + 1])) + news, NewRow(t, asgs, batch[i]), n)
  {
    forall x | x in c.indexes && x.table == t.name
      ensures CountOf(KeyOf(t, x.column), Dropped(Scanned(h0), Rids(batch[..i + 1])) + news,
                      IntValue(Cell(t, NewRow(t, asgs, batch[i]), x.column))) < CAP
    {
      RoomAtRow(t, asgs, x.column, h0, batch, i, news);
    }
  }

  lemma RoomAtRow(t: TableInfo, asgs: seq<Assignment>, column: Text, h0: Pages, batch: seq<Stored>, i: nat,
                  news: seq<Stored>)
    requires RowsDecode(t, h0) && AssignmentsOk(t, asgs) && AllFit(NewBytesFn(t, asgs), batch) && i < |batch|
    requires DistinctRids(batch) && forall j :: 0 <= j < |batch| ==> batch[j] in Scanned(h0)
    requires Rewritten(t, asgs, batch[..i], news) && CappedBy(KeyOf(t, column), Scanned(h0))
    requires ColumnFits(KeyOf(t, column), NewKey(t, asgs, column), Dropped(Scanned(h0), Rids(batch)), batch)
    ensures CountOf(KeyOf(t, column), Dropped(Scanned(h0), Rids(batch[..i + 1])) + news,
            NewKey(t, asgs, column)(batch[i])) < CAP
  {
    var key, newKey := KeyOf(t, column), NewKey(t, asgs, column);
    var k := newKey(batch[i]);
    ScannedOrdered(h0);
    NewKeysShape(t, asgs, column, batch);
    RoomInBetween(key, newKey, Scanned(h0), batch, i);
    forall j | 0 <= j < i ensures key(news[j]) == newKey(batch[..i][j]) {
      assert batch[..i][j] == batch[j] && |NewBytesFn(t, asgs)(batch[j])| <= MAX_ROW;
      NewRowStored(t, asgs, batch[j], news[j], column);
    }
    CountAppend(key, Dropped(Scanned(h0), Rids(batch[..i + 1])), news, k);
    CountSame(key, newKey, news, batch[..i], k);
  }

  /** What one round of the mutation loop adds to the bad indexes: nothing, if the update fits. */
  lemma StillNoneBad(c: Catalog, t: TableInfo, asgs: seq<Assignment>, h0: Pages, batch: seq<Stored>, i: nat,
                     news: seq<Stored>,
                     bad: set<Text>, now: set<Text>)
    requires RowsDecode(t, h0) && AssignmentsOk(t, asgs) && AllFit(NewBytesFn(t, asgs), batch) && i < |batch|
    requires DistinctRids(batch) && forall j :: 0 <= j < |batch| ==> batch[j] in Scanned(h0)
    requires Rewritten(t, asgs, batch[..i], news) && HasRoom(c, t, Scanned(h0))
    requires UpdateFits(c, t, asgs, Scanned(h0), batch) ==> bad == {}
    requires forall n :: n in now && n !in bad ==>
               RowsFull(c, t, Dropped(Scanned(h0), Rids(batch[..i + 1])) + news, NewRow(t, asgs, batch[i]), n)
    ensures UpdateFits(c, t, asgs, Scanned(h0), batch) ==> now == {}
  {
    if UpdateFits(c, t, asgs, Scanned(h0), batch) {
      forall n ensures n !in now {
        NoneFull(c, t, asgs, h0, batch, i, news, n);
      }
    }
  }
}
