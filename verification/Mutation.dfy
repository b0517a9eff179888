/**
 Changing rows together with every index on the table: what one insert and one delete do to the
 whole database, and what batches of them add up to (src/sql/executor.cpp:112-132, 192-425).
 */
module Mutation {
  import opened Seqs
  import opened Bags
  import opened Bytes
  import opened Sql
  import opened Planner
  import opened Relational
  import opened RowCodec
  import opened Entries
  import opened Heap
  import opened Agreement
  import opened Selection
  import opened Joining
  import opened Capacity

  type Heaps = map<Text, Pages>
  type Edit = (IndexInfo, seq<Entry>) -> seq<Entry>

  // ----- the invariant

  ghost predicate TableOk(c: Catalog, t: TableInfo, heaps: Heaps, indexes: Indexes) {
    t.name in heaps && RowsDecode(t, heaps[t.name]) && IndexesAgree(c, t, heaps[t.name], indexes)
  }

  /** Rows decode, and every index is exactly the (value, address) pairs of the live rows. */
  ghost predicate Consistent(c: Catalog, heaps: Heaps, indexes: Indexes) {
    CatalogOk(c) && forall t :: t in c.tables ==> TableOk(c, t, heaps, indexes)
  }

  ghost predicate DistinctKeys(key: Key, rows: seq<Stored>) {
    forall i, j :: 0 <= i < j < |rows| ==> key(rows[i]) != key(rows[j])
  }

  /** No two of the rows have the same value in a primary key column. */
  ghost predicate KeyOk(c: Catalog, t: TableInfo, rows: seq<Stored>) {
    forall x :: IsKey(c.indexes, t.name, x) ==> DistinctKeys(KeyOf(t, x.column), rows)
  }

  /** No two live rows share a primary key. */
  ghost predicate KeysOk(c: Catalog, heaps: Heaps) {
    forall t :: t in c.tables && t.name in heaps ==> KeyOk(c, t, Scanned(heaps[t.name]))
  }

  /** Every indexed value of the table has room: no more rows than an index can hold under one key. */
  ghost predicate HasRoom(c: Catalog, t: TableInfo, rows: seq<Stored>) {
    forall x :: x in c.indexes && x.table == t.name ==> CappedBy(KeyOf(t, x.column), rows)
  }

  ghost predicate AllHaveRoom(c: Catalog, heaps: Heaps) {
    forall t :: t in c.tables && t.name in heaps ==> HasRoom(c, t, Scanned(heaps[t.name]))
  }

  // ----- editing all indexes of a table

  function Adding(t: TableInfo, v: seq<Literal>, rid: RID): Edit {
    (x: IndexInfo, s: seq<Entry>) => InsertSorted(s, Entry(IntValue(Cell(t, v, x.column)), rid))
  }

  function Dropping(t: TableInfo, v: seq<Literal>, rid: RID): Edit {
    (x: IndexInfo, s: seq<Entry>) => RemoveFirst(s, Entry(IntValue(Cell(t, v, x.column)), rid))
  }

  /** Every index of the table is edited once; all others are as they were. */
  ghost predicate Edited(c: Catalog, table: Text, edit: Edit, before: Indexes, after: Indexes) {
    forall x :: x in c.indexes ==>
      x.name in after && after[x.name] == if x.table == table then edit(x, Contents(before, x.name))
          else Contents(before, x.name)
  }

  // ----- leaving indexes out

  function Others(idxs: seq<IndexInfo>, bad: set<Text>): (r: seq<IndexInfo>)
    ensures forall x :: x in r <==> x in idxs && x.name !in bad
  {
    if idxs == [] then [] else (if idxs[0].name in bad then [] else [idxs[0]]) + Others(idxs[1..], bad)
  }

  /** The catalog without the indexes in `bad`. */
  function Trusted(c: Catalog, bad: set<Text>): Catalog {
    c.(indexes := Others(c.indexes, bad))
  }

  ghost predicate DistinctNames(idxs: seq<IndexInfo>) {
    forall i, j :: 0 <= i < j < |idxs| ==> idxs[i].name != idxs[j].name
  }

  lemma {:induction false} OthersDistinct(idxs: seq<IndexInfo>, bad: set<Text>)
    requires DistinctNames(idxs)
    ensures DistinctNames(Others(idxs, bad))
  {
    if idxs != [] {
      OthersDistinct(idxs[1..], bad);
      var rest := Others(idxs[1..], bad);
      forall j | 0 <= j < |rest| ensures rest[j].name != idxs[0].name {
        assert rest[j] in rest;
      }
      if idxs[0].name in bad { ConcatNil(rest); }
    }
  }

  lemma TrustedOk(c: Catalog, bad: set<Text>)
    requires CatalogOk(c)
    ensures CatalogOk(Trusted(c, bad))
  {
    OthersDistinct(c.indexes, bad);
    forall x | x in Others(c.indexes, bad) ensures IndexOk(c.tables, x) {
      assert x in c.indexes;
    }
    FewerKeys(c.indexes, Others(c.indexes, bad));
  }

  lemma {:induction false} OthersAll(idxs: seq<IndexInfo>)
    ensures Others(idxs, {}) == idxs
  {
    if idxs != [] {
      OthersAll(idxs[1..]);
    }
  }

  /** Trusting fewer indexes asks for less. */
  lemma TrustLess(c: Catalog, bad: set<Text>, more: set<Text>, heaps: Heaps, m: Indexes)
    requires CatalogOk(c) && bad <= more && Consistent(Trusted(c, bad), heaps, m)
    ensures Consistent(Trusted(c, more), heaps, m)
  {
    TrustedOk(c, more);
    forall t | t in c.tables ensures TableOk(Trusted(c, more), t, heaps, m) {
      assert TableOk(Trusted(c, bad), t, heaps, m);
    }
  }

  lemma OtherTable(c: Catalog, t: TableInfo, u: TableInfo)
    requires CatalogOk(c) && t in c.tables && u in c.tables && t != u
    ensures t.name != u.name
  {
    TableIsFound(c, t);
    TableIsFound(c, u);
  }

  // ----- one row

  /** A row as it will be read back. */
  lemma StoredValues(t: TableInfo, v: seq<Literal>, rid: RID)
    requires WellTyped(t.columns, v) && |Encoded(t.columns, v)| <= MAX_ROW
    ensures var x := Stored(rid, Encoded(t.columns, v)); Decoded(t.columns, x.bytes).Some? && Values(t, x) == v
  {
    ShortRowFits(t.columns, v);
    RowRoundTripIff(t.columns, v);
  }

  /** If the rows of one table change and its indexes are edited to match, everything agrees again. */
  lemma EditKeeps(c: Catalog, heaps: Heaps, m: Indexes, after: Indexes, t: TableInfo, h: Pages, edit: Edit)
    requires Consistent(c, heaps, m) && t in c.tables && RowsDecode(t, h) && Edited(c, t.name, edit, m, after)
    requires forall x :: x in c.indexes && x.table == t.name ==>
               Agrees(KeyOf(t, x.column), edit(x, Contents(m, x.name)), Scanned(h))
    ensures Consistent(c, heaps[t.name := h], after)
  {
    forall u | u in c.tables ensures TableOk(c, u, heaps[t.name := h], after) {
      assert TableOk(c, u, heaps, m);
      if u != t { OtherTable(c, t, u); }
    }
  }

  lemma InsertKeeps(c: Catalog, heaps: Heaps, m: Indexes, after: Indexes, t: TableInfo, v: seq<Literal>)
    requires Consistent(c, heaps, m) && t in c.tables && t.name in heaps
    requires WellTyped(t.columns, v) && |Encoded(t.columns, v)| <= MAX_ROW
    requires Edited(c, t.name, Adding(t, v, Inserted(heaps[t.name], Encoded(t.columns, v)).rid), m, after)
    ensures Consistent(c, heaps[t.name := Inserted(heaps[t.name], Encoded(t.columns, v)).pages], after)
  {
    assert TableOk(c, t, heaps, m);
    var h := heaps[t.name];
    var p := Inserted(h, Encoded(t.columns, v));
    InsertScan(h, Encoded(t.columns, v));
    InsertedDecode(t, h, v);
    forall x | x in c.indexes && x.table == t.name
      ensures Agrees(KeyOf(t, x.column), Adding(t, v, p.rid)(x, Contents(m, x.name)), Scanned(p.pages))
    {
      AddingAgrees(t, v, p.rid, x, m[x.name], Scanned(h));
    }
    EditKeeps(c, heaps, m, after, t, p.pages, Adding(t, v, p.rid));
  }

  lemma InsertedDecode(t: TableInfo, h: Pages, v: seq<Literal>)
    requires RowsDecode(t, h) && WellTyped(t.columns, v) && |Encoded(t.columns, v)| <= MAX_ROW
    ensures RowsDecode(t, Inserted(h, Encoded(t.columns, v)).pages)
  {
    InsertScan(h, Encoded(t.columns, v));
    StoredValues(t, v, Inserted(h, Encoded(t.columns, v)).rid);
  }

  lemma AddingAgrees(t: TableInfo, v: seq<Literal>, rid: RID, x: IndexInfo, s: seq<Entry>, rows: seq<Stored>)
    requires Agrees(KeyOf(t, x.column), s, rows) && WellTyped(t.columns, v) && |Encoded(t.columns, v)| <= MAX_ROW
    ensures Agrees(KeyOf(t, x.column), Adding(t, v, rid)(x, s), rows + [Stored(rid, Encoded(t.columns, v))])
  {
    StoredValues(t, v, rid);
    AgreesAfterInsert(KeyOf(t, x.column), s, rows, Stored(rid, Encoded(t.columns, v)));
  }

  lemma DeleteKeeps(c: Catalog, heaps: Heaps, m: Indexes, after: Indexes, t: TableInfo, row: Stored)
    requires Consistent(c, heaps, m) && t in c.tables && t.name in heaps && row in Scanned(heaps[t.name])
    requires Edited(c, t.name, Dropping(t, Values(t, row), row.rid), m, after)
    ensures Consistent(c, heaps[t.name := Removed(heaps[t.name], row.rid)], after)
  {
    assert TableOk(c, t, heaps, m);
    var h := heaps[t.name];
    ScannedHas(h, row);
    RemoveScan(h, row.rid);
    ScannedOrdered(h);
    OrderedDistinct(Scanned(h));
    RemovedDecode(t, h, row.rid);
    forall x | x in c.indexes && x.table == t.name
      ensures Agrees(KeyOf(t, x.column), Dropping(t, Values(t, row), row.rid)(x, Contents(m, x.name)),
              Scanned(Removed(h, row.rid)))
    {
      AgreesAfterDelete(KeyOf(t, x.column), m[x.name], Scanned(h), row);
    }
    EditKeeps(c, heaps, m, after, t, Removed(h, row.rid), Dropping(t, Values(t, row), row.rid));
  }

  lemma RemovedDecode(t: TableInfo, h: Pages, rid: RID)
    requires RowsDecode(t, h) && Live(h, rid)
    ensures RowsDecode(t, Removed(h, rid))
  {
    RemoveScan(h, rid);
    var rows := Without(Scanned(h), rid);
    forall i | 0 <= i < |rows| ensures Decoded(t.columns, rows[i].bytes).Some? {
      WithoutHas(Scanned(h), rid, rows[i]);
    }
  }

  // ----- which rows a statement is about

  function One(): Stored -> seq<Stored> {
    (x: Stored) => [x]
  }

  function NotMatching(t: TableInfo, ps: seq<Predicate>): Stored -> seq<Stored> {
    (x: Stored) => if MatchesAll(t, Values(t, x), ps) then [] else [x]
  }

  /** The rows that match, and those that do not, in scan order. */
  function Matched(t: TableInfo, ps: seq<Predicate>, rows: seq<Stored>): seq<Stored> {
    FlatMap(Where(t, ps, One()), rows)
  }

  function Unmatched(t: TableInfo, ps: seq<Predicate>, rows: seq<Stored>): seq<Stored> {
    FlatMap(NotMatching(t, ps), rows)
  }

  lemma {:induction false} MatchedHas(t: TableInfo, ps: seq<Predicate>, rows: seq<Stored>, x: Stored)
    ensures x in Matched(t, ps, rows) <==> x in rows && MatchesAll(t, Values(t, x), ps)
  {
    if rows != [] {
      MatchedHas(t, ps, rows[1..], x);
    }
  }

  lemma {:induction false} MatchedDistinct(t: TableInfo, ps: seq<Predicate>, rows: seq<Stored>)
    requires DistinctRids(rows)
    ensures DistinctRids(Matched(t, ps, rows))
  {
    if rows != [] {
      MatchedDistinct(t, ps, rows[1..]);
      var rest := Matched(t, ps, rows[1..]);
      forall i | 0 <= i < |rest| ensures rest[i].rid != rows[0].rid {
        MatchedHas(t, ps, rows[1..], rest[i]);
      }
    }
  }

  function Rids(rows: seq<Stored>): set<RID> {
    set x | x in rows :: x.rid
  }

  lemma PermutedDistinct(a: seq<Stored>, b: seq<Stored>)
    requires multiset(a) == multiset(b) && DistinctRids(b)
    ensures DistinctRids(a) && Rids(a) == Rids(b) && (forall x :: x in a <==> x in b)
  {
    forall x ensures x in a <==> x in b {
      assert x in a <==> x in multiset(a);
    }
    assert Rids(a) == Rids(b);
    RidsSize(b);
    SameSize(a, b);
    if !DistinctRids(a) {
      RidsRepeat(a);
    }
  }

  lemma {:induction false} RidsSize(b: seq<Stored>)
    requires DistinctRids(b)
    ensures |Rids(b)| == |b|
  {
    if b != [] {
      RidsSize(b[1..]);
      assert Rids(b) == {b[0].rid} + Rids(b[1..]);
    }
  }

  lemma {:induction false} RidsAtMost(b: seq<Stored>)
    ensures |Rids(b)| <= |b|
  {
    if b != [] {
      RidsAtMost(b[1..]);
      assert Rids(b) == {b[0].rid} + Rids(b[1..]);
    }
  }

  lemma RidsRepeat(a: seq<Stored>)
    requires !DistinctRids(a)
    ensures |Rids(a)| < |a|
  {
    var i, j :| 0 <= i < j < |a| && a[i].rid == a[j].rid;
    var rest := a[..j] + a[j + 1..];
    forall r ensures r in Rids(a) <==> r in Rids(rest) {
      if r in Rids(a) {
        var x :| x in a && x.rid == r;
        var k :| 0 <= k < |a| && a[k] == x;
        assert rest[i] == a[i];
        assert k < j ==> rest[k] == a[k];
        assert k > j ==> rest[k - 1] == a[k];
      }
    }
    assert Rids(a) == Rids(rest);
    RidsAtMost(rest);
  }

  /** The rows a plan finds and filters are the matching rows of the table, each once. */
  lemma FoundRows(c: Catalog, t: TableInfo, h: Pages, indexes: Indexes, ps: seq<Predicate>, a: Access)
    requires CatalogOk(c) && t in c.tables && IndexesAgree(c, t, h, indexes)
    requires PredicatesOk(t, ps) && AccessFor(c, t.name, ps, a)
    ensures var found := Matched(t, a.residual, Candidates(a, h, indexes));
            && multiset(found) == multiset(Matched(t, ps, Scanned(h))) && DistinctRids(found)
            && forall x :: x in found <==> x in Scanned(h) && MatchesAll(t, Values(t, x), ps)
  {
    AccessFindsAll(c, t, h, indexes, ps, a, One());
    ScannedOrdered(h);
    OrderedDistinct(Scanned(h));
    MatchedDistinct(t, ps, Scanned(h));
    PermutedDistinct(Matched(t, a.residual, Candidates(a, h, indexes)), Matched(t, ps, Scanned(h)));
    forall x ensures x in Matched(t, ps, Scanned(h)) <==> x in Scanned(h) && MatchesAll(t, Values(t, x), ps) {
      MatchedHas(t, ps, Scanned(h), x);
    }
  }

  // ----- taking many rows out

  function Dropped(rows: seq<Stored>, gone: set<RID>): seq<Stored> {
    if rows == [] then [] else (if rows[0].rid in gone then [] else [rows[0]]) + Dropped(rows[1..], gone)
  }

  lemma {:induction false} DroppedNone(rows: seq<Stored>)
    ensures Dropped(rows, {}) == rows
  {
    if rows != [] {
      DroppedNone(rows[1..]);
    }
  }

  lemma {:induction false} DroppedHas(rows: seq<Stored>, gone: set<RID>, x: Stored)
    ensures x in Dropped(rows, gone) <==> x in rows && x.rid !in gone
  {
    if rows != [] {
      DroppedHas(rows[1..], gone, x);
    }
  }

  lemma {:induction false} DroppedWithout(rows: seq<Stored>, gone: set<RID>, rid: RID)
    ensures Without(Dropped(rows, gone), rid) == Dropped(rows, gone + {rid})
  {
    if rows != [] {
      DroppedWithout(rows[1..], gone, rid);
      var rest := Dropped(rows[1..], gone);
      if rows[0].rid in gone {
        ConcatNil(rest);
      } else {
        assert ([rows[0]] + rest)[1..] == rest;
      }
    }
  }

  lemma {:induction false} DroppedIsUnmatched(t: TableInfo, ps: seq<Predicate>, rows: seq<Stored>, gone: set<RID>)
    requires forall i :: 0 <= i < |rows| ==> (rows[i].rid in gone <==> MatchesAll(t, Values(t, rows[i]), ps))
    ensures Dropped(rows, gone) == Unmatched(t, ps, rows)
  {
    if rows != [] {
      DroppedIsUnmatched(t, ps, rows[1..], gone);
    }
  }

  lemma {:induction false} DroppedKeys(key: Key, rows: seq<Stored>, gone: set<RID>)
    requires DistinctKeys(key, rows)
    ensures DistinctKeys(key, Dropped(rows, gone))
  {
    if rows != [] {
      DroppedKeys(key, rows[1..], gone);
      var rest := Dropped(rows[1..], gone);
      forall j | 0 <= j < |rest| ensures key(rest[j]) != key(rows[0]) {
        DroppedHas(rows[1..], gone, rest[j]);
      }
    }
  }

  /** When exactly the found rows are gone, what is left is the rows that do not match. */
  lemma GoneIsUnmatched(t: TableInfo, ps: seq<Predicate>, h: Pages, found: seq<Stored>)
    requires forall x :: x in found <==> x in Scanned(h) && MatchesAll(t, Values(t, x), ps)
    ensures Dropped(Scanned(h), Rids(found)) == Unmatched(t, ps, Scanned(h))
  {
    var rows := Scanned(h);
    ScannedOrdered(h);
    forall i | 0 <= i < |rows| ensures rows[i].rid in Rids(found) <==> MatchesAll(t, Values(t, rows[i]), ps) {
      if rows[i].rid in Rids(found) {
        var x :| x in found && x.rid == rows[i].rid;
        SameRid(h, x, rows[i]);
      } else {
        assert rows[i] !in found;
      }
    }
    DroppedIsUnmatched(t, ps, rows, Rids(found));
  }

  lemma SameRid(h: Pages, x: Stored, y: Stored)
    requires x in Scanned(h) && y in Scanned(h) && x.rid == y.rid
    ensures x == y
  {
    ScannedHas(h, x);
    ScannedHas(h, y);
  }

  lemma KeysOkUpdate(c: Catalog, heaps: Heaps, t: TableInfo, h: Pages)
    requires CatalogOk(c) && KeysOk(c, heaps) && t in c.tables && KeyOk(c, t, Scanned(h))
    ensures KeysOk(c, heaps[t.name := h])
  {
    forall u | u in c.tables && u.name in heaps[t.name := h] ensures KeyOk(c, u, Scanned(heaps[t.name := h][u.name])) {
      if u != t { OtherTable(c, t, u); }
    }
  }

  // ----- one delete in a batch

  lemma DeleteStep(h0: Pages, h: Pages, gone: set<RID>, x: Stored)
    requires Scanned(h) == Dropped(Scanned(h0), gone) && x in Scanned(h0) && x.rid !in gone
    ensures x in Scanned(h) && Live(h, x.rid)
    ensures Scanned(Removed(h, x.rid)) == Dropped(Scanned(h0), gone + {x.rid})
  {
    DroppedHas(Scanned(h0), gone, x);
    ScannedHas(h, x);
    RemoveScan(h, x.rid);
    DroppedWithout(Scanned(h0), gone, x.rid);
  }

  // ----- one rewrite in a batch

  /** Part way through an update: the first rows of the batch are gone, and rewritten at addresses that are new. */
  ghost predicate Rewriting(h0: Pages, h: Pages, gone: set<RID>, news: seq<Stored>) {
    && Scanned(h) == Dropped(Scanned(h0), gone) + news
    && (forall rid :: HasSlot(h0, rid) ==> HasSlot(h, rid))
    && (forall i :: 0 <= i < |news| ==> !HasSlot(h0, news[i].rid))
  }

  lemma RewriteStep(h0: Pages, h: Pages, gone: set<RID>, news: seq<Stored>, x: Stored, bytes: seq<byte>)
    requires Rewriting(h0, h, gone, news) && x in Scanned(h0) && x.rid !in gone
    ensures x in Scanned(h) && Live(h, x.rid)
    ensures var p := Inserted(Removed(h, x.rid), bytes);
            Rewriting(h0, p.pages, gone + {x.rid}, news + [Stored(p.rid, bytes)])
  {
    var kept := Dropped(Scanned(h0), gone);
    DroppedHas(Scanned(h0), gone, x);
    ScannedHas(h, x);
    ScannedHas(h0, x);
    RemoveScan(h, x.rid);
    WithoutAppend(kept, news, x.rid);
    WithoutAbsent(news, x.rid);
    DroppedWithout(Scanned(h0), gone, x.rid);
    InsertScan(Removed(h, x.rid), bytes);
    var p := Inserted(Removed(h, x.rid), bytes);
    ConcatAssoc(Dropped(Scanned(h0), gone + {x.rid}), news, [Stored(p.rid, bytes)]);
  }

  // ----- new values

  function Assigned(t: TableInfo, asgs: seq<Assignment>, v: seq<Literal>): (r: seq<Literal>)
    ensures |r| == |v|
  {
    if asgs == [] then v
    else
      var n := |asgs| - 1;
      var before := Assigned(t, asgs[..n], v);
      match ColumnAt(t.columns, asgs[n].column)
      case Some(i) => if i < |v| then before[i := asgs[n].value] else before
      case None => before
  }

  ghost predicate AssignmentOk(t: TableInfo, a: Assignment) {
    HasColumn(t, a.column) && KindMatches(t.columns[ColumnIndex(t, a.column)].typ, a.value)
  }

  ghost predicate AssignmentsOk(t: TableInfo, asgs: seq<Assignment>) {
    forall i :: 0 <= i < |asgs| ==> AssignmentOk(t, asgs[i])
  }

  lemma {:induction false} AssignedTyped(t: TableInfo, asgs: seq<Assignment>, v: seq<Literal>)
    requires WellTyped(t.columns, v) && AssignmentsOk(t, asgs)
    ensures WellTyped(t.columns, Assigned(t, asgs, v))
  {
    if asgs != [] {
      var n := |asgs| - 1;
      AssignedTyped(t, asgs[..n], v);
      assert AssignmentOk(t, asgs[n]);
    }
  }

  function NewRow(t: TableInfo, asgs: seq<Assignment>, x: Stored): seq<Literal> {
    Assigned(t, asgs, Values(t, x))
  }

  function NewBytes(t: TableInfo, asgs: seq<Assignment>, x: Stored): seq<byte> {
    Encoded(t.columns, NewRow(t, asgs, x))
  }

  function NewKey(t: TableInfo, asgs: seq<Assignment>, column: Text): Key {
    (x: Stored) => IntValue(Cell(t, NewRow(t, asgs, x), column))
  }

  ghost predicate AllFit(f: Stored -> seq<byte>, batch: seq<Stored>) {
    forall i :: 0 <= i < |batch| ==> |f(batch[i])| <= MAX_ROW
  }

  /** A row that already has one of the new keys is itself in the batch. */
  ghost predicate NoClash(key: Key, newKey: Key, batch: seq<Stored>, rows: seq<Stored>) {
    forall i :: 0 <= i < |batch| ==> KeyFreeOutside(key, newKey(batch[i]), Rids(batch), rows)
  }

  ghost predicate KeyFreeOutside(key: Key, k: int, moving: set<RID>, rows: seq<Stored>) {
    forall j :: 0 <= j < |rows| && key(rows[j]) == k ==> rows[j].rid in moving
  }

  /** Every row fits a page; the new primary keys are distinct and clash with no row outside the batch. */
  ghost predicate BatchOk(c: Catalog, t: TableInfo, asgs: seq<Assignment>, batch: seq<Stored>, rows: seq<Stored>) {
    && AllFit(NewBytesFn(t, asgs), batch)
    && forall x :: IsKey(c.indexes, t.name, x) ==> NewKeysOk(KeyOf(t, x.column), NewKey(t, asgs, x.column), batch, rows)
  }

  ghost predicate NewKeysOk(key: Key, newKey: Key, batch: seq<Stored>, rows: seq<Stored>) {
    DistinctKeys(newKey, batch) && NoClash(key, newKey, batch, rows)
  }

  function NewBytesFn(t: TableInfo, asgs: seq<Assignment>): Stored -> seq<byte> {
    (x: Stored) => NewBytes(t, asgs, x)
  }

  ghost predicate RewrittenBy(f: Stored -> seq<byte>, batch: seq<Stored>, news: seq<Stored>) {
    |news| == |batch| && forall i :: 0 <= i < |batch| ==> news[i].bytes == f(batch[i])
  }

  /** The rewritten rows hold the new values of the batch, one for one. */
  ghost predicate Rewritten(t: TableInfo, asgs: seq<Assignment>, batch: seq<Stored>, news: seq<Stored>) {
    RewrittenBy(NewBytesFn(t, asgs), batch, news)
  }

  lemma RewrittenSnoc(f: Stored -> seq<byte>, batch: seq<Stored>, i: nat, news: seq<Stored>, x: Stored)
    requires i < |batch| && RewrittenBy(f, batch[..i], news) && x.bytes == f(batch[i])
    ensures RewrittenBy(f, batch[..i + 1], news + [x])
  {
    assert batch[..i + 1] == batch[..i] + [batch[i]];
  }

  lemma NewRowStored(t: TableInfo, asgs: seq<Assignment>, x: Stored, y: Stored, column: Text)
    requires Decoded(t.columns, x.bytes).Some? && AssignmentsOk(t, asgs)
    requires y.bytes == NewBytes(t, asgs, x) && |y.bytes| <= MAX_ROW
    ensures Values(t, y) == NewRow(t, asgs, x) && KeyOf(t, column)(y) == NewKey(t, asgs, column)(x)
  {
    AssignedTyped(t, asgs, Values(t, x));
    StoredValues(t, NewRow(t, asgs, x), y.rid);
    assert y == Stored(y.rid, y.bytes);
  }

  lemma KeysPermuted(key: Key, a: seq<Stored>, b: seq<Stored>)
    requires (forall x :: x in a <==> x in b) && DistinctRids(b) && DistinctKeys(key, a)
    ensures DistinctKeys(key, b)
  {
    forall i, j | 0 <= i < j < |b| ensures key(b[i]) != key(b[j]) {
      assert b[i] in b && b[j] in b;
      var k :| 0 <= k < |a| && a[k] == b[i];
      var l :| 0 <= l < |a| && a[l] == b[j];
      assert k != l;
    }
  }

  lemma FitPermuted(f: Stored -> seq<byte>, a: seq<Stored>, b: seq<Stored>)
    requires (forall x :: x in a <==> x in b) && AllFit(f, a)
    ensures AllFit(f, b)
  {
    forall i | 0 <= i < |b| ensures |f(b[i])| <= MAX_ROW {
      assert b[i] in b;
      var k :| 0 <= k < |a| && a[k] == b[i];
    }
  }

  lemma ClashPermuted(key: Key, newKey: Key, a: seq<Stored>, b: seq<Stored>, rows: seq<Stored>)
    requires (forall x :: x in a <==> x in b) && NoClash(key, newKey, a, rows)
    ensures NoClash(key, newKey, b, rows)
  {
    assert Rids(a) == Rids(b);
    forall i | 0 <= i < |b| ensures KeyFreeOutside(key, newKey(b[i]), Rids(b), rows) {
      assert b[i] in b;
      var k :| 0 <= k < |a| && a[k] == b[i];
      assert KeyFreeOutside(key, newKey(a[k]), Rids(a), rows);
    }
  }

  /** Validation does not depend on the order the rows are found in. */
  lemma BatchPermuted(c: Catalog, t: TableInfo, asgs: seq<Assignment>, a: seq<Stored>, b: seq<Stored>,
                      rows: seq<Stored>)
    requires (forall x :: x in a <==> x in b) && DistinctRids(b) && BatchOk(c, t, asgs, a, rows)
    ensures BatchOk(c, t, asgs, b, rows)
  {
    FitPermuted(NewBytesFn(t, asgs), a, b);
    forall x | IsKey(c.indexes, t.name, x) ensures NewKeysOk(KeyOf(t, x.column), NewKey(t, asgs, x.column), b, rows) {
      KeysPermuted(NewKey(t, asgs, x.column), a, b);
      ClashPermuted(KeyOf(t, x.column), NewKey(t, asgs, x.column), a, b, rows);
    }
  }

  /** A validated batch leaves the primary keys distinct. */
  lemma UpdatedKeys(c: Catalog, t: TableInfo, asgs: seq<Assignment>, rows: seq<Stored>, batch: seq<Stored>,
                    news: seq<Stored>)
    requires KeyOk(c, t, rows) && BatchOk(c, t, asgs, batch, rows) && DistinctRids(batch) && AssignmentsOk(t, asgs)
    requires forall i :: 0 <= i < |batch| ==> Decoded(t.columns, batch[i].bytes).Some?
    requires Rewritten(t, asgs, batch, news)
    ensures KeyOk(c, t, Dropped(rows, Rids(batch)) + news)
  {
    forall x | IsKey(c.indexes, t.name, x) ensures DistinctKeys(KeyOf(t, x.column), Dropped(rows, Rids(batch)) + news) {
      var key, newKey := KeyOf(t, x.column), NewKey(t, asgs, x.column);
      forall i | 0 <= i < |batch| ensures key(news[i]) == newKey(batch[i]) {
        assert |NewBytesFn(t, asgs)(batch[i])| <= MAX_ROW;
        NewRowStored(t, asgs, batch[i], news[i], x.column);
      }
      KeysAfter(key, newKey, rows, batch, news);
    }
  }

  lemma KeysAfter(key: Key, newKey: Key, rows: seq<Stored>, batch: seq<Stored>, news: seq<Stored>)
    requires DistinctKeys(key, rows) && NewKeysOk(key, newKey, batch, rows)
    requires |news| == |batch| && forall i :: 0 <= i < |batch| ==> key(news[i]) == newKey(batch[i])
    ensures DistinctKeys(key, Dropped(rows, Rids(batch)) + news)
  {
    var kept := Dropped(rows, Rids(batch));
    DroppedKeys(key, rows, Rids(batch));
    forall i, j | 0 <= i < |kept| && 0 <= j < |news| ensures key(kept[i]) != key(news[j]) {
      DroppedHas(rows, Rids(batch), kept[i]);
      var m :| 0 <= m < |rows| && rows[m] == kept[i];
      assert KeyFreeOutside(key, newKey(batch[j]), Rids(batch), rows);
    }
    KeysAppend(key, kept, news);
  }

  lemma KeysAppend(key: Key, a: seq<Stored>, b: seq<Stored>)
    requires DistinctKeys(key, a) && DistinctKeys(key, b)
    requires forall i, j :: 0 <= i < |a| && 0 <= j < |b| ==> key(a[i]) != key(b[j])
    ensures DistinctKeys(key, a + b)
  {
    forall i, j | 0 <= i < j < |a + b| ensures key((a + b)[i]) != key((a + b)[j]) {
      assert (a + b)[i] == if i < |a| then a[i] else b[i - |a|];
      assert (a + b)[j] == if j < |a| then a[j] else b[j - |a|];
    }
  }

  // ----- room during an update

  /** What the update leaves: per indexed column, at most 291 rows of any value. */
  ghost predicate UpdateFits(c: Catalog, t: TableInfo, asgs: seq<Assignment>, rows: seq<Stored>, batch: seq<Stored>) {
    forall x :: x in c.indexes && x.table == t.name ==>
      ColumnFits(KeyOf(t, x.column), NewKey(t, asgs, x.column), Dropped(rows, Rids(batch)), batch)
  }

  ghost predicate ColumnFits(key: Key, newKey: Key, kept: seq<Stored>, batch: seq<Stored>) {
    forall k :: CountOf(key, kept, k) + CountOf(newKey, batch, k) <= CAP
  }

  /** An update gives a column one value in every row of the batch, or leaves it alone. */
  lemma {:induction false} AssignedCell(t: TableInfo, asgs: seq<Assignment>, column: Text, a: seq<Literal>,
                                        b: seq<Literal>)
    requires |a| == |t.columns| == |b|
    ensures (Cell(t, Assigned(t, asgs, a), column) == Cell(t, a, column) &&
            Cell(t, Assigned(t, asgs, b), column) == Cell(t, b, column))
         || Cell(t, Assigned(t, asgs, a), column) == Cell(t, Assigned(t, asgs, b), column)
  {
    if asgs != [] {
      AssignedCell(t, asgs[..|asgs| - 1], column, a, b);
    }
  }

  /** Per column: the new keys are all the same, or all the old ones. */
  ghost predicate OneKeyOrOld(key: Key, newKey: Key, batch: seq<Stored>) {
    (exists k :: SameKey(newKey, batch, k)) || forall i :: 0 <= i < |batch| ==> newKey(batch[i]) == key(batch[i])
  }

  ghost predicate SameKey(newKey: Key, batch: seq<Stored>, k: int) {
    forall i :: 0 <= i < |batch| ==> newKey(batch[i]) == k
  }

  lemma NewKeysShape(t: TableInfo, asgs: seq<Assignment>, column: Text, batch: seq<Stored>)
    ensures OneKeyOrOld(KeyOf(t, column), NewKey(t, asgs, column), batch)
  {
    var key, newKey := KeyOf(t, column), NewKey(t, asgs, column);
    if batch != [] && exists i :: 0 <= i < |batch| && newKey(batch[i]) != key(batch[i]) {
      var i :| 0 <= i < |batch| && newKey(batch[i]) != key(batch[i]);
      forall j | 0 <= j < |batch| ensures newKey(batch[j]) == newKey(batch[i]) {
        AssignedCell(t, asgs, column, Values(t, batch[i]), Values(t, batch[j]));
      }
      assert SameKey(newKey, batch, newKey(batch[i]));
    }
  }

  /** Taking rows out and counting them apart. */
  lemma {:induction false} CountDropped(key: Key, rows: seq<Stored>, batch: seq<Stored>, k: int)
    requires DistinctRids(rows) && DistinctRids(batch) && forall i :: 0 <= i < |batch| ==> batch[i] in rows
    ensures CountOf(key, rows, k) == CountOf(key, Dropped(rows, Rids(batch)), k) + CountOf(key, batch, k)
  {
    if batch == [] {
      assert Rids(batch) == {};
      DroppedNone(rows);
    } else {
      var n := |batch| - 1;
      CountDropped(key, rows, batch[..n], k);
      var gone, x := Rids(batch[..n]), batch[n];
      assert batch == batch[..n] + [x];
      assert Rids(batch) == gone + {x.rid};
      assert x.rid !in gone;
      DroppedDistinct(rows, gone);
      DroppedHas(rows, gone, x);
      CountWithout(key, Dropped(rows, gone), x, k);
      DroppedWithout(rows, gone, x.rid);
      CountAppend(key, batch[..n], [x], k);
      CountOne(key, x, k);
    }
  }

  lemma {:induction false} DroppedDistinct(rows: seq<Stored>, gone: set<RID>)
    requires DistinctRids(rows)
    ensures DistinctRids(Dropped(rows, gone))
  {
    if rows != [] {
      DroppedDistinct(rows[1..], gone);
      var rest := Dropped(rows[1..], gone);
      forall j | 0 <= j < |rest| ensures rest[j].rid != rows[0].rid {
        DroppedHas(rows[1..], gone, rest[j]);
      }
    }
  }

  lemma PrefixIn(rows: seq<Stored>, batch: seq<Stored>, i: nat)
    requires i <= |batch| && DistinctRids(batch) && forall j :: 0 <= j < |batch| ==> batch[j] in rows
    ensures DistinctRids(batch[..i]) && forall j :: 0 <= j < i ==> batch[..i][j] in rows
  {
  }

  /**
   If the table fits its indexes before and after the update, it does at every insert in between: just before
   row i of the batch is written again, its new key has fewer than 291 rows.
   */
  lemma RoomInBetween(key: Key, newKey: Key, rows: seq<Stored>, batch: seq<Stored>, i: nat)
    requires DistinctRids(rows) && DistinctRids(batch) && (forall j :: 0 <= j < |batch| ==> batch[j] in rows)
    requires i < |batch|
    requires CappedBy(key, rows) && ColumnFits(key, newKey, Dropped(rows, Rids(batch)), batch)
    requires OneKeyOrOld(key, newKey, batch)
    ensures var k := newKey(batch[i]);
            CountOf(key, Dropped(rows, Rids(batch[..i + 1])), k) + CountOf(newKey, batch[..i], k) < CAP
  {
    if k0 :| SameKey(newKey, batch, k0) {
      RoomForOneKey(key, newKey, rows, batch, i);
    } else {
      RoomForOldKeys(key, newKey, rows, batch, i);
    }
  }

  lemma RoomForOneKey(key: Key, newKey: Key, rows: seq<Stored>, batch: seq<Stored>, i: nat)
    requires DistinctRids(rows) && DistinctRids(batch) && (forall j :: 0 <= j < |batch| ==> batch[j] in rows)
    requires i < |batch|
    requires ColumnFits(key, newKey, Dropped(rows, Rids(batch)), batch) && SameKey(newKey, batch, newKey(batch[i]))
    ensures var k := newKey(batch[i]);
            CountOf(key, Dropped(rows, Rids(batch[..i + 1])), k) + CountOf(newKey, batch[..i], k) < CAP
  {
    var k := newKey(batch[i]);
    DroppedCounts(key, rows, batch, i + 1, k);
    CountAll(newKey, batch, k);
    CountAll(newKey, batch[..i], k);
  }

  /** Rows of the batch that are still there are all that keeps a count above what it will be. */
  lemma DroppedCounts(key: Key, rows: seq<Stored>, batch: seq<Stored>, i: nat, k: int)
    requires DistinctRids(rows) && DistinctRids(batch) && (forall j :: 0 <= j < |batch| ==> batch[j] in rows)
    requires i <= |batch|
    ensures CountOf(key, Dropped(rows, Rids(batch[..i])), k)
         <= CountOf(key, Dropped(rows, Rids(batch)), k) + |batch| - i
  {
    PrefixIn(rows, batch, i);
    CountDropped(key, rows, batch[..i], k);
    CountDropped(key, rows, batch, k);
    assert batch == batch[..i] + batch[i..];
    CountAppend(key, batch[..i], batch[i..], k);
    CountBounded(key, batch[i..], k);
  }

  lemma RoomForOldKeys(key: Key, newKey: Key, rows: seq<Stored>, batch: seq<Stored>, i: nat)
    requires DistinctRids(rows) && DistinctRids(batch) && (forall j :: 0 <= j < |batch| ==> batch[j] in rows)
    requires i < |batch|
    requires CappedBy(key, rows) && forall j :: 0 <= j < |batch| ==> newKey(batch[j]) == key(batch[j])
    ensures var k := newKey(batch[i]);
            CountOf(key, Dropped(rows, Rids(batch[..i + 1])), k) + CountOf(newKey, batch[..i], k) < CAP
  {
    var k := newKey(batch[i]);
    PrefixIn(rows, batch, i + 1);
    CountDropped(key, rows, batch[..i + 1], k);
    assert batch[..i + 1] == batch[..i] + [batch[i]];
    CountSame(newKey, key, batch[..i], batch[..i], k);
    CountAppend(key, batch[..i], [batch[i]], k);
    CountOne(key, batch[i], k);
  }
}
