/**
 Whole scripts against one database, and what a value with more than 291 rows does to them
 (src/sql/executor.cpp:60-142 over src/index/btree.cpp:247-259 and 405-428).
 */
module Scripts {
  import opened Wrappers
  import opened Bags
  import opened Bytes
  import opened Sql
  import opened RowCodec
  import opened Heap
  import opened Agreement
  import opened Selection
  import opened Capacity
  import opened Mutation
  import opened Statements
  import opened Executor
  import TreeShape

  /** The statements that run on a given set of tables; the others belong to the session and the catalog. */
  predicate IsData(s: Statement) {
    s.Insert? || s.Delete? || s.Update? || s.CreateIndex? || s.Select?
  }

  /** The most index inserts a statement can make. */
  function Inserts(heaps: Heaps, s: Statement): nat {
    match s
    case Insert(_, _) => 1
    case Update(table, _, _) => |Rows(heaps, table)|
    case CreateIndex(_, table, _) => |Rows(heaps, table)|
    case _ => 0
  }

  /** Page numbers are 32 bits wide: no index file can run out of them during the statement. */
  predicate Enough(db: Database, s: Statement)
    reads db, db.indexes, db.indexes.trees.Values
  {
    db.indexes.Paged(Inserts(db.heaps, s)) && 1 + 7 * Inserts(db.heaps, s) <= TreeShape.INVALID_PAGE_ID as int
  }

  /** A valid database has room everywhere. */
  lemma ValidHasRoom(db: Database)
    requires db.Valid()
    ensures AllHaveRoom(db.catalog, db.heaps)
  {
    forall t | t in db.catalog.tables && t.name in db.heaps ensures HasRoom(db.catalog, t, Scanned(db.heaps[t.name])) {
      db.ValidIsCapped(t);
    }
  }

  method Insert(db: Database, table: Text, values: seq<Literal>) returns (sound: bool)
    requires db.Valid() && db.indexes.Paged(1)
    modifies db`heaps, db.indexes`lists, db.indexes.trees.Values
    ensures (sound <==> db.Valid()) && (db.Valid() <==> AllHaveRoom(db.catalog, db.heaps))
  {
    var r;
    r, sound := db.ExecuteInsert(table, values);
    if sound { ValidHasRoom(db); }
  }

  method Update(db: Database, table: Text, asgs: seq<Assignment>, where: seq<Predicate>) returns (sound: bool)
    requires db.Valid() && db.indexes.Paged(|Rows(db.heaps, table)|)
    modifies db`heaps, db.indexes`lists, db.indexes.trees.Values
    ensures (sound <==> db.Valid()) && (db.Valid() <==> AllHaveRoom(db.catalog, db.heaps))
  {
    var r;
    r, sound := db.ExecuteUpdate(table, asgs, where);
    if sound { ValidHasRoom(db); }
  }

  method CreateIndex(db: Database, name: Text, table: Text, column: Text) returns (sound: bool)
    requires db.Valid() && 1 + 7 * |Rows(db.heaps, table)| <= TreeShape.INVALID_PAGE_ID as int
    modifies db`catalog, db.indexes
    ensures (sound <==> db.Valid()) && (db.Valid() <==> AllHaveRoom(db.catalog, db.heaps))
    ensures db.catalog.tables == old(db.catalog).tables
    ensures fresh(db.indexes.trees.Values - old(db.indexes.trees.Values))
  {
    var r;
    r, sound := db.ExecuteCreateIndex(name, table, column);
    if sound { ValidHasRoom(db); }
  }

  /** Accepted or refused, a statement leaves a valid database iff every indexed value has at most 291 rows. */
  method Execute(db: Database, s: Statement) returns (sound: bool)
    requires db.Valid() && IsData(s) && Enough(db, s)
    modifies db, db.indexes, db.indexes.trees.Values
    ensures sound <==> db.Valid()
    ensures db.Valid() <==> AllHaveRoom(db.catalog, db.heaps)
    ensures db.catalog.tables == old(db.catalog).tables
    ensures fresh(db.indexes.trees.Values - old(db.indexes.trees.Values))
  {
    sound := true;
    match s {
      case Insert(table, values) => sound := Insert(db, table, values);
      case Delete(table, where) => var _ := db.ExecuteDelete(table, where);
      case Update(table, asgs, where) => sound := Update(db, table, asgs, where);
      case CreateIndex(name, table, column) => sound := CreateIndex(db, name, table, column);
      case Select(select) =>
        db.ValidIsSearchable();
        var _ := db.ExecuteSelect(select);
    }
    if sound { ValidHasRoom(db); }
  }

  /**
   Over any script: as long as no indexed value gets more than 291 rows, every statement finds and leaves a valid
   database, and the first statement that goes past that leaves an invalid one. It stops early only there, or
   where an index file might run out of page numbers.
   */
  method RunScript(db: Database, script: seq<Statement>) returns (n: nat)
    requires db.Valid() && forall i :: 0 <= i < |script| ==> IsData(script[i])
    modifies db, db.indexes, db.indexes.trees.Values
    ensures n <= |script| && db.catalog.tables == old(db.catalog).tables
    ensures db.Valid() <==> AllHaveRoom(db.catalog, db.heaps)
    ensures n < |script| ==> !db.Valid() || !Enough(db, script[n])
  {
    n := 0;
    var sound := true;
    ValidHasRoom(db);
    while n < |script| && sound && Enough(db, script[n])
      invariant n <= |script| && (sound <==> db.Valid()) && (db.Valid() <==> AllHaveRoom(db.catalog, db.heaps))
      invariant db.catalog.tables == old(db.catalog).tables
      invariant fresh(db.indexes.trees.Values - old(db.indexes.trees.Values))
    {
      sound := Execute(db, script[n]);
      n := n + 1;
    }
  }

  // ----- past 291 rows of a value

  /** The statement selects by the value that the row has in that column. */
  ghost predicate SelectsRow(c: Catalog, s: SelectStatement, t: TableInfo, v: seq<Literal>) {
    && ByKey(c, s) && FindTable(c.tables, s.from) == Some(t)
    && IntValue(s.where[0].value) == IntValue(Cell(t, v, s.where[0].column.column))
  }

  /** The rows with the value the statement asks for. */
  ghost function Wanted(s: SelectStatement, t: TableInfo, rows: seq<Stored>): nat
    requires |s.where| == 1
  {
    CountOf(KeyOf(t, s.where[0].column.column), rows, IntValue(s.where[0].value))
  }

  /** One row more of a value: the others are no fuller than they were. */
  lemma OneMoreOf(key: Key, rows: seq<Stored>, x: Stored)
    requires CappedBy(key, rows) && CountOf(key, rows + [x], key(x)) <= CAP
    ensures CappedBy(key, rows + [x])
  {
    forall k ensures CountOf(key, rows + [x], k) <= CAP {
      CountAppend(key, rows, [x], k);
      CountOne(key, x, k);
    }
  }

  /** Fewer rows came back than the statement means. */
  lemma TooMany(db: Database, s: SelectStatement, t: TableInfo, out: seq<seq<Literal>>)
    requires CatalogOk(db.catalog) && ByKey(db.catalog, s) && FindTable(db.catalog.tables, s.from) == Some(t)
    requires t.name in db.heaps && |out| <= CAP < Wanted(s, t, Scanned(db.heaps[t.name]))
    ensures |out| < |Meaning(db.catalog, db.heaps, s)| && multiset(out) != multiset(Meaning(db.catalog, db.heaps, s))
  {
    ByKeyCounts(db.catalog, s, t, Scanned(db.heaps[t.name]));
    if multiset(out) == multiset(Meaning(db.catalog, db.heaps, s)) {
      SameSize(out, Meaning(db.catalog, db.heaps, s));
    }
  }

  lemma KeyIndexStaysGood(db: Database, s: SelectStatement, t: TableInfo, before: Heaps, v: seq<Literal>)
    requires CatalogOk(db.catalog) && SelectsRow(db.catalog, s, t, v) && db.GoodIfCapped(t)
    requires InsertAccepted(db.catalog, before, s.from, v) && HasRoom(db.catalog, t, Scanned(before[t.name]))
    requires exists rid :: RowAdded(before[t.name], db.heaps[t.name], rid, Encoded(t.columns, v))
    ensures Wanted(s, t, Scanned(db.heaps[t.name])) <= CAP ==> db.indexes.Good(KeyIndex(db.catalog, s).name)
  {
    var rid :| RowAdded(before[t.name], db.heaps[t.name], rid, Encoded(t.columns, v));
    if Wanted(s, t, Scanned(db.heaps[t.name])) <= CAP {
      StoredValues(t, v, rid);
      OneMoreOf(KeyOf(t, KeyIndex(db.catalog, s).column), Scanned(before[t.name]), Stored(rid, Encoded(t.columns, v)));
    }
  }

  method SelectByKey(db: Database, s: SelectStatement, ghost t: TableInfo) returns (out: seq<seq<Literal>>)
    requires db.Searchable() && ByKey(db.catalog, s) && FindTable(db.catalog.tables, s.from) == Some(t)
    requires t.name in db.heaps
    requires Wanted(s, t, Scanned(db.heaps[t.name])) <= CAP ==> db.indexes.Good(KeyIndex(db.catalog, s).name)
    ensures |out| <= CAP
    ensures multiset(out) == multiset(Meaning(db.catalog, db.heaps, s)) <==>
            Wanted(s, t, Scanned(db.heaps[t.name])) <= CAP
    ensures Wanted(s, t, Scanned(db.heaps[t.name])) > CAP ==> |out| < |Meaning(db.catalog, db.heaps, s)|
  {
    var r := db.ExecuteSelect(s);
    out := r.value;
    if Wanted(s, t, Scanned(db.heaps[t.name])) > CAP {
      TooMany(db, s, t, out);
    }
  }

  method InsertRow(db: Database, table: Text, v: seq<Literal>, ghost t: TableInfo)
    requires db.Valid() && db.indexes.Paged(1) && InsertAccepted(db.catalog, db.heaps, table, v)
    requires FindTable(db.catalog.tables, table) == Some(t)
    modifies db`heaps, db.indexes`lists, db.indexes.trees.Values
    ensures db.Searchable() && db.GoodIfCapped(t) && t.name in old(db.heaps)
    ensures HasRoom(db.catalog, t, Scanned(old(db.heaps)[t.name]))
    ensures exists rid :: RowAdded(old(db.heaps)[t.name], db.heaps[t.name], rid, Encoded(t.columns, v))
  {
    db.ValidIsCapped(t);
    var _, _ := db.ExecuteInsert(table, v);
  }

  /**
   Any accepted INSERT, then a SELECT by the value of the new row in an indexed column. The SELECT returns what
   it means if and only if that value has at most 291 rows, and otherwise it returns too few.
   */
  method InsertThenSelect(db: Database, v: seq<Literal>, s: SelectStatement, ghost t: TableInfo)
    returns (out: seq<seq<Literal>>)
    requires db.Valid() && db.indexes.Paged(1) && InsertAccepted(db.catalog, db.heaps, s.from, v)
    requires SelectsRow(db.catalog, s, t, v)
    modifies db`heaps, db.indexes`lists, db.indexes.trees.Values
    ensures t.name in old(db.heaps) && t.name in db.heaps
    ensures exists rid :: RowAdded(old(db.heaps)[t.name], db.heaps[t.name], rid, Encoded(t.columns, v))
    ensures |out| <= CAP
    ensures multiset(out) == multiset(Meaning(db.catalog, db.heaps, s)) <==>
            Wanted(s, t, Scanned(db.heaps[t.name])) <= CAP
    ensures Wanted(s, t, Scanned(db.heaps[t.name])) > CAP ==> |out| < |Meaning(db.catalog, db.heaps, s)|
  {
    InsertRow(db, s.from, v, t);
    KeyIndexStaysGood(db, s, t, old(db.heaps), v);
    out := SelectByKey(db, s, t);
  }

  /** Every row of the table is a copy of one row. */
  ghost predicate Copies(bytes: seq<byte>, rows: seq<Stored>) {
    forall i :: 0 <= i < |rows| ==> rows[i].bytes == bytes
  }

  lemma CopiesHaveRoom(c: Catalog, t: TableInfo, rows: seq<Stored>)
    requires |rows| <= CAP
    ensures HasRoom(c, t, rows)
  {
    forall x | x in c.indexes && x.table == t.name ensures CappedBy(KeyOf(t, x.column), rows) {
      forall k ensures CountOf(KeyOf(t, x.column), rows, k) <= CAP {
        CountBounded(KeyOf(t, x.column), rows, k);
      }
    }
  }

  lemma CopiesAreWanted(c: Catalog, s: SelectStatement, t: TableInfo, v: seq<Literal>, rows: seq<Stored>)
    requires SelectsRow(c, s, t, v) && WellTyped(t.columns, v) && |Encoded(t.columns, v)| <= MAX_ROW
    requires Copies(Encoded(t.columns, v), rows)
    ensures Wanted(s, t, rows) == |rows|
  {
    var key := KeyOf(t, s.where[0].column.column);
    forall i | 0 <= i < |rows| ensures key(rows[i]) == IntValue(s.where[0].value) {
      StoredValues(t, v, rows[i].rid);
      assert rows[i] == Stored(rows[i].rid, rows[i].bytes);
    }
    CountAll(key, rows, IntValue(s.where[0].value));
  }

  /** Without a primary key, what was accepted once is accepted again. */
  lemma CopyAccepted(c: Catalog, heaps: Heaps, table: Text, t: TableInfo, v: seq<Literal>)
    requires FindTable(c.tables, table) == Some(t) && table in heaps && PrimaryKeyIndex(c.indexes, t.name).None?
    requires WellTyped(t.columns, v) && |Encoded(t.columns, v)| <= MAX_ROW
    ensures InsertAccepted(c, heaps, table, v)
  {
  }

  method InsertCopy(db: Database, table: Text, v: seq<Literal>, ghost t: TableInfo, ghost left: nat)
    requires db.Valid() && db.indexes.Paged(left + 1) && FindTable(db.catalog.tables, table) == Some(t)
    requires t.name in db.heaps
    requires WellTyped(t.columns, v) && |Encoded(t.columns, v)| <= MAX_ROW
    requires PrimaryKeyIndex(db.catalog.indexes, t.name).None?
    requires Copies(Encoded(t.columns, v), Scanned(db.heaps[t.name])) && |Scanned(db.heaps[t.name])| < CAP
    modifies db`heaps, db.indexes`lists, db.indexes.trees.Values
    ensures db.Valid() && db.indexes.Paged(left) && t.name in db.heaps
    ensures Copies(Encoded(t.columns, v), Scanned(db.heaps[t.name]))
    ensures |Scanned(db.heaps[t.name])| == |Scanned(old(db.heaps)[t.name])| + 1
  {
    ghost var ends := db.indexes.Ends();
    db.indexes.PagedLess(left + 1, 1);
    CopyAccepted(db.catalog, db.heaps, table, t, v);
    var _, _ := db.ExecuteInsert(table, v);
    db.indexes.StillPaged(ends, left);
    CopiesHaveRoom(db.catalog, t, Scanned(db.heaps[t.name]));
  }

  method InsertCopies(db: Database, table: Text, v: seq<Literal>, ghost t: TableInfo)
    requires db.Valid() && db.indexes.Paged(CAP + 1) && FindTable(db.catalog.tables, table) == Some(t)
    requires t.name in db.heaps
    requires WellTyped(t.columns, v) && |Encoded(t.columns, v)| <= MAX_ROW
    requires PrimaryKeyIndex(db.catalog.indexes, t.name).None?
    requires Scanned(db.heaps[t.name]) == []
    modifies db`heaps, db.indexes`lists, db.indexes.trees.Values
    ensures db.Valid() && db.indexes.Paged(1) && t.name in db.heaps
    ensures |Scanned(db.heaps[t.name])| == CAP && Copies(Encoded(t.columns, v), Scanned(db.heaps[t.name]))
  {
    var i := 0;
    while i < CAP
      invariant 0 <= i <= CAP && db.Valid() && db.indexes.Paged(CAP + 1 - i) && t.name in db.heaps
      invariant |Scanned(db.heaps[t.name])| == i && Copies(Encoded(t.columns, v), Scanned(db.heaps[t.name]))
    {
      InsertCopy(db, table, v, t, CAP - i);
      i := i + 1;
    }
  }

  /**
   In any database, 292 INSERTs of the same row into an empty table without a primary key, then a SELECT by the
   row's value in an indexed column: 292 rows match and at most 291 come back.
   */
  method CopiesThenSelect(db: Database, v: seq<Literal>, s: SelectStatement, ghost t: TableInfo)
    returns (out: seq<seq<Literal>>)
    requires db.Valid() && db.indexes.Paged(CAP + 1) && InsertAccepted(db.catalog, db.heaps, s.from, v)
    requires SelectsRow(db.catalog, s, t, v) && PrimaryKeyIndex(db.catalog.indexes, t.name).None?
    requires t.name in db.heaps && Scanned(db.heaps[t.name]) == []
    modifies db`heaps, db.indexes`lists, db.indexes.trees.Values
    ensures t.name in db.heaps && |Scanned(db.heaps[t.name])| == CAP + 1
    ensures Copies(Encoded(t.columns, v), Scanned(db.heaps[t.name]))
    ensures |Meaning(db.catalog, db.heaps, s)| == CAP + 1 && |out| <= CAP
  {
    InsertCopies(db, s.from, v, t);
    CopyAccepted(db.catalog, db.heaps, s.from, t, v);
    ghost var before := db.heaps[t.name];
    out := InsertThenSelect(db, v, s, t);
    OneCopyMore(before, db.heaps[t.name], Encoded(t.columns, v));
    CopiesMeaning(db, v, s, t);
  }

  lemma OneCopyMore(before: Pages, after: Pages, bytes: seq<byte>)
    requires Copies(bytes, Scanned(before)) && exists rid :: RowAdded(before, after, rid, bytes)
    ensures Copies(bytes, Scanned(after)) && |Scanned(after)| == |Scanned(before)| + 1
  {
  }

  lemma CopiesMeaning(db: Database, v: seq<Literal>, s: SelectStatement, t: TableInfo)
    requires CatalogOk(db.catalog) && SelectsRow(db.catalog, s, t, v) && t.name in db.heaps
    requires WellTyped(t.columns, v) && |Encoded(t.columns, v)| <= MAX_ROW
    requires Copies(Encoded(t.columns, v), Scanned(db.heaps[t.name]))
    ensures |Meaning(db.catalog, db.heaps, s)| == |Scanned(db.heaps[t.name])|
  {
    CopiesAreWanted(db.catalog, s, t, v, Scanned(db.heaps[t.name]));
    ByKeyCounts(db.catalog, s, t, Scanned(db.heaps[t.name]));
  }
}
