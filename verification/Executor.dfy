/**
 The statement executor (src/sql/executor.cpp) over B+-trees: every index of a table is a tree of its own,
 searched and changed through its own operations. Heap files are the values their model specifies.
 */
module Executor {
  import opened Wrappers
  import opened Bags
  import opened Bytes
  import opened Sql
  import opened Planner
  import opened Relational
  import opened RowCodec
  import opened Entries
  import opened Heap
  import opened Agreement
  import opened Selection
  import opened Joining
  import opened Capacity
  import opened Mutation
  import opened StatementMeaning
  import opened Statements
  import opened Indexing
  import TreeShape

  lemma WasFullRows(c: Catalog, bad: set<Text>, heaps: Heaps, m: Indexes, t: TableInfo, v: seq<Literal>, n: Text)
    requires Consistent(Trusted(c, bad), heaps, m) && t in c.tables && t.name in heaps && n !in bad
    requires WasFull(c, t, v, m, n)
    ensures RowsFull(c, t, Scanned(heaps[t.name]), v, n)
  {
    assert TableOk(Trusted(c, bad), t, heaps, m);
    var x :| x in c.indexes && x.table == t.name && x.name == n
             && CountKey(Contents(m, n), IntValue(Cell(t, v, x.column))) >= CAP;
    assert x in Trusted(c, bad).indexes;
    AgreedCount(KeyOf(t, x.column), m[n], Scanned(heaps[t.name]), IntValue(Cell(t, v, x.column)));
  }

  lemma SetTwice(heaps: Heaps, n: Text, a: Pages, b: Pages)
    ensures heaps[n := a][n := b] == heaps[n := b]
  {
  }

  class Database {
    var catalog: Catalog
    var heaps: Heaps
    const indexes: IndexSet

    /** Rows decode, and every index but those in `bad` is a valid tree that agrees with its table. */
    ghost predicate Sound(bad: set<Text>)
      reads this, indexes, indexes.trees.Values
    {
      && CatalogOk(catalog) && Consistent(Trusted(catalog, bad), heaps, indexes.lists)
      && indexes.Named(catalog) && indexes.Linked(bad) && indexes.trees.Keys <= indexes.lists.Keys
    }

    /** Every index is a valid tree that agrees with its table, and primary keys are distinct. */
    ghost predicate Valid()
      reads this, indexes, indexes.trees.Values
    {
      && Consistent(catalog, heaps, indexes.lists) && KeysOk(catalog, heaps)
      && indexes.Named(catalog) && indexes.Linked({}) && indexes.trees.Keys <= indexes.lists.Keys
    }

    /** Every index can be searched and holds the entries of its table's rows; it may have lost its routing. */
    ghost predicate Searchable()
      reads this, indexes, indexes.trees.Values
    {
      && Consistent(catalog, heaps, indexes.lists) && KeysOk(catalog, heaps)
      && indexes.Named(catalog) && indexes.Apart() && forall n :: n in indexes.trees ==> indexes.Held(n)
    }

    /** Index by index: one whose values have at most 291 rows each is a valid tree. */
    ghost predicate GoodIfCapped(t: TableInfo)
      reads this, indexes, indexes.trees.Values
    {
      && t.name in heaps
      && forall x :: x in catalog.indexes && x.table == t.name ==>
           (CappedBy(KeyOf(t, x.column), Scanned(heaps[t.name])) ==> indexes.Good(x.name))
    }

    lemma SoundIffValid()
      ensures Sound({}) && KeysOk(catalog, heaps) <==> Valid()
    {
      OthersAll(catalog.indexes);
      assert Trusted(catalog, {}) == catalog;
    }

    lemma ValidDecodes(t: TableInfo)
      requires Valid() && t in catalog.tables
      ensures t.name in heaps && RowsDecode(t, heaps[t.name])
    {
      assert TableOk(catalog, t, heaps, indexes.lists);
    }

    lemma ValidIsSearchable()
      requires Valid()
      ensures Searchable()
    {
      indexes.GoodIsHeld({});
    }

    /** No valid database has more than 291 rows of an indexed value. */
    lemma ValidIsCapped(t: TableInfo)
      requires Valid() && t in catalog.tables
      ensures t.name in heaps && HasRoom(catalog, t, Scanned(heaps[t.name]))
    {
      assert TableOk(catalog, t, heaps, indexes.lists);
      forall x | x in catalog.indexes &&
          x.table == t.name ensures CappedBy(KeyOf(t, x.column), Scanned(heaps[t.name])) {
        assert indexes.Good(x.name);
        forall k ensures CountOf(KeyOf(t, x.column), Scanned(heaps[t.name]), k) <= CAP {
          indexes.GoodIsCapped(x.name, k);
          AgreedCount(KeyOf(t, x.column), indexes.lists[x.name], Scanned(heaps[t.name]), k);
        }
      }
    }

    /** In a valid database two live rows never have the same value in the column of a primary key. */
    lemma KeysAreDistinct(t: TableInfo, x: IndexInfo, j: nat, a: nat, b: nat)
      requires Valid() && t in catalog.tables && x in catalog.indexes && x.isPrimaryKey && x.table == t.name
      requires j < |t.columns| && t.columns[j].name == x.column
      requires t.name in heaps && a < b < |Scanned(heaps[t.name])|
      ensures Values(t, Scanned(heaps[t.name])[a])[j] != Values(t, Scanned(heaps[t.name])[b])[j]
    {
      var rows := Scanned(heaps[t.name]);
      assert IsKey(catalog.indexes, t.name, x) && KeyOk(catalog, t, rows);
      IndexColumn(catalog, t, x);
      ColumnAtFinds(t.columns, j);
      KeyIsCell(t, rows[a], j);
      KeyIsCell(t, rows[b], j);
    }

    /** A new database: every table and every index empty. */
    constructor (c: Catalog)
      requires CatalogOk(c)
      ensures Valid() && catalog == c && fresh(indexes) && fresh(indexes.trees.Values)
      ensures forall t :: t in c.tables ==> t.name in heaps && heaps[t.name] == []
    {
      catalog := c;
      heaps := EmptyHeaps(c.tables);
      var empty := EmptyIndexes(c.indexes);
      indexes := empty;
      new;
      EmptyIsConsistent(c, heaps, indexes.lists);
    }

    // ----- row access

    /** Every fetched address is live: an index never names a missing row, even one that has lost its routing. */
    method FetchRows(h: Pages, name: Text, k: int, ghost key: Key) returns (rows: seq<Stored>)
      requires indexes.Held(name) && Agrees(key, indexes.lists[name], Scanned(h))
      ensures |rows| <= CAP
      ensures indexes.Good(name) ==> rows == Probe(h, indexes.lists, name, k)
    {
      var rids := indexes.Search(name, k);
      rows := [];
      var i := 0;
      while i < |rids|
        invariant 0 <= i <= |rids| && |rows| == i
        invariant rows == FlatMap(Fetch(h), rids[..i])
      {
        indexes.trees[name].FoundIsStored(k, i);
        EntryIsLive(key, indexes.lists[name], h, k, rids[i]);
        FlatMapStep(Fetch(h), rids, i);
        var bytes := Got(h, rids[i]);
        assert bytes.Some?;
        rows := rows + [Stored(rids[i], bytes.value)];
        i := i + 1;
      }
      assert rids[..i] == rids;
    }

    method FetchCandidateRows(t: TableInfo, a: Access) returns (rows: seq<Stored>)
      requires Searchable() && t in catalog.tables && t.name in heaps && OwnIndex(catalog, t.name, a)
      ensures a.scan.IndexScan? ==> |rows| <= CAP
      ensures (a.scan.IndexScan? ==> indexes.Good(a.scan.index)) ==> rows == Candidates(a, heaps[t.name], indexes.lists)
    {
      assert TableOk(catalog, t, heaps, indexes.lists);
      if a.scan.SeqScan? {
        return Scanned(heaps[t.name]);
      }
      ghost var x :| x in catalog.indexes && x.table == t.name && x.name == a.scan.index;
      rows := FetchRows(heaps[t.name], a.scan.index, a.scan.key, KeyOf(t, x.column));
    }

    method FilterRows(t: TableInfo, rows: seq<Stored>, ps: seq<Predicate>) returns (out: seq<Stored>)
      ensures out == Matched(t, ps, rows)
    {
      out := [];
      var i := 0;
      while i < |rows|
        invariant 0 <= i <= |rows|
        invariant out == Matched(t, ps, rows[..i])
      {
        MatchedStep(t, ps, rows, i);
        if MatchesAll(t, Values(t, rows[i]), ps) { out := out + [rows[i]]; }
        i := i + 1;
      }
      assert rows[..i] == rows;
    }

    // ----- one row and its index entries

    /** Heap insert and index inserts. The indexes that become bad are those in which the value was full. */
    method AddRow(t: TableInfo, v: seq<Literal>, bytes: seq<byte>, bad: set<Text>) returns (rid: RID, now: set<Text>)
      requires Sound(bad) && t in catalog.tables && t.name in heaps && indexes.Paged(1)
      requires WellTyped(t.columns, v) && bytes == Encoded(t.columns, v) && |bytes| <= MAX_ROW
      modifies this`heaps, indexes`lists, indexes.trees.Values
      ensures Sound(now) && bad <= now && rid == Inserted(old(heaps)[t.name], bytes).rid
      ensures heaps == old(heaps)[t.name := Inserted(old(heaps)[t.name], bytes).pages]
      ensures forall n :: n in now && n !in bad ==> RowsFull(catalog, t, Scanned(old(heaps)[t.name]), v, n)
      ensures indexes.GrownBy(old(indexes.Ends()), [], 0)
      ensures Consistent(Trusted(catalog, bad), heaps, indexes.lists)
      ensures forall n :: n in indexes.trees && n !in bad ==> indexes.Held(n)
    {
      ghost var m, before := indexes.lists, heaps;
      var p := Inserted(heaps[t.name], bytes);
      heaps := heaps[t.name := p.pages];
      now := indexes.InsertAll(catalog, t, v, p.rid, bad);
      rid := p.rid;
      InsertKeeps(Trusted(catalog, bad), before, m, indexes.lists, t, v);
      TrustLess(catalog, bad, now, heaps, indexes.lists);
      forall n | n in now && n !in bad ensures RowsFull(catalog, t, Scanned(before[t.name]), v, n) {
        WasFullRows(catalog, bad, before, m, t, v, n);
      }
    }

    /** Index deletes and heap delete. */
    method RemoveRow(t: TableInfo, x: Stored, bad: set<Text>)
      requires Sound(bad) && t in catalog.tables && t.name in heaps && x in Scanned(heaps[t.name])
      modifies this`heaps, indexes`lists, indexes.trees.Values
      ensures Sound(bad) && heaps == old(heaps)[t.name := Removed(old(heaps)[t.name], x.rid)]
      ensures indexes.Ends() == old(indexes.Ends())
    {
      ghost var m, before := indexes.lists, heaps;
      indexes.DeleteAll(catalog, t, Values(t, x), x.rid, bad);
      heaps := heaps[t.name := Removed(heaps[t.name], x.rid)];
      RowRemoved(t, x, bad, before, m);
    }

    lemma RowRemoved(t: TableInfo, x: Stored, bad: set<Text>, before: Heaps, m: Indexes)
      requires CatalogOk(catalog) && Consistent(Trusted(catalog, bad), before, m) && t in catalog.tables
      requires t.name in before && x in Scanned(before[t.name])
      requires heaps == before[t.name := Removed(before[t.name], x.rid)]
      requires Edited(Trusted(catalog, bad), t.name, Dropping(t, Values(t, x), x.rid), m, indexes.lists)
      requires indexes.Named(catalog) && indexes.Linked(bad) && indexes.trees.Keys <= indexes.lists.Keys
      ensures Sound(bad)
    {
      DeleteKeeps(Trusted(catalog, bad), before, m, indexes.lists, t, x);
    }

    // ----- INSERT

    method CheckValues(t: TableInfo, v: seq<Literal>) returns (r: Result<(), SqlError>)
      ensures r.Ok? <==> WellTyped(t.columns, v)
    {
      if |v| != |t.columns| { return Err(WrongArity); }
      var i := 0;
      while i < |v|
        invariant 0 <= i <= |v|
        invariant forall j :: 0 <= j < i ==> KindMatches(t.columns[j].typ, v[j])
      {
        if !KindMatches(t.columns[i].typ, v[i]) { return Err(TypeMismatch); }
        i := i + 1;
      }
      return Ok(());
    }

    /** The index of the primary key can be searched, and holds the keys of the table's rows. */
    lemma KeyIndexAgrees(t: TableInfo, x: IndexInfo)
      requires Valid() && t in catalog.tables && t.name in heaps && IsKey(catalog.indexes, t.name, x)
      ensures indexes.Good(x.name) && indexes.Held(x.name)
      ensures x.name in indexes.lists && Agrees(KeyOf(t, x.column), indexes.lists[x.name], Scanned(heaps[t.name]))
    {
      assert TableOk(catalog, t, heaps, indexes.lists);
      ValidIsSearchable();
    }

    /** Whether the primary key index holds the row's value already. */
    method KeyTaken(t: TableInfo, x: IndexInfo, v: seq<Literal>) returns (taken: bool)
      requires CatalogOk(catalog) && IsKey(catalog.indexes, t.name, x) && t.name in heaps
      requires indexes.Good(x.name) && indexes.Held(x.name)
      requires Agrees(KeyOf(t, x.column), indexes.lists[x.name], Scanned(heaps[t.name]))
      ensures taken <==> !KeyIsFree(catalog, t, Scanned(heaps[t.name]), v)
    {
      KeyFreeIff(catalog, t, heaps[t.name], v, x, indexes.lists[x.name]);
      var rids := indexes.Search(x.name, IntValue(Cell(t, v, x.column)));
      taken := rids != [];
    }

    method CheckPrimaryKey(t: TableInfo, v: seq<Literal>) returns (r: Result<(), SqlError>)
      requires Valid() && t in catalog.tables && t.name in heaps
      ensures r.Ok? <==> KeyIsFree(catalog, t, Scanned(heaps[t.name]), v)
    {
      var pk := PrimaryKeyIndex(catalog.indexes, t.name);
      if pk.None? { return Ok(()); }
      KeyIndexAgrees(t, pk.value);
      var taken := KeyTaken(t, pk.value, v);
      if taken { return Err(DuplicateKey); }
      return Ok(());
    }

    /** What an accepted INSERT comes to: the database stays valid if and only if every indexed value still has room. */
    lemma InsertVerdict(t: TableInfo, rows: seq<Stored>, v: seq<Literal>, rid: RID, now: set<Text>)
      requires Sound(now) && KeysOk(catalog, heaps) && t in catalog.tables && t.name in heaps
      requires WellTyped(t.columns, v) && |Encoded(t.columns, v)| <= MAX_ROW
      requires Scanned(heaps[t.name]) == rows + [Stored(rid, Encoded(t.columns, v))]
      requires forall n :: n in now ==> RowsFull(catalog, t, rows, v, n)
      ensures now == {} <==> Valid()
      ensures Valid() <==> HasRoom(catalog, t, Scanned(heaps[t.name]))
      ensures GoodIfCapped(t)
    {
      SoundIffValid();
      forall x | x in catalog.indexes && x.table == t.name && x.name in now
        ensures !CappedBy(KeyOf(t, x.column), Scanned(heaps[t.name]))
      {
        FullOverfills(catalog, t, rows, v, x, rid);
      }
      if now != {} {
        var n :| n in now;
        assert RowsFull(catalog, t, rows, v, n);
      }
      if Valid() { ValidIsCapped(t); }
    }

    /**
     One row more, at the end of the scan, exactly when it is well typed, fits, and its key is free; otherwise
     nothing changes. All index contents agree afterwards; all indexes keep their routing if and only if no
     indexed value has more than 291 rows then.
     */
    method ExecuteInsert(table: Text, v: seq<Literal>) returns (r: Result<nat, SqlError>, sound: bool)
      requires Valid() && indexes.Paged(1)
      modifies this`heaps, indexes`lists, indexes.trees.Values
      ensures Searchable() && (sound <==> Valid())
      ensures r.Ok? <==> InsertAccepted(catalog, old(heaps), table, v)
      ensures r.Err? ==> heaps == old(heaps) && indexes.lists == old(indexes.lists) && Valid()
      ensures r.Ok? ==> r.value == 1 && table in old(heaps) && table in heaps && Elsewhere(old(heaps), heaps, table)
      ensures r.Ok? ==> exists rid ::
                RowAdded(old(heaps)[table], heaps[table], rid,
                    Encoded(FindTable(catalog.tables, table).value.columns, v))
      ensures r.Ok? ==> exists x ::
                RowPut(FindTable(catalog.tables, table).value, old(heaps)[table], heaps[table], x, v)
      ensures r.Ok? ==> (Valid() <==> HasRoom(catalog, FindTable(catalog.tables, table).value, Scanned(heaps[table])))
      ensures r.Ok? ==> GoodIfCapped(FindTable(catalog.tables, table).value)
      ensures indexes.GrownBy(old(indexes.Ends()), [], 0)
    {
      var checked := CheckInsert(table, v);
      if checked.Err? {
        ValidIsSearchable();
        return Err(checked.error), true;
      }
      sound := InsertChecked(checked.value.0, v, checked.value.1);
      r := Ok(1);
      RowIsPut(checked.value.0, old(heaps)[table], heaps[table], v);
    }

    /** All the checks, before anything is changed: the table and the row's bytes. */
    method CheckInsert(table: Text, v: seq<Literal>) returns (r: Result<(TableInfo, seq<byte>), SqlError>)
      requires Valid()
      ensures r.Ok? <==> InsertAccepted(catalog, heaps, table, v)
      ensures r.Ok? ==> var t := r.value.0;
                FindTable(catalog.tables, table) == Some(t) && t in catalog.tables && t.name == table
                && r.value.1 == Encoded(t.columns, v)
    {
      var found := FindTable(catalog.tables, table);
      if found.None? { return Err(NoSuchTable); }
      var t := found.value;
      assert TableOk(catalog, t, heaps, indexes.lists);
      var typed := CheckValues(t, v);
      if typed.Err? { return Err(typed.error); }
      var free := CheckPrimaryKey(t, v);
      if free.Err? { return Err(free.error); }
      var bytes := EncodeRow(t.columns, v);
      if |bytes| > MAX_ROW { return Err(RowTooLarge); }
      return Ok((t, bytes));
    }

    method InsertChecked(t: TableInfo, v: seq<Literal>, bytes: seq<byte>) returns (sound: bool)
      requires Valid() && indexes.Paged(1) && t in catalog.tables && t.name in heaps
      requires WellTyped(t.columns, v) && bytes == Encoded(t.columns, v) && |bytes| <= MAX_ROW
      requires KeyIsFree(catalog, t, Scanned(heaps[t.name]), v)
      modifies this`heaps, indexes`lists, indexes.trees.Values
      ensures Searchable() && (sound <==> Valid())
      ensures t.name in heaps && Elsewhere(old(heaps), heaps, t.name)
      ensures exists rid :: RowAdded(old(heaps)[t.name], heaps[t.name], rid, bytes)
      ensures Valid() <==> HasRoom(catalog, t, Scanned(heaps[t.name]))
      ensures GoodIfCapped(t) && indexes.GrownBy(old(indexes.Ends()), [], 0)
    {
      ghost var rows := Scanned(heaps[t.name]);
      SoundIffValid();
      InsertScan(heaps[t.name], bytes);
      FreeKeyStays(catalog, t, rows, v, Inserted(heaps[t.name], bytes).rid);
      KeysOkUpdate(catalog, heaps, t, Inserted(heaps[t.name], bytes).pages);
      var rid, now := AddRow(t, v, bytes, {});
      assert RowAdded(old(heaps)[t.name], heaps[t.name], rid, bytes);
      InsertVerdict(t, rows, v, rid, now);
      OthersAll(catalog.indexes);
      sound := now == {};
    }

    // ----- DELETE

    /** Takes out exactly the matching rows; the others keep their place and address. Indexes always stay valid. */
    method ExecuteDelete(table: Text, where: seq<Predicate>) returns (r: Result<nat, SqlError>)
      requires Valid()
      modifies this`heaps, indexes`lists, indexes.trees.Values
      ensures Valid()
      ensures r.Ok? <==>
              FindTable(catalog.tables, table).Some? && PredicatesOk(FindTable(catalog.tables, table).value, where)
      ensures r.Err? ==> heaps == old(heaps) && indexes.lists == old(indexes.lists)
      ensures r.Ok? ==> table in old(heaps) && table in heaps && Elsewhere(old(heaps), heaps, table)
      ensures r.Ok? ==>
                DeleteDone(FindTable(catalog.tables, table).value, where, old(heaps)[table], heaps[table], r.value)
    {
      var planned := PlanTableAccess(catalog, table, where);
      if planned.Err? { return Err(planned.error); }
      var t := FindTable(catalog.tables, table).value;
      assert TableOk(catalog, t, heaps, indexes.lists);
      FilterMatched(t, where, Scanned(heaps[table]));
      var n := DeleteFound(t, where, planned.value);
      return Ok(n);
    }

    method DeleteFound(t: TableInfo, where: seq<Predicate>, a: Access) returns (n: nat)
      requires Valid() && t in catalog.tables && t.name in heaps && PredicatesOk(t, where)
      requires AccessFor(catalog, t.name, where, a)
      modifies this`heaps, indexes`lists, indexes.trees.Values
      ensures Valid() && t.name in heaps && Elsewhere(old(heaps), heaps, t.name)
      ensures Scanned(heaps[t.name]) == Unmatched(t, where, Scanned(old(heaps)[t.name]))
      ensures n == |Matched(t, where, Scanned(old(heaps)[t.name]))|
    {
      assert TableOk(catalog, t, heaps, indexes.lists);
      PlansOwnIndex(catalog, t.name, where, a);
      var rows := FetchAll(t, a);
      FoundRows(catalog, t, heaps[t.name], indexes.lists, where, a);
      SoundIffValid();
      n := DeleteMatching(t, rows, a.residual);
      SoundIffValid();
      FinishDelete(catalog, t, where, old(heaps), heaps, Matched(t, a.residual, rows));
    }

    /** In a valid database the fetched rows are those of the plan. */
    method FetchAll(t: TableInfo, a: Access) returns (rows: seq<Stored>)
      requires Valid() && t in catalog.tables && t.name in heaps && OwnIndex(catalog, t.name, a)
      ensures rows == Candidates(a, heaps[t.name], indexes.lists)
    {
      ValidIsSearchable();
      rows := FetchCandidateRows(t, a);
    }

    /** Before round i of the delete loop: the matching rows among the first i are gone. */
    ghost predicate Deleting(t: TableInfo, ps: seq<Predicate>, rows: seq<Stored>, i: nat, before: Heaps, n: nat)
      requires i <= |rows| && t.name in before
      reads this, indexes, indexes.trees.Values
    {
      && Sound({}) && t.name in heaps && Elsewhere(before, heaps, t.name) && n == |Matched(t, ps, rows[..i])|
      && Scanned(heaps[t.name]) == Dropped(Scanned(before[t.name]), Rids(Matched(t, ps, rows[..i])))
    }

    lemma DeletingStarts(t: TableInfo, ps: seq<Predicate>, rows: seq<Stored>)
      requires Sound({}) && t.name in heaps
      ensures Deleting(t, ps, rows, 0, heaps, 0)
    {
      assert rows[..0] == [];
      DropNothing(Scanned(heaps[t.name]));
    }

    lemma DeletingDone(t: TableInfo, ps: seq<Predicate>, rows: seq<Stored>, before: Heaps, n: nat)
      requires t.name in before && Deleting(t, ps, rows, |rows|, before, n)
      ensures Sound({}) && t.name in heaps && Elsewhere(before, heaps, t.name) && n == |Matched(t, ps, rows)|
      ensures Scanned(heaps[t.name]) == Dropped(Scanned(before[t.name]), Rids(Matched(t, ps, rows)))
    {
      assert rows[..|rows|] == rows;
    }

    method DeleteMatching(t: TableInfo, rows: seq<Stored>, ps: seq<Predicate>) returns (n: nat)
      requires Sound({}) && t in catalog.tables && t.name in heaps
      requires DistinctRids(Matched(t, ps, rows))
      requires forall x :: x in Matched(t, ps, rows) ==> x in Scanned(heaps[t.name])
      modifies this`heaps, indexes`lists, indexes.trees.Values
      ensures Sound({}) && t.name in heaps && Elsewhere(old(heaps), heaps, t.name)
      ensures n == |Matched(t, ps, rows)|
      ensures Scanned(heaps[t.name]) == Dropped(Scanned(old(heaps)[t.name]), Rids(Matched(t, ps, rows)))
    {
      n := 0;
      var i := 0;
      DeletingStarts(t, ps, rows);
      while i < |rows|
        invariant 0 <= i <= |rows| && Deleting(t, ps, rows, i, old(heaps), n)
      {
        n := DeleteIfMatching(t, rows, ps, i, n, old(heaps));
        i := i + 1;
      }
      DeletingDone(t, ps, rows, old(heaps), n);
    }

    /** One round of the loop. */
    method DeleteIfMatching(t: TableInfo, rows: seq<Stored>, ps: seq<Predicate>, i: nat, n: nat, ghost before: Heaps)
      returns (count: nat)
      requires t in catalog.tables && t.name in before && i < |rows| && Deleting(t, ps, rows, i, before, n)
      requires DistinctRids(Matched(t, ps, rows))
      requires forall x :: x in Matched(t, ps, rows) ==> x in Scanned(before[t.name])
      modifies this`heaps, indexes`lists, indexes.trees.Values
      ensures Deleting(t, ps, rows, i + 1, before, count)
    {
      MatchedStep(t, ps, rows, i);
      count := n;
      if MatchesAll(t, Values(t, rows[i]), ps) {
        NextMatched(t, ps, rows, i);
        DeleteOne(t, rows[i], before[t.name], Matched(t, ps, rows[..i]));
        count := n + 1;
      }
    }

    method DeleteOne(t: TableInfo, x: Stored, ghost h0: Pages, ghost gone: seq<Stored>)
      requires Sound({}) && t in catalog.tables && t.name in heaps
      requires Scanned(heaps[t.name]) == Dropped(Scanned(h0), Rids(gone)) && x in Scanned(h0) && x.rid !in Rids(gone)
      modifies this`heaps, indexes`lists, indexes.trees.Values
      ensures Sound({}) && t.name in heaps && Elsewhere(old(heaps), heaps, t.name)
      ensures Scanned(heaps[t.name]) == Dropped(Scanned(h0), Rids(gone + [x]))
    {
      DeleteStep(h0, heaps[t.name], Rids(gone), x);
      RemoveRow(t, x, {});
      RidsSnoc(gone, x);
    }

    // ----- UPDATE

    method CheckAssignments(t: TableInfo, asgs: seq<Assignment>) returns (r: Result<(), SqlError>)
      ensures r.Ok? <==> AssignmentsOk(t, asgs)
    {
      var i := 0;
      while i < |asgs|
        invariant 0 <= i <= |asgs|
        invariant forall j :: 0 <= j < i ==> AssignmentOk(t, asgs[j])
      {
        var col := RequireColumn(t, asgs[i].column);
        if col.Err? { return Err(col.error); }
        if !KindMatches(col.value.typ, asgs[i].value) { return Err(TypeMismatch); }
        i := i + 1;
      }
      return Ok(());
    }

    /** One row of the batch: out at its old address, in at a new one. */
    method RewriteOne(t: TableInfo, asgs: seq<Assignment>, x: Stored, bad: set<Text>,
                      ghost h0: Pages, ghost gone: set<RID>, ghost news: seq<Stored>)
      returns (rid: RID, now: set<Text>)
      requires Sound(bad) && t in catalog.tables && t.name in heaps && AssignmentsOk(t, asgs) && indexes.Paged(1)
      requires Rewriting(h0, heaps[t.name], gone, news) && x in Scanned(h0) && x.rid !in gone
      requires |NewBytes(t, asgs, x)| <= MAX_ROW
      modifies this`heaps, indexes`lists, indexes.trees.Values
      ensures Sound(now) && bad <= now && t.name in heaps && Elsewhere(old(heaps), heaps, t.name)
      ensures Rewriting(h0, heaps[t.name], gone + {x.rid}, news + [Stored(rid, NewBytes(t, asgs, x))])
      ensures indexes.GrownBy(old(indexes.Ends()), [], 0)
      ensures forall n :: n in now && n !in bad ==>
                RowsFull(catalog, t, Dropped(Scanned(h0), gone + {x.rid}) + news, NewRow(t, asgs, x), n)
    {
      var v := NewRow(t, asgs, x);
      var bytes := EncodeRow(t.columns, v);
      RewriteStep(h0, heaps[t.name], gone, news, x, bytes);
      RemovedRows(h0, heaps[t.name], gone, news, x);
      SoundRowTyped(t, asgs, x, bad);
      rid, now := MoveRow(t, x, v, bytes, bad);
    }

    lemma SoundRowTyped(t: TableInfo, asgs: seq<Assignment>, x: Stored, bad: set<Text>)
      requires Sound(bad) && t in catalog.tables && t.name in heaps && AssignmentsOk(t, asgs)
      requires x in Scanned(heaps[t.name])
      ensures WellTyped(t.columns, NewRow(t, asgs, x))
    {
      assert TableOk(Trusted(catalog, bad), t, heaps, indexes.lists);
      RowTyped(t, asgs, heaps[t.name], x);
    }

    method MoveRow(t: TableInfo, x: Stored, v: seq<Literal>, bytes: seq<byte>, bad: set<Text>)
      returns (rid: RID, now: set<Text>)
      requires Sound(bad) && t in catalog.tables && t.name in heaps && x in Scanned(heaps[t.name]) && indexes.Paged(1)
      requires WellTyped(t.columns, v) && bytes == Encoded(t.columns, v) && |bytes| <= MAX_ROW
      modifies this`heaps, indexes`lists, indexes.trees.Values
      ensures Sound(now) && bad <= now && rid == Inserted(Removed(old(heaps)[t.name], x.rid), bytes).rid
      ensures heaps == old(heaps)[t.name := Inserted(Removed(old(heaps)[t.name], x.rid), bytes).pages]
      ensures indexes.GrownBy(old(indexes.Ends()), [], 0)
      ensures forall n :: n in now && n !in bad ==>
                RowsFull(catalog, t, Scanned(Removed(old(heaps)[t.name], x.rid)), v, n)
    {
      ghost var ends := indexes.Ends();
      ghost var h := Removed(heaps[t.name], x.rid);
      SetTwice(heaps, t.name, h, Inserted(h, bytes).pages);
      RemoveRow(t, x, bad);
      indexes.EndsPaged(ends, 1);
      rid, now := AddRow(t, v, bytes, bad);
    }

    /** Before round i of the mutation loop. */
    ghost predicate Halfway(t: TableInfo, asgs: seq<Assignment>, batch: seq<Stored>, i: nat, bad: set<Text>,
                            before: Heaps, news: seq<Stored>)
      requires i <= |batch| && t.name in before
      reads this, indexes, indexes.trees.Values
    {
      && Sound(bad) && t.name in heaps && Elsewhere(before, heaps, t.name) && indexes.Paged(|batch| - i)
      && Rewritten(t, asgs, batch[..i], news)
      && Rewriting(before[t.name], heaps[t.name], Rids(batch[..i]), news)
      && (UpdateFits(catalog, t, asgs, Scanned(before[t.name]), batch) ==> bad == {})
    }

    lemma HalfwayStarts(t: TableInfo, asgs: seq<Assignment>, batch: seq<Stored>)
      requires Sound({}) && t in catalog.tables && t.name in heaps && indexes.Paged(|batch|)
      ensures Halfway(t, asgs, batch, 0, {}, heaps, []) && RowsDecode(t, heaps[t.name])
    {
      assert TableOk(Trusted(catalog, {}), t, heaps, indexes.lists);
      NothingRewritten(t, asgs, batch, heaps[t.name]);
    }

    lemma HalfwayDone(t: TableInfo, asgs: seq<Assignment>, batch: seq<Stored>, bad: set<Text>, before: Heaps,
                      news: seq<Stored>)
      requires t.name in before && Halfway(t, asgs, batch, |batch|, bad, before, news)
      ensures Sound(bad) && t.name in heaps && Elsewhere(before, heaps, t.name)
      ensures Rewritten(t, asgs, batch, news) && Rewriting(before[t.name], heaps[t.name], Rids(batch), news)
      ensures UpdateFits(catalog, t, asgs, Scanned(before[t.name]), batch) ==> bad == {}
    {
      assert batch[..|batch|] == batch;
    }

    /** One round of the mutation loop. */
    method RewriteAt(t: TableInfo, asgs: seq<Assignment>, batch: seq<Stored>, i: nat, bad: set<Text>,
                     ghost before: Heaps, ghost news: seq<Stored>)
      returns (now: set<Text>, ghost more: seq<Stored>)
      requires t in catalog.tables && t.name in before && AssignmentsOk(t, asgs) && i < |batch| && DistinctRids(batch)
      requires RowsDecode(t, before[t.name]) && HasRoom(catalog, t, Scanned(before[t.name]))
      requires AllFit(NewBytesFn(t, asgs), batch)
      requires forall j :: 0 <= j < |batch| ==> batch[j] in Scanned(before[t.name])
      requires Halfway(t, asgs, batch, i, bad, before, news)
      modifies this`heaps, indexes`lists, indexes.trees.Values
      ensures Halfway(t, asgs, batch, i + 1, now, before, more)
    {
      NextInBatch(batch, i);
      ghost var ends, h0 := indexes.Ends(), before[t.name];
      assert |NewBytesFn(t, asgs)(batch[i])| <= MAX_ROW;
      var rid;
      rid, now := RewriteOne(t, asgs, batch[i], bad, h0, Rids(batch[..i]), news);
      RewrittenStep(t, asgs, batch, i, news, rid);
      StillNoneBad(catalog, t, asgs, h0, batch, i, news, bad, now);
      indexes.StillPaged(ends, |batch| - i - 1);
      more := news + [Stored(rid, NewBytes(t, asgs, batch[i]))];
    }

    /**
     The mutation loop: delete and reinsert, row by row. Nothing in it can fail. If the table fits its indexes
     before and after, no index is ever asked for more than it can hold.
     */
    method Rewrite(t: TableInfo, asgs: seq<Assignment>, batch: seq<Stored>)
      returns (bad: set<Text>, ghost news: seq<Stored>)
      requires Sound({}) && t in catalog.tables && t.name in heaps && AssignmentsOk(t, asgs) && indexes.Paged(|batch|)
      requires DistinctRids(batch) && forall i :: 0 <= i < |batch| ==> batch[i] in Scanned(heaps[t.name])
      requires AllFit(NewBytesFn(t, asgs), batch) && HasRoom(catalog, t, Scanned(heaps[t.name]))
      modifies this`heaps, indexes`lists, indexes.trees.Values
      ensures Sound(bad) && t.name in heaps && Elsewhere(old(heaps), heaps, t.name)
      ensures Rewritten(t, asgs, batch, news) && Rewriting(old(heaps)[t.name], heaps[t.name], Rids(batch), news)
      ensures UpdateFits(catalog, t, asgs, Scanned(old(heaps)[t.name]), batch) ==> bad == {}
    {
      var i := 0;
      bad, news := {}, [];
      HalfwayStarts(t, asgs, batch);
      while i < |batch|
        invariant 0 <= i <= |batch| && Halfway(t, asgs, batch, i, bad, old(heaps), news)
      {
        bad, news := RewriteAt(t, asgs, batch, i, bad, old(heaps), news);
        i := i + 1;
      }
      HalfwayDone(t, asgs, batch, bad, old(heaps), news);
    }

    // ----- validating an update before any of it runs

    /** Every matched row's new bytes, computed before anything is changed. */
    method EncodeBatch(t: TableInfo, asgs: seq<Assignment>, batch: seq<Stored>) returns (bytes: seq<seq<byte>>)
      ensures RowsEncoded(NewBytesFn(t, asgs), batch, bytes)
    {
      bytes := [];
      var i := 0;
      while i < |batch|
        invariant 0 <= i <= |batch|
        invariant RowsEncoded(NewBytesFn(t, asgs), batch[..i], bytes)
      {
        var row := EncodeRow(t.columns, NewRow(t, asgs, batch[i]));
        EncodedSnoc(NewBytesFn(t, asgs), batch, i, bytes, row);
        bytes := bytes + [row];
        i := i + 1;
      }
      assert batch[..i] == batch;
    }

    method CheckSizes(bytes: seq<seq<byte>>) returns (ok: bool)
      ensures ok <==> forall i :: 0 <= i < |bytes| ==> |bytes[i]| <= MAX_ROW
    {
      var i := 0;
      while i < |bytes|
        invariant 0 <= i <= |bytes|
        invariant forall j :: 0 <= j < i ==> |bytes[j]| <= MAX_ROW
      {
        if |bytes[i]| > MAX_ROW { return false; }
        i := i + 1;
      }
      return true;
    }

    method CheckDistinct(keys: seq<int>) returns (ok: bool)
      ensures ok <==> Distinct(keys)
    {
      var seen, i := {}, 0;
      while i < |keys|
        invariant 0 <= i <= |keys|
        invariant forall k :: k in seen ==> exists j :: 0 <= j < i && keys[j] == k
        invariant forall j :: 0 <= j < i ==> keys[j] in seen
        invariant forall j, k :: 0 <= j < k < i ==> keys[j] != keys[k]
      {
        if keys[i] in seen {
          ghost var j :| 0 <= j < i && keys[j] == keys[i];
          return false;
        }
        seen := seen + {keys[i]};
        i := i + 1;
      }
      return true;
    }

    /** Every address the index holds under one of the keys is in `updating`. */
    method CheckClashes(name: Text, keys: seq<int>, updating: set<RID>) returns (ok: bool)
      requires indexes.Good(name) && indexes.Held(name)
      ensures ok <==> NoHits(indexes.lists[name], keys, updating)
    {
      var i := 0;
      while i < |keys|
        invariant 0 <= i <= |keys|
        invariant forall j :: 0 <= j < i ==> AllIn(RidsUnder(indexes.lists[name], keys[j]), updating)
      {
        var rids := indexes.Search(name, keys[i]);
        var k := 0;
        while k < |rids|
          invariant 0 <= k <= |rids|
          invariant forall j :: 0 <= j < k ==> rids[j] in updating
        {
          if rids[k] !in updating { return false; }
          k := k + 1;
        }
        i := i + 1;
      }
      return true;
    }

    /** No two rows of the batch get the same key, and no row outside it has one of them. */
    method CheckNewKeys(name: Text, newKey: Key, batch: seq<Stored>, ghost key: Key, ghost h: Pages) returns (ok: bool)
      requires indexes.Good(name) && indexes.Held(name) && Agrees(key, indexes.lists[name], Scanned(h))
      ensures ok <==> NewKeysOk(key, newKey, batch, Scanned(h))
    {
      var keys := Map(newKey, batch);
      DistinctIff(newKey, batch, keys);
      ClashIff(key, indexes.lists[name], h, newKey, batch, keys);
      var distinct := CheckDistinct(keys);
      if !distinct { return false; }
      ok := CheckClashes(name, keys, Rids(batch));
    }

    method ValidateUpdateBatch(t: TableInfo, asgs: seq<Assignment>, batch: seq<Stored>)
      returns (r: Result<(), SqlError>)
      requires Valid() && t in catalog.tables && t.name in heaps
      ensures r.Ok? <==> BatchOk(catalog, t, asgs, batch, Scanned(heaps[t.name]))
    {
      var bytes := EncodeBatch(t, asgs, batch);
      SizesIff(NewBytesFn(t, asgs), batch, bytes);
      var fits := CheckSizes(bytes);
      if !fits { return Err(RowTooLarge); }
      var pk := PrimaryKeyIndex(catalog.indexes, t.name);
      if pk.None? { return Ok(()); }
      KeyIndexAgrees(t, pk.value);
      var column := pk.value.column;
      var free := CheckNewKeys(pk.value.name, NewKey(t, asgs, column), batch, KeyOf(t, column), heaps[t.name]);
      if !free { return Err(DuplicateKey); }
      return Ok(());
    }

    /** The matching rows, fixed before anything is changed. */
    method FindBatch(t: TableInfo, ghost asgs: seq<Assignment>, where: seq<Predicate>, a: Access)
      returns (batch: seq<Stored>)
      requires Valid() && t in catalog.tables && t.name in heaps
      requires PredicatesOk(t, where) && AccessFor(catalog, t.name, where, a)
      ensures BatchFor(catalog, t, asgs, where, Scanned(heaps[t.name]), batch)
    {
      assert TableOk(catalog, t, heaps, indexes.lists);
      PlansOwnIndex(catalog, t.name, where, a);
      var rows := FetchAll(t, a);
      batch := FilterRows(t, rows, a.residual);
      BatchFacts(catalog, t, heaps[t.name], indexes.lists, asgs, where, a, batch);
    }

    /** After an accepted UPDATE the database is valid if and only if every indexed value has room. */
    lemma UpdateVerdict(t: TableInfo, asgs: seq<Assignment>, where: seq<Predicate>, before: Heaps,
                        batch: seq<Stored>, news: seq<Stored>, bad: set<Text>)
      requires Sound(bad) && KeysOk(catalog, before) && t in catalog.tables && AssignmentsOk(t, asgs)
      requires t.name in before && t.name in heaps && Elsewhere(before, heaps, t.name) && RowsDecode(t, before[t.name])
      requires BatchFor(catalog, t, asgs, where, Scanned(before[t.name]), batch)
      requires BatchOk(catalog, t, asgs, batch, Scanned(before[t.name]))
      requires Rewritten(t, asgs, batch, news) && Rewriting(before[t.name], heaps[t.name], Rids(batch), news)
      requires UpdateFits(catalog, t, asgs, Scanned(before[t.name]), batch) ==> bad == {}
      ensures Updated(t, asgs, where, before[t.name], heaps[t.name], |batch|)
      ensures bad == {} <==> Valid()
      ensures Valid() <==> HasRoom(catalog, t, Scanned(heaps[t.name]))
    {
      FinishUpdate(catalog, t, asgs, where, before, heaps, batch, news);
      SoundIffValid();
      if bad != {} {
        NoFitNoRoom(catalog, t, asgs, before[t.name], batch, news);
      }
      if Valid() { ValidIsCapped(t); }
    }

    /**
     All or nothing. Either nothing changes, or every row that matched before the statement is rewritten
     exactly once, at a new address, and every other row is as it was. All indexes stay valid if and only if no
     indexed value has more than 291 rows afterwards.
     */
    method ExecuteUpdate(table: Text, asgs: seq<Assignment>, where: seq<Predicate>)
      returns (r: Result<nat, SqlError>, sound: bool)
      requires Valid() && indexes.Paged(|Rows(heaps, table)|)
      modifies this`heaps, indexes`lists, indexes.trees.Values
      ensures sound <==> Valid()
      ensures r.Ok? <==> UpdateAccepted(catalog, old(heaps), table, asgs, where)
      ensures r.Err? ==> heaps == old(heaps) && indexes.lists == old(indexes.lists) && sound
      ensures r.Ok? ==> table in heaps && Elsewhere(old(heaps), heaps, table)
      ensures r.Ok? ==>
              UpdateDone(FindTable(catalog.tables, table).value, asgs, where, old(heaps)[table], heaps[table], r.value)
      ensures r.Ok? ==> (Valid() <==> HasRoom(catalog, FindTable(catalog.tables, table).value, Scanned(heaps[table])))
    {
      var found := FindTable(catalog.tables, table);
      if found.None? { return Err(NoSuchTable), true; }
      ValidDecodes(found.value);
      r, sound := UpdateTable(found.value, asgs, where);
    }

    method UpdateTable(t: TableInfo, asgs: seq<Assignment>, where: seq<Predicate>)
      returns (r: Result<nat, SqlError>, sound: bool)
      requires Valid() && FindTable(catalog.tables, t.name) == Some(t) && t.name in heaps
      requires indexes.Paged(|Scanned(heaps[t.name])|)
      modifies this`heaps, indexes`lists, indexes.trees.Values
      ensures sound <==> Valid()
      ensures r.Ok? <==> Updatable(catalog, t, Scanned(old(heaps)[t.name]), asgs, where)
      ensures r.Err? ==> heaps == old(heaps) && indexes.lists == old(indexes.lists) && sound
      ensures r.Ok? ==> t.name in heaps && Elsewhere(old(heaps), heaps, t.name)
      ensures r.Ok? ==> UpdateDone(t, asgs, where, old(heaps)[t.name], heaps[t.name], r.value)
      ensures r.Ok? ==> (Valid() <==> HasRoom(catalog, t, Scanned(heaps[t.name])))
    {
      var planned := CheckUpdate(t, asgs, where);
      if planned.Err? { return Err(planned.error), true; }
      r, sound := UpdateChecked(t, asgs, where, planned.value);
    }

    /** The names and types in the statement, and the plan to find its rows. */
    method CheckUpdate(t: TableInfo, asgs: seq<Assignment>, where: seq<Predicate>) returns (r: Result<Access, SqlError>)
      requires FindTable(catalog.tables, t.name) == Some(t)
      ensures r.Ok? <==> AssignmentsOk(t, asgs) && PredicatesOk(t, where)
      ensures r.Ok? ==> AccessFor(catalog, t.name, where, r.value)
    {
      var checked := CheckAssignments(t, asgs);
      if checked.Err? { return Err(checked.error); }
      r := PlanTableAccess(catalog, t.name, where);
    }

    /** The checked update, in terms of what it means. */
    method UpdateChecked(t: TableInfo, asgs: seq<Assignment>, where: seq<Predicate>, a: Access)
      returns (r: Result<nat, SqlError>, sound: bool)
      requires Valid() && t in catalog.tables && t.name in heaps && AssignmentsOk(t, asgs)
      requires indexes.Paged(|Scanned(heaps[t.name])|)
      requires PredicatesOk(t, where) && AccessFor(catalog, t.name, where, a)
      modifies this`heaps, indexes`lists, indexes.trees.Values
      ensures sound <==> Valid()
      ensures r.Ok? <==> Updatable(catalog, t, Scanned(old(heaps)[t.name]), asgs, where)
      ensures r.Err? ==> heaps == old(heaps) && indexes.lists == old(indexes.lists) && sound
      ensures r.Ok? ==> t.name in heaps && Elsewhere(old(heaps), heaps, t.name)
      ensures r.Ok? ==> UpdateDone(t, asgs, where, old(heaps)[t.name], heaps[t.name], r.value)
      ensures r.Ok? ==> (Valid() <==> HasRoom(catalog, t, Scanned(heaps[t.name])))
    {
      ValidDecodes(t);
      ScannedOrdered(heaps[t.name]);
      ValidatedIff(catalog, t, asgs, where, Scanned(heaps[t.name]));
      r, sound := ApplyUpdate(t, asgs, where, a);
      if r.Ok? { UpdateMeans(t, asgs, where, old(heaps)[t.name], heaps[t.name], r.value); }
    }

    method ApplyUpdate(t: TableInfo, asgs: seq<Assignment>, where: seq<Predicate>, a: Access)
      returns (r: Result<nat, SqlError>, sound: bool)
      requires Valid() && t in catalog.tables && t.name in heaps && AssignmentsOk(t, asgs)
      requires indexes.Paged(|Scanned(heaps[t.name])|)
      requires PredicatesOk(t, where) && AccessFor(catalog, t.name, where, a)
      modifies this`heaps, indexes`lists, indexes.trees.Values
      ensures sound <==> Valid()
      ensures r.Ok? <==>
              BatchOk(catalog, t, asgs, Matched(t, where, Scanned(old(heaps)[t.name])), Scanned(old(heaps)[t.name]))
      ensures r.Err? ==> heaps == old(heaps) && indexes.lists == old(indexes.lists) && Valid()
      ensures r.Ok? ==> t.name in heaps && Elsewhere(old(heaps), heaps, t.name)
      ensures r.Ok? ==> Updated(t, asgs, where, old(heaps)[t.name], heaps[t.name], r.value)
      ensures r.Ok? ==> (Valid() <==> HasRoom(catalog, t, Scanned(heaps[t.name])))
    {
      assert TableOk(catalog, t, heaps, indexes.lists);
      var batch := FindBatch(t, asgs, where, a);
      var valid := ValidateUpdateBatch(t, asgs, batch);
      if valid.Err? { return Err(valid.error), true; }
      sound := RewriteBatch(t, asgs, where, batch);
      return Ok(|batch|), sound;
    }

    method RewriteBatch(t: TableInfo, asgs: seq<Assignment>, ghost where: seq<Predicate>, batch: seq<Stored>)
      returns (sound: bool)
      requires Valid() && t in catalog.tables && t.name in heaps && AssignmentsOk(t, asgs)
      requires indexes.Paged(|Scanned(heaps[t.name])|)
      requires BatchFor(catalog, t, asgs, where, Scanned(heaps[t.name]), batch)
      requires BatchOk(catalog, t, asgs, batch, Scanned(heaps[t.name]))
      modifies this`heaps, indexes`lists, indexes.trees.Values
      ensures sound <==> Valid()
      ensures t.name in heaps && Elsewhere(old(heaps), heaps, t.name)
      ensures Updated(t, asgs, where, old(heaps)[t.name], heaps[t.name], |batch|)
      ensures Valid() <==> HasRoom(catalog, t, Scanned(heaps[t.name]))
    {
      ValidDecodes(t);
      ValidIsCapped(t);
      SoundIffValid();
      BatchIsSmall(heaps[t.name], batch);
      indexes.PagedLess(|Scanned(heaps[t.name])|, |batch|);
      var bad;
      ghost var news;
      bad, news := Rewrite(t, asgs, batch);
      UpdateVerdict(t, asgs, where, old(heaps), batch, news, bad);
      sound := bad == {};
    }

    // ----- CREATE INDEX

    /**
     A new index is a tree filled from the rows that are there. It is usable from the start if and only if no
     value of its column has more than 291 rows.
     */
    method ExecuteCreateIndex(name: Text, table: Text, column: Text) returns (r: Result<(), SqlError>, sound: bool)
      requires Valid() && 1 + 7 * |Rows(heaps, table)| <= TreeShape.INVALID_PAGE_ID as int
      modifies this`catalog, indexes
      ensures sound <==> Valid()
      ensures fresh(indexes.trees.Values - old(indexes.trees.Values))
      ensures r.Ok? <==> IndexAccepted(old(catalog), name, table, column)
      ensures r.Err? ==> catalog == old(catalog) && indexes.lists == old(indexes.lists) && Valid()
      ensures r.Ok? ==> catalog == WithIndex(old(catalog), IndexInfo(name, table, column, false)) && table in heaps
      ensures r.Ok? ==>
              (Valid() <==> CappedBy(KeyOf(FindTable(catalog.tables, table).value, column), Scanned(heaps[table])))
    {
      if FindTable(catalog.tables, name).Some? ||
          FindIndex(catalog.indexes, name).Some? { return Err(NameInUse), true; }
      var found := FindTable(catalog.tables, table);
      if found.None? { return Err(NoSuchTable), true; }
      var col := RequireColumn(found.value, column);
      if col.Err? { return Err(col.error), true; }
      if !col.value.typ.IntegerType? { return Err(TypeMismatch), true; }
      assert TableOk(catalog, found.value, heaps, indexes.lists);
      sound := FillIndex(found.value, IndexInfo(name, table, column, false));
      r := Ok(());
    }

    method FillIndex(t: TableInfo, x: IndexInfo) returns (sound: bool)
      requires Valid() && t in catalog.tables && t.name in heaps && x.table == t.name && !x.isPrimaryKey
      requires FindIndex(catalog.indexes, x.name).None?
      requires HasColumn(t, x.column) && t.columns[ColumnIndex(t, x.column)].typ.IntegerType?
      requires 1 + 7 * |Scanned(heaps[t.name])| <= TreeShape.INVALID_PAGE_ID as int
      modifies this`catalog, indexes
      ensures sound <==> Valid()
      ensures fresh(indexes.trees.Values - old(indexes.trees.Values))
      ensures catalog == WithIndex(old(catalog), x)
      ensures Valid() <==> CappedBy(KeyOf(t, x.column), Scanned(heaps[t.name]))
    {
      ghost var m := indexes.lists;
      var tree, full := BuildTree(KeyOf(t, x.column), Scanned(heaps[t.name]));
      if !full { IndexAdded(catalog, heaps, m, t, x, tree.Contents()); }
      catalog := WithIndex(catalog, x);
      indexes.Join(x.name, tree, {});
      IndexVerdict(t, x);
      sound := !full;
    }

    lemma IndexVerdict(t: TableInfo, x: IndexInfo)
      requires t in catalog.tables && t.name in heaps && x in catalog.indexes && x.table == t.name
      ensures Valid() ==> CappedBy(KeyOf(t, x.column), Scanned(heaps[t.name]))
    {
      if Valid() { ValidIsCapped(t); }
    }

    // ----- SELECT

    method ProjectOne(t: TableInfo, p: SelectPlan, v: seq<Literal>) returns (row: seq<Literal>)
      ensures row == ProjectRow(t, p.star, p.list, v)
    {
      if p.star { return v; }
      row := [];
      var k := 0;
      while k < |p.list|
        invariant 0 <= k <= |p.list| && |row| == k
        invariant forall m :: 0 <= m < k ==> row[m] == Cell(t, v, p.list[m].column)
      {
        row := row + [Cell(t, v, p.list[k].column)];
        k := k + 1;
      }
    }

    method ProjectRows(t: TableInfo, p: SelectPlan, ps: seq<Predicate>, rows: seq<Stored>)
      returns (out: seq<seq<Literal>>)
      ensures out == FlatMap(Where(t, ps, ProjectFn(t, p.star, p.list)), rows) && |out| <= |rows|
    {
      ghost var f := Where(t, ps, ProjectFn(t, p.star, p.list));
      out := [];
      var i := 0;
      while i < |rows|
        invariant 0 <= i <= |rows| && |out| <= i
        invariant out == FlatMap(f, rows[..i])
      {
        FlatMapStep(f, rows, i);
        var v := Values(t, rows[i]);
        if MatchesAll(t, v, ps) {
          var row := ProjectOne(t, p, v);
          out := out + [row];
        }
        i := i + 1;
      }
      assert rows[..i] == rows;
    }

    /** Never more than 291 rows through an index, and all of them if that index is valid. */
    method ExecuteSelectSingleTable(t: TableInfo, p: SelectPlan, a: Access)
      returns (out: seq<seq<Literal>>)
      requires Searchable() && t in catalog.tables && t.name in heaps && OwnIndex(catalog, t.name, a)
      ensures a.scan.IndexScan? ==> |out| <= CAP
      ensures (a.scan.IndexScan? ==> indexes.Good(a.scan.index)) ==>
              out == SelectSingle(t, p, a, heaps[t.name], indexes.lists)
    {
      var rows := FetchCandidateRows(t, a);
      out := ProjectRows(t, p, a.residual, rows);
    }

    method ProjectTwo(o: TableInfo, i: TableInfo, p: SelectPlan, ov: seq<Literal>, iv: seq<Literal>)
      returns (row: seq<Literal>)
      ensures row == ProjectPair(o, i, p.star, p.list, ov, iv)
    {
      if p.star { return ov + iv; }
      row := [];
      var k := 0;
      while k < |p.list|
        invariant 0 <= k <= |p.list| && |row| == k
        invariant forall m :: 0 <= m < k ==> row[m] == SideCell(o, i, ov, iv, p.list[m])
      {
        var fromOuter := p.list[k].table == Some(o.name);
        row := row + [if fromOuter then Cell(o, ov, p.list[k].column) else Cell(i, iv, p.list[k].column)];
        k := k + 1;
      }
    }

    /** The pairs of one outer row with the inner candidates; the equality is checked only after a scan. */
    method JoinRow(o: TableInfo, i: TableInfo, p: SelectPlan, jp: JoinPlan, ov: seq<Literal>, candidates: seq<Stored>,
                   check: bool)
      returns (out: seq<seq<Literal>>)
      ensures var m := Matching(o, i, p, jp, ov);
              out == FlatMap(if check then Equal(o, i, jp, ov, m) else m, candidates)
    {
      ghost var m := Matching(o, i, p, jp, ov);
      ghost var f := if check then Equal(o, i, jp, ov, m) else m;
      out := [];
      var k := 0;
      while k < |candidates|
        invariant 0 <= k <= |candidates|
        invariant out == FlatMap(f, candidates[..k])
      {
        FlatMapStep(f, candidates, k);
        var iv := Values(i, candidates[k]);
        if !check || LiteralsEqual(Cell(o, ov, jp.outerColumn), Cell(i, iv, jp.innerColumn)) {
          if MatchesAll(i, iv, jp.innerResidual) {
            var row := ProjectTwo(o, i, p, ov, iv);
            out := out + [row];
          }
        }
        k := k + 1;
      }
      assert candidates[..k] == candidates;
    }

    method InnerRows(i: TableInfo, jp: JoinPlan, k: int) returns (rows: seq<Stored>)
      requires Valid() && i in catalog.tables && i.name in heaps && InnerIndexOk(catalog, i, jp)
      ensures rows == match jp.innerIndex {
                case Some(name) => Probe(heaps[i.name], indexes.lists, name, k)
                case None => Scanned(heaps[i.name]) }
    {
      if jp.innerIndex.None? { return Scanned(heaps[i.name]); }
      assert TableOk(catalog, i, heaps, indexes.lists);
      ValidIsSearchable();
      var x := FindIndexOnColumn(catalog, i.name, jp.innerColumn).value;
      rows := FetchRows(heaps[i.name], x.name, k, KeyOf(i, x.column));
    }

    method JoinOuterRow(o: TableInfo, i: TableInfo, p: SelectPlan, jp: JoinPlan, x: Stored)
      returns (out: seq<seq<Literal>>)
      requires Valid() && i in catalog.tables && i.name in heaps && InnerIndexOk(catalog, i, jp)
      ensures out == Where(o, jp.outer.residual, InnerFn(o, i, p, jp, heaps[i.name], indexes.lists))(x)
    {
      var ov := Values(o, x);
      if !MatchesAll(o, ov, jp.outer.residual) { return []; }
      var candidates := InnerRows(i, jp, IntValue(Cell(o, ov, jp.outerColumn)));
      out := JoinRow(o, i, p, jp, ov, candidates, jp.innerIndex.None?);
    }

    method JoinRows(o: TableInfo, i: TableInfo, p: SelectPlan, jp: JoinPlan, rows: seq<Stored>,
                    ghost f: Stored -> seq<seq<Literal>>)
      returns (out: seq<seq<Literal>>)
      requires Valid() && i in catalog.tables && i.name in heaps && InnerIndexOk(catalog, i, jp)
      requires f == Where(o, jp.outer.residual, InnerFn(o, i, p, jp, heaps[i.name], indexes.lists))
      ensures out == FlatMap(f, rows)
    {
      out := [];
      var k := 0;
      while k < |rows|
        invariant 0 <= k <= |rows|
        invariant out == FlatMap(f, rows[..k])
      {
        FlatMapStep(f, rows, k);
        var more := JoinOuterRow(o, i, p, jp, rows[k]);
        out := out + more;
        k := k + 1;
      }
      assert rows[..k] == rows;
    }

    method ExecuteSelectJoin(o: TableInfo, i: TableInfo, p: SelectPlan, jp: JoinPlan)
      returns (out: seq<seq<Literal>>)
      requires Valid() && o in catalog.tables && i in catalog.tables && o.name in heaps && i.name in heaps
      requires OwnIndex(catalog, o.name, jp.outer) && InnerIndexOk(catalog, i, jp)
      ensures out == FlatMap(Where(o, jp.outer.residual, InnerFn(o, i, p, jp, heaps[i.name], indexes.lists)),
                             Candidates(jp.outer, heaps[o.name], indexes.lists))
    {
      var rows := FetchAll(o, jp.outer);
      ghost var f := Where(o, jp.outer.residual, InnerFn(o, i, p, jp, heaps[i.name], indexes.lists));
      out := JoinRows(o, i, p, jp, rows, f);
    }

    /**
     A SELECT is refused exactly when planning refuses it; otherwise its rows are, up to order, what it means.
     If an index has lost its routing, a SELECT by its key still runs, and returns at most 291 rows.
     */
    method ExecuteSelect(s: SelectStatement) returns (r: Result<seq<seq<Literal>>, SqlError>)
      requires Searchable() && (s.join.Some? ==> Valid())
      ensures r.Ok? <==> Accepted(catalog, s)
      ensures r.Ok? && Valid() ==> multiset(r.value) == multiset(Meaning(catalog, heaps, s))
      ensures r.Ok? && ByKey(catalog, s) ==> |r.value| <= CAP
      ensures r.Ok? && ByKey(catalog, s) && indexes.Good(KeyIndex(catalog, s).name) ==>
                multiset(r.value) == multiset(Meaning(catalog, heaps, s))
    {
      var planned := PlanSelect(catalog, s);
      if planned.Err? { return Err(planned.error); }
      var out;
      if s.join.None? {
        out := SelectFromOne(s, planned.value);
      } else {
        out := SelectFromTwo(s, planned.value);
      }
      return Ok(out);
    }

    method SelectFromOne(s: SelectStatement, p: SelectPlan) returns (out: seq<seq<Literal>>)
      requires Searchable() && Accepted(catalog, s) && s.join.None? && PlanFor(catalog, s, p)
      ensures Valid() || (ByKey(catalog, s) && indexes.Good(KeyIndex(catalog, s).name)) ==>
                multiset(out) == multiset(Meaning(catalog, heaps, s))
      ensures ByKey(catalog, s) ==> |out| <= CAP
    {
      var o, a := FindTable(catalog.tables, s.from).value, p.source.access;
      assert TableOk(catalog, o, heaps, indexes.lists);
      SingleSelectIsRight(catalog, s, p, heaps[o.name], indexes.lists);
      if ByKey(catalog, s) { ByKeyScans(catalog, s, a); }
      PlansOwnIndex(catalog, o.name, s.where, a);
      out := ExecuteSelectSingleTable(o, p, a);
    }

    method SelectFromTwo(s: SelectStatement, p: SelectPlan) returns (out: seq<seq<Literal>>)
      requires Valid() && Accepted(catalog, s) && s.join.Some? && PlanFor(catalog, s, p)
      ensures multiset(out) == multiset(Meaning(catalog, heaps, s))
    {
      var o := FindTable(catalog.tables, s.from).value;
      var i := FindTable(catalog.tables, s.join.value.table).value;
      assert TableOk(catalog, o, heaps, indexes.lists);
      assert TableOk(catalog, i, heaps, indexes.lists);
      JoinSelectIsRight(catalog, s, o, i, p, heaps[o.name], heaps[i.name], indexes.lists);
      PlansOwnIndex(catalog, o.name, OnSide(JoinCheck(o, i), s.where, Outer), p.source.join.outer);
      out := ExecuteSelectJoin(o, i, p, p.source.join);
    }
  }
}
