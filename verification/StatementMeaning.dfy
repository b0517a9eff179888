/**
 What INSERT, DELETE and UPDATE mean, on the values of a table's rows: which rows a WHERE clause is about, what
 a SET list makes of a row, and when the primary keys are distinct. Plans and batches are then held against it.
 */
module StatementMeaning {
  import opened Sql
  import opened Planner
  import opened Relational
  import opened RowCodec
  import opened Heap
  import opened Agreement
  import opened Selection
  import opened Joining
  import opened Mutation

  // ----- the columns a statement names

  /** A reference is accepted in a statement on one table exactly when it names one column of it. */
  lemma NamesOneColumn(t: TableInfo, ref: ColumnRef)
    requires DistinctColumns(t.columns)
    ensures Qualifies(t, ref) && HasColumn(t, ref.column) <==> exists j: nat :: OnlyAt(Labels(t), ref, j)
  {
    if Qualifies(t, ref) && HasColumn(t, ref.column) {
      assert OnlyAt(Labels(t), ref, ColumnIndex(t, ref.column));
    }
    if j: nat :| OnlyAt(Labels(t), ref, j) {
      assert Names(ref, Labels(t)[j]);
      ColumnAtFinds(t.columns, j);
    }
  }

  /** A condition is accepted exactly when it names one column and compares it with a value of its type. */
  lemma ConditionAccepted(t: TableInfo, p: Predicate)
    requires DistinctColumns(t.columns)
    ensures PredicateOk(t, p) <==>
            exists j: nat :: OnlyAt(Labels(t), p.column, j) &&
                             if p.value.IntLit? then t.columns[j].typ == IntegerType else t.columns[j].typ == TextType
  {
    NamesOneColumn(t, p.column);
    if j: nat :| OnlyAt(Labels(t), p.column, j) {
      ColumnAtFinds(t.columns, j);
      assert Names(p.column, Labels(t)[j]);
    }
  }

  /** The key of a row is the integer in the column of that name. */
  lemma KeyIsCell(t: TableInfo, x: Stored, j: nat)
    requires DistinctColumns(t.columns) && j < |t.columns| && t.columns[j].typ == IntegerType
    ensures Values(t, x)[j] == IntLit(KeyOf(t, t.columns[j].name)(x))
  {
    ColumnAtFinds(t.columns, j);
    IntegerCell(t, x, t.columns[j].name);
  }

  // ----- the rows a statement is about

  ghost function Satisfying(t: TableInfo, where: seq<Predicate>): Stored -> bool {
    (x: Stored) => Satisfies(Labels(t), Values(t, x), where)
  }

  ghost function Failing(t: TableInfo, where: seq<Predicate>): Stored -> bool {
    (x: Stored) => !Satisfies(Labels(t), Values(t, x), where)
  }

  /** The rows with the property, in their order. */
  ghost function Filter(p: Stored -> bool, rows: seq<Stored>): seq<Stored> {
    if rows == [] then [] else (if p(rows[0]) then [rows[0]] else []) + Filter(p, rows[1..])
  }

  lemma {:induction false} FilterMatched(t: TableInfo, where: seq<Predicate>, rows: seq<Stored>)
    requires PredicatesOk(t, where)
    ensures Matched(t, where, rows) == Filter(Satisfying(t, where), rows)
    ensures Unmatched(t, where, rows) == Filter(Failing(t, where), rows)
  {
    if rows != [] {
      SatisfiesIsMatches(t, Values(t, rows[0]), where);
      FilterMatched(t, where, rows[1..]);
    }
  }

  // ----- what a SET list makes of a row

  /** Assignment k is the last one in the list that names the column. */
  ghost predicate LastNaming(asgs: seq<Assignment>, column: Text, k: nat) {
    k < |asgs| && asgs[k].column == column && forall m :: k < m < |asgs| ==> asgs[m].column != column
  }

  /** The value of the last assignment that names the column; the old one if none does. */
  ghost function CellAfter(asgs: seq<Assignment>, column: Text, before: Literal): (r: Literal)
    ensures forall k: nat :: LastNaming(asgs, column, k) ==> r == asgs[k].value
    ensures (forall k :: 0 <= k < |asgs| ==> asgs[k].column != column) ==> r == before
  {
    if k: nat :| LastNaming(asgs, column, k) then asgs[k].value else before
  }

  ghost function RowAfter(t: TableInfo, asgs: seq<Assignment>, v: seq<Literal>): (w: seq<Literal>)
    requires |v| == |t.columns|
    ensures |w| == |v| && forall j :: 0 <= j < |v| ==> w[j] == CellAfter(asgs, t.columns[j].name, v[j])
  {
    seq(|v|, j requires 0 <= j < |v| => CellAfter(asgs, t.columns[j].name, v[j]))
  }

  lemma LastOfPrefix(asgs: seq<Assignment>, column: Text, before: Literal)
    requires asgs != [] && asgs[|asgs| - 1].column != column
    ensures CellAfter(asgs, column, before) == CellAfter(asgs[..|asgs| - 1], column, before)
  {
    var n := |asgs| - 1;
    if k: nat :| LastNaming(asgs, column, k) {
      assert LastNaming(asgs[..n], column, k);
    } else if k: nat :| LastNaming(asgs[..n], column, k) {
      assert LastNaming(asgs, column, k);
    }
  }

  lemma {:induction false} AssignedAt(t: TableInfo, asgs: seq<Assignment>, v: seq<Literal>, j: nat)
    requires DistinctColumns(t.columns) && |v| == |t.columns| && j < |v|
    ensures Assigned(t, asgs, v)[j] == CellAfter(asgs, t.columns[j].name, v[j])
  {
    if asgs != [] {
      var n := |asgs| - 1;
      AssignedAt(t, asgs[..n], v, j);
      if asgs[n].column == t.columns[j].name {
        ColumnAtFinds(t.columns, j);
        assert LastNaming(asgs, t.columns[j].name, n);
      } else {
        LastOfPrefix(asgs, t.columns[j].name, v[j]);
      }
    }
  }

  /** Applying the assignments in turn leaves every column with the last value that it is given. */
  lemma AssignedIsRowAfter(t: TableInfo, asgs: seq<Assignment>, v: seq<Literal>)
    requires DistinctColumns(t.columns) && |v| == |t.columns|
    ensures Assigned(t, asgs, v) == RowAfter(t, asgs, v)
  {
    forall j | 0 <= j < |v| ensures Assigned(t, asgs, v)[j] == RowAfter(t, asgs, v)[j] {
      AssignedAt(t, asgs, v, j);
    }
  }

  // ----- when an UPDATE is accepted

  /** The key that a row has after the statement. */
  ghost function KeyAfter(t: TableInfo, asgs: seq<Assignment>, where: seq<Predicate>, column: Text): Key {
    (x: Stored) => IntValue(Cell(t, if Satisfying(t, where)(x) then RowAfter(t, asgs, Values(t, x)) else Values(t, x),
                                 column))
  }

  /** Every row that is rewritten still fits a page. */
  ghost predicate RowsFit(t: TableInfo, asgs: seq<Assignment>, where: seq<Predicate>, rows: seq<Stored>) {
    forall i :: 0 <= i < |rows| && Satisfying(t, where)(rows[i]) ==>
      |Encoded(t.columns, RowAfter(t, asgs, Values(t, rows[i])))| <= MAX_ROW
  }

  /** The primary keys are distinct after the statement. */
  ghost predicate KeysStay(c: Catalog, t: TableInfo, asgs: seq<Assignment>, where: seq<Predicate>, rows: seq<Stored>) {
    forall x :: IsKey(c.indexes, t.name, x) ==> DistinctKeys(KeyAfter(t, asgs, where, x.column), rows)
  }

  lemma {:induction false} FilterHas(p: Stored -> bool, rows: seq<Stored>, x: Stored)
    ensures x in Filter(p, rows) <==> x in rows && p(x)
  {
    if rows != [] {
      FilterHas(p, rows[1..], x);
    }
  }

  lemma {:induction false} FilterKeys(p: Stored -> bool, key: Key, rows: seq<Stored>)
    requires DistinctKeys(key, rows)
    ensures DistinctKeys(key, Filter(p, rows))
  {
    if rows != [] {
      FilterKeys(p, key, rows[1..]);
      var rest := Filter(p, rows[1..]);
      forall j | 0 <= j < |rest| ensures key(rest[j]) != key(rows[0]) {
        FilterHas(p, rows[1..], rest[j]);
      }
    }
  }

  /** Each key after the statement is the new one or the old one. */
  ghost predicate Mixed(p: Stored -> bool, key: Key, newKey: Key, after: Key, rows: seq<Stored>) {
    forall i :: 0 <= i < |rows| ==> after(rows[i]) == if p(rows[i]) then newKey(rows[i]) else key(rows[i])
  }

  lemma MixedInFilter(p: Stored -> bool, key: Key, newKey: Key, after: Key, rows: seq<Stored>, i: nat)
    requires Mixed(p, key, newKey, after, rows) && i < |Filter(p, rows)|
    ensures var x := Filter(p, rows)[i]; x in rows && p(x) && after(x) == newKey(x)
  {
    FilterHas(p, rows, Filter(p, rows)[i]);
  }

  lemma DistinctAfter(p: Stored -> bool, key: Key, newKey: Key, after: Key, rows: seq<Stored>)
    requires Mixed(p, key, newKey, after, rows) && DistinctKeys(after, rows)
    ensures NewKeysOk(key, newKey, Filter(p, rows), rows)
  {
    var batch := Filter(p, rows);
    FilterKeys(p, after, rows);
    forall i, j | 0 <= i < j < |batch| ensures newKey(batch[i]) != newKey(batch[j]) {
      MixedInFilter(p, key, newKey, after, rows, i);
      MixedInFilter(p, key, newKey, after, rows, j);
    }
    forall i | 0 <= i < |batch| ensures KeyFreeOutside(key, newKey(batch[i]), Rids(batch), rows) {
      MixedInFilter(p, key, newKey, after, rows, i);
      forall j | 0 <= j < |rows| && key(rows[j]) == newKey(batch[i]) ensures rows[j].rid in Rids(batch) {
        FilterHas(p, rows, rows[j]);
        var m :| 0 <= m < |rows| && rows[m] == batch[i];
      }
    }
  }

  /** Two rows, one of them rewritten: validation keeps their keys apart. */
  lemma ApartFromBatch(p: Stored -> bool, key: Key, newKey: Key, rows: seq<Stored>, a: nat, b: nat)
    requires DistinctRids(rows) && NoClash(key, newKey, Filter(p, rows), rows)
    requires a < |rows| && b < |rows| && p(rows[a]) && !p(rows[b])
    ensures newKey(rows[a]) != key(rows[b])
  {
    var batch := Filter(p, rows);
    FilterHas(p, rows, rows[a]);
    var i :| 0 <= i < |batch| && batch[i] == rows[a];
    assert KeyFreeOutside(key, newKey(batch[i]), Rids(batch), rows);
    if newKey(rows[a]) == key(rows[b]) {
      var x :| x in batch && x.rid == rows[b].rid;
      FilterHas(p, rows, x);
    }
  }

  lemma ApartInBatch(p: Stored -> bool, newKey: Key, rows: seq<Stored>, a: nat, b: nat)
    requires DistinctRids(rows) && DistinctKeys(newKey, Filter(p, rows))
    requires a < b < |rows| && p(rows[a]) && p(rows[b])
    ensures newKey(rows[a]) != newKey(rows[b])
  {
    var batch := Filter(p, rows);
    FilterHas(p, rows, rows[a]);
    FilterHas(p, rows, rows[b]);
    var i :| 0 <= i < |batch| && batch[i] == rows[a];
    var j :| 0 <= j < |batch| && batch[j] == rows[b];
    assert i < j || j < i;
  }

  /** Validating the batch against the index is exactly asking that the keys be distinct afterwards. */
  lemma KeysStayIff(p: Stored -> bool, key: Key, newKey: Key, after: Key, rows: seq<Stored>)
    requires Mixed(p, key, newKey, after, rows) && DistinctKeys(key, rows) && DistinctRids(rows)
    ensures DistinctKeys(after, rows) <==> NewKeysOk(key, newKey, Filter(p, rows), rows)
  {
    if DistinctKeys(after, rows) { DistinctAfter(p, key, newKey, after, rows); }
    if NewKeysOk(key, newKey, Filter(p, rows), rows) {
      forall a, b | 0 <= a < b < |rows| ensures after(rows[a]) != after(rows[b]) {
        if p(rows[a]) && p(rows[b]) {
          ApartInBatch(p, newKey, rows, a, b);
        } else if p(rows[a]) {
          ApartFromBatch(p, key, newKey, rows, a, b);
        } else if p(rows[b]) {
          ApartFromBatch(p, key, newKey, rows, b, a);
        }
      }
    }
  }

  lemma FitIff(t: TableInfo, asgs: seq<Assignment>, where: seq<Predicate>, rows: seq<Stored>)
    requires DistinctColumns(t.columns)
    ensures AllFit(NewBytesFn(t, asgs), Filter(Satisfying(t, where), rows)) <==> RowsFit(t, asgs, where, rows)
  {
    var p := Satisfying(t, where);
    var batch := Filter(p, rows);
    forall x: Stored ensures NewBytesFn(t, asgs)(x) == Encoded(t.columns, RowAfter(t, asgs, Values(t, x))) {
      AssignedIsRowAfter(t, asgs, Values(t, x));
    }
    if AllFit(NewBytesFn(t, asgs), batch) {
      forall i | 0 <= i < |rows| && p(rows[i])
        ensures |Encoded(t.columns, RowAfter(t, asgs, Values(t, rows[i])))| <= MAX_ROW
      {
        FilterHas(p, rows, rows[i]);
        var k :| 0 <= k < |batch| && batch[k] == rows[i];
        assert |NewBytesFn(t, asgs)(batch[k])| <= MAX_ROW;
      }
    }
    forall k | 0 <= k < |batch| ensures batch[k] in rows && p(batch[k]) {
      FilterHas(p, rows, batch[k]);
    }
  }

  lemma KeyAfterMixed(t: TableInfo, asgs: seq<Assignment>, where: seq<Predicate>, column: Text, rows: seq<Stored>)
    requires DistinctColumns(t.columns)
    ensures Mixed(Satisfying(t, where), KeyOf(t, column), NewKey(t, asgs, column), KeyAfter(t, asgs, where, column),
                  rows)
  {
    forall x: Stored ensures NewRow(t, asgs, x) == RowAfter(t, asgs, Values(t, x)) {
      AssignedIsRowAfter(t, asgs, Values(t, x));
    }
  }

  /** The batch is validated exactly when every row fits and the keys are distinct afterwards. */
  lemma ValidatedIff(c: Catalog, t: TableInfo, asgs: seq<Assignment>, where: seq<Predicate>, rows: seq<Stored>)
    requires DistinctColumns(t.columns) && PredicatesOk(t, where) && KeyOk(c, t, rows) && DistinctRids(rows)
    ensures BatchOk(c, t, asgs, Matched(t, where, rows), rows) <==>
            RowsFit(t, asgs, where, rows) && KeysStay(c, t, asgs, where, rows)
  {
    FilterMatched(t, where, rows);
    FitIff(t, asgs, where, rows);
    forall x | IsKey(c.indexes, t.name, x)
      ensures DistinctKeys(KeyAfter(t, asgs, where, x.column), rows) <==>
              NewKeysOk(KeyOf(t, x.column), NewKey(t, asgs, x.column), Filter(Satisfying(t, where), rows), rows)
    {
      KeyAfterMixed(t, asgs, where, x.column, rows);
      KeysStayIff(Satisfying(t, where), KeyOf(t, x.column), NewKey(t, asgs, x.column),
                  KeyAfter(t, asgs, where, x.column), rows);
    }
  }

  // ----- what a statement leaves

  /** One row more with these values, last in the scan, at an address never used before. */
  ghost predicate RowPut(t: TableInfo, before: Pages, after: Pages, x: Stored, v: seq<Literal>) {
    !HasSlot(before, x.rid) && Scanned(after) == Scanned(before) + [x] && Values(t, x) == v
  }

  /** Exactly the rows that satisfy the conditions are gone; the others are as they were, in their order. */
  ghost predicate DeleteDone(t: TableInfo, where: seq<Predicate>, before: Pages, after: Pages, n: nat) {
    && Scanned(after) == Filter(Failing(t, where), Scanned(before))
    && n == |Filter(Satisfying(t, where), Scanned(before))|
  }

  /** Row i of `news` is row i of `olds` with the SET list applied, at an address never used before. */
  ghost predicate SetRows(t: TableInfo, asgs: seq<Assignment>, before: Pages, olds: seq<Stored>, news: seq<Stored>) {
    && |news| == |olds|
    && forall i :: 0 <= i < |news| ==>
         Values(t, news[i]) == RowAfter(t, asgs, Values(t, olds[i])) && !HasSlot(before, news[i].rid)
  }

  /** The rows that satisfy the conditions, in some order, are each rewritten; the others are as they were. */
  ghost predicate UpdateBy(t: TableInfo, asgs: seq<Assignment>, where: seq<Predicate>, before: Pages, after: Pages,
      olds: seq<Stored>, news: seq<Stored>) {
    && multiset(olds) == multiset(Filter(Satisfying(t, where), Scanned(before)))
    && SetRows(t, asgs, before, olds, news)
    && Scanned(after) == Filter(Failing(t, where), Scanned(before)) + news
  }

  ghost predicate UpdateDone(t: TableInfo, asgs: seq<Assignment>, where: seq<Predicate>, before: Pages, after: Pages,
      n: nat) {
    && n == |Filter(Satisfying(t, where), Scanned(before))|
    && exists olds, news :: UpdateBy(t, asgs, where, before, after, olds, news)
  }
}
