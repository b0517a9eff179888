/**
 Literals, tables, indexes and statements (src/sql/ast.h, src/catalog/catalog.h), and the
 checks and comparisons that planner and executor share (src/sql/sql_semantics.cpp).
 */
module Sql {
  import opened Wrappers
  import opened Bytes

  /** Text is a sequence of bytes, for names and values alike. */
  type Text = seq<byte>

  type int64 = x: int | -0x8000_0000_0000_0000 <= x < 0x8000_0000_0000_0000

  datatype Literal = IntLit(i: int64) | StrLit(s: Text)

  /** The two payload fields of a literal; the one its kind does not use is zero or empty. */
  function IntValue(l: Literal): int64 {
    if l.IntLit? then l.i else 0
  }

  function StrValue(l: Literal): Text {
    if l.StrLit? then l.s else []
  }

  datatype ColumnType = IntegerType | TextType
  datatype ColumnDef = ColumnDef(name: Text, typ: ColumnType)
  datatype TableInfo = TableInfo(name: Text, columns: seq<ColumnDef>)
  datatype IndexInfo = IndexInfo(name: Text, table: Text, column: Text, isPrimaryKey: bool)
  datatype Catalog = Catalog(tables: seq<TableInfo>, indexes: seq<IndexInfo>)

  datatype ColumnRef = ColumnRef(table: Option<Text>, column: Text)
  datatype Comparator = Eq | Neq | Lt | Le | Gt | Ge
  datatype Predicate = Predicate(column: ColumnRef, op: Comparator, value: Literal)
  datatype Assignment = Assignment(column: Text, value: Literal)
  datatype JoinClause = JoinClause(table: Text, left: ColumnRef, right: ColumnRef)

  datatype SelectStatement = SelectStatement(star: bool, list: seq<ColumnRef>, from: Text, join: Option<JoinClause>,
                                             where: seq<Predicate>)

  datatype Statement =
    | CreateTable(table: Text, columns: seq<ColumnDef>, primaryKey: Option<Text>)
    | CreateIndex(name: Text, table: Text, column: Text)
    | Insert(table: Text, values: seq<Literal>)
    | Select(select: SelectStatement)
    | Update(table: Text, assignments: seq<Assignment>, where: seq<Predicate>)
    | Delete(table: Text, where: seq<Predicate>)
    | Begin
    | Commit
    | Rollback

  datatype SqlError =
    | NoSuchTable
    | NoSuchColumn
    | UnknownQualifier
    | AmbiguousColumn
    | TypeMismatch
    | WrongArity
    | SelfJoin
    | JoinSameSide
    | DuplicateKey
    | RowTooLarge
    | NameInUse
    | OutOfSync
    | BadRow

  // ----- lookups

  function FindTable(tables: seq<TableInfo>, name: Text): (t: Option<TableInfo>)
    ensures t.Some? ==> t.value in tables && t.value.name == name
    ensures t.None? ==> forall u :: u in tables ==> u.name != name
  {
    if tables == [] then None else if tables[0].name == name then Some(tables[0]) else FindTable(tables[1..], name)
  }

  function IndexesOnTable(indexes: seq<IndexInfo>, table: Text): (r: seq<IndexInfo>)
    ensures forall x :: x in r <==> x in indexes && x.table == table
  {
    if indexes == [] then []
    else (if indexes[0].table == table then [indexes[0]] else []) + IndexesOnTable(indexes[1..], table)
  }

  function FirstOnColumn(indexes: seq<IndexInfo>, column: Text): (r: Option<IndexInfo>)
    ensures r.Some? ==> r.value in indexes && r.value.column == column
    ensures r.None? ==> forall x :: x in indexes ==> x.column != column
  {
    if indexes == [] then None else if indexes[0].column == column then Some(indexes[0])
        else FirstOnColumn(indexes[1..], column)
  }

  function FindIndexOnColumn(c: Catalog, table: Text, column: Text): (r: Option<IndexInfo>)
    ensures r.Some? ==> r.value in c.indexes && r.value.table == table && r.value.column == column
    ensures r.None? ==> forall x :: x in c.indexes && x.table == table ==> x.column != column
  {
    FirstOnColumn(IndexesOnTable(c.indexes, table), column)
  }

  function PrimaryKeyIndex(indexes: seq<IndexInfo>, table: Text): (r: Option<IndexInfo>)
    ensures r.Some? ==> r.value in indexes && r.value.table == table && r.value.isPrimaryKey
    ensures r.None? ==> forall x :: x in indexes && x.table == table ==> !x.isPrimaryKey
  {
    if indexes == [] then None
    else if indexes[0].table == table && indexes[0].isPrimaryKey then Some(indexes[0])
    else PrimaryKeyIndex(indexes[1..], table)
  }

  function ColumnAt(columns: seq<ColumnDef>, column: Text): (r: Option<nat>)
    ensures r.Some? ==> r.value < |columns| && columns[r.value].name == column
  {
    if columns == [] then None
    else if columns[0].name == column then Some(0)
    else match ColumnAt(columns[1..], column) { case Some(i) => Some(i + 1) case None => None }
  }

  predicate HasColumn(t: TableInfo, column: Text) {
    ColumnAt(t.columns, column).Some?
  }

  /** The position of a column that the table has. */
  function ColumnIndex(t: TableInfo, column: Text): (i: nat)
    requires HasColumn(t, column)
    ensures i < |t.columns| && t.columns[i].name == column
  {
    ColumnAt(t.columns, column).value
  }

  /** A column is found exactly when it is there, and with distinct names where it is. */
  lemma {:induction false} ColumnAtFinds(columns: seq<ColumnDef>, i: nat)
    requires i < |columns|
    ensures ColumnAt(columns, columns[i].name).Some?
    ensures DistinctColumns(columns) ==> ColumnAt(columns, columns[i].name) == Some(i)
  {
    if i > 0 {
      ColumnAtFinds(columns[1..], i - 1);
    }
  }

  function RequireColumn(t: TableInfo, column: Text): (r: Result<ColumnDef, SqlError>)
    ensures r.Ok? <==> HasColumn(t, column)
    ensures r.Ok? ==> r.value == t.columns[ColumnIndex(t, column)]
  {
    match ColumnAt(t.columns, column)
    case Some(i) => Ok(t.columns[i])
    case None => Err(NoSuchColumn)
  }

  predicate KindMatches(typ: ColumnType, v: Literal)
    ensures KindMatches(typ, v) <==> (if typ == IntegerType then v.IntLit? else v.StrLit?)
  {
    (typ.IntegerType? && v.IntLit?) || (typ.TextType? && v.StrLit?)
  }

  ghost predicate WellTyped(columns: seq<ColumnDef>, values: seq<Literal>) {
    |values| == |columns| && forall i :: 0 <= i < |columns| ==> KindMatches(columns[i].typ, values[i])
  }

  // ----- comparison

  predicate TextLess(a: Text, b: Text) {
    b != [] && (a == [] || a[0] < b[0] || (a[0] == b[0] && TextLess(a[1..], b[1..])))
  }

  function CompareLiterals(a: Literal, b: Literal): (c: int)
    ensures -1 <= c <= 1
  {
    if a.IntLit? then (if a.i < IntValue(b) then -1 else if a.i > IntValue(b) then 1 else 0)
    else if TextLess(a.s, StrValue(b)) then -1 else if TextLess(StrValue(b), a.s) then 1 else 0
  }

  predicate LiteralsEqual(a: Literal, b: Literal) {
    if a.IntLit? then a.i == IntValue(b) else a.s == StrValue(b)
  }

  predicate Holds(op: Comparator, c: int) {
    match op
    case Eq => c == 0
    case Neq => c != 0
    case Lt => c < 0
    case Le => c <= 0
    case Gt => c > 0
    case Ge => c >= 0
  }

  lemma {:induction false} TextTrichotomy(a: Text, b: Text)
    ensures (TextLess(a, b) && a != b && !TextLess(b, a)) || (a == b && !TextLess(a, b) && !TextLess(b, a))
         || (TextLess(b, a) && a != b && !TextLess(a, b))
    decreases a
  {
    if a != [] && b != [] && a[0] == b[0] {
      TextTrichotomy(a[1..], b[1..]);
      assert a == [a[0]] + a[1..] && b == [b[0]] + b[1..];
    }
  }

  lemma {:induction false} TextTransitive(a: Text, b: Text, c: Text)
    requires TextLess(a, b) && TextLess(b, c)
    ensures TextLess(a, c)
    decreases a
  {
    if a != [] && a[0] == b[0] && b[0] == c[0] {
      TextTransitive(a[1..], b[1..], c[1..]);
    }
  }

  /** On literals of one kind, comparison is a total order that agrees with the join's equality test. */
  lemma ComparisonIsTotalOrder(a: Literal, b: Literal, c: Literal)
    requires a.IntLit? <==> b.IntLit?
    requires b.IntLit? <==> c.IntLit?
    ensures CompareLiterals(a, b) == 0 <==> a == b
    ensures LiteralsEqual(a, b) <==> a == b
    ensures CompareLiterals(a, b) == -CompareLiterals(b, a)
    ensures CompareLiterals(a, b) <= 0 && CompareLiterals(b, c) <= 0 ==> CompareLiterals(a, c) <= 0
  {
    if a.StrLit? {
      TextTrichotomy(a.s, b.s);
      TextTrichotomy(b.s, c.s);
      TextTrichotomy(a.s, c.s);
      if TextLess(a.s, b.s) && TextLess(b.s, c.s) { TextTransitive(a.s, b.s, c.s); }
    }
  }

  // ----- predicates over one table

  /** The value in a named column. Planning has checked that the column is there. */
  function Cell(t: TableInfo, values: seq<Literal>, column: Text): Literal {
    match ColumnAt(t.columns, column)
    case Some(i) => if i < |values| then values[i] else IntLit(0)
    case None => IntLit(0)
  }

  predicate EvaluatePredicate(t: TableInfo, values: seq<Literal>, p: Predicate) {
    Holds(p.op, CompareLiterals(Cell(t, values, p.column.column), p.value))
  }

  predicate MatchesAll(t: TableInfo, values: seq<Literal>, ps: seq<Predicate>) {
    forall i :: 0 <= i < |ps| ==> EvaluatePredicate(t, values, ps[i])
  }

  // ----- catalogs

  /** What table and index creation check (src/catalog/catalog.cpp:245-313, 314-350). */
  ghost predicate CatalogOk(c: Catalog) {
    && (forall i, j :: 0 <= i < j < |c.tables| ==> c.tables[i].name != c.tables[j].name)
    && (forall i, j :: 0 <= i < j < |c.indexes| ==> c.indexes[i].name != c.indexes[j].name)
    && (forall t :: t in c.tables ==> DistinctColumns(t.columns))
    && (forall x :: x in c.indexes ==> IndexOk(c.tables, x))
    && OnePrimaryKey(c.indexes)
  }

  /** The index is there for the table's primary key. */
  ghost predicate IsKey(indexes: seq<IndexInfo>, table: Text, x: IndexInfo) {
    x in indexes && x.isPrimaryKey && x.table == table
  }

  /** A table gets its primary key, if any, when it is created, and no second one. */
  ghost predicate OnePrimaryKey(indexes: seq<IndexInfo>) {
    forall table, x, y :: IsKey(indexes, table, x) && IsKey(indexes, table, y) ==> x == y
  }

  lemma FewerKeys(all: seq<IndexInfo>, some: seq<IndexInfo>)
    requires OnePrimaryKey(all) && forall x :: x in some && x.isPrimaryKey ==> x in all
    ensures OnePrimaryKey(some)
  {
    forall table, x, y | IsKey(some, table, x) && IsKey(some, table, y) ensures x == y {
      assert IsKey(all, table, x) && IsKey(all, table, y);
    }
  }

  ghost predicate DistinctColumns(columns: seq<ColumnDef>) {
    forall i, j :: 0 <= i < j < |columns| ==> columns[i].name != columns[j].name
  }

  /** An index is on an INTEGER column of a table that exists. */
  ghost predicate IndexOk(tables: seq<TableInfo>, x: IndexInfo) {
    exists t :: t in tables && t.name == x.table && HasColumn(t, x.column) &&
        t.columns[ColumnIndex(t, x.column)].typ.IntegerType?
  }

  lemma TableIsFound(c: Catalog, t: TableInfo)
    requires CatalogOk(c) && t in c.tables
    ensures FindTable(c.tables, t.name) == Some(t)
  {
    var u := FindTable(c.tables, t.name).value;
    var i :| 0 <= i < |c.tables| && c.tables[i] == t;
    var j :| 0 <= j < |c.tables| && c.tables[j] == u;
  }

  /** The column of an index, in its table. */
  lemma IndexColumn(c: Catalog, t: TableInfo, x: IndexInfo)
    requires CatalogOk(c) && t in c.tables && x in c.indexes && x.table == t.name
    ensures HasColumn(t, x.column) && t.columns[ColumnIndex(t, x.column)].typ.IntegerType?
  {
    assert IndexOk(c.tables, x);
    var u :| u in c.tables && u.name == x.table && HasColumn(u, x.column) &&
        u.columns[ColumnIndex(u, x.column)].typ.IntegerType?;
    TableIsFound(c, t);
    TableIsFound(c, u);
  }
}
