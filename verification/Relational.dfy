/**
 What a SELECT means: filter and project over one table, or over the cross product of two,
 with columns looked up by name among the labels in scope. Nothing here knows of plans.
 */
module Relational {
  import opened Wrappers
  import opened Bags
  import opened Sql
  import opened RowCodec
  import opened Heap

  /** The values of a stored row. */
  function Values(t: TableInfo, x: Stored): (v: seq<Literal>)
    ensures |v| == |t.columns|
  {
    match Decoded(t.columns, x.bytes)
    case Some(v) => v
    case None => seq(|t.columns|, _ => IntLit(0))
  }

  datatype Label = Label(table: Text, column: Text)

  function Labels(t: TableInfo): (r: seq<Label>)
    ensures |r| == |t.columns| && forall i :: 0 <= i < |r| ==> r[i] == Label(t.name, t.columns[i].name)
  {
    seq(|t.columns|, i requires 0 <= i < |t.columns| => Label(t.name, t.columns[i].name))
  }

  predicate Names(ref: ColumnRef, l: Label) {
    (ref.table.None? || ref.table.value == l.table) && ref.column == l.column
  }

  /** The first label the reference names. */
  function Position(labels: seq<Label>, ref: ColumnRef): (r: Option<nat>)
    ensures r.Some? ==> r.value < |labels| && Names(ref, labels[r.value])
  {
    if labels == [] then None
    else if Names(ref, labels[0]) then Some(0)
    else match Position(labels[1..], ref) { case Some(i) => Some(i + 1) case None => None }
  }

  function Eval(labels: seq<Label>, v: seq<Literal>, ref: ColumnRef): Literal {
    match Position(labels, ref)
    case Some(i) => if i < |v| then v[i] else IntLit(0)
    case None => IntLit(0)
  }

  // ----- what a comparison means

  ghost predicate IntegersCompare(op: Comparator, x: int, y: int) {
    match op
    case Eq => x == y
    case Neq => x != y
    case Lt => x < y
    case Le => x <= y
    case Gt => x > y
    case Ge => x >= y
  }

  /** The texts agree up to byte n. */
  ghost predicate AgreeTo(x: Text, y: Text, n: nat) {
    n <= |x| && n <= |y| && forall k :: 0 <= k < n ==> x[k] == y[k]
  }

  /** In dictionary order, byte by byte: the smaller byte at the first difference, or a proper prefix. */
  ghost predicate Precedes(x: Text, y: Text) {
    exists n: nat :: AgreeTo(x, y, n) && n < |y| && (n == |x| || x[n] < y[n])
  }

  ghost predicate TextsCompare(op: Comparator, x: Text, y: Text) {
    match op
    case Eq => x == y
    case Neq => x != y
    case Lt => Precedes(x, y)
    case Le => Precedes(x, y) || x == y
    case Gt => Precedes(y, x)
    case Ge => Precedes(y, x) || x == y
  }

  /** Planning lets only values of one kind meet; were it otherwise, the left one's kind would decide. */
  ghost predicate ValuesCompare(op: Comparator, a: Literal, b: Literal) {
    match (a, b)
    case (IntLit(x), IntLit(y)) => IntegersCompare(op, x, y)
    case (StrLit(x), StrLit(y)) => TextsCompare(op, x, y)
    case (IntLit(x), StrLit(_)) => IntegersCompare(op, x, 0)
    case (StrLit(x), IntLit(_)) => TextsCompare(op, x, [])
  }

  lemma {:induction false} PrecedesIff(x: Text, y: Text)
    ensures Precedes(x, y) <==> TextLess(x, y)
    decreases x
  {
    if y != [] {
      if x == [] || x[0] < y[0] {
        assert AgreeTo(x, y, 0);
      } else if x[0] == y[0] {
        PrecedesIff(x[1..], y[1..]);
        if n: nat :| AgreeTo(x[1..], y[1..], n) && n < |y| - 1 && (n == |x| - 1 || x[1..][n] < y[1..][n]) {
          LaterAgree(x, y, n);
        }
        if n: nat :| AgreeTo(x, y, n) && n < |y| && (n == |x| || x[n] < y[n]) {
          assert AgreeTo(x[1..], y[1..], n - 1);
        }
      }
    }
  }

  lemma LaterAgree(x: Text, y: Text, n: nat)
    requires x != [] && y != [] && x[0] == y[0] && AgreeTo(x[1..], y[1..], n)
    ensures AgreeTo(x, y, n + 1)
  {
    forall k | 0 <= k < n + 1 ensures x[k] == y[k] {
      if k > 0 { assert x[1..][k - 1] == y[1..][k - 1]; }
    }
  }

  /** What the executor computes for the six operators is what they mean. */
  lemma ComparisonMeans(op: Comparator, a: Literal, b: Literal)
    ensures Holds(op, CompareLiterals(a, b)) <==> ValuesCompare(op, a, b)
  {
    if a.StrLit? {
      PrecedesIff(a.s, StrValue(b));
      PrecedesIff(StrValue(b), a.s);
      TextTrichotomy(a.s, StrValue(b));
    }
  }

  /** The row meets every condition, by the meaning of the operators on the values of the named columns. */
  ghost predicate Satisfies(labels: seq<Label>, v: seq<Literal>, ps: seq<Predicate>) {
    forall i :: 0 <= i < |ps| ==> ValuesCompare(ps[i].op, Eval(labels, v, ps[i].column), ps[i].value)
  }

  function Projection(labels: seq<Label>, v: seq<Literal>, star: bool, list: seq<ColumnRef>): seq<Literal> {
    if star then v else Map((ref: ColumnRef) => Eval(labels, v, ref), list)
  }

  ghost function FilterProject(labels: seq<Label>, v: seq<Literal>, s: SelectStatement): seq<seq<Literal>> {
    if Satisfies(labels, v, s.where) then [Projection(labels, v, s.star, s.list)] else []
  }

  // ----- the meaning of a statement

  ghost function RowFn(t: TableInfo, s: SelectStatement): Stored -> seq<seq<Literal>> {
    (x: Stored) => FilterProject(Labels(t), Values(t, x), s)
  }

  /** SELECT from one table: every row, filtered and projected. */
  ghost function SingleMeaning(t: TableInfo, s: SelectStatement, rows: seq<Stored>): seq<seq<Literal>> {
    FlatMap(RowFn(t, s), rows)
  }

  ghost function PairRow(o: TableInfo, i: TableInfo, j: JoinClause, s: SelectStatement,
      v: seq<Literal>): seq<seq<Literal>> {
    var labels := Labels(o) + Labels(i);
    if Eval(labels, v, j.left) == Eval(labels, v, j.right) then FilterProject(labels, v, s) else []
  }

  ghost function PairFn(o: TableInfo, i: TableInfo, j: JoinClause, s: SelectStatement,
      ov: seq<Literal>): Stored -> seq<seq<Literal>> {
    (y: Stored) => PairRow(o, i, j, s, ov + Values(i, y))
  }

  ghost function CrossFn(o: TableInfo, i: TableInfo, j: JoinClause, s: SelectStatement,
      inner: seq<Stored>): Stored -> seq<seq<Literal>> {
    (x: Stored) => FlatMap(PairFn(o, i, j, s, Values(o, x)), inner)
  }

  /** SELECT from a join: every pair of rows with equal join columns, filtered and projected. */
  ghost function JoinMeaning(o: TableInfo, i: TableInfo, j: JoinClause, s: SelectStatement, outer: seq<Stored>,
                       inner: seq<Stored>)
    : seq<seq<Literal>>
  {
    FlatMap(CrossFn(o, i, j, s, inner), outer)
  }

  // ----- positions

  lemma {:induction false} PositionIs(labels: seq<Label>, ref: ColumnRef, i: nat)
    requires i < |labels| && Names(ref, labels[i]) && forall j :: 0 <= j < i ==> !Names(ref, labels[j])
    ensures Position(labels, ref) == Some(i)
  {
    if i > 0 {
      PositionIs(labels[1..], ref, i - 1);
    }
  }

  lemma {:induction false} NoEarlierColumn(columns: seq<ColumnDef>, column: Text)
    ensures match ColumnAt(columns, column) {
              case Some(i) => forall j :: 0 <= j < i ==> columns[j].name != column
              case None => forall j :: 0 <= j < |columns| ==> columns[j].name != column }
  {
    if columns != [] && columns[0].name != column {
      NoEarlierColumn(columns[1..], column);
    }
  }

  /** In one table's labels a good reference is the column of that name. */
  lemma TablePosition(t: TableInfo, ref: ColumnRef)
    requires (ref.table.None? || ref.table.value == t.name) && HasColumn(t, ref.column)
    ensures Position(Labels(t), ref) == Some(ColumnIndex(t, ref.column))
  {
    NoEarlierColumn(t.columns, ref.column);
    PositionIs(Labels(t), ref, ColumnIndex(t, ref.column));
  }
}
