/**
 The planner (src/sql/planner.cpp): which index, if any, answers a query, what is left to
 filter, and which queries are refused.
 */
module Planner {
  import opened Wrappers
  import opened Sql

  datatype ScanMethod = SeqScan | IndexScan(index: Text, key: int)
  datatype Access = Access(table: Text, scan: ScanMethod, residual: seq<Predicate>)
  datatype JoinPlan = JoinPlan(outer: Access, innerTable: Text, innerIndex: Option<Text>, innerResidual: seq<Predicate>,
                               outerColumn: Text, innerColumn: Text)
  datatype Source = Single(access: Access) | Joined(join: JoinPlan)
  datatype SelectPlan = SelectPlan(star: bool, list: seq<ColumnRef>, source: Source)

  // ----- one table

  predicate Qualifies(t: TableInfo, ref: ColumnRef) {
    ref.table.None? || ref.table.value == t.name
  }

  ghost predicate PredicateOk(t: TableInfo, p: Predicate) {
    && Qualifies(t, p.column) && HasColumn(t, p.column.column)
    && KindMatches(t.columns[ColumnIndex(t, p.column.column)].typ, p.value)
  }

  ghost predicate PredicatesOk(t: TableInfo, ps: seq<Predicate>) {
    forall i :: 0 <= i < |ps| ==> PredicateOk(t, ps[i])
  }

  /** An equality on an indexed column. */
  predicate Drives(c: Catalog, table: Text, p: Predicate) {
    p.op.Eq? && FindIndexOnColumn(c, table, p.column.column).Some?
  }

  /** The plan probes an index for predicate i, the first that has one, and filters by the others in order. */
  ghost predicate DrivenBy(c: Catalog, ps: seq<Predicate>, a: Access, i: nat) {
    && i < |ps| && Drives(c, a.table, ps[i]) && (forall j :: 0 <= j < i ==> !Drives(c, a.table, ps[j]))
    && a.scan == IndexScan(FindIndexOnColumn(c, a.table, ps[i].column.column).value.name, IntValue(ps[i].value))
    && a.residual == ps[..i] + ps[i + 1..]
  }

  ghost predicate AccessFor(c: Catalog, table: Text, ps: seq<Predicate>, a: Access) {
    && a.table == table
    && if a.scan.SeqScan? then a.residual == ps && (forall i :: 0 <= i < |ps| ==> !Drives(c, table, ps[i]))
       else exists i: nat :: DrivenBy(c, ps, a, i)
  }

  function CheckPredicate(t: TableInfo, p: Predicate): (r: Result<(), SqlError>)
    ensures r.Ok? <==> PredicateOk(t, p)
  {
    if !Qualifies(t, p.column) then Err(UnknownQualifier)
    else
      match RequireColumn(t, p.column.column)
      case Err(e) => Err(e)
      case Ok(col) => if KindMatches(col.typ, p.value) then Ok(()) else Err(TypeMismatch)
  }

  method PlanTableAccess(c: Catalog, table: Text, ps: seq<Predicate>) returns (r: Result<Access, SqlError>)
    ensures r.Ok? <==> FindTable(c.tables, table).Some? && PredicatesOk(FindTable(c.tables, table).value, ps)
    ensures r.Ok? ==> AccessFor(c, table, ps, r.value)
  {
    var t := FindTable(c.tables, table);
    if t.None? { return Err(NoSuchTable); }
    var i := 0;
    while i < |ps|
      invariant 0 <= i <= |ps|
      invariant forall j :: 0 <= j < i ==> PredicateOk(t.value, ps[j])
    {
      var checked := CheckPredicate(t.value, ps[i]);
      if checked.Err? { return Err(checked.error); }
      i := i + 1;
    }
    i := 0;
    while i < |ps| && !Drives(c, table, ps[i])
      invariant 0 <= i <= |ps|
      invariant forall j :: 0 <= j < i ==> !Drives(c, table, ps[j])
    {
      i := i + 1;
    }
    if i == |ps| {
      return Ok(Access(table, SeqScan, ps));
    }
    var scan := IndexScan(FindIndexOnColumn(c, table, ps[i].column.column).value.name, IntValue(ps[i].value));
    var residual := Residual(ps, i);
    r := Ok(Access(table, scan, residual));
    assert DrivenBy(c, ps, r.value, i);
  }

  method Residual(ps: seq<Predicate>, driving: nat) returns (out: seq<Predicate>)
    requires driving < |ps|
    ensures out == ps[..driving] + ps[driving + 1..]
  {
    out := [];
    var i := 0;
    while i < |ps|
      invariant 0 <= i <= |ps|
      invariant out == if i <= driving then ps[..i] else ps[..driving] + ps[driving + 1..i]
    {
      if i != driving { out := out + [ps[i]]; }
      i := i + 1;
    }
  }

  // ----- two tables

  datatype Side = Outer | Inner

  function ResolveColumnSide(o: TableInfo, i: TableInfo, ref: ColumnRef): (r: Result<Side, SqlError>)
    ensures r == Ok(Outer) ==> HasColumn(o, ref.column)
    ensures r == Ok(Inner) ==> HasColumn(i, ref.column)
  {
    var inOuter, inInner := ColumnAt(o.columns, ref.column).Some?, ColumnAt(i.columns, ref.column).Some?;
    if ref.table.Some? then
      if ref.table.value == o.name then (if inOuter then Ok(Outer) else Err(NoSuchColumn))
      else if ref.table.value == i.name then (if inInner then Ok(Inner) else Err(NoSuchColumn))
      else Err(UnknownQualifier)
    else if inOuter && inInner then Err(AmbiguousColumn)
    else if inOuter then Ok(Outer)
    else if inInner then Ok(Inner)
    else Err(NoSuchColumn)
  }

  function SideTable(o: TableInfo, i: TableInfo, side: Side): TableInfo {
    if side.Outer? then o else i
  }

  ghost predicate JoinPredicateOk(o: TableInfo, i: TableInfo, p: Predicate) {
    && ResolveColumnSide(o, i, p.column).Ok?
    && var t := SideTable(o, i, ResolveColumnSide(o, i, p.column).value);
       KindMatches(t.columns[ColumnIndex(t, p.column.column)].typ, p.value)
  }

  ghost predicate JoinPredicatesOk(o: TableInfo, i: TableInfo, ps: seq<Predicate>) {
    forall k :: 0 <= k < |ps| ==> JoinCheck(o, i)(ps[k]).Ok?
  }

  function CheckJoinPredicate(o: TableInfo, i: TableInfo, p: Predicate): (r: Result<Side, SqlError>)
    ensures r.Ok? <==> JoinPredicateOk(o, i, p)
    ensures r.Ok? ==> r == ResolveColumnSide(o, i, p.column)
  {
    match ResolveColumnSide(o, i, p.column)
    case Err(e) => Err(e)
    case Ok(side) =>
      var col := RequireColumn(SideTable(o, i, side), p.column.column);
      if KindMatches(col.value.typ, p.value) then Ok(side) else Err(TypeMismatch)
  }

  function JoinCheck(o: TableInfo, i: TableInfo): Predicate -> Result<Side, SqlError> {
    (p: Predicate) => CheckJoinPredicate(o, i, p)
  }

  /** The predicates that `check` puts on one side, in order. */
  function OnSide(check: Predicate -> Result<Side, SqlError>, ps: seq<Predicate>, side: Side): seq<Predicate> {
    if ps == [] then []
    else
      var n := |ps| - 1;
      OnSide(check, ps[..n], side) + if check(ps[n]) == Ok(side) then [ps[n]] else []
  }

  lemma OnSideStep(check: Predicate -> Result<Side, SqlError>, ps: seq<Predicate>, k: nat, side: Side)
    requires k < |ps|
    ensures OnSide(check, ps[..k + 1], side)
         == OnSide(check, ps[..k], side) + if check(ps[k]) == Ok(side) then [ps[k]] else []
  {
    assert ps[..k + 1][..k] == ps[..k];
  }

  method SplitPredicates(check: Predicate -> Result<Side, SqlError>, ps: seq<Predicate>)
    returns (r: Result<(), SqlError>, outer: seq<Predicate>, inner: seq<Predicate>)
    ensures r.Ok? <==> forall k :: 0 <= k < |ps| ==> check(ps[k]).Ok?
    ensures r.Ok? ==> outer == OnSide(check, ps, Outer) && inner == OnSide(check, ps, Inner)
  {
    outer, inner := [], [];
    var k := 0;
    while k < |ps|
      invariant 0 <= k <= |ps|
      invariant forall j :: 0 <= j < k ==> check(ps[j]).Ok?
      invariant outer == OnSide(check, ps[..k], Outer) && inner == OnSide(check, ps[..k], Inner)
    {
      var side := check(ps[k]);
      if side.Err? { return Err(side.error), outer, inner; }
      OnSideStep(check, ps, k, Outer);
      OnSideStep(check, ps, k, Inner);
      if side.value.Outer? { outer := outer + [ps[k]]; } else { inner := inner + [ps[k]]; }
      k := k + 1;
    }
    assert ps[..k] == ps;
    r := Ok(());
  }

  lemma {:induction false} OnSideHas(check: Predicate -> Result<Side, SqlError>, ps: seq<Predicate>, side: Side)
    ensures forall p :: p in OnSide(check, ps, side) <==> p in ps && check(p) == Ok(side)
  {
    if ps != [] {
      var n := |ps| - 1;
      OnSideHas(check, ps[..n], side);
      assert ps == ps[..n] + [ps[n]];
    }
  }

  /** Each side's predicates are good predicates of that side's table. */
  lemma OnSideOk(o: TableInfo, i: TableInfo, ps: seq<Predicate>, side: Side)
    requires o.name != i.name
    ensures PredicatesOk(SideTable(o, i, side), OnSide(JoinCheck(o, i), ps, side))
  {
    OnSideHas(JoinCheck(o, i), ps, side);
    var mine := OnSide(JoinCheck(o, i), ps, side);
    forall k | 0 <= k < |mine| ensures PredicateOk(SideTable(o, i, side), mine[k]) {
      assert mine[k] in mine;
      SideOk(o, i, mine[k], side);
    }
  }

  lemma SideOk(o: TableInfo, i: TableInfo, p: Predicate, side: Side)
    requires CheckJoinPredicate(o, i, p) == Ok(side) && o.name != i.name
    ensures PredicateOk(SideTable(o, i, side), p)
  {
  }

  // ----- SELECT

  ghost predicate ListOk(t: TableInfo, list: seq<ColumnRef>) {
    forall k :: 0 <= k < |list| ==> Qualifies(t, list[k]) && HasColumn(t, list[k].column)
  }

  ghost predicate JoinListOk(o: TableInfo, i: TableInfo, list: seq<ColumnRef>) {
    forall k :: 0 <= k < |list| ==> ResolveColumnSide(o, i, list[k]).Ok?
  }

  /** The ON clause compares a column of each table, of the same type. */
  ghost predicate OnOk(o: TableInfo, i: TableInfo, j: JoinClause) {
    var l, r := ResolveColumnSide(o, i, j.left), ResolveColumnSide(o, i, j.right);
    && l.Ok? && r.Ok? && l != r
    && var oc, ic := OnColumn(o, i, j, Outer), OnColumn(o, i, j, Inner);
       o.columns[ColumnIndex(o, oc)].typ == i.columns[ColumnIndex(i, ic)].typ
  }

  function OnColumn(o: TableInfo, i: TableInfo, j: JoinClause, side: Side): (column: Text)
    requires ResolveColumnSide(o, i, j.left).Ok? && ResolveColumnSide(o, i, j.right).Ok?
    requires ResolveColumnSide(o, i, j.left) != ResolveColumnSide(o, i, j.right)
    ensures HasColumn(SideTable(o, i, side), column)
  {
    if ResolveColumnSide(o, i, j.left) == Ok(side) then j.left.column else j.right.column
  }

  /** The statements the planner accepts. */
  ghost predicate Accepted(c: Catalog, s: SelectStatement) {
    && FindTable(c.tables, s.from).Some?
    && var o := FindTable(c.tables, s.from).value;
       if s.join.None? then (s.star || ListOk(o, s.list)) && PredicatesOk(o, s.where)
       else
         && FindTable(c.tables, s.join.value.table).Some?
         && var i := FindTable(c.tables, s.join.value.table).value;
            i.name != o.name && OnOk(o, i, s.join.value) && JoinPredicatesOk(o, i, s.where) &&
                (s.star || JoinListOk(o, i, s.list))
  }

  ghost predicate QualifiedList(list: seq<ColumnRef>, resolved: seq<ColumnRef>, name: ColumnRef -> Text) {
    |resolved| == |list| && forall k :: 0 <= k < |list| ==>
        resolved[k] == ColumnRef(Some(name(list[k])), list[k].column)
  }

  ghost function JoinSideName(o: TableInfo, i: TableInfo): ColumnRef -> Text {
    (ref: ColumnRef) => if ResolveColumnSide(o, i, ref) == Ok(Outer) then o.name else i.name
  }

  ghost predicate JoinPlanFor(c: Catalog, o: TableInfo, i: TableInfo, j: JoinClause, where: seq<Predicate>, p: JoinPlan)
    requires OnOk(o, i, j)
  {
    && AccessFor(c, o.name, OnSide(JoinCheck(o, i), where, Outer), p.outer)
    && p.innerTable == i.name && p.innerResidual == OnSide(JoinCheck(o, i), where, Inner)
    && p.outerColumn == OnColumn(o, i, j, Outer) && p.innerColumn == OnColumn(o, i, j, Inner)
    && p.innerIndex ==
        match FindIndexOnColumn(c, i.name, p.innerColumn) { case Some(x) => Some(x.name) case None => None }
  }

  /** What the plan of an accepted statement is. */
  ghost predicate PlanFor(c: Catalog, s: SelectStatement, p: SelectPlan)
    requires Accepted(c, s)
  {
    var o := FindTable(c.tables, s.from).value;
    && p.star == s.star
    && if s.join.None? then
         && p.source.Single? && AccessFor(c, o.name, s.where, p.source.access)
         && (s.star || QualifiedList(s.list, p.list, _ => o.name))
       else
         var i := FindTable(c.tables, s.join.value.table).value;
         && p.source.Joined? && JoinPlanFor(c, o, i, s.join.value, s.where, p.source.join)
         && (s.star || QualifiedList(s.list, p.list, JoinSideName(o, i)))
  }

  method PlanSelect(c: Catalog, s: SelectStatement) returns (r: Result<SelectPlan, SqlError>)
    ensures r.Ok? <==> Accepted(c, s)
    ensures r.Ok? ==> PlanFor(c, s, r.value)
  {
    var from := FindTable(c.tables, s.from);
    if from.None? { return Err(NoSuchTable); }
    var o := from.value;
    if s.join.None? {
      var list := [];
      if !s.star {
        var q := QualifyList(o, s.list);
        if q.Err? { return Err(q.error); }
        list := q.value;
      }
      var a := PlanTableAccess(c, s.from, s.where);
      if a.Err? { return Err(a.error); }
      return Ok(SelectPlan(s.star, list, Single(a.value)));
    }
    var inner := FindTable(c.tables, s.join.value.table);
    if inner.None? { return Err(NoSuchTable); }
    if inner.value.name == o.name { return Err(SelfJoin); }
    var j := PlanJoin(c, o, inner.value, s.join.value, s.where);
    if j.Err? { return Err(j.error); }
    var list := [];
    if !s.star {
      var q := QualifyJoinList(o, inner.value, s.list);
      if q.Err? { return Err(q.error); }
      list := q.value;
    }
    return Ok(SelectPlan(s.star, list, Joined(j.value)));
  }

  method QualifyList(t: TableInfo, list: seq<ColumnRef>) returns (r: Result<seq<ColumnRef>, SqlError>)
    ensures r.Ok? <==> ListOk(t, list)
    ensures r.Ok? ==> QualifiedList(list, r.value, _ => t.name)
  {
    var out, k := [], 0;
    while k < |list|
      invariant 0 <= k <= |list| && |out| == k
      invariant forall m :: 0 <= m < k ==> Qualifies(t, list[m]) && HasColumn(t, list[m].column)
      invariant forall m :: 0 <= m < k ==> out[m] == ColumnRef(Some(t.name), list[m].column)
    {
      if !Qualifies(t, list[k]) { return Err(UnknownQualifier); }
      var col := RequireColumn(t, list[k].column);
      if col.Err? { return Err(col.error); }
      out := out + [ColumnRef(Some(t.name), list[k].column)];
      k := k + 1;
    }
    return Ok(out);
  }

  method QualifyJoinList(o: TableInfo, i: TableInfo, list: seq<ColumnRef>) returns (r: Result<seq<ColumnRef>, SqlError>)
    ensures r.Ok? <==> JoinListOk(o, i, list)
    ensures r.Ok? ==> QualifiedList(list, r.value, JoinSideName(o, i))
  {
    var out, k := [], 0;
    while k < |list|
      invariant 0 <= k <= |list| && |out| == k
      invariant forall m :: 0 <= m < k ==> ResolveColumnSide(o, i, list[m]).Ok?
      invariant forall m :: 0 <= m < k ==> out[m] == ColumnRef(Some(JoinSideName(o, i)(list[m])), list[m].column)
    {
      var side := ResolveColumnSide(o, i, list[k]);
      if side.Err? { return Err(side.error); }
      out := out + [ColumnRef(Some(SideTable(o, i, side.value).name), list[k].column)];
      k := k + 1;
    }
    return Ok(out);
  }

  method PlanJoin(c: Catalog, o: TableInfo, i: TableInfo, j: JoinClause, where: seq<Predicate>)
    returns (r: Result<JoinPlan, SqlError>)
    requires FindTable(c.tables, o.name) == Some(o) && o.name != i.name
    ensures r.Ok? <==> OnOk(o, i, j) && JoinPredicatesOk(o, i, where)
    ensures r.Ok? ==> JoinPlanFor(c, o, i, j, where, r.value)
  {
    var left := ResolveColumnSide(o, i, j.left);
    if left.Err? { return Err(left.error); }
    var right := ResolveColumnSide(o, i, j.right);
    if right.Err? { return Err(right.error); }
    if left.value == right.value { return Err(JoinSameSide); }
    var outerColumn := if left.value.Outer? then j.left.column else j.right.column;
    var innerColumn := if left.value.Inner? then j.left.column else j.right.column;
    var oc := RequireColumn(o, outerColumn);
    var ic := RequireColumn(i, innerColumn);
    if oc.value.typ != ic.value.typ { return Err(TypeMismatch); }
    var split, outer, inner := SplitPredicates(JoinCheck(o, i), where);
    if split.Err? { return Err(split.error); }
    OnSideOk(o, i, where, Outer);
    var a := PlanTableAccess(c, o.name, outer);
    var x := FindIndexOnColumn(c, i.name, innerColumn);
    return Ok(JoinPlan(a.value, i.name, if x.Some? then Some(x.value.name) else None, inner, outerColumn, innerColumn));
  }
}
