/** The join plan against the cross product (src/sql/executor.cpp:469-543). */
module Joining {
  import opened Wrappers
  import opened Bags
  import opened Sql
  import opened Planner
  import opened Relational
  import opened RowCodec
  import opened Heap
  import opened Agreement
  import opened Selection

  /** A column of the result row, by the table that planning qualified it with. */
  function SideCell(o: TableInfo, i: TableInfo, ov: seq<Literal>, iv: seq<Literal>, ref: ColumnRef): Literal {
    if ref.table == Some(o.name) then Cell(o, ov, ref.column) else Cell(i, iv, ref.column)
  }

  function ProjectPair(o: TableInfo, i: TableInfo, star: bool, list: seq<ColumnRef>, ov: seq<Literal>,
      iv: seq<Literal>): seq<Literal> {
    if star then ov + iv else Map((ref: ColumnRef) => SideCell(o, i, ov, iv, ref), list)
  }

  function PairOut(o: TableInfo, i: TableInfo, p: SelectPlan, ov: seq<Literal>): Stored -> seq<seq<Literal>> {
    (y: Stored) => [ProjectPair(o, i, p.star, p.list, ov, Values(i, y))]
  }

  /** The explicit equality check that a sequential inner scan makes. */
  function Equal(o: TableInfo, i: TableInfo, jp: JoinPlan, ov: seq<Literal>,
      g: Stored -> seq<seq<Literal>>): Stored -> seq<seq<Literal>> {
    (y: Stored) => if LiteralsEqual(Cell(o, ov, jp.outerColumn), Cell(i, Values(i, y), jp.innerColumn)) then g(y)
        else []
  }

  function Matching(o: TableInfo, i: TableInfo, p: SelectPlan, jp: JoinPlan,
      ov: seq<Literal>): Stored -> seq<seq<Literal>> {
    Where(i, jp.innerResidual, PairOut(o, i, p, ov))
  }

  /** The result rows for one outer row. */
  function InnerLoop(o: TableInfo, i: TableInfo, p: SelectPlan, jp: JoinPlan, hi: Pages, indexes: Indexes,
      ov: seq<Literal>): seq<seq<Literal>> {
    match jp.innerIndex
    case Some(name) => FlatMap(Matching(o, i, p, jp, ov),
        Probe(hi, indexes, name, IntValue(Cell(o, ov, jp.outerColumn))))
    case None => FlatMap(Equal(o, i, jp, ov, Matching(o, i, p, jp, ov)), Scanned(hi))
  }

  function InnerFn(o: TableInfo, i: TableInfo, p: SelectPlan, jp: JoinPlan, hi: Pages,
      indexes: Indexes): Stored -> seq<seq<Literal>> {
    (x: Stored) => InnerLoop(o, i, p, jp, hi, indexes, Values(o, x))
  }

  /** What the executor returns for a join plan. */
  function SelectJoin(o: TableInfo, i: TableInfo, p: SelectPlan, jp: JoinPlan, ho: Pages, hi: Pages,
      indexes: Indexes): seq<seq<Literal>> {
    FlatMap(Where(o, jp.outer.residual, InnerFn(o, i, p, jp, hi, indexes)), Candidates(jp.outer, ho, indexes))
  }

  // ----- the inner side

  /** The index probe stands in for the equality check. */
  lemma InnerProbe(c: Catalog, o: TableInfo, i: TableInfo, p: SelectPlan, jp: JoinPlan, hi: Pages, indexes: Indexes,
                   x: IndexInfo, ov: seq<Literal>)
    requires CatalogOk(c) && i in c.tables && IndexesAgree(c, i, hi, indexes)
    requires FindIndexOnColumn(c, i.name, jp.innerColumn) == Some(x) && Cell(o, ov, jp.outerColumn).IntLit?
    ensures multiset(FlatMap(Matching(o, i, p, jp, ov),
            Probe(hi, indexes, x.name, IntValue(Cell(o, ov, jp.outerColumn)))))
         == multiset(FlatMap(Equal(o, i, jp, ov, Matching(o, i, p, jp, ov)), Scanned(hi)))
  {
    var g, key, k := Matching(o, i, p, jp, ov), KeyOf(i, jp.innerColumn), IntValue(Cell(o, ov, jp.outerColumn));
    IndexColumn(c, i, x);
    ProbeFinds(key, indexes[x.name], hi, k);
    FlatMapPermuted(g, Probe(hi, indexes, x.name, k), FlatMap(Keep(key, k), Scanned(hi)));
    forall j | 0 <= j < |Scanned(hi)|
      ensures Equal(o, i, jp, ov, g)(Scanned(hi)[j]) == if key(Scanned(hi)[j]) == k then g(Scanned(hi)[j]) else []
    {
      IntegerCell(i, Scanned(hi)[j], jp.innerColumn);
    }
    Fused(key, k, Equal(o, i, jp, ov, g), g, Scanned(hi));
  }

  // ----- labels of two tables

  lemma PairLabel(o: TableInfo, i: TableInfo, j: nat)
    requires j < |o.columns| + |i.columns|
    ensures (Labels(o) + Labels(i))[j] == if j < |o.columns| then Label(o.name, o.columns[j].name)
                                          else Label(i.name, i.columns[j - |o.columns|].name)
  {
  }

  lemma OuterEval(o: TableInfo, i: TableInfo, ov: seq<Literal>, iv: seq<Literal>, ref: ColumnRef)
    requires ResolveColumnSide(o, i, ref) == Ok(Outer) && |ov| == |o.columns|
    ensures Eval(Labels(o) + Labels(i), ov + iv, ref) == Cell(o, ov, ref.column)
  {
    var at := ColumnIndex(o, ref.column);
    NoEarlierColumn(o.columns, ref.column);
    PositionIs(Labels(o) + Labels(i), ref, at);
  }

  lemma InnerEval(o: TableInfo, i: TableInfo, ov: seq<Literal>, iv: seq<Literal>, ref: ColumnRef)
    requires ResolveColumnSide(o, i, ref) == Ok(Inner) && o.name != i.name && |ov| == |o.columns| && |iv| == |i.columns|
    ensures Eval(Labels(o) + Labels(i), ov + iv, ref) == Cell(i, iv, ref.column)
  {
    InnerPosition(o, i, ref);
  }

  lemma InnerPosition(o: TableInfo, i: TableInfo, ref: ColumnRef)
    requires ResolveColumnSide(o, i, ref) == Ok(Inner) && o.name != i.name
    ensures Position(Labels(o) + Labels(i), ref) == Some(|o.columns| + ColumnIndex(i, ref.column))
  {
    var labels, n, at := Labels(o) + Labels(i), |o.columns|, ColumnIndex(i, ref.column);
    NoEarlierColumn(i.columns, ref.column);
    NoEarlierColumn(o.columns, ref.column);
    forall j | 0 <= j < n + at ensures !Names(ref, labels[j]) {
      PairLabel(o, i, j);
    }
    PairLabel(o, i, n + at);
    PositionIs(labels, ref, n + at);
  }

  /** A reference names the label at `j` and no other. */
  ghost predicate OnlyAt(labels: seq<Label>, ref: ColumnRef, j: nat) {
    j < |labels| && Names(ref, labels[j]) && forall k :: 0 <= k < |labels| && Names(ref, labels[k]) ==> k == j
  }

  lemma OuterOnly(o: TableInfo, i: TableInfo, ref: ColumnRef)
    requires o.name != i.name && DistinctColumns(o.columns) && ResolveColumnSide(o, i, ref) == Ok(Outer)
    ensures OnlyAt(Labels(o) + Labels(i), ref, ColumnIndex(o, ref.column))
  {
    var labels, at := Labels(o) + Labels(i), ColumnIndex(o, ref.column);
    NoEarlierColumn(i.columns, ref.column);
    PairLabel(o, i, at);
    forall k | 0 <= k < |labels| && Names(ref, labels[k]) ensures k == at {
      PairLabel(o, i, k);
    }
  }

  lemma InnerOnly(o: TableInfo, i: TableInfo, ref: ColumnRef)
    requires o.name != i.name && DistinctColumns(i.columns) && ResolveColumnSide(o, i, ref) == Ok(Inner)
    ensures OnlyAt(Labels(o) + Labels(i), ref, |o.columns| + ColumnIndex(i, ref.column))
  {
    var labels, at := Labels(o) + Labels(i), |o.columns| + ColumnIndex(i, ref.column);
    NoEarlierColumn(o.columns, ref.column);
    PairLabel(o, i, at);
    forall k | 0 <= k < |labels| && Names(ref, labels[k]) ensures k == at {
      PairLabel(o, i, k);
    }
  }

  lemma NamedResolves(o: TableInfo, i: TableInfo, ref: ColumnRef, j: nat)
    requires o.name != i.name && OnlyAt(Labels(o) + Labels(i), ref, j)
    ensures ResolveColumnSide(o, i, ref).Ok?
  {
    PairLabel(o, i, j);
    if j < |o.columns| {
      ColumnAtFinds(o.columns, j);
      if HasColumn(i, ref.column) { PairLabel(o, i, |o.columns| + ColumnIndex(i, ref.column)); }
    } else {
      ColumnAtFinds(i.columns, j - |o.columns|);
      if HasColumn(o, ref.column) { PairLabel(o, i, ColumnIndex(o, ref.column)); }
    }
  }

  /** Column resolution succeeds exactly on the references that name one label of the two tables together. */
  lemma ResolvesIff(o: TableInfo, i: TableInfo, ref: ColumnRef)
    requires o.name != i.name && DistinctColumns(o.columns) && DistinctColumns(i.columns)
    ensures ResolveColumnSide(o, i, ref).Ok? <==> exists j: nat :: OnlyAt(Labels(o) + Labels(i), ref, j)
  {
    if ResolveColumnSide(o, i, ref) == Ok(Outer) {
      OuterOnly(o, i, ref);
    } else if ResolveColumnSide(o, i, ref) == Ok(Inner) {
      InnerOnly(o, i, ref);
    }
    if j: nat :| OnlyAt(Labels(o) + Labels(i), ref, j) {
      NamedResolves(o, i, ref, j);
    }
  }

  // ----- one pair of rows

  lemma SideEval(o: TableInfo, i: TableInfo, ov: seq<Literal>, iv: seq<Literal>, ref: ColumnRef)
    requires ResolveColumnSide(o, i, ref).Ok? && o.name != i.name && |ov| == |o.columns| && |iv| == |i.columns|
    ensures Eval(Labels(o) + Labels(i), ov + iv, ref)
         == if ResolveColumnSide(o, i, ref) == Ok(Outer) then Cell(o, ov, ref.column) else Cell(i, iv, ref.column)
  {
    if ResolveColumnSide(o, i, ref) == Ok(Outer) {
      OuterEval(o, i, ov, iv, ref);
    } else {
      InnerEval(o, i, ov, iv, ref);
    }
  }

  lemma {:induction false} SplitSatisfies(o: TableInfo, i: TableInfo, ov: seq<Literal>, iv: seq<Literal>,
                                          ps: seq<Predicate>)
    requires JoinPredicatesOk(o, i, ps) && o.name != i.name && |ov| == |o.columns| && |iv| == |i.columns|
    ensures Satisfies(Labels(o) + Labels(i), ov + iv, ps)
       <==> (MatchesAll(o, ov, OnSide(JoinCheck(o, i), ps, Outer))
             && MatchesAll(i, iv, OnSide(JoinCheck(o, i), ps, Inner)))
  {
    if ps != [] {
      var n := |ps| - 1;
      SplitSatisfies(o, i, ov, iv, ps[..n]);
      assert JoinCheck(o, i)(ps[n]).Ok?;
      SatisfiesLast(Labels(o) + Labels(i), ov + iv, ps);
      SplitLast(o, i, ov, iv, ps[n], OnSide(JoinCheck(o, i), ps[..n], Outer), OnSide(JoinCheck(o, i), ps[..n], Inner));
    }
  }

  /** One predicate more, on the side it belongs to. */
  lemma SplitLast(o: TableInfo, i: TableInfo, ov: seq<Literal>, iv: seq<Literal>, p: Predicate,
                  a: seq<Predicate>, b: seq<Predicate>)
    requires ResolveColumnSide(o, i, p.column).Ok? && o.name != i.name && |ov| == |o.columns| && |iv| == |i.columns|
    ensures var side := ResolveColumnSide(o, i, p.column);
            (MatchesAll(o, ov, a + if side == Ok(Outer) then [p] else [])
             && MatchesAll(i, iv, b + if side == Ok(Inner) then [p] else []))
            <==> (MatchesAll(o, ov, a) && MatchesAll(i, iv, b)
                  && ValuesCompare(p.op, Eval(Labels(o) + Labels(i), ov + iv, p.column), p.value))
  {
    SideEval(o, i, ov, iv, p.column);
    ComparisonMeans(p.op, Eval(Labels(o) + Labels(i), ov + iv, p.column), p.value);
    MatchesSnoc(o, ov, a, p);
    MatchesSnoc(i, iv, b, p);
  }

  lemma SatisfiesLast(labels: seq<Label>, v: seq<Literal>, ps: seq<Predicate>)
    requires ps != []
    ensures var n := |ps| - 1;
            Satisfies(labels, v, ps) <==>
                Satisfies(labels, v, ps[..n]) &&
                    ValuesCompare(ps[n].op, Eval(labels, v, ps[n].column), ps[n].value)
  {
    var n := |ps| - 1;
    assert forall k :: 0 <= k < n ==> ps[..n][k] == ps[k];
  }

  lemma MatchesSnoc(t: TableInfo, v: seq<Literal>, ps: seq<Predicate>, p: Predicate)
    ensures MatchesAll(t, v, ps + [p]) <==> MatchesAll(t, v, ps) && EvaluatePredicate(t, v, p)
    ensures MatchesAll(t, v, ps + []) <==> MatchesAll(t, v, ps)
  {
    assert ps + [] == ps;
    assert forall k :: 0 <= k < |ps| ==> (ps + [p])[k] == ps[k];
    assert (ps + [p])[|ps|] == p;
  }

  lemma OnIsEqual(o: TableInfo, i: TableInfo, j: JoinClause, ov: seq<Literal>, iv: seq<Literal>)
    requires OnOk(o, i, j) && o.name != i.name && WellTyped(o.columns, ov) && WellTyped(i.columns, iv)
    ensures Eval(Labels(o) + Labels(i), ov + iv, j.left) == Eval(Labels(o) + Labels(i), ov + iv, j.right)
       <==> LiteralsEqual(Cell(o, ov, OnColumn(o, i, j, Outer)), Cell(i, iv, OnColumn(o, i, j, Inner)))
  {
    SideEval(o, i, ov, iv, j.left);
    SideEval(o, i, ov, iv, j.right);
    var a, b := Cell(o, ov, OnColumn(o, i, j, Outer)), Cell(i, iv, OnColumn(o, i, j, Inner));
    ComparisonIsTotalOrder(a, b, b);
  }

  lemma ProjectionIsPair(o: TableInfo, i: TableInfo, ov: seq<Literal>, iv: seq<Literal>, star: bool,
                         list: seq<ColumnRef>, resolved: seq<ColumnRef>)
    requires o.name != i.name && |ov| == |o.columns| && |iv| == |i.columns|
    requires star || (JoinListOk(o, i, list) && QualifiedList(list, resolved, JoinSideName(o, i)))
    ensures Projection(Labels(o) + Labels(i), ov + iv, star, list) == ProjectPair(o, i, star, resolved, ov, iv)
  {
    if !star {
      forall k | 0 <= k < |list|
        ensures Eval(Labels(o) + Labels(i), ov + iv, list[k]) == SideCell(o, i, ov, iv, resolved[k])
      {
        SideEval(o, i, ov, iv, list[k]);
      }
    }
  }

  // ----- the whole join

  /** The parts of an accepted join and its plan. */
  ghost predicate JoinSetting(c: Catalog, s: SelectStatement, o: TableInfo, i: TableInfo, p: SelectPlan) {
    && CatalogOk(c) && Accepted(c, s) && s.join.Some? && PlanFor(c, s, p)
    && o == FindTable(c.tables, s.from).value && i == FindTable(c.tables, s.join.value.table).value
  }

  lemma PairAgrees(c: Catalog, s: SelectStatement, o: TableInfo, i: TableInfo, p: SelectPlan, ov: seq<Literal>,
                   y: Stored)
    requires JoinSetting(c, s, o, i, p) && WellTyped(o.columns, ov) && WellTyped(i.columns, Values(i, y))
    ensures PairFn(o, i, s.join.value, s, ov)(y)
         == if MatchesAll(o, ov, OnSide(JoinCheck(o, i), s.where, Outer))
            then Equal(o, i, p.source.join, ov, Matching(o, i, p, p.source.join, ov))(y) else []
  {
    OnIsEqual(o, i, s.join.value, ov, Values(i, y));
    SplitSatisfies(o, i, ov, Values(i, y), s.where);
    ProjectionIsPair(o, i, ov, Values(i, y), s.star, s.list, p.list);
  }

  ghost predicate RowsDecode(t: TableInfo, h: Pages) {
    forall i :: 0 <= i < |Scanned(h)| ==> Decoded(t.columns, Scanned(h)[i].bytes).Some?
  }

  /** For one outer row: the inner loop, by probe or by scan, against all pairs with that row. */
  lemma OuterRowAgrees(c: Catalog, s: SelectStatement, o: TableInfo, i: TableInfo, p: SelectPlan, hi: Pages,
                       indexes: Indexes, ov: seq<Literal>)
    requires JoinSetting(c, s, o, i, p) && WellTyped(o.columns, ov) && RowsDecode(i, hi)
    requires IndexesAgree(c, i, hi, indexes)
    ensures multiset(if MatchesAll(o, ov, OnSide(JoinCheck(o, i), s.where, Outer)) then
            InnerLoop(o, i, p, p.source.join, hi, indexes, ov) else [])
         == multiset(FlatMap(PairFn(o, i, s.join.value, s, ov), Scanned(hi)))
  {
    var jp, f := p.source.join, PairFn(o, i, s.join.value, s, ov);
    var g := Equal(o, i, jp, ov, Matching(o, i, p, jp, ov));
    forall k | 0 <= k < |Scanned(hi)|
      ensures f(Scanned(hi)[k]) == if MatchesAll(o, ov, OnSide(JoinCheck(o, i), s.where, Outer)) then
              g(Scanned(hi)[k]) else []
    {
      PairAgrees(c, s, o, i, p, ov, Scanned(hi)[k]);
    }
    if MatchesAll(o, ov, OnSide(JoinCheck(o, i), s.where, Outer)) {
      FlatMapEqual(f, g, Scanned(hi));
      InnerLoopIsCheck(c, s, o, i, p, hi, indexes, ov);
    } else {
      FlatMapEmpty(f, Scanned(hi));
    }
  }

  lemma {:induction false} FlatMapEmpty<A, B>(f: A -> seq<B>, s: seq<A>)
    requires forall k :: 0 <= k < |s| ==> f(s[k]) == []
    ensures FlatMap(f, s) == []
  {
    if s != [] {
      FlatMapEmpty(f, s[1..]);
    }
  }

  lemma InnerLoopIsCheck(c: Catalog, s: SelectStatement, o: TableInfo, i: TableInfo, p: SelectPlan, hi: Pages,
                         indexes: Indexes, ov: seq<Literal>)
    requires JoinSetting(c, s, o, i, p) && WellTyped(o.columns, ov) && IndexesAgree(c, i, hi, indexes)
    ensures var jp := p.source.join;
            multiset(InnerLoop(o, i, p, jp, hi, indexes, ov)) ==
                multiset(FlatMap(Equal(o, i, jp, ov, Matching(o, i, p, jp, ov)), Scanned(hi)))
  {
    var jp := p.source.join;
    var x := FindIndexOnColumn(c, i.name, jp.innerColumn);
    if x.Some? {
      IndexColumn(c, i, x.value);
      InnerProbe(c, o, i, p, jp, hi, indexes, x.value, ov);
    }
  }

  /** A planned join returns, up to order, the matching part of the cross product. */
  lemma JoinSelectIsRight(c: Catalog, s: SelectStatement, o: TableInfo, i: TableInfo, p: SelectPlan, ho: Pages,
                          hi: Pages, indexes: Indexes)
    requires JoinSetting(c, s, o, i, p) && RowsDecode(o, ho) && RowsDecode(i, hi)
    requires IndexesAgree(c, o, ho, indexes) && IndexesAgree(c, i, hi, indexes)
    ensures multiset(SelectJoin(o, i, p, p.source.join, ho, hi, indexes)) ==
            multiset(JoinMeaning(o, i, s.join.value, s, Scanned(ho), Scanned(hi)))
  {
    var jp, ps := p.source.join, OnSide(JoinCheck(o, i), s.where, Outer);
    var g := InnerFn(o, i, p, jp, hi, indexes);
    OnSideOk(o, i, s.where, Outer);
    AccessFindsAll(c, o, ho, indexes, ps, jp.outer, g);
    forall k | 0 <= k < |Scanned(ho)|
      ensures multiset(Where(o, ps, g)(Scanned(ho)[k])) ==
              multiset(CrossFn(o, i, s.join.value, s, Scanned(hi))(Scanned(ho)[k]))
    {
      OuterRowAgrees(c, s, o, i, p, hi, indexes, Values(o, Scanned(ho)[k]));
    }
    FlatMapAgree(Where(o, ps, g), CrossFn(o, i, s.join.value, s, Scanned(hi)), Scanned(ho));
  }
}
