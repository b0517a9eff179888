/**
 Planned execution finds what the statement means: the rows an access plan fetches and filters,
 and the pairs a join plan produces, against the plain scan and the plain cross product.
 */
module Selection {
  import opened Bags
  import opened Sql
  import opened Planner
  import opened Relational
  import opened Entries
  import opened Heap
  import opened Agreement

  type Indexes = map<Text, seq<Entry>>

  function KeyOf(t: TableInfo, column: Text): Key {
    (x: Stored) => IntValue(Cell(t, Values(t, x), column))
  }

  function Contents(indexes: Indexes, name: Text): seq<Entry> {
    if name in indexes then indexes[name] else []
  }

  /** Every index on the table agrees with its rows. */
  ghost predicate IndexesAgree(c: Catalog, t: TableInfo, h: Pages, indexes: Indexes) {
    forall x :: x in c.indexes && x.table == t.name ==>
      x.name in indexes && Agrees(KeyOf(t, x.column), indexes[x.name], Scanned(h))
  }

  function Probe(h: Pages, indexes: Indexes, name: Text, k: int): seq<Stored> {
    FlatMap(Fetch(h), RidsUnder(Contents(indexes, name), k))
  }

  /** The rows an access plan looks at. */
  function Candidates(a: Access, h: Pages, indexes: Indexes): seq<Stored> {
    match a.scan
    case SeqScan => Scanned(h)
    case IndexScan(name, k) => Probe(h, indexes, name, k)
  }

  /** `g` on the rows that match all of `ps`. */
  function Where<B>(t: TableInfo, ps: seq<Predicate>, g: Stored -> seq<B>): Stored -> seq<B> {
    (x: Stored) => if MatchesAll(t, Values(t, x), ps) then g(x) else []
  }

  lemma {:induction false} Fused<B>(key: Key, k: int, f: Stored -> seq<B>, g: Stored -> seq<B>, s: seq<Stored>)
    requires forall i :: 0 <= i < |s| ==> f(s[i]) == if key(s[i]) == k then g(s[i]) else []
    ensures FlatMap(g, FlatMap(Keep(key, k), s)) == FlatMap(f, s)
  {
    if s != [] {
      Fused(key, k, f, g, s[1..]);
      var rest := FlatMap(Keep(key, k), s[1..]);
      if key(s[0]) == k {
        assert ([s[0]] + rest)[0] == s[0] && ([s[0]] + rest)[1..] == rest;
      } else {
        ConcatNil(rest);
        ConcatNil(FlatMap(f, s[1..]));
      }
    }
  }

  /** In an INTEGER column every value is an integer. */
  lemma IntegerCell(t: TableInfo, x: Stored, column: Text)
    requires HasColumn(t, column) && t.columns[ColumnIndex(t, column)].typ.IntegerType?
    ensures Cell(t, Values(t, x), column).IntLit?
  {
  }

  lemma MatchesAllWithout(t: TableInfo, v: seq<Literal>, ps: seq<Predicate>, i: nat)
    requires i < |ps|
    ensures MatchesAll(t, v, ps) <==> EvaluatePredicate(t, v, ps[i]) && MatchesAll(t, v, ps[..i] + ps[i + 1..])
  {
    var rest := ps[..i] + ps[i + 1..];
    if MatchesAll(t, v, ps) {
      forall k | 0 <= k < |rest| ensures EvaluatePredicate(t, v, rest[k]) {
        assert rest[k] == ps[if k < i then k else k + 1];
      }
    }
    if EvaluatePredicate(t, v, ps[i]) && MatchesAll(t, v, rest) {
      forall k | 0 <= k < |ps| ensures EvaluatePredicate(t, v, ps[k]) {
        assert k < i ==> ps[k] == rest[k];
        assert k > i ==> ps[k] == rest[k - 1];
      }
    }
  }

  /** An equality predicate on an INTEGER column holds of a row exactly when its key is the one probed for. */
  lemma DrivingIsProbing(t: TableInfo, p: Predicate, x: Stored)
    requires PredicateOk(t, p) && p.op.Eq? && t.columns[ColumnIndex(t, p.column.column)].typ.IntegerType?
    ensures EvaluatePredicate(t, Values(t, x), p) <==> KeyOf(t, p.column.column)(x) == IntValue(p.value)
  {
    IntegerCell(t, x, p.column.column);
  }

  /**
   Whatever is done with the matching rows, doing it to the rows an access plan fetches and
   filters gives the same, up to order, as doing it to the rows of a full scan that match.
   */
  lemma AccessFindsAll<B>(c: Catalog, t: TableInfo, h: Pages, indexes: Indexes, ps: seq<Predicate>, a: Access,
                          g: Stored -> seq<B>)
    requires CatalogOk(c) && t in c.tables && IndexesAgree(c, t, h, indexes)
    requires PredicatesOk(t, ps) && AccessFor(c, t.name, ps, a)
    ensures multiset(FlatMap(Where(t, a.residual, g), Candidates(a, h, indexes))) ==
            multiset(FlatMap(Where(t, ps, g), Scanned(h)))
  {
    if a.scan.IndexScan? {
      var i: nat :| DrivenBy(c, ps, a, i);
      DrivenFindsAll(c, t, h, indexes, ps, a, g, i);
    }
  }

  lemma DrivenFindsAll<B>(c: Catalog, t: TableInfo, h: Pages, indexes: Indexes, ps: seq<Predicate>, a: Access,
                          g: Stored -> seq<B>, i: nat)
    requires CatalogOk(c) && t in c.tables && IndexesAgree(c, t, h, indexes)
    requires PredicatesOk(t, ps) && a.table == t.name && DrivenBy(c, ps, a, i)
    ensures multiset(FlatMap(Where(t, a.residual, g), Candidates(a, h, indexes))) ==
            multiset(FlatMap(Where(t, ps, g), Scanned(h)))
  {
    var column, k := ps[i].column.column, IntValue(ps[i].value);
    var x := FindIndexOnColumn(c, t.name, column).value;
    IndexColumn(c, t, x);
    var key := KeyOf(t, column);
    ProbeFinds(key, indexes[x.name], h, k);
    FlatMapPermuted(Where(t, a.residual, g), Candidates(a, h, indexes), FlatMap(Keep(key, k), Scanned(h)));
    forall j | 0 <= j < |Scanned(h)|
      ensures Where(t, ps, g)(Scanned(h)[j]) == if key(Scanned(h)[j]) == k then
              Where(t, a.residual, g)(Scanned(h)[j]) else []
    {
      assert PredicateOk(t, ps[i]);
      DrivingIsProbing(t, ps[i], Scanned(h)[j]);
      MatchesAllWithout(t, Values(t, Scanned(h)[j]), ps, i);
    }
    Fused(key, k, Where(t, ps, g), Where(t, a.residual, g), Scanned(h));
  }

  // ----- one table

  function ProjectRow(t: TableInfo, star: bool, list: seq<ColumnRef>, v: seq<Literal>): seq<Literal> {
    if star then v else Map((ref: ColumnRef) => Cell(t, v, ref.column), list)
  }

  function ProjectFn(t: TableInfo, star: bool, list: seq<ColumnRef>): Stored -> seq<seq<Literal>> {
    (x: Stored) => [ProjectRow(t, star, list, Values(t, x))]
  }

  /** What the executor returns for a single-table plan. */
  function SelectSingle(t: TableInfo, p: SelectPlan, a: Access, h: Pages, indexes: Indexes): seq<seq<Literal>> {
    FlatMap(Where(t, a.residual, ProjectFn(t, p.star, p.list)), Candidates(a, h, indexes))
  }

  lemma EvalIsCell(t: TableInfo, v: seq<Literal>, ref: ColumnRef)
    requires Qualifies(t, ref) && HasColumn(t, ref.column)
    ensures Eval(Labels(t), v, ref) == Cell(t, v, ref.column)
  {
    TablePosition(t, ref);
  }

  lemma SatisfiesIsMatches(t: TableInfo, v: seq<Literal>, ps: seq<Predicate>)
    requires PredicatesOk(t, ps)
    ensures Satisfies(Labels(t), v, ps) <==> MatchesAll(t, v, ps)
  {
    forall i | 0 <= i < |ps|
      ensures ValuesCompare(ps[i].op, Eval(Labels(t), v, ps[i].column), ps[i].value) <==> EvaluatePredicate(t, v, ps[i])
    {
      assert PredicateOk(t, ps[i]);
      EvalIsCell(t, v, ps[i].column);
      ComparisonMeans(ps[i].op, Cell(t, v, ps[i].column.column), ps[i].value);
    }
  }

  lemma ProjectionIsProjectRow(t: TableInfo, v: seq<Literal>, star: bool, list: seq<ColumnRef>,
                               resolved: seq<ColumnRef>)
    requires star || (ListOk(t, list) && QualifiedList(list, resolved, _ => t.name))
    ensures Projection(Labels(t), v, star, list) == ProjectRow(t, star, resolved, v)
  {
    if !star {
      forall k | 0 <= k < |list| ensures Eval(Labels(t), v, list[k]) == Cell(t, v, resolved[k].column) {
        EvalIsCell(t, v, list[k]);
      }
    }
  }

  /** A planned single-table SELECT returns, up to order, what the statement means. */
  lemma SingleSelectIsRight(c: Catalog, s: SelectStatement, p: SelectPlan, h: Pages, indexes: Indexes)
    requires CatalogOk(c) && Accepted(c, s) && s.join.None? && PlanFor(c, s, p)
    requires IndexesAgree(c, FindTable(c.tables, s.from).value, h, indexes)
    ensures var t := FindTable(c.tables, s.from).value;
            multiset(SelectSingle(t, p, p.source.access, h, indexes)) == multiset(SingleMeaning(t, s, Scanned(h)))
  {
    var t := FindTable(c.tables, s.from).value;
    var g := ProjectFn(t, p.star, p.list);
    AccessFindsAll(c, t, h, indexes, s.where, p.source.access, g);
    forall i | 0 <= i < |Scanned(h)| ensures Where(t, s.where, g)(Scanned(h)[i]) == RowFn(t, s)(Scanned(h)[i]) {
      SatisfiesIsMatches(t, Values(t, Scanned(h)[i]), s.where);
      ProjectionIsProjectRow(t, Values(t, Scanned(h)[i]), s.star, s.list, p.list);
    }
    FlatMapEqual(Where(t, s.where, g), RowFn(t, s), Scanned(h));
  }
}
