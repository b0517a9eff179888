/**
 What the parser accepts: every production takes off the front exactly the tokens that the printer writes for what
 it returns, and the parser as a whole returns a statement exactly for the texts that say it.
 */
module Productions {
  import opened Wrappers
  import opened Sql
  import opened Lexicon
  import opened Grammar
  import opened Printer

  // ----- what a statement looks like

  /** These columns, in this order, at most one of them marked as the primary key. */
  ghost predicate Declares(cs: seq<(ColumnDef, bool)>, columns: seq<ColumnDef>, key: Option<Text>) {
    && cs != [] && |columns| == |cs| && (forall i :: 0 <= i < |cs| ==> columns[i] == cs[i].0)
    && match key
       case None => forall i :: 0 <= i < |cs| ==> !cs[i].1
       case Some(name) => exists i :: OnlyKey(cs, i) && cs[i].0.name == name
  }

  ghost predicate OnlyKey(cs: seq<(ColumnDef, bool)>, i: int) {
    0 <= i < |cs| && cs[i].1 && forall j :: 0 <= j < |cs| && cs[j].1 ==> j == i
  }

  function WTable(table: Text, cs: seq<(ColumnDef, bool)>, k: Tokens): Tokens {
    Cons(Kw(KwTable), Cons(Ident(table), Cons(Sym(LParen), WList(WColumnDef, Sym(Comma), cs, Cons(Sym(RParen), k)))))
  }

  /** The tokens are the statement as the printer writes it, in front of `k`. */
  ghost predicate SaysThen(s: Statement, ts: Tokens, k: Tokens) {
    match s
    case CreateTable(table, columns, key) =>
      exists cs :: Declares(cs, columns, key) && ts == Cons(Kw(KwCreate), WTable(table, cs, k))
    case Insert(_, values) => values != [] && ts == WStatement(s, k)
    case Select(select) => (select.star <==> select.list == []) && ts == WStatement(s, k)
    case Update(_, asgs, _) => asgs != [] && ts == WStatement(s, k)
    case _ => ts == WStatement(s, k)
  }

  /** The tokens are the statement and nothing more, but for a semicolon. */
  ghost predicate Says(s: Statement, ts: Tokens) {
    SaysThen(s, ts, []) || SaysThen(s, ts, [Sym(Semicolon)])
  }

  // ----- items

  lemma Head(ts: Tokens, t: Token)
    requires Starts(ts, t)
    ensures ts == Cons(t, ts[1..])
  {
  }

  lemma IdentExact(ts: Tokens)
    requires PIdent(ts).Parsed?
    ensures ts == Cons(Ident(PIdent(ts).value), PIdent(ts).rest)
  {
    Head(ts, ts[0]);
  }

  lemma LiteralExact(ts: Tokens)
    requires PLiteral(ts).Parsed?
    ensures ts == WLiteral(PLiteral(ts).value, PLiteral(ts).rest)
  {
    Head(ts, ts[0]);
  }

  lemma TypeExact(ts: Tokens)
    requires PType(ts).Parsed?
    ensures ts == Cons(Kw(TypeKeyword(PType(ts).value)), PType(ts).rest)
  {
    Head(ts, ts[0]);
  }

  lemma ComparatorExact(ts: Tokens)
    requires PComparator(ts).Parsed?
    ensures ts == Cons(Sym(ComparatorSymbol(PComparator(ts).value)), PComparator(ts).rest)
  {
    Head(ts, ts[0]);
  }

  lemma ColumnRefExact(ts: Tokens)
    requires PColumnRef(ts).Parsed?
    ensures ts == WRef(PColumnRef(ts).value, PColumnRef(ts).rest)
  {
    IdentExact(ts);
    var r := PIdent(ts).rest;
    if Starts(r, Sym(Dot)) {
      Head(r, Sym(Dot));
      IdentExact(r[1..]);
    }
  }

  lemma PredicateExact(ts: Tokens)
    requires PPredicate(ts).Parsed?
    ensures ts == WPredicate(PPredicate(ts).value, PPredicate(ts).rest)
  {
    ColumnRefExact(ts);
    var r := PColumnRef(ts).rest;
    ComparatorExact(r);
    LiteralExact(PComparator(r).rest);
  }

  lemma AssignmentExact(ts: Tokens)
    requires PAssignment(ts).Parsed?
    ensures ts == WAssignment(PAssignment(ts).value, PAssignment(ts).rest)
  {
    IdentExact(ts);
    var r := PIdent(ts).rest;
    Head(r, Sym(EqSign));
    LiteralExact(r[1..]);
  }

  lemma ColumnDefExact(ts: Tokens)
    requires PColumnDef(ts).Parsed?
    ensures ts == WColumnDef(PColumnDef(ts).value, PColumnDef(ts).rest)
  {
    IdentExact(ts);
    var r := PIdent(ts).rest;
    TypeExact(r);
    var r2 := PType(r).rest;
    if Starts(r2, Kw(KwPrimary)) {
      Head(r2, Kw(KwPrimary));
      Head(r2[1..], Kw(KwKey));
    }
  }

  ghost predicate Exact<X(!new)>(p: Item<X>, w: (X, Tokens) -> Tokens) {
    forall ts :: p(ts).Parsed? ==> ts == w(p(ts).value, p(ts).rest)
  }

  /** A list of exact items is exact, and it is not empty. */
  lemma {:induction false} ListExact<X(!new)>(p: Item<X>, w: (X, Tokens) -> Tokens, sep: Token, ts: Tokens)
    requires Takes(p) && Exact(p, w) && PList(p, sep, ts).Parsed?
    ensures PList(p, sep, ts).value != [] && ts == WList(w, sep, PList(p, sep, ts).value, PList(p, sep, ts).rest)
    decreases |ts|
  {
    var x, r := p(ts).value, p(ts).rest;
    if Starts(r, sep) {
      ListExact(p, w, sep, r[1..]);
      Head(r, sep);
      var more := PList(p, sep, r[1..]).value;
      assert ([x] + more)[1..] == more;
    }
  }

  lemma LiteralsExact(ts: Tokens)
    requires Takes(PLiteral) && PList(PLiteral, Sym(Comma), ts).Parsed?
    ensures var l := PList(PLiteral, Sym(Comma), ts);
            l.value != [] && ts == WList(WLiteral, Sym(Comma), l.value, l.rest)
  {
    forall m | PLiteral(m).Parsed? ensures m == WLiteral(PLiteral(m).value, PLiteral(m).rest) { LiteralExact(m); }
    ListExact(PLiteral, WLiteral, Sym(Comma), ts);
  }

  lemma AssignmentsExact(ts: Tokens)
    requires Takes(PAssignment) && PList(PAssignment, Sym(Comma), ts).Parsed?
    ensures var l := PList(PAssignment, Sym(Comma), ts);
            l.value != [] && ts == WList(WAssignment, Sym(Comma), l.value, l.rest)
  {
    forall m | PAssignment(m).Parsed? ensures m == WAssignment(PAssignment(m).value, PAssignment(m).rest) {
      AssignmentExact(m);
    }
    ListExact(PAssignment, WAssignment, Sym(Comma), ts);
  }

  lemma ColumnDefsExact(ts: Tokens)
    requires Takes(PColumnDef) && PList(PColumnDef, Sym(Comma), ts).Parsed?
    ensures var l := PList(PColumnDef, Sym(Comma), ts);
            l.value != [] && ts == WList(WColumnDef, Sym(Comma), l.value, l.rest)
  {
    forall m | PColumnDef(m).Parsed? ensures m == WColumnDef(PColumnDef(m).value, PColumnDef(m).rest) {
      ColumnDefExact(m);
    }
    ListExact(PColumnDef, WColumnDef, Sym(Comma), ts);
  }

  lemma ColumnRefsExact(ts: Tokens)
    requires Takes(PColumnRef) && PList(PColumnRef, Sym(Comma), ts).Parsed?
    ensures var l := PList(PColumnRef, Sym(Comma), ts);
            l.value != [] && ts == WList(WRef, Sym(Comma), l.value, l.rest)
  {
    forall m | PColumnRef(m).Parsed? ensures m == WRef(PColumnRef(m).value, PColumnRef(m).rest) { ColumnRefExact(m); }
    ListExact(PColumnRef, WRef, Sym(Comma), ts);
  }

  // ----- clauses

  lemma WhereExact(ts: Tokens)
    requires PWhere(ts).Parsed?
    ensures ts == WWhere(PWhere(ts).value, PWhere(ts).rest)
  {
    PredicateTakes();
    if Starts(ts, Kw(KwWhere)) {
      Head(ts, Kw(KwWhere));
      forall m | PPredicate(m).Parsed? ensures m == WPredicate(PPredicate(m).value, PPredicate(m).rest) {
        PredicateExact(m);
      }
      ListExact(PPredicate, WPredicate, Kw(KwAnd), ts[1..]);
    }
  }

  lemma JoinExact(ts: Tokens)
    requires PJoin(ts).Parsed?
    ensures ts == WJoin(PJoin(ts).value, PJoin(ts).rest)
  {
    if Starts(ts, Kw(KwJoin)) {
      Head(ts, Kw(KwJoin));
      IdentExact(ts[1..]);
      var r := PIdent(ts[1..]).rest;
      Head(r, Kw(KwOn));
      ColumnRefExact(r[1..]);
      var r2 := PColumnRef(r[1..]).rest;
      Head(r2, Sym(EqSign));
      ColumnRefExact(r2[1..]);
    }
  }

  lemma SelectListExact(ts: Tokens, s: SelectStatement, r: Tokens)
    requires PSelectList(ts) == Parsed((s.star, s.list), r)
    ensures (s.star <==> s.list == []) && ts == WSelectList(s, r)
  {
    ColumnRefTakes();
    if Starts(ts, Sym(Star)) {
      Head(ts, Sym(Star));
    } else {
      ColumnRefsExact(ts);
    }
  }

  // ----- statements, behind their first word

  lemma SelectExact(ts: Tokens)
    requires PSelect(ts).Parsed?
    ensures PSelect(ts).value.Select?
    ensures var s := PSelect(ts).value.select;
            (s.star <==> s.list == []) && ts == WSelect(s, PSelect(ts).rest)
  {
    var s := PSelect(ts).value.select;
    var r := PSelectList(ts).rest;
    SelectListExact(ts, s, r);
    Head(r, Kw(KwFrom));
    IdentExact(r[1..]);
    var r2 := PIdent(r[1..]).rest;
    JoinExact(r2);
    WhereExact(PJoin(r2).rest);
  }

  lemma InsertExact(ts: Tokens)
    requires PInsert(ts).Parsed?
    ensures PInsert(ts).value.Insert? && PInsert(ts).value.values != []
    ensures ts == WInsert(PInsert(ts).value.table, PInsert(ts).value.values, PInsert(ts).rest)
  {
    LiteralTakes();
    Head(ts, Kw(KwInto));
    IdentExact(ts[1..]);
    var r := PIdent(ts[1..]).rest;
    Head(r, Kw(KwValues));
    Head(r[1..], Sym(LParen));
    LiteralsExact(r[1..][1..]);
    Head(PList(PLiteral, Sym(Comma), r[1..][1..]).rest, Sym(RParen));
  }

  lemma UpdateExact(ts: Tokens)
    requires PUpdate(ts).Parsed?
    ensures PUpdate(ts).value.Update? && PUpdate(ts).value.assignments != []
    ensures var s := PUpdate(ts).value; ts == WUpdate(s.table, s.assignments, s.where, PUpdate(ts).rest)
  {
    AssignmentTakes();
    IdentExact(ts);
    var r := PIdent(ts).rest;
    Head(r, Kw(KwSet));
    AssignmentsExact(r[1..]);
    WhereExact(PList(PAssignment, Sym(Comma), r[1..]).rest);
  }

  lemma DeleteExact(ts: Tokens)
    requires PDelete(ts).Parsed?
    ensures PDelete(ts).value.Delete?
    ensures ts == WDelete(PDelete(ts).value.table, PDelete(ts).value.where, PDelete(ts).rest)
  {
    Head(ts, Kw(KwFrom));
    IdentExact(ts[1..]);
    WhereExact(PIdent(ts[1..]).rest);
  }

  lemma CreateIndexExact(ts: Tokens)
    requires PCreateIndex(ts).Parsed?
    ensures PCreateIndex(ts).value.CreateIndex?
    ensures var s := PCreateIndex(ts).value;
            Cons(Kw(KwIndex), ts) == WCreateIndex(s.name, s.table, s.column, PCreateIndex(ts).rest)
  {
    IdentExact(ts);
    var r := PIdent(ts).rest;
    Head(r, Kw(KwOn));
    IdentExact(r[1..]);
    var r2 := PIdent(r[1..]).rest;
    Head(r2, Sym(LParen));
    IdentExact(r2[1..]);
    Head(PIdent(r2[1..]).rest, Sym(RParen));
  }

  lemma {:induction false} DefsAt(cs: seq<(ColumnDef, bool)>)
    ensures |Defs(cs)| == |cs| && forall i :: 0 <= i < |cs| ==> Defs(cs)[i] == cs[i].0
  {
    if cs != [] {
      DefsAt(cs[1..]);
    }
  }

  lemma {:induction false} NoKeys(cs: seq<(ColumnDef, bool)>)
    ensures KeyNames(cs) == [] <==> forall i :: 0 <= i < |cs| ==> !cs[i].1
  {
    if cs != [] {
      NoKeys(cs[1..]);
      assert forall i :: 0 < i < |cs| ==> cs[i] == cs[1..][i - 1];
    }
  }

  /** There is one key name exactly when one column is marked. */
  lemma {:induction false} OneKey(cs: seq<(ColumnDef, bool)>, name: Text)
    ensures KeyNames(cs) == [name] <==> exists i :: OnlyKey(cs, i) && cs[i].0.name == name
  {
    if cs != [] {
      OneKey(cs[1..], name);
      NoKeys(cs[1..]);
      if cs[0].1 {
        OneKeyFirst(cs, name);
      } else {
        OneKeyLater(cs, name);
      }
    }
  }

  lemma OneKeyFirst(cs: seq<(ColumnDef, bool)>, name: Text)
    requires cs != [] && cs[0].1
    requires KeyNames(cs[1..]) == [] <==> forall i :: 0 <= i < |cs[1..]| ==> !cs[1..][i].1
    ensures KeyNames(cs) == [name] <==> exists i :: OnlyKey(cs, i) && cs[i].0.name == name
  {
    assert forall i :: 0 < i < |cs| ==> cs[i] == cs[1..][i - 1];
    assert |KeyNames(cs)| == 1 + |KeyNames(cs[1..])| && KeyNames(cs)[0] == cs[0].0.name;
    if KeyNames(cs) == [name] {
      assert OnlyKey(cs, 0);
    }
  }

  lemma OneKeyLater(cs: seq<(ColumnDef, bool)>, name: Text)
    requires cs != [] && !cs[0].1
    requires KeyNames(cs[1..]) == [name] <==> exists i :: OnlyKey(cs[1..], i) && cs[1..][i].0.name == name
    ensures KeyNames(cs) == [name] <==> exists i :: OnlyKey(cs, i) && cs[i].0.name == name
  {
    assert forall i :: 0 < i < |cs| ==> cs[i] == cs[1..][i - 1];
    assert KeyNames(cs) == [] + KeyNames(cs[1..]) == KeyNames(cs[1..]);
    if i :| OnlyKey(cs[1..], i) && cs[1..][i].0.name == name {
      assert cs[i + 1] == cs[1..][i] && OnlyKey(cs, i + 1);
    }
    if i :| OnlyKey(cs, i) && cs[i].0.name == name {
      assert cs[1..][i - 1] == cs[i] && OnlyKey(cs[1..], i - 1);
    }
  }

  /** What the parser makes of a list of columns with marks. */
  lemma DeclaresIff(cs: seq<(ColumnDef, bool)>, columns: seq<ColumnDef>, key: Option<Text>)
    ensures Declares(cs, columns, key) <==>
            && cs != [] && columns == Defs(cs) && |KeyNames(cs)| <= 1
            && key == if KeyNames(cs) == [] then None else Some(KeyNames(cs)[0])
  {
    DefsAt(cs);
    NoKeys(cs);
    if key.Some? { OneKey(cs, key.value); }
  }

  lemma CreateTableExact(ts: Tokens) returns (cs: seq<(ColumnDef, bool)>)
    requires PCreateTable(ts).Parsed?
    ensures PCreateTable(ts).value.CreateTable?
    ensures var s := PCreateTable(ts).value;
            Declares(cs, s.columns, s.primaryKey) && Cons(Kw(KwTable), ts) == WTable(s.table, cs, PCreateTable(ts).rest)
  {
    ColumnDefTakes();
    IdentExact(ts);
    var r := PIdent(ts).rest;
    Head(r, Sym(LParen));
    ColumnDefsExact(r[1..]);
    var list := PList(PColumnDef, Sym(Comma), r[1..]);
    cs := list.value;
    Head(list.rest, Sym(RParen));
    DeclaresIff(cs, PCreateTable(ts).value.columns, PCreateTable(ts).value.primaryKey);
  }

  lemma CreateTableSays(ts: Tokens)
    requires PCreateTable(ts).Parsed?
    ensures SaysThen(PCreateTable(ts).value, Cons(Kw(KwCreate), Cons(Kw(KwTable), ts)), PCreateTable(ts).rest)
  {
    var cs := CreateTableExact(ts);
    var s, k := PCreateTable(ts).value, PCreateTable(ts).rest;
    assert Declares(cs, s.columns, s.primaryKey);
    assert Cons(Kw(KwCreate), Cons(Kw(KwTable), ts)) == Cons(Kw(KwCreate), WTable(s.table, cs, k));
  }

  lemma CreateIndexSays(ts: Tokens)
    requires PCreateIndex(ts).Parsed?
    ensures SaysThen(PCreateIndex(ts).value, Cons(Kw(KwCreate), Cons(Kw(KwIndex), ts)), PCreateIndex(ts).rest)
  {
    CreateIndexExact(ts);
  }

  lemma CreateSays(ts: Tokens)
    requires PCreate(ts).Parsed?
    ensures SaysThen(PCreate(ts).value, Cons(Kw(KwCreate), ts), PCreate(ts).rest)
  {
    if Starts(ts, Kw(KwTable)) {
      Head(ts, Kw(KwTable));
      CreateTableSays(ts[1..]);
    } else {
      Head(ts, Kw(KwIndex));
      CreateIndexSays(ts[1..]);
    }
  }

  // ----- whole statements

  /** What the first token decides. */
  lemma FirstTokens(first: Token, rest: Tokens, all: Tokens)
    requires all != [] && all[0] == first && all[1..] == rest
    ensures PStatement(all) == match first
                               case Kw(KwCreate) => PCreate(rest)
                               case Kw(KwInsert) => PInsert(rest)
                               case Kw(KwSelect) => PSelect(rest)
                               case Kw(KwUpdate) => PUpdate(rest)
                               case Kw(KwDelete) => PDelete(rest)
                               case Kw(KwBegin) => Parsed(Begin, rest)
                               case Kw(KwCommit) => Parsed(Commit, rest)
                               case Kw(KwRollback) => Parsed(Rollback, rest)
                               case _ => Failed
  {
  }

  lemma SelectSays(ts: Tokens)
    requires PSelect(ts).Parsed?
    ensures SaysThen(PSelect(ts).value, Cons(Kw(KwSelect), ts), PSelect(ts).rest)
  {
    SelectExact(ts);
  }

  lemma InsertSays(ts: Tokens)
    requires PInsert(ts).Parsed?
    ensures SaysThen(PInsert(ts).value, Cons(Kw(KwInsert), ts), PInsert(ts).rest)
  {
    InsertExact(ts);
  }

  lemma UpdateSays(ts: Tokens)
    requires PUpdate(ts).Parsed?
    ensures SaysThen(PUpdate(ts).value, Cons(Kw(KwUpdate), ts), PUpdate(ts).rest)
  {
    UpdateExact(ts);
  }

  lemma DeleteSays(ts: Tokens)
    requires PDelete(ts).Parsed?
    ensures SaysThen(PDelete(ts).value, Cons(Kw(KwDelete), ts), PDelete(ts).rest)
  {
    DeleteExact(ts);
  }

  lemma ControlSays(k: Tokens)
    ensures SaysThen(Begin, Cons(Kw(KwBegin), k), k)
    ensures SaysThen(Commit, Cons(Kw(KwCommit), k), k) && SaysThen(Rollback, Cons(Kw(KwRollback), k), k)
  {
  }

  /** What was read off the front is what the printer writes for the statement. */
  lemma StatementExact(ts: Tokens)
    requires PStatement(ts).Parsed?
    ensures SaysThen(PStatement(ts).value, ts, PStatement(ts).rest)
  {
    var rest := ts[1..];
    Head(ts, ts[0]);
    FirstTokens(ts[0], rest, ts);
    match ts[0].keyword
    case KwCreate => CreateSays(rest);
    case KwInsert => InsertSays(rest);
    case KwSelect => SelectSays(rest);
    case KwUpdate => UpdateSays(rest);
    case KwDelete => DeleteSays(rest);
    case _ => ControlSays(rest);
  }

  lemma TableReads(table: Text, cs: seq<(ColumnDef, bool)>, columns: seq<ColumnDef>, key: Option<Text>, k: Tokens)
    requires Declares(cs, columns, key)
    ensures PStatement(Cons(Kw(KwCreate), WTable(table, cs, k))) == Parsed(CreateTable(table, columns, key), k)
  {
    var end := Cons(Sym(RParen), k);
    var list := WList(WColumnDef, Sym(Comma), cs, end);
    DeclaresIff(cs, columns, key);
    ColumnDefsRoundTrip(cs, end);
    CreateTableParts(table, cs, list, k);
    CreateTableWord(Cons(Ident(table), Cons(Sym(LParen), list)));
    FirstTokens(Kw(KwCreate), WTable(table, cs, k), Cons(Kw(KwCreate), WTable(table, cs, k)));
  }

  /** And what the printer writes is read back, in front of anything that may follow a statement. */
  lemma SaidIsRead(s: Statement, ts: Tokens, k: Tokens)
    requires SaysThen(s, ts, k) && Follows(k)
    ensures PStatement(ts) == Parsed(s, k)
  {
    if s.CreateTable? {
      var cs :| Declares(cs, s.columns, s.primaryKey) && ts == Cons(Kw(KwCreate), WTable(s.table, cs, k));
      TableReads(s.table, cs, s.columns, s.primaryKey, k);
    } else {
      StatementRoundTrip(s, k);
    }
  }

  /** The parser accepts exactly the tokens that say a statement, with or without a semicolon at the end. */
  lemma TopLevelIff(ts: Tokens, s: Statement)
    ensures PTopLevel(ts) == Some(s) <==> Says(s, ts)
  {
    if PTopLevel(ts) == Some(s) {
      StatementExact(ts);
    }
    if SaysThen(s, ts, []) {
      SaidIsRead(s, ts, []);
    } else if SaysThen(s, ts, [Sym(Semicolon)]) {
      SaidIsRead(s, ts, [Sym(Semicolon)]);
    }
  }
}
