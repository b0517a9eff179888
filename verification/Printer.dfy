/** Writing statements out, and reading them back: tokens first, then text. */
module Printer {
  import opened Wrappers
  import opened Sql
  import opened Lexicon
  import opened Grammar

  // ----- printing, in front of what follows

  function Cons(t: Token, k: Tokens): (r: Tokens)
    ensures |r| == |k| + 1 && r[0] == t && r[1..] == k
  {
    [t] + k
  }

  function WRef(ref: ColumnRef, k: Tokens): Tokens {
    match ref.table
    case None => Cons(Ident(ref.column), k)
    case Some(t) => Cons(Ident(t), Cons(Sym(Dot), Cons(Ident(ref.column), k)))
  }

  function WLiteral(v: Literal, k: Tokens): Tokens {
    match v
    case IntLit(i) => Cons(IntTok(i), k)
    case StrLit(s) => Cons(StrTok(s), k)
  }

  function ComparatorSymbol(op: Comparator): Symbol {
    match op
    case Eq => EqSign
    case Neq => NeqSign
    case Lt => LtSign
    case Le => LeSign
    case Gt => GtSign
    case Ge => GeSign
  }

  function WPredicate(p: Predicate, k: Tokens): Tokens {
    WRef(p.column, Cons(Sym(ComparatorSymbol(p.op)), WLiteral(p.value, k)))
  }

  function WAssignment(a: Assignment, k: Tokens): Tokens {
    Cons(Ident(a.column), Cons(Sym(EqSign), WLiteral(a.value, k)))
  }

  function TypeKeyword(t: ColumnType): Keyword {
    if t.IntegerType? then KwInteger else KwText
  }

  function WColumnDef(c: (ColumnDef, bool), k: Tokens): Tokens {
    Cons(Ident(c.0.name), Cons(Kw(TypeKeyword(c.0.typ)), if c.1 then Cons(Kw(KwPrimary), Cons(Kw(KwKey), k)) else k))
  }

  function WList<X>(w: (X, Tokens) -> Tokens, sep: Token, xs: seq<X>, k: Tokens): Tokens {
    if xs == [] then k
    else if |xs| == 1 then w(xs[0], k)
    else w(xs[0], Cons(sep, WList(w, sep, xs[1..], k)))
  }

  function WWhere(ps: seq<Predicate>, k: Tokens): Tokens {
    if ps == [] then k else Cons(Kw(KwWhere), WList(WPredicate, Kw(KwAnd), ps, k))
  }

  function WJoin(j: Option<JoinClause>, k: Tokens): Tokens {
    match j
    case None => k
    case Some(c) => Cons(Kw(KwJoin),
        Cons(Ident(c.table), Cons(Kw(KwOn), WRef(c.left, Cons(Sym(EqSign), WRef(c.right, k))))))
  }

  function WSelectList(s: SelectStatement, k: Tokens): Tokens {
    if s.star then Cons(Sym(Star), k) else WList(WRef, Sym(Comma), s.list, k)
  }

  function WSelect(s: SelectStatement, k: Tokens): Tokens {
    WSelectList(s, Cons(Kw(KwFrom), Cons(Ident(s.from), WJoin(s.join, WWhere(s.where, k)))))
  }

  /** Each column with the mark of the primary key on the one it names. */
  function Flagged(columns: seq<ColumnDef>, key: Option<Text>): seq<(ColumnDef, bool)> {
    if columns == [] then [] else [(columns[0], key == Some(columns[0].name))] + Flagged(columns[1..], key)
  }

  function WCreateTable(table: Text, columns: seq<ColumnDef>, key: Option<Text>, k: Tokens): Tokens {
    Cons(Kw(KwTable),
        Cons(Ident(table),
            Cons(Sym(LParen), WList(WColumnDef, Sym(Comma), Flagged(columns, key), Cons(Sym(RParen), k)))))
  }

  function WCreateIndex(name: Text, table: Text, column: Text, k: Tokens): Tokens {
    Cons(Kw(KwIndex),
        Cons(Ident(name),
            Cons(Kw(KwOn), Cons(Ident(table), Cons(Sym(LParen), Cons(Ident(column), Cons(Sym(RParen), k)))))))
  }

  function WInsert(table: Text, values: seq<Literal>, k: Tokens): Tokens {
    Cons(Kw(KwInto),
        Cons(Ident(table),
            Cons(Kw(KwValues), Cons(Sym(LParen), WList(WLiteral, Sym(Comma), values, Cons(Sym(RParen), k))))))
  }

  function WUpdate(table: Text, asgs: seq<Assignment>, where: seq<Predicate>, k: Tokens): Tokens {
    Cons(Ident(table), Cons(Kw(KwSet), WList(WAssignment, Sym(Comma), asgs, WWhere(where, k))))
  }

  function WDelete(table: Text, where: seq<Predicate>, k: Tokens): Tokens {
    Cons(Kw(KwFrom), Cons(Ident(table), WWhere(where, k)))
  }

  function WStatement(s: Statement, k: Tokens): Tokens {
    match s
    case CreateTable(table, columns, key) => Cons(Kw(KwCreate), WCreateTable(table, columns, key, k))
    case CreateIndex(name, table, column) => Cons(Kw(KwCreate), WCreateIndex(name, table, column, k))
    case Insert(table, values) => Cons(Kw(KwInsert), WInsert(table, values, k))
    case Select(select) => Cons(Kw(KwSelect), WSelect(select, k))
    case Update(table, asgs, where) => Cons(Kw(KwUpdate), WUpdate(table, asgs, where, k))
    case Delete(table, where) => Cons(Kw(KwDelete), WDelete(table, where, k))
    case Begin => Cons(Kw(KwBegin), k)
    case Commit => Cons(Kw(KwCommit), k)
    case Rollback => Cons(Kw(KwRollback), k)
  }

  // ----- what the grammar can say

  ghost predicate KeyNamed(columns: seq<ColumnDef>, key: Option<Text>) {
    key.Some? ==> exists i :: 0 <= i < |columns| && columns[i].name == key.value
  }

  /** Lists that the grammar requires are not empty; column names are distinct and the key is one of them. */
  ghost predicate Sayable(s: Statement) {
    match s
    case CreateTable(_, columns, key) => columns != [] && DistinctColumns(columns) && KeyNamed(columns, key)
    case Insert(_, values) => values != []
    case Select(select) => (select.star <==> select.list == [])
    case Update(_, asgs, _) => asgs != []
    case _ => true
  }

  // ----- reading printed tokens

  predicate NotDot(k: Tokens) {
    !Starts(k, Sym(Dot))
  }

  predicate NotPrimary(k: Tokens) {
    !Starts(k, Kw(KwPrimary))
  }

  predicate Anything(k: Tokens) {
    true
  }

  lemma RefRoundTrip(ref: ColumnRef, k: Tokens)
    requires NotDot(k)
    ensures PColumnRef(WRef(ref, k)) == Parsed(ref, k)
  {
  }

  /** A predicate from its three parts. */
  lemma PredicateParts(p: Predicate, ts: Tokens, op: Tokens, lit: Tokens, k: Tokens)
    requires PColumnRef(ts) == Parsed(p.column, op) && PComparator(op) == Parsed(p.op, lit)
    requires PLiteral(lit) == Parsed(p.value, k)
    ensures PPredicate(ts) == Parsed(p, k)
  {
  }

  lemma ComparatorRoundTrip(op: Comparator, k: Tokens)
    ensures PComparator(Cons(Sym(ComparatorSymbol(op)), k)) == Parsed(op, k)
  {
  }

  lemma LiteralRoundTrip(v: Literal, k: Tokens)
    ensures PLiteral(WLiteral(v, k)) == Parsed(v, k)
  {
  }

  lemma PredicateRoundTrip(p: Predicate, k: Tokens)
    ensures PPredicate(WPredicate(p, k)) == Parsed(p, k)
  {
    var lit := WLiteral(p.value, k);
    var op := Cons(Sym(ComparatorSymbol(p.op)), lit);
    RefRoundTrip(p.column, op);
    ComparatorRoundTrip(p.op, lit);
    LiteralRoundTrip(p.value, k);
    PredicateParts(p, WRef(p.column, op), op, lit, k);
  }

  lemma AssignmentRoundTrip(a: Assignment, k: Tokens)
    ensures PAssignment(WAssignment(a, k)) == Parsed(a, k)
  {
  }

  lemma ColumnDefRoundTrip(c: (ColumnDef, bool), k: Tokens)
    requires NotPrimary(k)
    ensures PColumnDef(WColumnDef(c, k)) == Parsed(c, k)
  {
  }

  /** Items that read back in front of good continuations make lists that do. */
  lemma {:induction false} ListRoundTrip<X(!new)>(p: Item<X>, w: (X, Tokens) -> Tokens, sep: Token,
                                           good: Tokens -> bool, xs: seq<X>, k: Tokens)
    requires Takes(p) && xs != [] && good(k) && !Starts(k, sep)
    requires forall m :: good(Cons(sep, m))
    requires forall x, m :: good(m) ==> p(w(x, m)) == Parsed(x, m)
    ensures PList(p, sep, WList(w, sep, xs, k)) == Parsed(xs, k)
  {
    if |xs| == 1 {
      assert [xs[0]] + [] == xs;
    } else {
      ListRoundTrip(p, w, sep, good, xs[1..], k);
      var more := WList(w, sep, xs[1..], k);
      assert p(w(xs[0], Cons(sep, more))) == Parsed(xs[0], Cons(sep, more));
      assert [xs[0]] + xs[1..] == xs;
    }
  }

  lemma LiteralsRoundTrip(vs: seq<Literal>, k: Tokens)
    requires vs != [] && !Starts(k, Sym(Comma))
    ensures Takes(PLiteral) && PList(PLiteral, Sym(Comma), WList(WLiteral, Sym(Comma), vs, k)) == Parsed(vs, k)
  {
    LiteralTakes();
    ListRoundTrip(PLiteral, WLiteral, Sym(Comma), Anything, vs, k);
  }

  lemma RefsRoundTrip(refs: seq<ColumnRef>, k: Tokens)
    requires refs != [] && !Starts(k, Sym(Comma)) && NotDot(k)
    ensures Takes(PColumnRef) && PList(PColumnRef, Sym(Comma), WList(WRef, Sym(Comma), refs, k)) == Parsed(refs, k)
  {
    ColumnRefTakes();
    forall x: ColumnRef, m: Tokens | NotDot(m) ensures PColumnRef(WRef(x, m)) == Parsed(x, m) {
      RefRoundTrip(x, m);
    }
    ListRoundTrip(PColumnRef, WRef, Sym(Comma), NotDot, refs, k);
  }

  lemma AssignmentsRoundTrip(asgs: seq<Assignment>, k: Tokens)
    requires asgs != [] && !Starts(k, Sym(Comma))
    ensures Takes(PAssignment)
    ensures PList(PAssignment, Sym(Comma), WList(WAssignment, Sym(Comma), asgs, k)) == Parsed(asgs, k)
  {
    AssignmentTakes();
    forall x: Assignment, m: Tokens ensures PAssignment(WAssignment(x, m)) == Parsed(x, m) {
      AssignmentRoundTrip(x, m);
    }
    ListRoundTrip(PAssignment, WAssignment, Sym(Comma), Anything, asgs, k);
  }

  lemma ColumnDefsRoundTrip(cs: seq<(ColumnDef, bool)>, k: Tokens)
    requires cs != [] && !Starts(k, Sym(Comma)) && NotPrimary(k)
    ensures Takes(PColumnDef) && PList(PColumnDef, Sym(Comma), WList(WColumnDef, Sym(Comma), cs, k)) == Parsed(cs, k)
  {
    ColumnDefTakes();
    forall x: (ColumnDef, bool), m: Tokens | NotPrimary(m) ensures PColumnDef(WColumnDef(x, m)) == Parsed(x, m) {
      ColumnDefRoundTrip(x, m);
    }
    ListRoundTrip(PColumnDef, WColumnDef, Sym(Comma), NotPrimary, cs, k);
  }

  /** What may follow a whole statement. */
  ghost predicate Follows(k: Tokens) {
    k == [] || k[0] == Sym(Semicolon)
  }

  lemma WhereRoundTrip(ps: seq<Predicate>, k: Tokens)
    requires Follows(k)
    ensures PWhere(WWhere(ps, k)) == Parsed(ps, k)
  {
    if ps != [] {
      PredicateTakes();
      forall x: Predicate, m: Tokens ensures PPredicate(WPredicate(x, m)) == Parsed(x, m) {
        PredicateRoundTrip(x, m);
      }
      ListRoundTrip(PPredicate, WPredicate, Kw(KwAnd), Anything, ps, k);
    }
  }

  /** A printed WHERE clause starts with WHERE or with what follows the statement. */
  lemma WhereStart(ps: seq<Predicate>, k: Tokens)
    requires Follows(k)
    ensures var d := WWhere(ps, k); d == [] || d[0] == Kw(KwWhere) || d[0] == Sym(Semicolon)
  {
  }

  /** A join from its two references, each read from its own tokens. */
  lemma JoinParts(j: JoinClause, left: Tokens, right: Tokens, k: Tokens)
    requires PColumnRef(left) == Parsed(j.left, Cons(Sym(EqSign), right)) && PColumnRef(right) == Parsed(j.right, k)
    ensures PJoin(Cons(Kw(KwJoin), Cons(Ident(j.table), Cons(Kw(KwOn), left)))) == Parsed(Some(j), k)
  {
  }

  lemma JoinRoundTrip(j: Option<JoinClause>, k: Tokens)
    requires NotDot(k) && !Starts(k, Kw(KwJoin))
    ensures PJoin(WJoin(j, k)) == Parsed(j, k)
  {
    if j.Some? {
      var right := WRef(j.value.right, k);
      RefRoundTrip(j.value.left, Cons(Sym(EqSign), right));
      RefRoundTrip(j.value.right, k);
      JoinParts(j.value, WRef(j.value.left, Cons(Sym(EqSign), right)), right, k);
    }
  }

  lemma SelectListRoundTrip(s: SelectStatement, k: Tokens)
    requires (s.star <==> s.list == []) && !Starts(k, Sym(Comma)) && NotDot(k)
    ensures PSelectList(WSelectList(s, k)) == Parsed((s.star, s.list), k)
  {
    if !s.star {
      RefsRoundTrip(s.list, k);
      ListStart(s.list, k);
    }
  }

  lemma ListStart(refs: seq<ColumnRef>, k: Tokens)
    requires refs != []
    ensures !Starts(WList(WRef, Sym(Comma), refs, k), Sym(Star))
  {
  }

  /** A SELECT from its clauses, each read from its own tokens. */
  lemma SelectParts(s: SelectStatement, list: Tokens, join: Tokens, where: Tokens, k: Tokens)
    requires PSelectList(list) == Parsed((s.star, s.list), Cons(Kw(KwFrom), Cons(Ident(s.from), join)))
    requires PJoin(join) == Parsed(s.join, where) && PWhere(where) == Parsed(s.where, k)
    ensures PSelect(list) == Parsed(Select(s), k)
  {
  }

  lemma SelectRoundTrip(s: SelectStatement, k: Tokens)
    requires Follows(k) && (s.star <==> s.list == [])
    ensures PSelect(WSelect(s, k)) == Parsed(Select(s), k)
  {
    var where := WWhere(s.where, k);
    var join := WJoin(s.join, where);
    var from := Cons(Kw(KwFrom), Cons(Ident(s.from), join));
    WhereRoundTrip(s.where, k);
    WhereStart(s.where, k);
    JoinRoundTrip(s.join, where);
    SelectListRoundTrip(s, from);
    SelectParts(s, WSelectList(s, from), join, where, k);
  }

  lemma InsertParts(table: Text, values: seq<Literal>, list: Tokens, k: Tokens)
    requires Takes(PLiteral) && PList(PLiteral, Sym(Comma), list) == Parsed(values, Cons(Sym(RParen), k))
    ensures PInsert(Cons(Kw(KwInto), Cons(Ident(table), Cons(Kw(KwValues), Cons(Sym(LParen), list))))) ==
            Parsed(Insert(table, values), k)
  {
  }

  lemma InsertRoundTrip(table: Text, values: seq<Literal>, k: Tokens)
    requires values != []
    ensures PInsert(WInsert(table, values, k)) == Parsed(Insert(table, values), k)
  {
    LiteralsRoundTrip(values, Cons(Sym(RParen), k));
    InsertParts(table, values, WList(WLiteral, Sym(Comma), values, Cons(Sym(RParen), k)), k);
  }

  lemma UpdateParts(table: Text, asgs: seq<Assignment>, where: seq<Predicate>, list: Tokens, rest: Tokens, k: Tokens)
    requires Takes(PAssignment) && PList(PAssignment, Sym(Comma), list) == Parsed(asgs, rest)
    requires PWhere(rest) == Parsed(where, k)
    ensures PUpdate(Cons(Ident(table), Cons(Kw(KwSet), list))) == Parsed(Update(table, asgs, where), k)
  {
  }

  lemma UpdateRoundTrip(table: Text, asgs: seq<Assignment>, where: seq<Predicate>, k: Tokens)
    requires asgs != [] && Follows(k)
    ensures PUpdate(WUpdate(table, asgs, where, k)) == Parsed(Update(table, asgs, where), k)
  {
    var rest := WWhere(where, k);
    WhereRoundTrip(where, k);
    WhereStart(where, k);
    AssignmentsRoundTrip(asgs, rest);
    UpdateParts(table, asgs, where, WList(WAssignment, Sym(Comma), asgs, rest), rest, k);
  }

  lemma DeleteRoundTrip(table: Text, where: seq<Predicate>, k: Tokens)
    requires Follows(k)
    ensures PDelete(WDelete(table, where, k)) == Parsed(Delete(table, where), k)
  {
    WhereRoundTrip(where, k);
  }

  lemma CreateIndexRoundTrip(name: Text, table: Text, column: Text, k: Tokens)
    ensures PCreate(WCreateIndex(name, table, column, k)) == Parsed(CreateIndex(name, table, column), k)
  {
  }

  lemma {:induction false} FlaggedDefs(columns: seq<ColumnDef>, key: Option<Text>)
    ensures Defs(Flagged(columns, key)) == columns
  {
    if columns != [] {
      FlaggedDefs(columns[1..], key);
      assert columns == [columns[0]] + columns[1..];
    }
  }

  /** With distinct names, the mark is on the key column and nowhere else. */
  lemma {:induction false} FlaggedKeys(columns: seq<ColumnDef>, key: Option<Text>)
    requires DistinctColumns(columns)
    ensures KeyNames(Flagged(columns, key)) == if key.Some? && KeyNamed(columns, key) then [key.value] else []
  {
    if columns != [] {
      FlaggedKeys(columns[1..], key);
      var rest := columns[1..];
      if key == Some(columns[0].name) {
        assert !KeyNamed(rest, key);
        assert columns[0].name == key.value;
      } else if key.Some? && KeyNamed(columns, key) {
        var i :| 0 <= i < |columns| && columns[i].name == key.value;
        assert rest[i - 1].name == key.value;
      } else {
        assert forall i :: 0 <= i < |rest| ==> rest[i] == columns[i + 1];
      }
    }
  }

  lemma CreateTableParts(table: Text, cs: seq<(ColumnDef, bool)>, list: Tokens, k: Tokens)
    requires Takes(PColumnDef) && PList(PColumnDef, Sym(Comma), list) == Parsed(cs, Cons(Sym(RParen), k))
    requires |KeyNames(cs)| <= 1
    ensures PCreateTable(Cons(Ident(table), Cons(Sym(LParen), list)))
         == Parsed(CreateTable(table, Defs(cs), if KeyNames(cs) == [] then None else Some(KeyNames(cs)[0])), k)
  {
  }

  lemma CreateTableRoundTrip(table: Text, columns: seq<ColumnDef>, key: Option<Text>, k: Tokens)
    requires columns != [] && DistinctColumns(columns) && KeyNamed(columns, key)
    ensures PCreate(WCreateTable(table, columns, key, k)) == Parsed(CreateTable(table, columns, key), k)
  {
    var cs, end := Flagged(columns, key), Cons(Sym(RParen), k);
    FlaggedDefs(columns, key);
    FlaggedKeys(columns, key);
    ColumnDefsRoundTrip(cs, end);
    CreateTableParts(table, cs, WList(WColumnDef, Sym(Comma), cs, end), k);
    CreateTableWord(Cons(Ident(table), Cons(Sym(LParen), WList(WColumnDef, Sym(Comma), cs, end))));
  }

  lemma CreateTableWord(ts: Tokens)
    ensures PCreate(Cons(Kw(KwTable), ts)) == PCreateTable(ts)
  {
  }

  ghost predicate ReadsBack(s: Statement, k: Tokens) {
    PStatement(WStatement(s, k)) == Parsed(s, k)
  }

  ghost predicate Reads(p: Item<Statement>, ts: Tokens, s: Statement, k: Tokens) {
    p(ts) == Parsed(s, k)
  }

  ghost predicate BeginsWith(s: Statement, k: Tokens, t: Token, rest: Tokens) {
    WStatement(s, k) == Cons(t, rest)
  }

  /** A statement reads back if its first word chooses `p` and `p` reads the rest. */
  lemma ByFirstWord(s: Statement, t: Token, p: Item<Statement>, rest: Tokens, k: Tokens)
    requires BeginsWith(s, k, t, rest) && ParserFor(t) == Some(p) && Reads(p, rest, s, k)
    ensures ReadsBack(s, k)
  {
  }

  lemma FirstWords()
    ensures ParserFor(Kw(KwCreate)) == Some(PCreate) && ParserFor(Kw(KwInsert)) == Some(PInsert)
    ensures ParserFor(Kw(KwSelect)) == Some(PSelect)
    ensures ParserFor(Kw(KwUpdate)) == Some(PUpdate) && ParserFor(Kw(KwDelete)) == Some(PDelete)
  {
  }

  lemma CreateTableReadsBack(table: Text, columns: seq<ColumnDef>, key: Option<Text>, k: Tokens)
    requires columns != [] && DistinctColumns(columns) && KeyNamed(columns, key)
    ensures ReadsBack(CreateTable(table, columns, key), k)
  {
    CreateTableRoundTrip(table, columns, key, k);
    ByFirstWord(CreateTable(table, columns, key), Kw(KwCreate), PCreate, WCreateTable(table, columns, key, k), k);
  }

  lemma CreateIndexReadsBack(name: Text, table: Text, column: Text, k: Tokens)
    ensures ReadsBack(CreateIndex(name, table, column), k)
  {
    CreateIndexRoundTrip(name, table, column, k);
    ByFirstWord(CreateIndex(name, table, column), Kw(KwCreate), PCreate, WCreateIndex(name, table, column, k), k);
  }

  lemma InsertBegins(table: Text, values: seq<Literal>, k: Tokens)
    ensures BeginsWith(Insert(table, values), k, Kw(KwInsert), WInsert(table, values, k))
  {
  }

  lemma InsertReads(table: Text, values: seq<Literal>, k: Tokens)
    requires values != []
    ensures Reads(PInsert, WInsert(table, values, k), Insert(table, values), k)
  {
    InsertRoundTrip(table, values, k);
  }

  lemma InsertReadsBack(table: Text, values: seq<Literal>, k: Tokens)
    requires values != []
    ensures ReadsBack(Insert(table, values), k)
  {
    InsertBegins(table, values, k);
    InsertReads(table, values, k);
    FirstWords();
    ByFirstWord(Insert(table, values), Kw(KwInsert), PInsert, WInsert(table, values, k), k);
  }

  lemma SelectBegins(s: SelectStatement, k: Tokens)
    ensures BeginsWith(Select(s), k, Kw(KwSelect), WSelect(s, k))
  {
  }

  lemma SelectReads(s: SelectStatement, k: Tokens)
    requires Follows(k) && (s.star <==> s.list == [])
    ensures Reads(PSelect, WSelect(s, k), Select(s), k)
  {
    SelectRoundTrip(s, k);
  }

  lemma SelectReadsBack(s: SelectStatement, k: Tokens)
    requires Follows(k) && (s.star <==> s.list == [])
    ensures ReadsBack(Select(s), k)
  {
    SelectReads(s, k);
    SelectBegins(s, k);
    FirstWords();
    ByFirstWord(Select(s), Kw(KwSelect), PSelect, WSelect(s, k), k);
  }

  lemma UpdateBegins(table: Text, asgs: seq<Assignment>, where: seq<Predicate>, k: Tokens)
    ensures BeginsWith(Update(table, asgs, where), k, Kw(KwUpdate), WUpdate(table, asgs, where, k))
  {
  }

  lemma UpdateReads(table: Text, asgs: seq<Assignment>, where: seq<Predicate>, k: Tokens)
    requires asgs != [] && Follows(k)
    ensures Reads(PUpdate, WUpdate(table, asgs, where, k), Update(table, asgs, where), k)
  {
    UpdateRoundTrip(table, asgs, where, k);
  }

  lemma UpdateReadsBack(table: Text, asgs: seq<Assignment>, where: seq<Predicate>, k: Tokens)
    requires asgs != [] && Follows(k)
    ensures ReadsBack(Update(table, asgs, where), k)
  {
    UpdateBegins(table, asgs, where, k);
    UpdateReads(table, asgs, where, k);
    FirstWords();
    ByFirstWord(Update(table, asgs, where), Kw(KwUpdate), PUpdate, WUpdate(table, asgs, where, k), k);
  }

  lemma DeleteReadsBack(table: Text, where: seq<Predicate>, k: Tokens)
    requires Follows(k)
    ensures ReadsBack(Delete(table, where), k)
  {
    DeleteRoundTrip(table, where, k);
    ByFirstWord(Delete(table, where), Kw(KwDelete), PDelete, WDelete(table, where, k), k);
  }

  lemma ControlReadsBack(k: Tokens)
    ensures ReadsBack(Begin, k) && ReadsBack(Commit, k) && ReadsBack(Rollback, k)
  {
  }

  /** Parsing inverts printing for every statement the grammar can say. */
  lemma StatementRoundTrip(s: Statement, k: Tokens)
    requires Sayable(s) && Follows(k)
    ensures ReadsBack(s, k)
  {
    match s
    case CreateTable(table, columns, key) => CreateTableReadsBack(table, columns, key, k);
    case CreateIndex(name, table, column) => CreateIndexReadsBack(name, table, column, k);
    case Insert(table, values) => InsertReadsBack(table, values, k);
    case Select(select) => SelectReadsBack(select, k);
    case Update(table, asgs, where) => UpdateReadsBack(table, asgs, where, k);
    case Delete(table, where) => DeleteReadsBack(table, where, k);
    case Begin => ControlReadsBack(k);
    case Commit => ControlReadsBack(k);
    case Rollback => ControlReadsBack(k);
  }
}
