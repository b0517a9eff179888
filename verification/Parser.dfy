/** The parser as a cursor over tokens (src/sql/parser.cpp), and the round trip from text to text. */
module Parsing {
  import opened Wrappers
  import opened Bytes
  import opened Sql
  import opened Lexicon
  import opened Lexer
  import opened Grammar
  import opened Printer
  import opened Productions

  /** The cursor stands where the grammar says, unless parsing failed. */
  ghost predicate Follow<X>(r: Option<X>, rest: Tokens, p: Parsed<X>) {
    match p
    case Failed => r.None?
    case Parsed(v, k) => r == Some(v) && rest == k
  }

  /** A list is what was read so far and, behind a separator, what is still to be read. */
  ghost predicate ReadSoFar<X(!new)>(p: Item<X>, sep: Token, start: Tokens, list: seq<X>, more: bool, rest: Tokens)
    requires Takes(p)
  {
    PList(p, sep, start) == WithFirst(list, if more then PList(p, sep, rest) else Parsed([], rest))
  }

  lemma WithNone<X>(r: Parsed<seq<X>>)
    ensures WithFirst([], r) == r
  {
    if r.Parsed? { assert [] + r.value == r.value; }
  }

  lemma AppendOne<X>(list: seq<X>, x: X, r: Parsed<seq<X>>)
    ensures WithFirst(list + [x], r) == WithFirst(list, WithFirst([x], r))
  {
    if r.Parsed? {
      assert list + [x] + r.value == list + ([x] + r.value);
    }
  }

  /** One item more, and what stands behind it decides whether the list goes on. */
  lemma ListStep<X(!new)>(p: Item<X>, sep: Token, start: Tokens, list: seq<X>, here: Tokens)
    requires Takes(p) && ReadSoFar(p, sep, start, list, true, here) && p(here).Parsed?
    ensures var rest := p(here).rest;
            ReadSoFar(p, sep, start, list + [p(here).value], Starts(rest, sep), if Starts(rest, sep) then rest[1..]
                else rest)
  {
    AppendOne(list, p(here).value, PTail(p, sep, p(here).rest));
  }

  class Parser {
    const tokens: Tokens
    var pos: nat

    ghost predicate Valid()
      reads this
    {
      pos <= |tokens|
    }

    ghost function Rest(): Tokens
      requires Valid()
      reads this
    {
      tokens[pos..]
    }

    constructor (ts: Tokens)
      ensures Valid() && Rest() == ts
    {
      tokens, pos := ts, 0;
    }

    method Match(t: Token) returns (b: bool)
      requires Valid()
      modifies this
      ensures Valid() && b == Starts(old(Rest()), t) && Rest() == if b then old(Rest())[1..] else old(Rest())
    {
      b := pos < |tokens| && tokens[pos] == t;
      if b { pos := pos + 1; }
    }

    // ----- the items

    method ParseIdent() returns (r: Option<Text>)
      requires Valid()
      modifies this
      ensures Valid() && Follow(r, Rest(), PIdent(old(Rest())))
    {
      if pos == |tokens| || !tokens[pos].Ident? { return None; }
      r := Some(tokens[pos].text);
      pos := pos + 1;
    }

    method ParseLiteral() returns (r: Option<Literal>)
      requires Valid()
      modifies this
      ensures Valid() && Follow(r, Rest(), PLiteral(old(Rest())))
    {
      if pos == |tokens| { return None; }
      match tokens[pos] {
        case IntTok(v) => r := Some(IntLit(v));
        case StrTok(text) => r := Some(StrLit(text));
        case _ => return None;
      }
      pos := pos + 1;
    }

    method ParseComparator() returns (r: Option<Comparator>)
      requires Valid()
      modifies this
      ensures Valid() && Follow(r, Rest(), PComparator(old(Rest())))
    {
      if pos == |tokens| { return None; }
      match tokens[pos] {
        case Sym(EqSign) => r := Some(Eq);
        case Sym(NeqSign) => r := Some(Neq);
        case Sym(LtSign) => r := Some(Lt);
        case Sym(LeSign) => r := Some(Le);
        case Sym(GtSign) => r := Some(Gt);
        case Sym(GeSign) => r := Some(Ge);
        case _ => return None;
      }
      pos := pos + 1;
    }

    /** column, or table.column */
    method ParseColumnRef() returns (r: Option<ColumnRef>)
      requires Valid()
      modifies this
      ensures Valid() && Follow(r, Rest(), PColumnRef(old(Rest())))
    {
      var first := ParseIdent();
      if first.None? { return None; }
      var dot := Match(Sym(Dot));
      if !dot { return Some(ColumnRef(None, first.value)); }
      var column := ParseIdent();
      if column.None? { return None; }
      return Some(ColumnRef(Some(first.value), column.value));
    }

    method ParsePredicate() returns (r: Option<Predicate>)
      requires Valid()
      modifies this
      ensures Valid() && Follow(r, Rest(), PPredicate(old(Rest())))
    {
      var ref := ParseColumnRef();
      if ref.None? { return None; }
      var op := ParseComparator();
      if op.None? { return None; }
      var v := ParseLiteral();
      if v.None? { return None; }
      return Some(Predicate(ref.value, op.value, v.value));
    }

    method ParseAssignment() returns (r: Option<Assignment>)
      requires Valid()
      modifies this
      ensures Valid() && Follow(r, Rest(), PAssignment(old(Rest())))
    {
      var column := ParseIdent();
      if column.None? { return None; }
      var eq := Match(Sym(EqSign));
      if !eq { return None; }
      var v := ParseLiteral();
      if v.None? { return None; }
      return Some(Assignment(column.value, v.value));
    }

    method ParseType() returns (r: Option<ColumnType>)
      requires Valid()
      modifies this
      ensures Valid() && Follow(r, Rest(), PType(old(Rest())))
    {
      var b := Match(Kw(KwInteger));
      if b { return Some(IntegerType); }
      b := Match(Kw(KwText));
      if b { return Some(TextType); }
      return None;
    }

    method ParseColumnDef() returns (r: Option<(ColumnDef, bool)>)
      requires Valid()
      modifies this
      ensures Valid() && Follow(r, Rest(), PColumnDef(old(Rest())))
    {
      var name := ParseIdent();
      if name.None? { return None; }
      var typ := ParseType();
      if typ.None? { return None; }
      var primary := Match(Kw(KwPrimary));
      if primary {
        var key := Match(Kw(KwKey));
        if !key { return None; }
      }
      return Some((ColumnDef(name.value, typ.value), primary));
    }

    // ----- lists: item (separator item)*

    method ParseColumnRefs() returns (r: Option<seq<ColumnRef>>)
      requires Valid()
      modifies this
      ensures Takes(PColumnRef) && Valid() && Follow(r, Rest(), PList(PColumnRef, Sym(Comma), old(Rest())))
    {
      ColumnRefTakes();
      ghost var start := Rest();
      var list, more := [], true;
      WithNone(PList(PColumnRef, Sym(Comma), start));
      while more
        invariant Valid() && ReadSoFar(PColumnRef, Sym(Comma), start, list, more, Rest())
        decreases |tokens| - pos + if more then 1 else 0
      {
        ghost var here := Rest();
        var next := ParseColumnRef();
        if next.None? { return None; }
        ListStep(PColumnRef, Sym(Comma), start, list, here);
        list := list + [next.value];
        more := Match(Sym(Comma));
      }
      assert list + [] == list;
      return Some(list);
    }

    method ParsePredicates() returns (r: Option<seq<Predicate>>)
      requires Valid()
      modifies this
      ensures Takes(PPredicate) && Valid() && Follow(r, Rest(), PList(PPredicate, Kw(KwAnd), old(Rest())))
    {
      PredicateTakes();
      ghost var start := Rest();
      var list, more := [], true;
      WithNone(PList(PPredicate, Kw(KwAnd), start));
      while more
        invariant Valid() && ReadSoFar(PPredicate, Kw(KwAnd), start, list, more, Rest())
        decreases |tokens| - pos + if more then 1 else 0
      {
        ghost var here := Rest();
        var next := ParsePredicate();
        if next.None? { return None; }
        ListStep(PPredicate, Kw(KwAnd), start, list, here);
        list := list + [next.value];
        more := Match(Kw(KwAnd));
      }
      assert list + [] == list;
      return Some(list);
    }

    method ParseLiterals() returns (r: Option<seq<Literal>>)
      requires Valid()
      modifies this
      ensures Takes(PLiteral) && Valid() && Follow(r, Rest(), PList(PLiteral, Sym(Comma), old(Rest())))
    {
      LiteralTakes();
      ghost var start := Rest();
      var list, more := [], true;
      WithNone(PList(PLiteral, Sym(Comma), start));
      while more
        invariant Valid() && ReadSoFar(PLiteral, Sym(Comma), start, list, more, Rest())
        decreases |tokens| - pos + if more then 1 else 0
      {
        ghost var here := Rest();
        var next := ParseLiteral();
        if next.None? { return None; }
        ListStep(PLiteral, Sym(Comma), start, list, here);
        list := list + [next.value];
        more := Match(Sym(Comma));
      }
      assert list + [] == list;
      return Some(list);
    }

    method ParseAssignments() returns (r: Option<seq<Assignment>>)
      requires Valid()
      modifies this
      ensures Takes(PAssignment) && Valid() && Follow(r, Rest(), PList(PAssignment, Sym(Comma), old(Rest())))
    {
      AssignmentTakes();
      ghost var start := Rest();
      var list, more := [], true;
      WithNone(PList(PAssignment, Sym(Comma), start));
      while more
        invariant Valid() && ReadSoFar(PAssignment, Sym(Comma), start, list, more, Rest())
        decreases |tokens| - pos + if more then 1 else 0
      {
        ghost var here := Rest();
        var next := ParseAssignment();
        if next.None? { return None; }
        ListStep(PAssignment, Sym(Comma), start, list, here);
        list := list + [next.value];
        more := Match(Sym(Comma));
      }
      assert list + [] == list;
      return Some(list);
    }

    method ParseColumnDefs() returns (r: Option<seq<(ColumnDef, bool)>>)
      requires Valid()
      modifies this
      ensures Takes(PColumnDef) && Valid() && Follow(r, Rest(), PList(PColumnDef, Sym(Comma), old(Rest())))
    {
      ColumnDefTakes();
      ghost var start := Rest();
      var list, more := [], true;
      WithNone(PList(PColumnDef, Sym(Comma), start));
      while more
        invariant Valid() && ReadSoFar(PColumnDef, Sym(Comma), start, list, more, Rest())
        decreases |tokens| - pos + if more then 1 else 0
      {
        ghost var here := Rest();
        var next := ParseColumnDef();
        if next.None? { return None; }
        ListStep(PColumnDef, Sym(Comma), start, list, here);
        list := list + [next.value];
        more := Match(Sym(Comma));
      }
      assert list + [] == list;
      return Some(list);
    }

    // ----- clauses and statements

    method ParseWhere() returns (r: Option<seq<Predicate>>)
      requires Valid()
      modifies this
      ensures Valid() && Follow(r, Rest(), PWhere(old(Rest())))
    {
      var b := Match(Kw(KwWhere));
      if !b { return Some([]); }
      r := ParsePredicates();
    }

    method ParseJoin() returns (r: Option<Option<JoinClause>>)
      requires Valid()
      modifies this
      ensures Valid() && Follow(r, Rest(), PJoin(old(Rest())))
    {
      var b := Match(Kw(KwJoin));
      if !b { return Some(None); }
      var table := ParseIdent();
      if table.None? { return None; }
      b := Match(Kw(KwOn));
      if !b { return None; }
      var left := ParseColumnRef();
      if left.None? { return None; }
      b := Match(Sym(EqSign));
      if !b { return None; }
      var right := ParseColumnRef();
      if right.None? { return None; }
      return Some(Some(JoinClause(table.value, left.value, right.value)));
    }

    method ParseSelectList() returns (r: Option<(bool, seq<ColumnRef>)>)
      requires Valid()
      modifies this
      ensures Valid() && Follow(r, Rest(), PSelectList(old(Rest())))
    {
      var star := Match(Sym(Star));
      if star { return Some((true, [])); }
      var list := ParseColumnRefs();
      if list.None? { return None; }
      return Some((false, list.value));
    }

    method ParseSelect() returns (r: Option<Statement>)
      requires Valid()
      modifies this
      ensures Valid() && Follow(r, Rest(), PSelect(old(Rest())))
    {
      var list := ParseSelectList();
      if list.None? { return None; }
      var b := Match(Kw(KwFrom));
      if !b { return None; }
      var table := ParseIdent();
      if table.None? { return None; }
      var join := ParseJoin();
      if join.None? { return None; }
      var where := ParseWhere();
      if where.None? { return None; }
      return Some(Select(SelectStatement(list.value.0, list.value.1, table.value, join.value, where.value)));
    }

    method ParseInsert() returns (r: Option<Statement>)
      requires Valid()
      modifies this
      ensures Valid() && Follow(r, Rest(), PInsert(old(Rest())))
    {
      var b := Match(Kw(KwInto));
      if !b { return None; }
      var table := ParseIdent();
      if table.None? { return None; }
      b := Match(Kw(KwValues));
      if !b { return None; }
      b := Match(Sym(LParen));
      if !b { return None; }
      var values := ParseLiterals();
      if values.None? { return None; }
      b := Match(Sym(RParen));
      if !b { return None; }
      return Some(Insert(table.value, values.value));
    }

    method ParseUpdate() returns (r: Option<Statement>)
      requires Valid()
      modifies this
      ensures Valid() && Follow(r, Rest(), PUpdate(old(Rest())))
    {
      var table := ParseIdent();
      if table.None? { return None; }
      var b := Match(Kw(KwSet));
      if !b { return None; }
      var asgs := ParseAssignments();
      if asgs.None? { return None; }
      var where := ParseWhere();
      if where.None? { return None; }
      return Some(Update(table.value, asgs.value, where.value));
    }

    method ParseDelete() returns (r: Option<Statement>)
      requires Valid()
      modifies this
      ensures Valid() && Follow(r, Rest(), PDelete(old(Rest())))
    {
      var b := Match(Kw(KwFrom));
      if !b { return None; }
      var table := ParseIdent();
      if table.None? { return None; }
      var where := ParseWhere();
      if where.None? { return None; }
      return Some(Delete(table.value, where.value));
    }

    method ParseCreateIndex() returns (r: Option<Statement>)
      requires Valid()
      modifies this
      ensures Valid() && Follow(r, Rest(), PCreateIndex(old(Rest())))
    {
      var name := ParseIdent();
      if name.None? { return None; }
      var b := Match(Kw(KwOn));
      if !b { return None; }
      var table := ParseIdent();
      if table.None? { return None; }
      b := Match(Sym(LParen));
      if !b { return None; }
      var column := ParseIdent();
      if column.None? { return None; }
      b := Match(Sym(RParen));
      if !b { return None; }
      return Some(CreateIndex(name.value, table.value, column.value));
    }

    method ParseCreateTable() returns (r: Option<Statement>)
      requires Valid()
      modifies this
      ensures Valid() && Follow(r, Rest(), PCreateTable(old(Rest())))
    {
      var table := ParseIdent();
      if table.None? { return None; }
      var b := Match(Sym(LParen));
      if !b { return None; }
      var cs := ParseColumnDefs();
      if cs.None? { return None; }
      var keys := KeyNames(cs.value);
      if |keys| > 1 { return None; }
      b := Match(Sym(RParen));
      if !b { return None; }
      return Some(CreateTable(table.value, Defs(cs.value), if keys == [] then None else Some(keys[0])));
    }

    method ParseCreate() returns (r: Option<Statement>)
      requires Valid()
      modifies this
      ensures Valid() && Follow(r, Rest(), PCreate(old(Rest())))
    {
      var b := Match(Kw(KwTable));
      if b {
        r := ParseCreateTable();
        return;
      }
      b := Match(Kw(KwIndex));
      if b {
        r := ParseCreateIndex();
        return;
      }
      return None;
    }

    method ParseStatement() returns (r: Option<Statement>)
      requires Valid()
      modifies this
      ensures Valid() && Follow(r, Rest(), PStatement(old(Rest())))
    {
      if pos == |tokens| { return None; }
      var first := tokens[pos];
      FirstTokens(first, tokens[pos + 1..], Rest());
      if !first.Kw? { return None; }
      pos := pos + 1;
      match first.keyword {
        case KwCreate => r := ParseCreate();
        case KwInsert => r := ParseInsert();
        case KwSelect => r := ParseSelect();
        case KwUpdate => r := ParseUpdate();
        case KwDelete => r := ParseDelete();
        case KwBegin => r := Some(Begin);
        case KwCommit => r := Some(Commit);
        case KwRollback => r := Some(Rollback);
        case _ => r := None;
      }
    }
  }

  // ----- text

  function ParsedText(sql: seq<byte>): Option<Statement> {
    match Lexed(sql)
    case None => None
    case Some(ts) => PTopLevel(ts)
  }

  /** The text's tokens are those of the statement, with or without a semicolon at the end. */
  ghost predicate TextSays(s: Statement, sql: seq<byte>) {
    exists ts :: Tokenized(sql, ts) && Says(s, ts)
  }

  /** Reading finds a statement exactly when the text says it. */
  lemma ParsedTextIff(sql: seq<byte>, s: Statement)
    ensures ParsedText(sql) == Some(s) <==> TextSays(s, sql)
  {
    if Lexed(sql).Some? {
      LexedIff(sql, Lexed(sql).value);
      TopLevelIff(Lexed(sql).value, s);
    }
    if ts :| Tokenized(sql, ts) && Says(s, ts) {
      LexedIff(sql, ts);
    }
  }

  lemma ParsedTextIs(sql: seq<byte>)
    ensures forall s :: ParsedText(sql) == Some(s) <==> TextSays(s, sql)
  {
    forall s ensures ParsedText(sql) == Some(s) <==> TextSays(s, sql) {
      ParsedTextIff(sql, s);
    }
  }

  /** The statement that the text says, if it says one; no text says two. */
  method Parse(sql: seq<byte>) returns (r: Option<Statement>)
    ensures forall s :: r == Some(s) <==> TextSays(s, sql)
    ensures r == ParsedText(sql)
  {
    ParsedTextIs(sql);
    var ts := Tokenize(sql);
    if ts.None? { return None; }
    var parser := new Parser(ts.value);
    var s := parser.ParseStatement();
    if s.None? { return None; }
    var b := parser.Match(Sym(Semicolon));
    if parser.pos != |parser.tokens| { return None; }
    return s;
  }

  // ----- the printed tokens can be written as text

  ghost predicate RefNames(ref: ColumnRef) {
    IsIdentifier(ref.column) && (ref.table.Some? ==> IsIdentifier(ref.table.value))
  }

  ghost predicate JoinNames(j: JoinClause) {
    IsIdentifier(j.table) && RefNames(j.left) && RefNames(j.right)
  }

  ghost predicate WhereNames(ps: seq<Predicate>) {
    forall i :: 0 <= i < |ps| ==> RefNames(ps[i].column)
  }

  /** Every name in the statement is an identifier: no keyword, no character that is not of a name. */
  ghost predicate NamesOk(s: Statement) {
    match s
    case CreateTable(table, columns, _) => IsIdentifier(table) && forall i :: 0 <= i < |columns| ==>
        IsIdentifier(columns[i].name)
    case CreateIndex(name, table, column) => IsIdentifier(name) && IsIdentifier(table) && IsIdentifier(column)
    case Insert(table, _) => IsIdentifier(table)
    case Select(q) =>
      && IsIdentifier(q.from) && (forall i :: 0 <= i < |q.list| ==> RefNames(q.list[i]))
      && (q.join.Some? ==> JoinNames(q.join.value)) && WhereNames(q.where)
    case Update(table, asgs, where) =>
      IsIdentifier(table) && (forall i :: 0 <= i < |asgs| ==> IsIdentifier(asgs[i].column)) && WhereNames(where)
    case Delete(table, where) => IsIdentifier(table) && WhereNames(where)
    case _ => true
  }

  lemma ConsOk(t: Token, k: Tokens)
    requires TokenOk(t) && AllTokensOk(k)
    ensures AllTokensOk(Cons(t, k))
  {
    forall i | 0 <= i < |Cons(t, k)| ensures TokenOk(Cons(t, k)[i]) {
      if i > 0 { assert Cons(t, k)[i] == Cons(t, k)[1..][i - 1]; }
    }
  }

  lemma RefOk(ref: ColumnRef, k: Tokens)
    requires RefNames(ref) && AllTokensOk(k)
    ensures AllTokensOk(WRef(ref, k))
  {
    ConsOk(Ident(ref.column), k);
    if ref.table.Some? {
      ConsOk(Sym(Dot), Cons(Ident(ref.column), k));
      ConsOk(Ident(ref.table.value), Cons(Sym(Dot), Cons(Ident(ref.column), k)));
    }
  }

  lemma LiteralOk(v: Literal, k: Tokens)
    requires AllTokensOk(k)
    ensures AllTokensOk(WLiteral(v, k))
  {
    match v
    case IntLit(i) => ConsOk(IntTok(i), k);
    case StrLit(s) => ConsOk(StrTok(s), k);
  }

  lemma PredicateTokensOk(p: Predicate, k: Tokens)
    requires RefNames(p.column) && AllTokensOk(k)
    ensures AllTokensOk(WPredicate(p, k))
  {
    LiteralOk(p.value, k);
    ConsOk(Sym(ComparatorSymbol(p.op)), WLiteral(p.value, k));
    RefOk(p.column, Cons(Sym(ComparatorSymbol(p.op)), WLiteral(p.value, k)));
  }

  lemma AssignmentTokensOk(a: Assignment, k: Tokens)
    requires IsIdentifier(a.column) && AllTokensOk(k)
    ensures AllTokensOk(WAssignment(a, k))
  {
    LiteralOk(a.value, k);
    ConsOk(Sym(EqSign), WLiteral(a.value, k));
    ConsOk(Ident(a.column), Cons(Sym(EqSign), WLiteral(a.value, k)));
  }

  lemma ColumnDefOk(c: (ColumnDef, bool), k: Tokens)
    requires IsIdentifier(c.0.name) && AllTokensOk(k)
    ensures AllTokensOk(WColumnDef(c, k))
  {
    ConsOk(Kw(KwKey), k);
    ConsOk(Kw(KwPrimary), Cons(Kw(KwKey), k));
    var rest := if c.1 then Cons(Kw(KwPrimary), Cons(Kw(KwKey), k)) else k;
    ConsOk(Kw(TypeKeyword(c.0.typ)), rest);
    ConsOk(Ident(c.0.name), Cons(Kw(TypeKeyword(c.0.typ)), rest));
  }

  lemma {:induction false} ListOk<X(!new)>(w: (X, Tokens) -> Tokens, sep: Token, xs: seq<X>, k: Tokens)
    requires TokenOk(sep) && AllTokensOk(k)
    requires forall i, m :: 0 <= i < |xs| && AllTokensOk(m) ==> AllTokensOk(w(xs[i], m))
    ensures AllTokensOk(WList(w, sep, xs, k))
  {
    if |xs| > 1 {
      ListOk(w, sep, xs[1..], k);
      ConsOk(sep, WList(w, sep, xs[1..], k));
    }
  }

  lemma WhereOk(ps: seq<Predicate>, k: Tokens)
    requires WhereNames(ps) && AllTokensOk(k)
    ensures AllTokensOk(WWhere(ps, k))
  {
    forall i, m | 0 <= i < |ps| && AllTokensOk(m) ensures AllTokensOk(WPredicate(ps[i], m)) {
      PredicateTokensOk(ps[i], m);
    }
    ListOk(WPredicate, Kw(KwAnd), ps, k);
    ConsOk(Kw(KwWhere), WList(WPredicate, Kw(KwAnd), ps, k));
  }

  lemma JoinOk(j: Option<JoinClause>, k: Tokens)
    requires (j.Some? ==> JoinNames(j.value)) && AllTokensOk(k)
    ensures AllTokensOk(WJoin(j, k))
  {
    if j.Some? {
      RefOk(j.value.right, k);
      var eq := Cons(Sym(EqSign), WRef(j.value.right, k));
      ConsOk(Sym(EqSign), WRef(j.value.right, k));
      RefOk(j.value.left, eq);
      ConsOk(Kw(KwOn), WRef(j.value.left, eq));
      var on := Cons(Kw(KwOn), WRef(j.value.left, eq));
      ConsOk(Ident(j.value.table), on);
      ConsOk(Kw(KwJoin), Cons(Ident(j.value.table), on));
    }
  }

  lemma SelectOk(s: SelectStatement, k: Tokens)
    requires NamesOk(Select(s)) && AllTokensOk(k)
    ensures AllTokensOk(WSelect(s, k))
  {
    WhereOk(s.where, k);
    JoinOk(s.join, WWhere(s.where, k));
    var join := WJoin(s.join, WWhere(s.where, k));
    ConsOk(Ident(s.from), join);
    ConsOk(Kw(KwFrom), Cons(Ident(s.from), join));
    var from := Cons(Kw(KwFrom), Cons(Ident(s.from), join));
    ConsOk(Sym(Star), from);
    forall i, m | 0 <= i < |s.list| && AllTokensOk(m) ensures AllTokensOk(WRef(s.list[i], m)) {
      RefOk(s.list[i], m);
    }
    ListOk(WRef, Sym(Comma), s.list, from);
  }

  lemma InsertOk(table: Text, values: seq<Literal>, k: Tokens)
    requires IsIdentifier(table) && AllTokensOk(k)
    ensures AllTokensOk(WInsert(table, values, k))
  {
    ConsOk(Sym(RParen), k);
    forall i, m | 0 <= i < |values| && AllTokensOk(m) ensures AllTokensOk(WLiteral(values[i], m)) {
      LiteralOk(values[i], m);
    }
    ListOk(WLiteral, Sym(Comma), values, Cons(Sym(RParen), k));
    var list := WList(WLiteral, Sym(Comma), values, Cons(Sym(RParen), k));
    ConsOk(Sym(LParen), list);
    ConsOk(Kw(KwValues), Cons(Sym(LParen), list));
    ConsOk(Ident(table), Cons(Kw(KwValues), Cons(Sym(LParen), list)));
    ConsOk(Kw(KwInto), Cons(Ident(table), Cons(Kw(KwValues), Cons(Sym(LParen), list))));
  }

  lemma UpdateOk(table: Text, asgs: seq<Assignment>, where: seq<Predicate>, k: Tokens)
    requires NamesOk(Update(table, asgs, where)) && AllTokensOk(k)
    ensures AllTokensOk(WUpdate(table, asgs, where, k))
  {
    WhereOk(where, k);
    forall i, m | 0 <= i < |asgs| && AllTokensOk(m) ensures AllTokensOk(WAssignment(asgs[i], m)) {
      AssignmentTokensOk(asgs[i], m);
    }
    ListOk(WAssignment, Sym(Comma), asgs, WWhere(where, k));
    var list := WList(WAssignment, Sym(Comma), asgs, WWhere(where, k));
    ConsOk(Kw(KwSet), list);
    ConsOk(Ident(table), Cons(Kw(KwSet), list));
  }

  lemma DeleteOk(table: Text, where: seq<Predicate>, k: Tokens)
    requires NamesOk(Delete(table, where)) && AllTokensOk(k)
    ensures AllTokensOk(WDelete(table, where, k))
  {
    WhereOk(where, k);
    ConsOk(Ident(table), WWhere(where, k));
    ConsOk(Kw(KwFrom), Cons(Ident(table), WWhere(where, k)));
  }

  lemma CreateIndexOk(name: Text, table: Text, column: Text, k: Tokens)
    requires NamesOk(CreateIndex(name, table, column)) && AllTokensOk(k)
    ensures AllTokensOk(WCreateIndex(name, table, column, k))
  {
    var k1 := Cons(Sym(RParen), k);
    var k2 := Cons(Ident(column), k1);
    var k3 := Cons(Sym(LParen), k2);
    var k4 := Cons(Ident(table), k3);
    var k5 := Cons(Kw(KwOn), k4);
    ConsOk(Sym(RParen), k);
    ConsOk(Ident(column), k1);
    ConsOk(Sym(LParen), k2);
    ConsOk(Ident(table), k3);
    ConsOk(Kw(KwOn), k4);
    ConsOk(Ident(name), k5);
    ConsOk(Kw(KwIndex), Cons(Ident(name), k5));
  }

  lemma {:induction false} FlaggedNames(columns: seq<ColumnDef>, key: Option<Text>, i: nat)
    requires i < |columns|
    ensures |Flagged(columns, key)| == |columns| && Flagged(columns, key)[i].0 == columns[i]
  {
    if i > 0 {
      FlaggedNames(columns[1..], key, i - 1);
    } else if |columns| > 1 {
      FlaggedNames(columns[1..], key, 0);
    }
  }

  lemma CreateTableOk(table: Text, columns: seq<ColumnDef>, key: Option<Text>, k: Tokens)
    requires NamesOk(CreateTable(table, columns, key)) && columns != [] && AllTokensOk(k)
    ensures AllTokensOk(WCreateTable(table, columns, key, k))
  {
    var cs := Flagged(columns, key);
    FlaggedNames(columns, key, 0);
    ConsOk(Sym(RParen), k);
    forall i, m | 0 <= i < |cs| && AllTokensOk(m) ensures AllTokensOk(WColumnDef(cs[i], m)) {
      FlaggedNames(columns, key, i);
      ColumnDefOk(cs[i], m);
    }
    ListOk(WColumnDef, Sym(Comma), cs, Cons(Sym(RParen), k));
    var list := WList(WColumnDef, Sym(Comma), cs, Cons(Sym(RParen), k));
    ConsOk(Sym(LParen), list);
    ConsOk(Ident(table), Cons(Sym(LParen), list));
    ConsOk(Kw(KwTable), Cons(Ident(table), Cons(Sym(LParen), list)));
  }

  lemma StatementOk(s: Statement, k: Tokens)
    requires Sayable(s) && NamesOk(s) && AllTokensOk(k)
    ensures AllTokensOk(WStatement(s, k))
  {
    match s
    case CreateTable(table, columns, key) =>
      CreateTableOk(table, columns, key, k);
      ConsOk(Kw(KwCreate), WCreateTable(table, columns, key, k));
    case CreateIndex(name, table, column) =>
      CreateIndexOk(name, table, column, k);
      ConsOk(Kw(KwCreate), WCreateIndex(name, table, column, k));
    case Insert(table, values) =>
      InsertOk(table, values, k);
      ConsOk(Kw(KwInsert), WInsert(table, values, k));
    case Select(q) =>
      SelectOk(q, k);
      ConsOk(Kw(KwSelect), WSelect(q, k));
    case Update(table, asgs, where) =>
      UpdateOk(table, asgs, where, k);
      ConsOk(Kw(KwUpdate), WUpdate(table, asgs, where, k));
    case Delete(table, where) =>
      DeleteOk(table, where, k);
      ConsOk(Kw(KwDelete), WDelete(table, where, k));
    case Begin => ConsOk(Kw(KwBegin), k);
    case Commit => ConsOk(Kw(KwCommit), k);
    case Rollback => ConsOk(Kw(KwRollback), k);
  }

  /** The text of a statement, with or without a semicolon at its end. */
  function TextOf(s: Statement, semicolon: bool): seq<byte> {
    Rendered(WStatement(s, if semicolon then [Sym(Semicolon)] else []))
  }

  /** Reading any statement back from its text gives the statement, and takes all of the text. */
  lemma ParseRoundTrip(s: Statement, semicolon: bool)
    requires Sayable(s) && NamesOk(s)
    ensures ParsedText(TextOf(s, semicolon)) == Some(s)
  {
    var k := if semicolon then [Sym(Semicolon)] else [];
    assert AllTokensOk(k);
    StatementOk(s, k);
    LexRoundTrip(WStatement(s, k));
    StatementRoundTrip(s, k);
    TopLevel(WStatement(s, k), s, k);
  }

  lemma TopLevel(ts: Tokens, s: Statement, k: Tokens)
    requires PStatement(ts) == Parsed(s, k) && (k == [] || k == [Sym(Semicolon)])
    ensures PTopLevel(ts) == Some(s)
  {
  }
}
