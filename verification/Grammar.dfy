/**
 The statement grammar, twice: as a parser from tokens to statements
 (src/sql/parser.cpp) and as a printer from statements to tokens; and that they are inverse.
 */
module Grammar {
  import opened Wrappers
  import opened Sql
  import opened Lexicon

  type Tokens = seq<Token>
  datatype Parsed<+X> = Parsed(value: X, rest: Tokens) | Failed

  // ----- reading

  predicate Starts(ts: Tokens, t: Token) {
    ts != [] && ts[0] == t
  }

  function PIdent(ts: Tokens): Parsed<Text> {
    if ts != [] && ts[0].Ident? then Parsed(ts[0].text, ts[1..]) else Failed
  }

  function PLiteral(ts: Tokens): Parsed<Literal> {
    if ts == [] then Failed
    else
      match ts[0]
      case IntTok(v) => Parsed(IntLit(v), ts[1..])
      case StrTok(s) => Parsed(StrLit(s), ts[1..])
      case _ => Failed
  }

  function PType(ts: Tokens): Parsed<ColumnType> {
    if Starts(ts, Kw(KwInteger)) then Parsed(IntegerType, ts[1..])
    else if Starts(ts, Kw(KwText)) then Parsed(TextType, ts[1..])
    else Failed
  }

  function PComparator(ts: Tokens): Parsed<Comparator> {
    if Starts(ts, Sym(EqSign)) then Parsed(Eq, ts[1..])
    else if Starts(ts, Sym(NeqSign)) then Parsed(Neq, ts[1..])
    else if Starts(ts, Sym(LtSign)) then Parsed(Lt, ts[1..])
    else if Starts(ts, Sym(LeSign)) then Parsed(Le, ts[1..])
    else if Starts(ts, Sym(GtSign)) then Parsed(Gt, ts[1..])
    else if Starts(ts, Sym(GeSign)) then Parsed(Ge, ts[1..])
    else Failed
  }

  function PColumnRef(ts: Tokens): Parsed<ColumnRef> {
    match PIdent(ts)
    case Failed => Failed
    case Parsed(first, r) =>
      if !Starts(r, Sym(Dot)) then Parsed(ColumnRef(None, first), r)
      else
        match PIdent(r[1..])
        case Failed => Failed
        case Parsed(column, r2) => Parsed(ColumnRef(Some(first), column), r2)
  }

  function PPredicate(ts: Tokens): Parsed<Predicate> {
    match PColumnRef(ts)
    case Failed => Failed
    case Parsed(ref, r) =>
      match PComparator(r)
      case Failed => Failed
      case Parsed(op, r2) =>
        match PLiteral(r2)
        case Failed => Failed
        case Parsed(v, r3) => Parsed(Predicate(ref, op, v), r3)
  }

  function PAssignment(ts: Tokens): Parsed<Assignment> {
    match PIdent(ts)
    case Failed => Failed
    case Parsed(column, r) =>
      if !Starts(r, Sym(EqSign)) then Failed
      else
        match PLiteral(r[1..])
        case Failed => Failed
        case Parsed(v, r2) => Parsed(Assignment(column, v), r2)
  }

  /** A column and whether it is declared the primary key. */
  function PColumnDef(ts: Tokens): Parsed<(ColumnDef, bool)> {
    match PIdent(ts)
    case Failed => Failed
    case Parsed(name, r) =>
      match PType(r)
      case Failed => Failed
      case Parsed(typ, r2) =>
        if !Starts(r2, Kw(KwPrimary)) then Parsed((ColumnDef(name, typ), false), r2)
        else if !Starts(r2[1..], Kw(KwKey)) then Failed
        else Parsed((ColumnDef(name, typ), true), r2[1..][1..])
  }

  type Item<!X> = Tokens -> Parsed<X>

  /** An item parser takes at least one token off the front, and nothing else. */
  ghost predicate Takes<X(!new)>(p: Item<X>) {
    forall ts :: p(ts).Parsed? ==> |p(ts).rest| < |ts| && p(ts).rest == ts[|ts| - |p(ts).rest|..]
  }

  /** item (sep item)* */
  function PList<X(!new)>(p: Item<X>, sep: Token, ts: Tokens): Parsed<seq<X>>
    requires Takes(p)
    decreases |ts|, 1
  {
    match p(ts)
    case Failed => Failed
    case Parsed(x, r) => WithFirst([x], PTail(p, sep, r))
  }

  function PTail<X(!new)>(p: Item<X>, sep: Token, ts: Tokens): Parsed<seq<X>>
    requires Takes(p)
    decreases |ts|, 0
  {
    if Starts(ts, sep) then PList(p, sep, ts[1..]) else Parsed([], ts)
  }

  function WithFirst<X>(xs: seq<X>, r: Parsed<seq<X>>): Parsed<seq<X>> {
    match r
    case Failed => Failed
    case Parsed(more, rest) => Parsed(xs + more, rest)
  }

  lemma LiteralTakes()
    ensures Takes(PLiteral)
  {
  }

  lemma ColumnRefTakes()
    ensures Takes(PColumnRef)
  {
  }

  lemma AssignmentTakes()
    ensures Takes(PAssignment)
  {
  }

  lemma ColumnDefTakes()
    ensures Takes(PColumnDef)
  {
  }

  lemma PredicateTakes()
    ensures Takes(PPredicate)
  {
  }

  // ----- statements

  function PWhere(ts: Tokens): Parsed<seq<Predicate>> {
    PredicateTakes();
    if Starts(ts, Kw(KwWhere)) then PList(PPredicate, Kw(KwAnd), ts[1..]) else Parsed([], ts)
  }

  function PJoin(ts: Tokens): Parsed<Option<JoinClause>> {
    if !Starts(ts, Kw(KwJoin)) then Parsed(None, ts)
    else
      match PIdent(ts[1..])
      case Failed => Failed
      case Parsed(table, r) =>
        if !Starts(r, Kw(KwOn)) then Failed
        else
          match PColumnRef(r[1..])
          case Failed => Failed
          case Parsed(left, r2) =>
            if !Starts(r2, Sym(EqSign)) then Failed
            else
              match PColumnRef(r2[1..])
              case Failed => Failed
              case Parsed(right, r3) => Parsed(Some(JoinClause(table, left, right)), r3)
  }

  /** Behind SELECT: the list, empty for a star. */
  function PSelectList(ts: Tokens): Parsed<(bool, seq<ColumnRef>)> {
    ColumnRefTakes();
    if Starts(ts, Sym(Star)) then Parsed((true, []), ts[1..])
    else
      match PList(PColumnRef, Sym(Comma), ts)
      case Failed => Failed
      case Parsed(list, r) => Parsed((false, list), r)
  }

  function PSelect(ts: Tokens): Parsed<Statement> {
    match PSelectList(ts)
    case Failed => Failed
    case Parsed((star, list), r) =>
      if !Starts(r, Kw(KwFrom)) then Failed
      else
        match PIdent(r[1..])
        case Failed => Failed
        case Parsed(table, r2) =>
          match PJoin(r2)
          case Failed => Failed
          case Parsed(join, r3) =>
            match PWhere(r3)
            case Failed => Failed
            case Parsed(where, r4) => Parsed(Select(SelectStatement(star, list, table, join, where)), r4)
  }

  function PInsert(ts: Tokens): Parsed<Statement> {
    LiteralTakes();
    if !Starts(ts, Kw(KwInto)) then Failed
    else
      match PIdent(ts[1..])
      case Failed => Failed
      case Parsed(table, r) =>
        if !Starts(r, Kw(KwValues)) || !Starts(r[1..], Sym(LParen)) then Failed
        else
          match PList(PLiteral, Sym(Comma), r[1..][1..])
          case Failed => Failed
          case Parsed(values, r2) => if Starts(r2, Sym(RParen)) then Parsed(Insert(table, values), r2[1..]) else Failed
  }

  function PUpdate(ts: Tokens): Parsed<Statement> {
    AssignmentTakes();
    match PIdent(ts)
    case Failed => Failed
    case Parsed(table, r) =>
      if !Starts(r, Kw(KwSet)) then Failed
      else
        match PList(PAssignment, Sym(Comma), r[1..])
        case Failed => Failed
        case Parsed(asgs, r2) =>
          match PWhere(r2)
          case Failed => Failed
          case Parsed(where, r3) => Parsed(Update(table, asgs, where), r3)
  }

  function PDelete(ts: Tokens): Parsed<Statement> {
    if !Starts(ts, Kw(KwFrom)) then Failed
    else
      match PIdent(ts[1..])
      case Failed => Failed
      case Parsed(table, r) =>
        match PWhere(r)
        case Failed => Failed
        case Parsed(where, r2) => Parsed(Delete(table, where), r2)
  }

  function PCreateIndex(ts: Tokens): Parsed<Statement> {
    match PIdent(ts)
    case Failed => Failed
    case Parsed(name, r) =>
      if !Starts(r, Kw(KwOn)) then Failed
      else
        match PIdent(r[1..])
        case Failed => Failed
        case Parsed(table, r2) =>
          if !Starts(r2, Sym(LParen)) then Failed
          else
            match PIdent(r2[1..])
            case Failed => Failed
            case Parsed(column, r3) => if Starts(r3, Sym(RParen)) then
                Parsed(CreateIndex(name, table, column), r3[1..]) else Failed
  }

  function Defs(cs: seq<(ColumnDef, bool)>): seq<ColumnDef> {
    if cs == [] then [] else [cs[0].0] + Defs(cs[1..])
  }

  /** The names declared PRIMARY KEY, in order. */
  function KeyNames(cs: seq<(ColumnDef, bool)>): seq<Text> {
    if cs == [] then [] else (if cs[0].1 then [cs[0].0.name] else []) + KeyNames(cs[1..])
  }

  function PCreateTable(ts: Tokens): Parsed<Statement> {
    ColumnDefTakes();
    match PIdent(ts)
    case Failed => Failed
    case Parsed(table, r) =>
      if !Starts(r, Sym(LParen)) then Failed
      else
        match PList(PColumnDef, Sym(Comma), r[1..])
        case Failed => Failed
        case Parsed(cs, r2) =>
          if |KeyNames(cs)| > 1 || !Starts(r2, Sym(RParen)) then Failed
          else Parsed(CreateTable(table, Defs(cs), if KeyNames(cs) == [] then None else Some(KeyNames(cs)[0])), r2[1..])
  }

  function PCreate(ts: Tokens): Parsed<Statement> {
    if Starts(ts, Kw(KwTable)) then PCreateTable(ts[1..])
    else if Starts(ts, Kw(KwIndex)) then PCreateIndex(ts[1..])
    else Failed
  }

  /** How the statement goes on behind its first word. */
  function ParserFor(t: Token): Option<Item<Statement>> {
    match t
    case Kw(KwCreate) => Some(PCreate)
    case Kw(KwInsert) => Some(PInsert)
    case Kw(KwSelect) => Some(PSelect)
    case Kw(KwUpdate) => Some(PUpdate)
    case Kw(KwDelete) => Some(PDelete)
    case Kw(KwBegin) => Some(ts => Parsed(Begin, ts))
    case Kw(KwCommit) => Some(ts => Parsed(Commit, ts))
    case Kw(KwRollback) => Some(ts => Parsed(Rollback, ts))
    case _ => None
  }

  function PStatement(ts: Tokens): Parsed<Statement> {
    if ts == [] then Failed
    else
      match ParserFor(ts[0])
      case None => Failed
      case Some(p) => p(ts[1..])
  }

  /** A whole text: one statement, an optional semicolon, nothing more. */
  function PTopLevel(ts: Tokens): Option<Statement> {
    match PStatement(ts)
    case Failed => None
    case Parsed(s, r) => if r == [] || r == [Sym(Semicolon)] then Some(s) else None
  }
}
