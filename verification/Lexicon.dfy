/**
 What the tokens of a statement look like as text: the spellings of each, and when a text is a list of tokens. No
 scanning here; this is what scanning is held against.
 */
module Lexicon {
  import opened Bytes
  import opened Sql

  datatype Keyword =
    | KwCreate | KwTable | KwIndex | KwOn | KwInteger | KwText | KwPrimary | KwKey | KwInsert | KwInto | KwValues
    | KwSelect | KwFrom | KwJoin | KwWhere | KwAnd | KwUpdate | KwSet | KwDelete | KwBegin | KwCommit | KwRollback

  datatype Symbol =
    LParen | RParen | Comma | Dot | Star | Semicolon | EqSign | NeqSign | LtSign | LeSign | GtSign | GeSign

  /** The end-of-input token is the end of the sequence. */
  datatype Token =
    Kw(keyword: Keyword) | Ident(text: Text) | IntTok(value: int64) | StrTok(text: Text) | Sym(symbol: Symbol)

  // ----- keywords

  /** A word in capital letters, as bytes. */
  function Capitals(s: string): (w: Text)
    requires forall i :: 0 <= i < |s| ==> 'A' <= s[i] <= 'Z'
    ensures |w| == |s| && forall i :: 0 <= i < |w| ==> w[i] as int == s[i] as int && 65 <= w[i] <= 90
  {
    seq(|s|, i requires 0 <= i < |s| => (s[i] as int) as byte)
  }

  function Spelling(k: Keyword): (w: Text)
    ensures w != [] && forall i :: 0 <= i < |w| ==> 65 <= w[i] <= 90
  {
    match k
    case KwCreate => Capitals("CREATE")
    case KwTable => Capitals("TABLE")
    case KwIndex => Capitals("INDEX")
    case KwOn => Capitals("ON")
    case KwInteger => Capitals("INTEGER")
    case KwText => Capitals("TEXT")
    case KwPrimary => Capitals("PRIMARY")
    case KwKey => Capitals("KEY")
    case KwInsert => Capitals("INSERT")
    case KwInto => Capitals("INTO")
    case KwValues => Capitals("VALUES")
    case KwSelect => Capitals("SELECT")
    case KwFrom => Capitals("FROM")
    case KwJoin => Capitals("JOIN")
    case KwWhere => Capitals("WHERE")
    case KwAnd => Capitals("AND")
    case KwUpdate => Capitals("UPDATE")
    case KwSet => Capitals("SET")
    case KwDelete => Capitals("DELETE")
    case KwBegin => Capitals("BEGIN")
    case KwCommit => Capitals("COMMIT")
    case KwRollback => Capitals("ROLLBACK")
  }

  /** The same letters, each of them capital or small. */
  ghost predicate SameLetters(w: Text, capitals: Text) {
    |w| == |capitals| && forall i :: 0 <= i < |w| ==> w[i] == capitals[i] || w[i] as int == capitals[i] as int + 32
  }

  // ----- names

  predicate WordStart(b: byte) {
    65 <= b <= 90 || 97 <= b <= 122 || b == 95
  }

  predicate WordByte(b: byte) {
    WordStart(b) || 48 <= b <= 57
  }

  /** A letter or underscore, then letters, digits and underscores. */
  ghost predicate IsWord(w: Text) {
    w != [] && WordStart(w[0]) && forall i :: 0 <= i < |w| ==> WordByte(w[i])
  }

  /** An identifier: a word that is no keyword in any mixture of case. */
  ghost predicate IsIdentifier(w: Text) {
    IsWord(w) && forall k :: !SameLetters(w, Spelling(k))
  }

  // ----- numbers

  function Digits(n: nat): (ds: seq<byte>)
    ensures ds != []
  {
    if n < 10 then [(48 + n) as byte] else Digits(n / 10) + [(48 + n % 10) as byte]
  }

  function Magnitude(v: int): nat {
    if v < 0 then -v else v
  }

  ghost predicate Zeros(z: seq<byte>) {
    forall i :: 0 <= i < |z| ==> z[i] == 48
  }

  /** A minus sign before a negative number, and at will before zero; then any number of zeros; then the number. */
  ghost predicate IsIntText(v: int64, sign: seq<byte>, zeros: seq<byte>, w: seq<byte>) {
    && w == sign + (zeros + Digits(Magnitude(v))) && Zeros(zeros)
    && (sign == [] || sign == [45]) && (v < 0 ==> sign == [45]) && (v > 0 ==> sign == [])
  }

  // ----- strings

  /** Every single quote doubled. */
  function Escaped(v: Text): seq<byte> {
    if v == [] then [] else (if v[0] == 39 then [39, 39] else [v[0]]) + Escaped(v[1..])
  }

  // ----- one token

  function SymbolText(s: Symbol): Text {
    match s
    case LParen => [40]
    case RParen => [41]
    case Comma => [44]
    case Dot => [46]
    case Star => [42]
    case Semicolon => [59]
    case EqSign => [61]
    case NeqSign => [33, 61]
    case LtSign => [60]
    case LeSign => [60, 61]
    case GtSign => [62]
    case GeSign => [62, 61]
  }

  /** The text is a spelling of the token. */
  ghost predicate Spells(w: seq<byte>, t: Token) {
    match t
    case Kw(k) => SameLetters(w, Spelling(k))
    case Ident(x) => w == x && IsIdentifier(w)
    case IntTok(v) => exists sign, zeros :: IsIntText(v, sign, zeros, w)
    case StrTok(x) => w == [39] + Escaped(x) + [39]
    case Sym(s) => w == SymbolText(s)
  }

  /** The token ends before `rest`: its spelling does not go on there. */
  ghost predicate EndsBefore(t: Token, rest: seq<byte>) {
    rest == [] ||
    match t
    case Kw(_) => !WordByte(rest[0])
    case Ident(_) => !WordByte(rest[0])
    case IntTok(_) => !(48 <= rest[0] <= 57)
    case StrTok(_) => rest[0] != 39
    case Sym(s) => (s == LtSign || s == GtSign) ==> rest[0] != 61
  }

  // ----- a list of tokens

  predicate Blank(b: byte) {
    b == 32 || b == 9 || b == 10 || b == 13
  }

  ghost predicate Gap(g: seq<byte>) {
    forall i :: 0 <= i < |g| ==> Blank(g[i])
  }

  /** A gap, then a spelling of the token, which ends before `rest`. */
  ghost predicate Piece(d: seq<byte>, gap: seq<byte>, w: seq<byte>, t: Token, rest: seq<byte>) {
    d == gap + (w + rest) && Gap(gap) && Spells(w, t) && EndsBefore(t, rest)
  }

  /** The text is these tokens, each as long as it goes, with gaps around them. */
  ghost predicate Tokenized(d: seq<byte>, ts: seq<Token>)
    decreases |ts|
  {
    if ts == [] then Gap(d)
    else exists gap, w, rest :: Piece(d, gap, w, ts[0], rest) && Tokenized(rest, ts[1..])
  }
}
